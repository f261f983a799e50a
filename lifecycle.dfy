/** Whole-lifetime properties of the share service: what any sequence of
    create, redeem, delete and sweep calls can and cannot do to one token.
    Calls run one after another, each with the instant it is made at. */
module Lifecycle {
  import opened Models
  import opened Handlers

  /** One call into the service. */
  datatype Call =
    | CreateCall(baseURL: string, req: ShareRequest, generated: Option<string>, now: int)
    | RetrieveCall(token: string, now: int)
    | DeleteCall(token: string)
    | CleanupCall(now: int)

  /** The registry after one call. */
  function Apply(m: map<string, ShareData>, c: Call): (m': map<string, ShareData>) {
    match c
    case CreateCall(baseURL, req, generated, now) => CreateStep(m, baseURL, req, generated, now).shares
    case RetrieveCall(token, now) => RetrieveStep(m, token, now).shares
    case DeleteCall(token) => DeleteStep(m, token).shares
    case CleanupCall(now) => Unexpired(m, now)
  }

  /** The registry after a sequence of calls. */
  function Run(m: map<string, ShareData>, calls: seq<Call>): (m': map<string, ShareData>)
    decreases |calls|
  {
    if calls == [] then m else Run(Apply(m, calls[0]), calls[1..])
  }

  /** The call could store a share under `t`. */
  predicate Creates(c: Call, t: string) {
    c.CreateCall? && c.generated == Some(t)
  }

  /** The call hands out the password stored under `t`. */
  predicate Reveals(m: map<string, ShareData>, c: Call, t: string) {
    c.RetrieveCall? && c.token == t && RetrieveStep(m, t, c.now).response.Ok?
  }

  /** How many calls of the sequence hand out the password stored under `t`. */
  function RevealCount(m: map<string, ShareData>, calls: seq<Call>, t: string): (n: nat)
    decreases |calls|
  {
    if calls == [] then 0
    else (if Reveals(m, calls[0], t) then 1 else 0) + RevealCount(Apply(m, calls[0]), calls[1..], t)
  }

  /** Only a create under `t` can bring `t` into the registry. */
  lemma ApplyKeepsAbsent(m: map<string, ShareData>, c: Call, t: string)
    requires t !in m && !Creates(c, t)
    ensures t !in Apply(m, c)
  {
  }

  /** A token that is not in the registry, and is not created again, never
      yields a password. */
  lemma {:induction false} AbsentNeverRevealed(m: map<string, ShareData>, calls: seq<Call>, t: string)
    requires t !in m
    requires forall i :: 0 <= i < |calls| ==> !Creates(calls[i], t)
    ensures RevealCount(m, calls, t) == 0
    ensures t !in Run(m, calls)
    decreases |calls|
  {
    if calls != [] {
      ApplyKeepsAbsent(m, calls[0], t);
      AbsentNeverRevealed(Apply(m, calls[0]), calls[1..], t);
    }
  }

  /** Consume-once for calls made one after another: as long as no new share
      is created under `t`, at most one call in any sequence hands out the
      password stored under `t`; the one that does leaves `t` absent. */
  lemma {:induction false} RevealedAtMostOnce(m: map<string, ShareData>, calls: seq<Call>, t: string)
    requires forall i :: 0 <= i < |calls| ==> !Creates(calls[i], t)
    ensures RevealCount(m, calls, t) <= 1
    decreases |calls|
  {
    if calls != [] {
      var rest := calls[1..];
      assert forall i :: 0 <= i < |rest| ==> !Creates(rest[i], t) by {
        forall i | 0 <= i < |rest| ensures !Creates(rest[i], t) {
          assert rest[i] == calls[i + 1];
        }
      }
      if Reveals(m, calls[0], t) {
        AbsentNeverRevealed(Apply(m, calls[0]), rest, t);
      } else {
        RevealedAtMostOnce(Apply(m, calls[0]), rest, t);
      }
    }
  }

  /** No stored share carries the viewed mark. */
  ghost predicate NoneViewed(m: map<string, ShareData>) {
    forall t :: t in m ==> !m[t].Viewed
  }

  /** Every call keeps the registry free of viewed shares: a create stores an
      unviewed share, and a redeem that marks a share viewed deletes it at once. */
  lemma ApplyKeepsNoneViewed(m: map<string, ShareData>, c: Call)
    requires NoneViewed(m)
    ensures NoneViewed(Apply(m, c))
  {
  }

  /** Calls made one after another never leave a viewed share in the registry,
      so a redeem never answers AlreadyViewed. That answer needs two
      overlapping redeems: one whose lookup precedes the other's Delete and
      whose viewed test follows the other's MarkViewed. */
  lemma {:induction false} RunNeverAlreadyViewed(m: map<string, ShareData>, calls: seq<Call>,
                                                  token: string, now: int)
    requires NoneViewed(m)
    ensures NoneViewed(Run(m, calls))
    ensures !RetrieveStep(Run(m, calls), token, now).response.AlreadyViewed?
    decreases |calls|
  {
    if calls != [] {
      ApplyKeepsNoneViewed(m, calls[0]);
      RunNeverAlreadyViewed(Apply(m, calls[0]), calls[1..], token, now);
    }
  }

  /** A redeem right after a successful create, before the deadline, hands
      out exactly the password and metadata that were stored. */
  lemma CreateThenRetrieve(m: map<string, ShareData>, baseURL: string, req: ShareRequest,
                           token: string, now: int, later: int)
    requires !MissingField(req) && token != ""
    requires later <= ExpiresAt(now, req.ExpirationHours)
    ensures RetrieveStep(CreateStep(m, baseURL, req, Some(token), now).shares, token, later).response
         == Ok(ShareRetrieveResponse(req.EncryptedPassword, req.ServiceName, req.Username, now, Some(later)))
  {
  }

  /** A redeem after the deadline answers Gone and leaves the token absent,
      even if the share was never redeemed. */
  lemma CreateThenExpire(m: map<string, ShareData>, baseURL: string, req: ShareRequest,
                         token: string, now: int, later: int)
    requires !MissingField(req) && token != ""
    requires later > ExpiresAt(now, req.ExpirationHours)
    ensures var s := RetrieveStep(CreateStep(m, baseURL, req, Some(token), now).shares, token, later);
      s.response.Gone? && token !in s.shares
  {
  }

  /** A second redeem of a token that has just been handed out finds nothing. */
  lemma RetrieveTwice(m: map<string, ShareData>, token: string, now: int, later: int)
    requires RetrieveStep(m, token, now).response.Ok?
    ensures RetrieveStep(RetrieveStep(m, token, now).shares, token, later).response.NotFound?
  {
  }

  /** Deleting a token and then redeeming it finds nothing. */
  lemma DeleteThenRetrieve(m: map<string, ShareData>, token: string, now: int)
    requires token != ""
    ensures RetrieveStep(DeleteStep(m, token).shares, token, now).response.NotFound?
  {
  }

  /** A sweep is hygiene, not correctness: sweeping before a redeem can only
      turn a Gone answer into NotFound. */
  lemma SweepBeforeRetrieve(m: map<string, ShareData>, token: string, sweepAt: int, now: int)
    requires sweepAt <= now
    ensures var direct := RetrieveStep(m, token, now).response;
            var swept := RetrieveStep(Unexpired(m, sweepAt), token, now).response;
      swept == direct || (direct.Gone? && swept.NotFound?)
  {
    if token in m && !Expired(m[token], now) {
      SweepKeepsLive(m, token, sweepAt, now);
    }
  }
}
