/** The share record, the request and response shapes, and the in-memory
    share store of the one-time password share service (backend/models.go).

    Instants and durations are integers counting nanoseconds, which is the
    resolution of Go's time.Time and time.Duration. The current instant is
    always passed in by the caller: the store never reads a clock. */
module Models {

  datatype Option<+T> = None | Some(value: T)

  /** Go's `int` on the 64-bit platforms the service runs on. */
  newtype int64 = x: int | -0x8000_0000_0000_0000 <= x < 0x8000_0000_0000_0000

  /** time.Hour, in nanoseconds. */
  const Hour: int := 3_600_000_000_000

  /** One pending share. `ViewedAt` is None while the Go pointer is nil. */
  datatype ShareData = ShareData(
    EncryptedPassword: string,
    ServiceName: string,
    Username: string,
    CreatedAt: int,
    ExpiresAt: int,
    Viewed: bool,
    ViewedAt: Option<int>)

  /** The body of a create request after JSON decoding. */
  datatype ShareRequest = ShareRequest(
    EncryptedPassword: string,
    ServiceName: string,
    Username: string,
    ExpirationHours: int64)

  /** The body answered to a successful create request. */
  datatype ShareResponse = ShareResponse(Token: string, ShareURL: string, ExpiresAt: int)

  /** The body answered to a redeem request (also the `details` of an
      already-viewed answer). */
  datatype ShareRetrieveResponse = ShareRetrieveResponse(
    EncryptedPassword: string,
    ServiceName: string,
    Username: string,
    CreatedAt: int,
    ViewedAt: Option<int>)

  /** `now.After(d.ExpiresAt)`: the deadline has strictly passed. */
  predicate Expired(d: ShareData, now: int)
    ensures Expired(d, now) ==> d.ExpiresAt < now
    ensures !Expired(d, now) ==> now <= d.ExpiresAt
  {
    now > d.ExpiresAt
  }

  /** The entries a sweep at `now` keeps: every share whose deadline has not passed. */
  function Unexpired(m: map<string, ShareData>, now: int): (r: map<string, ShareData>)
    ensures forall t :: t in r <==> t in m && !Expired(m[t], now)
    ensures forall t :: t in r ==> r[t] == m[t]
  {
    map t | t in m && !Expired(m[t], now) :: m[t]
  }

  /** The tokens a sweep at `now` removes. */
  function ExpiredTokens(m: map<string, ShareData>, now: int): (gone: set<string>) {
    set t | t in m && Expired(m[t], now)
  }

  /** A sweep removes exactly the expired tokens, so the number of entries it
      removes is the number of expired tokens. */
  lemma SweepCount(m: map<string, ShareData>, now: int)
    ensures |m| - |Unexpired(m, now)| == |ExpiredTokens(m, now)|
    ensures Unexpired(m, now).Keys !! ExpiredTokens(m, now)
    ensures Unexpired(m, now).Keys + ExpiredTokens(m, now) == m.Keys
  {
    var kept, gone := Unexpired(m, now).Keys, ExpiredTokens(m, now);
    assert kept + gone == m.Keys;
    assert kept * gone == {};
    assert |kept + gone| == |kept| + |gone|;
  }

  /** A sweep can only bring forward the moment a share disappears: a share
      that a redeem at `now` would still find unexpired survives every sweep
      made at or before `now`, untouched. */
  lemma SweepKeepsLive(m: map<string, ShareData>, t: string, sweepAt: int, now: int)
    requires t in m && !Expired(m[t], now) && sweepAt <= now
    ensures t in Unexpired(m, sweepAt) && Unexpired(m, sweepAt)[t] == m[t]
  {
  }

  /** Sweeping twice at the same instant removes nothing the first sweep left. */
  lemma SweepIdempotent(m: map<string, ShareData>, now: int)
    ensures Unexpired(Unexpired(m, now), now) == Unexpired(m, now)
    ensures ExpiredTokens(Unexpired(m, now), now) == {}
  {
  }

  /** The registry of pending shares, keyed by token. Locking is not modelled:
      every method runs as one sequential step. */
  class ShareStore {
    var shares: map<string, ShareData>

    /** NewShareStore: an empty registry. */
    constructor ()
      ensures shares == map[]
    {
      shares := map[];
    }

    /** Stores `data` under `token`, silently replacing any share already there. */
    method Add(token: string, data: ShareData)
      modifies this
      ensures shares == old(shares)[token := data]
      ensures forall t :: t != token ==> (t in shares <==> t in old(shares))
      ensures forall t :: t != token && t in shares ==> shares[t] == old(shares)[t]
    {
      shares := shares[token := data];
    }

    /** Looks a token up; `None` plays the part of Go's `(nil, false)`. */
    method Get(token: string) returns (data: Option<ShareData>)
      ensures data.Some? <==> token in shares
      ensures data.Some? ==> data.value == shares[token]
    {
      if token in shares {
        data := Some(shares[token]);
      } else {
        data := None;
      }
    }

    /** Marks the share under `token` as viewed at `now`; an absent token is ignored. */
    method MarkViewed(token: string, now: int)
      modifies this
      ensures token !in old(shares) ==> shares == old(shares)
      ensures token in old(shares) ==>
        shares == old(shares)[token := old(shares)[token].(Viewed := true, ViewedAt := Some(now))]
    {
      if token in shares {
        var data := shares[token];
        shares := shares[token := data.(Viewed := true, ViewedAt := Some(now))];
      }
    }

    /** Removes a token; removing an absent token changes nothing. */
    method Delete(token: string)
      modifies this
      ensures shares == old(shares) - {token}
      ensures token !in old(shares) ==> shares == old(shares)
    {
      shares := shares - {token};
    }

    /** Removes every share whose deadline has passed at `now`, one token at a
        time, and returns how many it removed. */
    method CleanupExpired(now: int) returns (count: nat)
      modifies this
      ensures shares == Unexpired(old(shares), now)
      ensures count == |old(shares)| - |shares| == |ExpiredTokens(old(shares), now)|
    {
      count := 0;
      var pending := shares.Keys;
      while pending != {}
        invariant pending <= old(shares).Keys
        invariant shares.Keys <= old(shares).Keys
        invariant forall t :: t in shares ==> shares[t] == old(shares)[t]
        invariant forall t :: t in old(shares) ==>
          (t in shares <==> t in pending || !Expired(old(shares)[t], now))
        invariant count == |old(shares)| - |shares|
        decreases pending
      {
        var token :| token in pending;
        if Expired(shares[token], now) {
          ghost var before := shares;
          shares := shares - {token};
          assert shares.Keys == before.Keys - {token};
          count := count + 1;
        }
        pending := pending - {token};
      }
      assert shares == Unexpired(old(shares), now);
      SweepCount(old(shares), now);
    }

    /** A copy of the registry, built entry by entry; the store is not changed. */
    method GetAll() returns (copy: map<string, ShareData>)
      ensures copy == shares
    {
      copy := map[];
      var pending := shares.Keys;
      while pending != {}
        invariant pending <= shares.Keys
        invariant copy.Keys == shares.Keys - pending
        invariant forall t :: t in copy ==> copy[t] == shares[t]
        decreases pending
      {
        var token :| token in pending;
        copy := copy[token := shares[token]];
        pending := pending - {token};
      }
    }
  }
}
