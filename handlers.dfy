/** The store-facing decisions of the create, redeem and delete handlers
    (backend/handlers.go), with HTTP, JSON and logging stripped away.

    Each handler's decision is first stated as a pure step function over the
    registry's contents (CreateStep, RetrieveStep, DeleteStep) whose
    contract says what the answer means; the handler itself is a method that
    drives the store's own operations in the source's order and is proved to
    agree with its step function. */
module Handlers {
  import opened Models

  /** The lifetime, in hours, given to a share whose request names none. */
  const DefaultExpirationHours: int64 := 24

  /** The route prefix the redeem and delete handlers strip from the request path. */
  const SharePathPrefix: string := "/api/share/"

  /** The answer a handler writes: its status and, where there is one, its body.
      `Gone` is the 410 for an expired share; `AlreadyViewed` is the 410 whose
      body carries the non-secret details. */
  datatype Response<T> =
    | BadRequest
    | NotFound
    | Gone
    | AlreadyViewed(details: ShareRetrieveResponse)
    | InternalError
    | Ok(body: T)

  /** A handler's answer together with the registry it leaves behind. */
  datatype Step<T> = Step(response: Response<T>, shares: map<string, ShareData>)

  // ---------------------------------------------------------------------------
  // Pure pieces of the create handler

  /** One of the three required fields is empty. */
  predicate MissingField(req: ShareRequest)
    ensures !MissingField(req) ==> |req.EncryptedPassword| > 0 && |req.ServiceName| > 0 && |req.Username| > 0
  {
    req.EncryptedPassword == "" || req.ServiceName == "" || req.Username == ""
  }

  /** The lifetime actually granted: the requested hours, or 24 when the
      request asks for none or for a non-positive lifetime. */
  function EffectiveHours(requested: int64): (h: int64)
    ensures h > 0
    ensures requested > 0 ==> h == requested
    ensures requested <= 0 ==> h == DefaultExpirationHours
  {
    if requested <= 0 then DefaultExpirationHours else requested
  }

  /** Two's-complement truncation of an integer to 64 bits, as Go's int64
      arithmetic does silently. */
  function WrapInt64(x: int): (r: int64)
    ensures (r as int - x) % 0x1_0000_0000_0000_0000 == 0
    ensures -0x8000_0000_0000_0000 <= x < 0x8000_0000_0000_0000 ==> r as int == x
  {
    ((x + 0x8000_0000_0000_0000) % 0x1_0000_0000_0000_0000 - 0x8000_0000_0000_0000) as int64
  }

  /** The deadline exactly as the source computes it:
      `now.Add(time.Duration(hours) * time.Hour)`, where the product is an
      int64 and wraps around. */
  function ExpiresAtAsWritten(now: int, requested: int64): (e: int)
    ensures (e - now - EffectiveHours(requested) as int * Hour) % 0x1_0000_0000_0000_0000 == 0
    ensures now - 0x8000_0000_0000_0000 <= e < now + 0x8000_0000_0000_0000
  {
    now + WrapInt64(EffectiveHours(requested) as int * Hour) as int
  }

  /** The deadline the source evidently intends: `now` plus the granted hours,
      without wrap-around. This is the one the model's create handler uses. */
  function ExpiresAt(now: int, requested: int64): (e: int)
    ensures e > now
    ensures e - now == EffectiveHours(requested) as int * Hour
    ensures requested <= 0 ==> e == now + 24 * Hour
  {
    now + EffectiveHours(requested) as int * Hour
  }

  /** A lifetime of 2562048 hours overflows the int64 duration: the share is
      stored with a deadline about 292 years before its creation, so it is
      already expired when it is created. */
  lemma ExpiresAtAsWrittenOverflows(now: int)
    ensures ExpiresAtAsWritten(now, 2562048) < now
    ensures ExpiresAtAsWritten(now, 2562048) != ExpiresAt(now, 2562048)
  {
  }

  /** Below the overflow threshold the source's deadline is the intended one. */
  lemma ExpiresAtAsWrittenAgrees(now: int, requested: int64)
    requires EffectiveHours(requested) as int * Hour < 0x8000_0000_0000_0000
    ensures ExpiresAtAsWritten(now, requested) == ExpiresAt(now, requested)
  {
  }

  /** `fmt.Sprintf("%s/share/%s", baseURL, token)`. */
  function ShareURL(baseURL: string, token: string): (url: string)
    ensures |url| == |baseURL| + 7 + |token|
    ensures url[..|baseURL|] == baseURL
    ensures url[|baseURL|..|baseURL| + 7] == "/share/"
    ensures url[|baseURL| + 7..] == token
  {
    baseURL + "/share/" + token
  }

  /** `strings.TrimPrefix`: `s` without a leading `prefix`, or `s` itself
      when it does not start with `prefix`. */
  function TrimPrefix(s: string, prefix: string): (r: string)
    ensures prefix <= s ==> s == prefix + r
    ensures !(prefix <= s) ==> r == s
  {
    if prefix <= s then s[|prefix|..] else s
  }

  /** The token can be read back from the share URL handed to the creator. */
  lemma ShareURLToken(baseURL: string, token: string)
    ensures TrimPrefix(ShareURL(baseURL, token), baseURL + "/share/") == token
  {
    var url := ShareURL(baseURL, token);
    var prefix := baseURL + "/share/";
    assert url == prefix + token;
    assert prefix <= url;
  }

  /** Distinct tokens give distinct share URLs. */
  lemma ShareURLInjective(baseURL: string, t1: string, t2: string)
    requires ShareURL(baseURL, t1) == ShareURL(baseURL, t2)
    ensures t1 == t2
  {
    ShareURLToken(baseURL, t1);
    ShareURLToken(baseURL, t2);
  }

  /** The record a successful create stores. */
  function NewShare(req: ShareRequest, now: int): (d: ShareData)
    ensures d.EncryptedPassword == req.EncryptedPassword
    ensures d.ServiceName == req.ServiceName && d.Username == req.Username
    ensures d.CreatedAt == now && !d.Viewed && d.ViewedAt.None?
    ensures !Expired(d, now) && d.ExpiresAt == ExpiresAt(now, req.ExpirationHours)
  {
    ShareData(req.EncryptedPassword, req.ServiceName, req.Username,
              now, ExpiresAt(now, req.ExpirationHours), false, None)
  }

  // ---------------------------------------------------------------------------
  // The three handler decisions as functions of the registry

  /** Create: validate, default the lifetime, store a fresh unviewed share
      under the generated token (`None` stands for a failure of the random
      source) and answer the token, its URL and its deadline. */
  function CreateStep(m: map<string, ShareData>, baseURL: string, req: ShareRequest,
                      token: Option<string>, now: int): (s: Step<ShareResponse>)
    ensures s.response.BadRequest? <==> MissingField(req)
    ensures s.response.InternalError? <==> !MissingField(req) && token.None?
    ensures s.response.Ok? <==> !MissingField(req) && token.Some?
    ensures !s.response.Ok? ==> s.shares == m
    ensures s.response.Ok? ==>
      var t := token.value;
      && s.shares.Keys == m.Keys + {t}
      && (forall u :: u in m && u != t ==> s.shares[u] == m[u])
      && s.shares[t].EncryptedPassword == req.EncryptedPassword
      && s.shares[t].ServiceName == req.ServiceName
      && s.shares[t].Username == req.Username
      && s.shares[t].CreatedAt == now
      && s.shares[t].ExpiresAt == now + EffectiveHours(req.ExpirationHours) as int * Hour
      && !s.shares[t].Viewed && s.shares[t].ViewedAt.None?
      && !Expired(s.shares[t], now)
      && s.response.body.Token == t
      && s.response.body.ShareURL == baseURL + "/share/" + t
      && s.response.body.ExpiresAt == s.shares[t].ExpiresAt
  {
    if MissingField(req) then Step(BadRequest, m)
    else if token.None? then Step(InternalError, m)
    else
      var d := NewShare(req, now);
      Step(Ok(ShareResponse(token.value, ShareURL(baseURL, token.value), d.ExpiresAt)),
           m[token.value := d])
  }

  /** A share that a redeem at `now` hands out: present, unexpired, unviewed. */
  predicate Redeemable(m: map<string, ShareData>, token: string, now: int) {
    token != "" && token in m && !Expired(m[token], now) && !m[token].Viewed
  }

  /** Redeem: the consume-once decision. */
  function RetrieveStep(m: map<string, ShareData>, token: string, now: int)
    : (s: Step<ShareRetrieveResponse>)
    ensures s.response.BadRequest? <==> token == ""
    ensures s.response.NotFound? <==> token != "" && token !in m
    ensures s.response.Gone? <==> token != "" && token in m && Expired(m[token], now)
    ensures s.response.AlreadyViewed? <==>
      token != "" && token in m && !Expired(m[token], now) && m[token].Viewed
    ensures s.response.Ok? <==> Redeemable(m, token, now)
    ensures !s.response.InternalError?
    // the payload leaves the store exactly when it is handed out, stamped with `now`
    ensures s.response.Ok? ==>
      s.response.body == ShareRetrieveResponse(m[token].EncryptedPassword, m[token].ServiceName,
                                               m[token].Username, m[token].CreatedAt, Some(now))
    // an already-viewed answer shows the metadata but never the password
    ensures s.response.AlreadyViewed? ==>
      s.response.details == ShareRetrieveResponse("", m[token].ServiceName, m[token].Username,
                                                  m[token].CreatedAt, m[token].ViewedAt)
    // a handed-out or expired share is gone; every other answer leaves the registry alone
    ensures s.response.Ok? || s.response.Gone? ==> s.shares == m - {token}
    ensures !(s.response.Ok? || s.response.Gone?) ==> s.shares == m
  {
    if token == "" then Step(BadRequest, m)
    else if token !in m then Step(NotFound, m)
    else
      var d := m[token];
      if Expired(d, now) then Step(Gone, m - {token})
      else if d.Viewed then
        Step(AlreadyViewed(ShareRetrieveResponse("", d.ServiceName, d.Username, d.CreatedAt, d.ViewedAt)), m)
      else
        var viewed := d.(Viewed := true, ViewedAt := Some(now));
        Step(Ok(ShareRetrieveResponse(viewed.EncryptedPassword, viewed.ServiceName, viewed.Username,
                                      viewed.CreatedAt, viewed.ViewedAt)),
             m - {token})
  }

  /** The message of a successful delete. */
  const DeletedMessage: string := "Share deleted successfully"

  /** Delete: remove a present token, whatever its state. */
  function DeleteStep(m: map<string, ShareData>, token: string): (s: Step<string>)
    ensures s.response.BadRequest? <==> token == ""
    ensures s.response.NotFound? <==> token != "" && token !in m
    ensures s.response.Ok? <==> token != "" && token in m
    ensures s.response.Ok? ==> s.response.body == DeletedMessage
    ensures s.shares == if s.response.Ok? then m - {token} else m
  {
    if token == "" then Step(BadRequest, m)
    else if token !in m then Step(NotFound, m)
    else Step(Ok(DeletedMessage), m - {token})
  }

  // ---------------------------------------------------------------------------
  // The handlers, driving the store

  /** CreateShareHandler after JSON decoding. */
  method CreateShareHandler(store: ShareStore, baseURL: string, req: ShareRequest,
                            token: Option<string>, now: int)
    returns (r: Response<ShareResponse>)
    modifies store
    ensures var s := CreateStep(old(store.shares), baseURL, req, token, now);
      r == s.response && store.shares == s.shares
  {
    if MissingField(req) {
      return BadRequest;
    }
    var expirationHours := req.ExpirationHours;
    if expirationHours <= 0 {
      expirationHours := DefaultExpirationHours;
    }
    if token.None? {
      return InternalError;
    }
    var shareData := ShareData(req.EncryptedPassword, req.ServiceName, req.Username, now,
                               now + expirationHours as int * Hour, false, None);
    store.Add(token.value, shareData);
    var shareURL := baseURL + "/share/" + token.value;
    r := Ok(ShareResponse(token.value, shareURL, shareData.ExpiresAt));
  }

  /** GetShareHandler: redeem the token named by the request path. */
  method GetShareHandler(store: ShareStore, path: string, now: int)
    returns (r: Response<ShareRetrieveResponse>)
    modifies store
    ensures var s := RetrieveStep(old(store.shares), TrimPrefix(path, SharePathPrefix), now);
      r == s.response && store.shares == s.shares
  {
    var token := TrimPrefix(path, SharePathPrefix);
    if token == "" {
      return BadRequest;
    }
    var shareData := store.Get(token);
    if shareData.None? {
      return NotFound;
    }
    var d := shareData.value;
    if Expired(d, now) {
      store.Delete(token);
      return Gone;
    }
    if d.Viewed {
      return AlreadyViewed(ShareRetrieveResponse("", d.ServiceName, d.Username, d.CreatedAt, d.ViewedAt));
    }
    store.MarkViewed(token, now);
    // The handler holds a pointer to the stored record, so it reads the
    // fields MarkViewed has just set.
    d := store.shares[token];
    r := Ok(ShareRetrieveResponse(d.EncryptedPassword, d.ServiceName, d.Username, d.CreatedAt, d.ViewedAt));
    store.Delete(token);
  }

  /** DeleteShareHandler: remove the token named by the request path. */
  method DeleteShareHandler(store: ShareStore, path: string)
    returns (r: Response<string>)
    modifies store
    ensures var s := DeleteStep(old(store.shares), TrimPrefix(path, SharePathPrefix));
      r == s.response && store.shares == s.shares
  {
    var token := TrimPrefix(path, SharePathPrefix);
    if token == "" {
      return BadRequest;
    }
    var shareData := store.Get(token);
    if shareData.None? {
      return NotFound;
    }
    store.Delete(token);
    r := Ok(DeletedMessage);
  }
}
