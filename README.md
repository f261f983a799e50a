# One-time password share store, modelled in Dafny

The backend of the password manager lets a user share an encrypted password
through a single-use link. It keeps pending shares in an in-memory
`ShareStore`: a map from an unguessable token to a `ShareData` record. The
store offers `Add`, `Get`, `MarkViewed`, `Delete`, `CleanupExpired` and
`GetAll` (backend/models.go). Three HTTP handlers sit on top of it
(backend/handlers.go). Create validates the request and stores a fresh share
that expires after the requested number of hours, 24 by default. Redeem is
consume-once: it answers not found, gone (expired, and deleted), already
viewed (metadata only), or the password, after which the share is deleted.
Delete removes a share.

The project has three modules:

- `Models` (models.dfy) holds the records and the `ShareStore` class. Its
  `shares` map field is reassigned by the store's methods. `CleanupExpired`
  and `GetAll` keep the source's loops over the map.
- `Handlers` (handlers.dfy) states each handler's decision as a pure step
  function over the registry's contents (`CreateStep`, `RetrieveStep`,
  `DeleteStep`). Each handler is also a method that drives the store's
  operations in the source's order, and is proved equal to its step
  function.
- `Lifecycle` (lifecycle.dfy) proves what any sequence of calls can do to
  one token, when calls run one after another. Then a password is handed
  out at most once, a deleted or consumed token stays absent, and sweeping
  is only hygiene.

Instants and durations are integers counting nanoseconds, the resolution
of Go's `time.Time` and `time.Duration`. The current instant is a parameter
of every operation that reads the clock. The generated token is a parameter
of create: `None` stands for a failure of the random source, which the
handler answers with a 500.

Two facts about the code that the model makes explicit:

- `Add` does not detect a collision between a generated token and a stored
  one; it overwrites the stored share (`ShareStore.Add`, `CreateStep`).
- When calls run one after another, the already-viewed answer is never
  given (`Lifecycle.RunNeverAlreadyViewed`). It becomes reachable when two
  redeems overlap: redeem B's `Get` comes before redeem A's `Delete`, and
  B's `Viewed` test comes after A's `MarkViewed`.

Both the sweep and the redeem handler treat a share as expired when
`now > ExpiresAt` (`Expired`).

## Model

| member | source | states |
|---|---|---|
| `Models.ShareStore.constructor` | backend/models.go:50-54 | a new store holds no shares |
| `Models.ShareStore.Add` | backend/models.go:57-61 | afterwards the token maps to the given record, replacing any earlier one; every other token keeps its presence and its record |
| `Models.ShareStore.Get` | backend/models.go:64-69 | answers a record exactly when the token is present, and then the stored record; the store is not changed |
| `Models.ShareStore.MarkViewed` | backend/models.go:72-80 | a present share becomes viewed at `now` with its other fields and all other entries unchanged; an absent token changes nothing |
| `Models.ShareStore.Delete` | backend/models.go:83-87 | the token is absent afterwards and every other entry is unchanged; deleting an absent token changes nothing |
| `Models.ShareStore.CleanupExpired` | backend/models.go:90-105 | afterwards the store holds exactly the shares not expired at `now`, unchanged; the count returned is the number of entries removed, which is the number of expired tokens |
| `Models.ShareStore.GetAll` | backend/models.go:108-118 | the copy built by the loop has exactly the store's keys and records; the store is not changed |
| `Models.Expired` | backend/models.go:98 | a share is expired exactly when its deadline is strictly before `now`, the test `now.After(ExpiresAt)` used by the sweep and by the redeem handler (backend/handlers.go:112) |
| `Models.Unexpired` | backend/models.go:97-102 | a sweep keeps a token exactly when it is present and not expired, with its record unchanged |
| `Models.SweepCount` | backend/models.go:94-104 | a sweep's kept tokens and expired tokens split the registry's keys disjointly, so old size minus new size equals the number of expired tokens |
| `Models.SweepKeepsLive` | backend/models.go:97-102 | a share that is unexpired at `now` survives, unchanged, every sweep made at or before `now` |
| `Models.SweepIdempotent` | backend/models.go:97-102 | a second sweep at the same instant removes nothing more |
| `Handlers.EffectiveHours` | backend/handlers.go:43-47 | the granted lifetime is always positive: the requested hours when positive, otherwise 24 |
| `Handlers.WrapInt64` | backend/handlers.go:64 | Go's int64 product: congruent to the exact product modulo 2^64, and equal to it when it fits in 64 bits |
| `Handlers.MissingField` | backend/handlers.go:38 | a request passes validation only when the password, service name and username are all non-empty |
| `Handlers.ExpiresAtAsWritten` | backend/handlers.go:64 | the source's deadline: congruent modulo 2^64 to `now` plus the granted hours, and within an int64 of `now`, so the duration may wrap |
| `Handlers.ExpiresAt` | backend/handlers.go:58-64 | the deadline is strictly after creation, exactly the granted hours later, and 24 hours later for a non-positive request |
| `Handlers.ExpiresAtAsWrittenOverflows` | backend/handlers.go:64 | with 2562048 hours the source's wrapped duration puts the deadline before the creation instant, unlike the intended deadline |
| `Handlers.ExpiresAtAsWrittenAgrees` | backend/handlers.go:64 | when the duration fits in an int64 the source's deadline equals the intended one |
| `Handlers.ShareURL` | backend/handlers.go:72 | the share URL splits into the base URL, then `/share/`, then the token |
| `Handlers.TrimPrefix` | backend/handlers.go:96-97 | when the path starts with the prefix, prefix plus result gives the path back; otherwise the path is returned as it is |
| `Handlers.ShareURLToken` | backend/handlers.go:72 | stripping `baseURL + "/share/"` from the share URL gives the token back |
| `Handlers.ShareURLInjective` | backend/handlers.go:72 | two tokens with the same share URL are the same token |
| `Handlers.NewShare` | backend/handlers.go:58-66 | the created record carries the request's password and metadata, was created at `now`, is unviewed with no view time, and is not expired at `now` |
| `Handlers.CreateStep` | backend/handlers.go:37-77 | bad request exactly when one of the three fields is empty, internal error exactly when the token could not be generated, and the store unchanged in both cases; on success only the token's entry is added or replaced, with an unviewed, unexpired record created `now` and due after the granted hours, and the answer carries the token, `baseURL/share/token` and that deadline |
| `Handlers.RetrieveStep` | backend/handlers.go:99-149 | bad request exactly for an empty token, not found exactly for an absent one, gone exactly for an expired one, already viewed exactly for an unexpired viewed one (with an empty password and the stored metadata) and the password exactly for a present, unexpired, unviewed share (with the view time `now`); the token is removed exactly on gone and on success, and the store is unchanged otherwise |
| `Handlers.DeleteStep` | backend/handlers.go:171-189 | bad request exactly for an empty token, not found exactly for an absent one, otherwise success; only a success removes the token, and nothing else changes |
| `Handlers.CreateShareHandler` | backend/handlers.go:37-80 | the handler's answer and the store it leaves are those of `CreateStep` |
| `Handlers.GetShareHandler` | backend/handlers.go:95-152 | for the token left after stripping `/api/share/` from the path, the answer and the store left behind are those of `RetrieveStep`; its success answer shows the view time that `MarkViewed` stamped |
| `Handlers.DeleteShareHandler` | backend/handlers.go:167-189 | for the token left after stripping `/api/share/` from the path, the answer and the store left behind are those of `DeleteStep` |
| `Lifecycle.ApplyKeepsAbsent` | backend/handlers.go:59-69 | only a create with that generated token can bring an absent token into the registry |
| `Lifecycle.AbsentNeverRevealed` | backend/handlers.go:105-109 | an absent token that no later call creates never yields its password and stays absent through any sequence of calls |
| `Lifecycle.RevealedAtMostOnce` | backend/handlers.go:136-149 | while no new share is created under a token, at most one call in any sequence hands out its password |
| `Lifecycle.ApplyKeepsNoneViewed` | backend/handlers.go:119-149 | no call leaves a viewed share in the registry |
| `Lifecycle.RunNeverAlreadyViewed` | backend/handlers.go:119-133 | calls made one after another never store a viewed share, so a redeem never answers already viewed |
| `Lifecycle.CreateThenRetrieve` | backend/handlers.go:59-69 | a redeem after a successful create and before the deadline hands out exactly the stored password and metadata, stamped with the redeem instant |
| `Lifecycle.CreateThenExpire` | backend/handlers.go:112-116 | a redeem after the deadline of a new share answers gone and leaves the token absent |
| `Lifecycle.RetrieveTwice` | backend/handlers.go:147-149 | a redeem right after one that handed out the password finds nothing |
| `Lifecycle.DeleteThenRetrieve` | backend/handlers.go:177-184 | a redeem after a delete of the same token finds nothing |
| `Lifecycle.SweepBeforeRetrieve` | backend/models.go:97-102 | sweeping at or before a redeem's instant changes that redeem's answer at most from gone to not found |

## Left out

- Locking (`sync.RWMutex`) and concurrency: every store method and every handler runs as one sequential step. The race in the redeem handler between `Get`, `MarkViewed` and `Delete`, which are three separate lock acquisitions, is therefore not modelled. Overlapping redeems of one token can produce the already-viewed answer. If B's `Viewed` test runs before A's `MarkViewed`, both redeems pass the test and both hand out the password. So consume-once (`Lifecycle.RevealedAtMostOnce`) is proved only for calls made one after another.
- `Handlers.GetShareHandler`: the source reads the clock twice, in the handler's expiry test and inside `MarkViewed`. The model uses one instant `now` for both.
- Pointer aliasing of `*ShareData`: records are values. `MarkViewed` replaces the map entry. The redeem handler re-reads the stored record after `MarkViewed`, which gives what the Go pointer sees. Writes through the pointers that `GetAll`'s copy shares with the store are not modelled.
- `generateSecureToken` (crypto/rand, base64): the token is a parameter, and `None` stands for a generation failure.
- The background `cleanupWorker` goroutine and its ticker (backend/main.go): only the `CleanupExpired` call it makes is modelled.
- JSON decoding and encoding, HTTP method checks, status writing, headers and logging: the answers are the `Response` datatype. A JSON value of `expiration_hours` outside int64 is a decode error, which is not modelled; the field is an `int64`.
- Routing, CORS, environment configuration, static files and `HealthHandler` (backend/main.go, backend/handlers.go:196-202): plumbing with no store logic.
- `Handlers.CreateShareHandler`, `Handlers.CreateStep`, `Handlers.NewShare`: they compute the deadline without the int64 wrap-around described under Findings, so they model the intended deadline, not the one the source computes for lifetimes of 2562048 hours or more.
- Go strings are byte strings; the model's strings are sequences of characters. `TrimPrefix`, token equality and `ShareURL` therefore work on characters, not bytes. This makes no difference for the ASCII tokens the generator produces (URL-safe base64) or for the path prefix, which is ASCII.
- Go `time.Time` internals (monotonic readings, the saturation in `Time.Add`): instants are unbounded integers.

## Findings

| source | as written | input that shows it | evidently intended | confidence | as-written member | corrected member |
|---|---|---|---|---|---|---|
| backend/handlers.go:64 | `time.Duration(expirationHours) * time.Hour` is an int64 product that wraps around silently | `expiration_hours` = 2562048: the product is 9223372800000000000 ns, which wraps to -9223371273709551616 ns, so the share is created with a deadline about 292 years in the past, and its first redeem answers gone | a share lives for the requested number of hours, so its deadline is after its creation | high (not executed) | `Handlers.ExpiresAtAsWrittenOverflows` | `Handlers.ExpiresAt` |
