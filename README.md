# URL shortener store, modelled in Dafny

This project models the core of a small Go URL-shortening web service
(`main.go`). It covers the in-memory store `urlStore`, a map from short code to
`URLMap{ShortURL, OriginalURL}` records. It covers the shorten operation
`shortenURL`, which validates a URL and reuses an existing code for it. If the
URL has no code yet, it derives one from the URL's MD5 digest and walks a
collision sequence. It also covers the lookup done by `redirectHandler`.

Files and modules:

- `hex.dfy`, module `Hex`: lower-case hex encoding (`hex.EncodeToString`), its inverse, and the lemmas linking the two.
- `decimal.dfy`, module `Decimal`: `%d` formatting of a counter, its inverse, and injectivity.
- `codes.dfy`, module `Codes`: the 16-byte digest type and the 8-character base code. It also has the collision candidates `base`, `base1`, `base2`, … and `FirstFree`. `FirstFree` is the counter of the first candidate not yet taken. It is total because a finite store cannot hold every candidate.
- `shortener.dfy`, module `Shortener`: `URLMap`, the store invariants, and `ShortenSpec`, the shorten operation on values. It also has the redirect lookup `Resolve`, the lemmas about all of these, and the class `Store`. `Store` holds `urlStore` and implements `shortenURL` imperatively: a scan loop, then a collision loop, then an insert.
- `collision_loop.dfy`, module `CollisionLoop`: the collision loop exactly as written in the source, and the proof that it never exits once entered (see Findings).

MD5 and `url.ParseRequestURI` are library code whose internals are not part of
this model. `Store` receives them as the constant fields `digest` (any function
from strings to 16-byte digests) and `parsesAsRequestURI` (any predicate on
strings). Every property below holds for every choice of the two.

The model's collision loop re-checks the store on every round, as the source
evidently intends; see Findings. The store keeps no reverse index from URL to
code: finding an existing code is a scan over the records. Nothing locks the
check-then-insert sequence either; the model is sequential.

## Model

| member | source | states |
|---|---|---|
| Hex.Encode | main.go:43 | the hex text of n bytes has 2n characters, each one of `0-9a-f` |
| Hex.DecodeEncode | main.go:43 | decoding the hex text gives back exactly the bytes encoded |
| Hex.EncodeDecode | main.go:43 | every even-length lower-case hex string is the encoding of its decoding (the encoding is a bijection) |
| Decimal.Format | main.go:49 | `%d` of a counter is non-empty, all decimal digits, and has no leading zero unless the counter is 0 |
| Decimal.ParseFormat | main.go:49 | reading the `%d` text back gives the counter |
| Decimal.FormatInjective | main.go:49 | distinct counters give distinct texts |
| Codes.BaseCode | main.go:42-43 | the base code has exactly 8 characters, all in `0-9a-f`, and is the hex encoding of the digest's first four bytes |
| Codes.BaseCodeCollision | main.go:42-43 | two digests give the same base code if and only if their first four bytes agree |
| Codes.Candidate | main.go:46-50 | every candidate starts with the base; it is longer than the base exactly when the counter is positive; it has the shape of a code when the base does |
| Codes.CandidateInjective | main.go:46-50 | the counter is appended to the base, so different counters give different candidates |
| Codes.CandidatesCounted | main.go:48-51 | if candidates 0..n-1 are all taken keys, n is at most the number of keys |
| Codes.FreeCounter | main.go:48-51 | from counter n on, the first candidate not taken: it is free and every earlier one is taken |
| Codes.FirstFree | main.go:45-51 | the counter at which the intended collision loop stops: its candidate is free, and every earlier candidate is taken |
| Codes.FirstFreeBound | main.go:45-51 | the walk stops by counter \|urlStore\| |
| Shortener.ShortenSpec | main.go:28-60 | errors exactly when the URL does not parse, and then leaves the store unchanged. A URL already stored also leaves the store unchanged. No existing key is changed. A new code was absent before, is inserted with the URL, and is the first free candidate of the base |
| Shortener.TrimSlash | main.go:113 | exactly one leading `/` is removed when there is one; otherwise the path is kept as is |
| Shortener.Resolve | main.go:113-124 | found if and only if the trimmed code is neither `""` nor `"shorten"` and is a key; the result is that record's original URL |
| Shortener.ResolveReserved | main.go:113-117 | `""`, `/`, `shorten` and `/shorten` are not found, whatever the store holds |
| Shortener.ResolveNotFound | main.go:119-123 | `/` followed by a code that is not a key is not found |
| Shortener.ReservedNeverStored | main.go:114 | in a store whose keys are all generated codes, neither `""` nor `"shorten"` is a key |
| Shortener.ShortenKeepsInvariant | main.go:35-57 | every shorten call preserves the invariant: each key equals its record's ShortURL, no original URL is stored twice, and every key is 8 hex characters followed by decimal digits |
| Shortener.ShortenRoundTrip | main.go:54-59 | a valid URL is stored under the returned code, and the redirect lookup of `/` + code yields it |
| Shortener.ShortenIdempotent | main.go:34-39 | a second shorten call with the same URL returns the same result and leaves the store as the first call left it |
| Shortener.ShortenDistinct | main.go:45-57 | two different URLs shortened in turn get different codes even when their base codes collide, and both still resolve |
| Shortener.ShortenKeepsResolvable | main.go:54-57 | a path that resolves keeps resolving to the same URL after any shorten call (no entry is overwritten) |
| Shortener.CollisionScenario | main.go:42-57 | from an empty store, two URLs with the same base code get the base and then the base followed by `1` |
| Shortener.Store.constructor | main.go:22 | the store starts empty and satisfies the invariant |
| Shortener.Store.ExistingCode | main.go:34-39 | the scan finds a code exactly when some record holds the URL, and returns that record's ShortURL |
| Shortener.Store.NewCode | main.go:42-51 | the collision walk ends; its code is not a key and is the first free candidate of the URL's base code |
| Shortener.Store.Shorten | main.go:28-60 | keeps the invariant; result and new store are exactly those of ShortenSpec; a returned code resolves to the URL |
| CollisionLoop.Enter | main.go:46-48 | the init statement: the counter is 1, the candidate is the base, and the guard is whether the base is a key, read once |
| CollisionLoop.Step | main.go:49-50 | one round as written: the counter grows by one and the candidate moves to the next one; the guard is left unchanged |
| CollisionLoop.Run | main.go:48-51 | at most fuel rounds of the loop as written: the guard keeps the value read in the init statement, and the counter has moved by fuel if the loop was entered |
| CollisionLoop.RunKeepsGuard | main.go:48-51 | the loop guard as written never changes from round to round; each round advances the counter by one and moves to the next candidate |
| CollisionLoop.AsWrittenNeverExits | main.go:48-51 | if the base code is taken, the loop as written is still running after any number of rounds |
| CollisionLoop.AsWrittenExitsOnlyOnFreeBase | main.go:48-54 | if the loop as written stops, it stops at once, and the key inserted is the base, which was free |
| CollisionLoop.HangsOnTakenBase | main.go:48 | a valid one-record store whose record holds another URL under the base code: the loop as written never exits, and the intended loop returns base followed by `1` |

## Left out

- MD5 and `url.ParseRequestURI` internals: foreign library code. They are the uninterpreted fields `Store.digest` and `Store.parsesAsRequestURI`. The model hashes the URL as a sequence of characters, where Go hashes whatever bytes the string holds. A form value can hold bytes that are not valid UTF-8, and a Dafny `string` cannot represent them. The model covers only URLs that are valid Unicode text.
- The error text `invalid URL: …` that wraps the parser's error: the model returns the single error `InvalidURL`.
- `rootHandler` and its template loading and execution: HTML and file I/O.
- `shortenHandler`: the POST method check, form parsing, the empty-URL check and the JSON reply with the base URL prefix. This is HTTP plumbing around the call into `shortenURL`.
- `main`: routing and `ListenAndServe`, which are process and network setup.
- The 301 redirect and 404 responses themselves. `Resolve` returns the URL to redirect to, or `None` for not-found.
- Concurrent access to `urlStore` from several HTTP handlers: the source has no locking, and the model is sequential.
- Go's random map iteration order: the scan in `Store.ExistingCode` visits the keys in an arbitrary order, and `ShortenSpec` picks an arbitrary matching record. The invariant that no URL is stored twice makes both agree.
- Codes.Candidate: the counter is an unbounded natural number, not Go's 64-bit `int`. In the loop that re-checks the store, overflow would need more than 2^63 collisions in one walk. In the loop as written (`CollisionLoop.Step`), Go's counter wraps after 2^63 rounds with no further collisions needed. That changes only the candidate strings, and the guard `found` never changes, so the loop still never exits.

## Findings

| source | as written | input that shows it | evidently intended | confidence | as-written member | corrected member |
|---|---|---|---|---|---|---|
| main.go:48 | `for _, exists := urlStore[shortURL]; exists; { … }` reads `exists` once, in the init statement, and the body never updates it | a store in which the base code of a new URL's digest is already the key of another URL's record: the loop never exits, although `base1` is free | re-check `shortURL` in `urlStore` before every round, so the walk stops at the first free candidate | high (not executed) | CollisionLoop.HangsOnTakenBase | Shortener.Store.NewCode |
