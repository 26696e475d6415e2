/**
 * The in-memory URL store of the shortener: the records, the shorten
 * operation that adds to them and the redirect lookup that reads them.
 */
module Shortener {
  import opened Codes

  /** One stored mapping: the short code and the URL it stands for. */
  datatype URLMap = URLMap(shortURL: string, originalURL: string)

  /** The only way shortening fails: the input does not parse as a request URI. */
  datatype Error = InvalidURL

  datatype Result<T> = Ok(value: T) | Err(error: Error)

  datatype Option<T> = None | Some(value: T)

  /** What one shorten call returns, together with the store it leaves behind. */
  datatype Outcome = Outcome(result: Result<string>, store: map<string, URLMap>)

  /** Every key equals the short code recorded under it. */
  ghost predicate KeysMatch(store: map<string, URLMap>) {
    forall k :: k in store ==> store[k].shortURL == k
  }

  /** No original URL is stored twice. */
  ghost predicate UniqueOriginals(store: map<string, URLMap>) {
    forall k1, k2 :: k1 in store && k2 in store && store[k1].originalURL == store[k2].originalURL ==> k1 == k2
  }

  /** Every key has the shape of a generated code. */
  ghost predicate WellFormedKeys(store: map<string, URLMap>) {
    forall k :: k in store ==> IsCode(k)
  }

  ghost predicate Invariant(store: map<string, URLMap>) {
    KeysMatch(store) && UniqueOriginals(store) && WellFormedKeys(store)
  }

  /** Some record already holds this exact URL string. */
  ghost predicate Shortened(store: map<string, URLMap>, longURL: string) {
    exists k :: k in store && store[k].originalURL == longURL
  }

  /**
   * The shorten operation on values: `uriOK` is whether the URL parses as a
   * request URI and `digest` its MD5 digest. An invalid URL is rejected; a URL
   * already stored gets its recorded code back; otherwise the first free
   * candidate of its base code is recorded for it.
   */
  ghost function ShortenSpec(store: map<string, URLMap>, uriOK: bool, digest: Digest, longURL: string): (o: Outcome)
    ensures o.result.Err? <==> !uriOK
    ensures o.result.Err? || Shortened(store, longURL) ==> o.store == store
    ensures forall k :: k in store ==> k in o.store && o.store[k] == store[k]
    ensures o.result.Ok? && !Shortened(store, longURL) ==>
      var code := o.result.value;
      && code !in store
      && o.store == store[code := URLMap(code, longURL)]
      && exists n: nat ::
           && code == Candidate(BaseCode(digest), n)
           && forall j :: 0 <= j < n ==> Candidate(BaseCode(digest), j) in store
  {
    if !uriOK then
      Outcome(Err(InvalidURL), store)
    else if Shortened(store, longURL) then
      var k :| k in store && store[k].originalURL == longURL;
      Outcome(Ok(store[k].shortURL), store)
    else
      var base := BaseCode(digest);
      var code := Candidate(base, FirstFree(store.Keys, base));
      Outcome(Ok(code), store[code := URLMap(code, longURL)])
  }

  /** Removes one leading '/', as `strings.TrimPrefix(path, "/")` does. */
  function TrimSlash(path: string): (code: string)
    ensures path == "/" + code || (code == path && (path == "" || path[0] != '/'))
  {
    if |path| > 0 && path[0] == '/' then path[1..] else path
  }

  /**
   * The redirect lookup: the path with one leading '/' removed names a code;
   * the empty code and the reserved "shorten" are not found, and neither is
   * a code with no record.
   */
  function Resolve(store: map<string, URLMap>, path: string): (r: Option<string>)
    ensures r.Some? <==> TrimSlash(path) !in {"", "shorten"} && TrimSlash(path) in store
    ensures r.Some? ==> r.value == store[TrimSlash(path)].originalURL
  {
    var code := TrimSlash(path);
    if code == "" || code == "shorten" then None
    else if code !in store then None
    else Some(store[code].originalURL)
  }

  /** The empty path and the shorten endpoint, with or without the slash, are never redirected. */
  lemma ResolveReserved(store: map<string, URLMap>)
    ensures Resolve(store, "") == None && Resolve(store, "/") == None
    ensures Resolve(store, "shorten") == None && Resolve(store, "/shorten") == None
  {
  }

  /** A code that is not a key is not found. */
  lemma ResolveNotFound(store: map<string, URLMap>, code: string)
    requires code !in store
    ensures Resolve(store, "/" + code) == None
  {
  }

  /** In a well-formed store the reserved paths can never hide a stored code. */
  lemma ReservedNeverStored(store: map<string, URLMap>)
    requires WellFormedKeys(store)
    ensures "" !in store && "shorten" !in store
  {
  }

  /** A successful shorten keeps every key equal to its record's code and every URL stored once. */
  lemma ShortenKeepsInvariant(store: map<string, URLMap>, uriOK: bool, digest: Digest, longURL: string)
    requires Invariant(store)
    ensures Invariant(ShortenSpec(store, uriOK, digest, longURL).store)
  {
  }

  /** After a successful shorten the returned code resolves to the URL that was given. */
  lemma ShortenRoundTrip(store: map<string, URLMap>, digest: Digest, longURL: string)
    requires Invariant(store)
    ensures var o := ShortenSpec(store, true, digest, longURL);
      && o.result.Ok?
      && o.result.value in o.store
      && o.store[o.result.value] == URLMap(o.result.value, longURL)
      && Resolve(o.store, "/" + o.result.value) == Some(longURL)
  {
  }

  /** Shortening the same URL a second time returns the same code and adds nothing. */
  lemma ShortenIdempotent(store: map<string, URLMap>, uriOK: bool, digest: Digest, longURL: string)
    requires Invariant(store)
    ensures var o := ShortenSpec(store, uriOK, digest, longURL);
      ShortenSpec(o.store, uriOK, digest, longURL) == o
  {
  }

  /**
   * Two different URLs shortened one after the other get different codes,
   * even when their base codes collide, and both codes keep resolving.
   */
  lemma ShortenDistinct(store: map<string, URLMap>, d1: Digest, u1: string, d2: Digest, u2: string)
    requires Invariant(store)
    requires u1 != u2
    ensures var o1 := ShortenSpec(store, true, d1, u1);
      var o2 := ShortenSpec(o1.store, true, d2, u2);
      && o1.result.Ok? && o2.result.Ok?
      && o1.result.value != o2.result.value
      && Resolve(o2.store, "/" + o1.result.value) == Some(u1)
      && Resolve(o2.store, "/" + o2.result.value) == Some(u2)
  {
  }

  /** A path that resolves keeps resolving to the same URL after any shorten call. */
  lemma ShortenKeepsResolvable(store: map<string, URLMap>, uriOK: bool, digest: Digest, longURL: string, path: string)
    requires Resolve(store, path).Some?
    ensures Resolve(ShortenSpec(store, uriOK, digest, longURL).store, path) == Resolve(store, path)
  {
  }

  /**
   * Two URLs whose digests share their base code, shortened in turn into an
   * empty store: the first gets the base itself, the second the base
   * followed by "1".
   */
  lemma CollisionScenario(da: Digest, a: string, db: Digest, b: string)
    requires a != b
    requires BaseCode(da) == BaseCode(db)
    ensures var o1 := ShortenSpec(map[], true, da, a);
      var o2 := ShortenSpec(o1.store, true, db, b);
      && o1.result == Ok(BaseCode(da))
      && o2.result == Ok(BaseCode(da) + "1")
  {
    var base := BaseCode(da);
    var o1 := ShortenSpec(map[], true, da, a);
    assert !Shortened(map[], a);
    assert o1.store == map[base := URLMap(base, a)];
    assert !Shortened(o1.store, b);
    var k := FirstFree(o1.store.Keys, base);
    CandidateInjective(base, 0, 1);
    assert Decimal.Format(1) == "1";
  }

  /**
   * The process-wide store. `digest` stands for `md5.Sum` and
   * `parsesAsRequestURI` for the success of `url.ParseRequestURI`; both are
   * library functions whose internals are outside this model.
   */
  class Store {
    var urlStore: map<string, URLMap>
    const digest: string -> Digest
    const parsesAsRequestURI: string -> bool

    ghost predicate Valid()
      reads this
    {
      Invariant(urlStore)
    }

    /** The store starts out empty. */
    constructor (digest: string -> Digest, parsesAsRequestURI: string -> bool)
      ensures Valid() && urlStore == map[]
      ensures this.digest == digest && this.parsesAsRequestURI == parsesAsRequestURI
    {
      this.digest := digest;
      this.parsesAsRequestURI := parsesAsRequestURI;
      urlStore := map[];
    }

    /**
     * The scan for a record that already holds the URL, visiting the records
     * in no particular order.
     */
    method ExistingCode(longURL: string) returns (found: Option<string>)
      ensures found.None? <==> !Shortened(urlStore, longURL)
      ensures found.Some? ==>
        exists k :: k in urlStore && urlStore[k].originalURL == longURL && urlStore[k].shortURL == found.value
    {
      var unvisited := urlStore.Keys;
      while unvisited != {}
        invariant unvisited <= urlStore.Keys
        invariant forall k :: k in urlStore && k !in unvisited ==> urlStore[k].originalURL != longURL
        decreases unvisited
      {
        var k :| k in unvisited;
        if urlStore[k].originalURL == longURL {
          return Some(urlStore[k].shortURL);
        }
        unvisited := unvisited - {k};
      }
      return None;
    }

    /**
     * The collision walk: start from the base code of the URL's digest and
     * try base1, base2, ... until a code is found that is not a key, checking
     * the store again on every round.
     */
    method NewCode(longURL: string) returns (shortURL: string)
      ensures shortURL !in urlStore
      ensures shortURL == Candidate(BaseCode(digest(longURL)), FirstFree(urlStore.Keys, BaseCode(digest(longURL))))
    {
      var hash := digest(longURL);
      shortURL := BaseCode(hash);
      var counter := 1;
      var originalShortURL := shortURL;
      while shortURL in urlStore
        invariant 1 <= counter <= |urlStore| + 1
        invariant shortURL == Candidate(originalShortURL, counter - 1)
        invariant forall j :: 0 <= j < counter - 1 ==> Candidate(originalShortURL, j) in urlStore
        decreases |urlStore| + 1 - counter
      {
        CandidatesCounted(urlStore.Keys, originalShortURL, counter);
        shortURL := originalShortURL + Decimal.Format(counter);
        counter := counter + 1;
      }
    }

    /** shortenURL: validate, reuse an existing code, or record a new one. */
    method Shorten(longURL: string) returns (r: Result<string>)
      requires Valid()
      modifies this
      ensures Valid()
      ensures Outcome(r, urlStore) == ShortenSpec(old(urlStore), parsesAsRequestURI(longURL), digest(longURL), longURL)
      ensures r.Ok? ==> Resolve(urlStore, "/" + r.value) == Some(longURL)
    {
      ghost var before := urlStore;
      ShortenRoundTrip(before, digest(longURL), longURL);
      ShortenKeepsInvariant(before, parsesAsRequestURI(longURL), digest(longURL), longURL);
      if !parsesAsRequestURI(longURL) {
        return Err(InvalidURL);
      }
      var existing := ExistingCode(longURL);
      if existing.Some? {
        return Ok(existing.value);
      }
      var shortURL := NewCode(longURL);
      urlStore := urlStore[shortURL := URLMap(shortURL, longURL)];
      return Ok(shortURL);
    }
  }
}
