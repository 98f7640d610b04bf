/** What `shortenHandler`, `redirectHandler` and `cleanupOldLinks`
    (main.go) do to the `links` table. The table is a map from code to row:
    the `UNIQUE` constraint on `code` makes a code name at most one row.
    Times are whole seconds; the handlers' outcome is a `Response`. */
module Links {
  import opened Wrappers
  import opened Text
  import opened Cleaner
  import opened Codes

  /** One row of `links`, without its code. */
  datatype Link = Link(url: Bytes, createdAt: int)

  type Table = map<Bytes, Link>

  /** What a handler writes back: 400, 500, 200 with a body, 404, or a
      302 redirect to a location. */
  datatype Response =
    | BadRequest(message: Bytes)
    | ServerError(message: Bytes)
    | Ok(body: Bytes)
    | NotFound
    | Redirect(location: Bytes)

  const SecondsPerDay: int := 86400

  /** The separator between the domain and the code, and the prefix
      `redirectHandler` strips from the path. */
  const Slash: Bytes := "/"

  /** The domain the short link is written with: `SHORT_DOMAIN`, or
      `http://localhost` when it is unset or empty. */
  function ShortDomain(env: Bytes): (d: Bytes)
    ensures env != [] ==> d == env
    ensures env == [] ==> d == "http://localhost"
  {
    if env == [] then "http://localhost" else env
  }

  /** The part of `shortenHandler` after `cleanURL` has run: store the
      cleaned URL under the generated code, or report why not. */
  function Store(t: Table, cleaned: Result<Bytes, CleanError>, code: Bytes, now: int, domain: Bytes)
    : (r: (Table, Response))
    ensures r.1.BadRequest? <==> cleaned.Failure?
    ensures r.1.ServerError? <==> cleaned.Success? && code in t
    ensures r.1.BadRequest? || r.1.ServerError? || r.1.Ok?
    ensures !r.1.Ok? ==> r.0 == t
    ensures r.1.Ok? ==>
      && cleaned.Success? && code !in t
      && r.0.Keys == t.Keys + {code}
      && r.0[code] == Link(cleaned.value, now)
      && (forall c :: c in t ==> r.0[c] == t[c])
      && r.1.body == ShortDomain(domain) + Slash + code
  {
    match cleaned
    case Failure(_) => (t, BadRequest("Invalid URL"))
    case Success(u) =>
      if code in t then (t, ServerError("Database error"))
      else (t[code := Link(u, now)], Ok(ShortDomain(domain) + Slash + code))
  }

  /** `shortenHandler`: `rawURL` is the `url` query parameter (empty when
      missing), `draws` the six `rand.Intn` results, `now` the clock, `domain`
      the `SHORT_DOMAIN` setting. Returns the new table and the response. */
  function Shorten(t: Table, rawURL: Bytes, draws: seq<LetterIndex>, now: int, domain: Bytes, parse: Parser)
    : (r: (Table, Response))
    requires |draws| == CodeLength
  {
    if rawURL == [] then (t, BadRequest("Missing 'url' parameter"))
    else Store(t, CleanURL(rawURL, parse), GenerateCode(CodeLength, draws), now, domain)
  }

  lemma {:induction false} ShortenSpec(t: Table, rawURL: Bytes, draws: seq<LetterIndex>, now: int, domain: Bytes, parse: Parser)
    requires |draws| == CodeLength
    ensures var r := Shorten(t, rawURL, draws, now, domain, parse);
      && (r.1.BadRequest? <==> rawURL == [] || CleanURL(rawURL, parse).Failure?)
      && (r.1.ServerError? <==> rawURL != [] && CleanURL(rawURL, parse).Success?
                                  && GenerateCode(CodeLength, draws) in t)
      && (r.1.BadRequest? || r.1.ServerError? || r.1.Ok?)
      && (!r.1.Ok? ==> r.0 == t)
      && (r.1.Ok? ==>
      var code := GenerateCode(CodeLength, draws);
      && code !in t
      && r.0.Keys == t.Keys + {code}
      && r.0[code] == Link(CleanURL(rawURL, parse).value, now)
      && (forall c :: c in t ==> r.0[c] == t[c])
      && r.1.body == ShortDomain(domain) + Slash + code)
  {
  }

  /** `redirectHandler`: the code is the request path with one leading `/`
      removed; an empty or unknown code is 404, a known one redirects. */
  function Resolve(t: Table, path: Bytes): (r: Response)
    ensures r.NotFound? || r.Redirect?
    ensures r.Redirect? <==> TrimPrefix(path, Slash) in t && TrimPrefix(path, Slash) != []
    ensures r.Redirect? ==> r.location == t[TrimPrefix(path, Slash)].url
  {
    var code := TrimPrefix(path, Slash);
    if code == [] then NotFound
    else if code in t then Redirect(t[code].url)
    else NotFound
  }

  /** The cut-off `cleanupOldLinks` uses: `expiry` days before `now`, where
      an unset `CACHE_EXPIRY` means 30 days. */
  function Cutoff(now: int, expiry: Option<nat>): int {
    now - (match expiry case Some(d) => d case None => 30) * SecondsPerDay
  }

  /** `cleanupOldLinks`: delete every row created before the cut-off. */
  function Cleanup(t: Table, now: int, expiry: Option<nat>): (r: Table)
    ensures r.Keys <= t.Keys
    ensures forall c :: c in r ==> r[c] == t[c] && r[c].createdAt >= Cutoff(now, expiry)
    ensures forall c :: c in t && t[c].createdAt >= Cutoff(now, expiry) ==> c in r
  {
    map c | c in t && t[c].createdAt >= Cutoff(now, expiry) :: t[c]
  }

  /** Every code in the table has the shape `generateCode(6)` produces. */
  predicate ValidTable(t: Table) {
    forall c :: c in t ==> IsCode(c)
  }

  /** Shortening and cleanup keep every stored code well formed. */
  lemma {:induction false} ShortenKeepsValid(t: Table, rawURL: Bytes, draws: seq<LetterIndex>, now: int, domain: Bytes, parse: Parser)
    requires |draws| == CodeLength && ValidTable(t)
    ensures ValidTable(Shorten(t, rawURL, draws, now, domain, parse).0)
  {
    ShortenSpec(t, rawURL, draws, now, domain, parse);
  }

  lemma {:induction false} CleanupKeepsValid(t: Table, now: int, expiry: Option<nat>)
    requires ValidTable(t)
    ensures ValidTable(Cleanup(t, now, expiry))
  {
  }

  /** `TrimPrefix` removes exactly one leading `/`, so the path `/` + code
      names the code, whatever bytes the code holds. */
  lemma {:induction false} PathOfCode(code: Bytes)
    ensures TrimPrefix(Slash + code, Slash) == code
  {
    assert (Slash + code)[..1] == Slash;
    assert (Slash + code)[1..] == code;
  }

  /** After a successful store, the path `/` + code redirects to the
      stored URL. */
  lemma {:induction false} StoreThenResolve(t: Table, cleaned: Result<Bytes, CleanError>, code: Bytes, now: int, domain: Bytes)
    requires code != []
    requires Store(t, cleaned, code, now, domain).1.Ok?
    ensures Resolve(Store(t, cleaned, code, now, domain).0, Slash + code) == Redirect(cleaned.value)
  {
    PathOfCode(code);
  }

  /** Round trip: after a successful shortening, the path `/` + code
      redirects to the cleaned URL. */
  lemma {:induction false} ShortenThenResolve(t: Table, rawURL: Bytes, draws: seq<LetterIndex>, now: int, domain: Bytes, parse: Parser)
    requires |draws| == CodeLength
    ensures Shorten(t, rawURL, draws, now, domain, parse).1.Ok? ==>
              && CleanURL(rawURL, parse).Success?
              && Resolve(Shorten(t, rawURL, draws, now, domain, parse).0, Slash + GenerateCode(CodeLength, draws))
                   == Redirect(CleanURL(rawURL, parse).value)
  {
    if Shorten(t, rawURL, draws, now, domain, parse).1.Ok? {
      StoreThenResolve(t, CleanURL(rawURL, parse), GenerateCode(CodeLength, draws), now, domain);
    }
  }

  /** The empty path and the bare `/` find nothing. */
  lemma {:induction false} ResolveEmpty(t: Table)
    ensures Resolve(t, []) == NotFound && Resolve(t, Slash) == NotFound
  {
    assert Slash[1..] == [];
  }

  /** After cleanup, a path resolves exactly when its row was there and
      not older than the cut-off, and then to the same URL. */
  lemma {:induction false} ResolveAfterCleanup(t: Table, now: int, expiry: Option<nat>, path: Bytes)
    ensures var code := TrimPrefix(path, Slash);
            Resolve(Cleanup(t, now, expiry), path) ==
              if code != [] && code in t && t[code].createdAt >= Cutoff(now, expiry)
              then Resolve(t, path) else NotFound
  {
  }

  /** Cleaning up twice at the same time removes nothing more. */
  lemma {:induction false} CleanupIdempotent(t: Table, now: int, expiry: Option<nat>)
    ensures Cleanup(Cleanup(t, now, expiry), now, expiry) == Cleanup(t, now, expiry)
  {
  }
}
