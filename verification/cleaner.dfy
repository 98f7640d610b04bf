/** `cleanURL` (main.go): trim, decode to a fixpoint, parse, drop the
    tracking parameters, re-encode the query, and unwrap a Google redirector
    link. `url.Parse` is library code outside the model: it is a parameter
    `parse`, which either fails or splits the decoded string into a `Url`. */
module Cleaner {
  import opened Wrappers
  import opened Text
  import opened Escape
  import opened Decode
  import opened Query
  import opened Redirector

  /** A parsed URL as far as `cleanURL` looks into it: `head` is the text
      `URL.String()` writes before the query (scheme, authority, path),
      `fragment` the text it writes after (`#...` or nothing); `forceQuery`
      records a `?` with nothing after it. */
  datatype Url = Url(head: Bytes, rawQuery: Bytes, forceQuery: bool, fragment: Bytes)

  /** `url.Parse`, supplied from outside: `None` is a parse error. */
  type Parser = Bytes -> Option<Url>

  /** The error `cleanURL` returns: the one from `url.Parse`. */
  datatype CleanError = InvalidURL

  /** `URL.String()`: the query is written after `?` when it is non-empty
      or forced. */
  function Render(u: Url): Bytes {
    u.head + (if u.forceQuery || u.rawQuery != [] then "?" + u.rawQuery else []) + u.fragment
  }

  /** `trackingParams` (main.go), the query keys `cleanURL` deletes. */
  const TrackingParams: seq<Bytes> := [
    "utm_source", "utm_medium", "utm_campaign", "utm_term", "utm_content",
    "fbclid", "gclid", "mc_eid", "mc_cid", "trk", "msclkid", "dclid"
  ]

  /** The pairs whose key is not among `keys`, in their original order:
      the effect of `q.Del(param)` for every `param` of `keys`. */
  function DelAll(ps: seq<Pair>, keys: seq<Bytes>): (r: seq<Pair>)
    ensures forall i :: 0 <= i < |r| ==> r[i].0 !in keys
    ensures forall k :: k !in keys ==> ValuesOf(r, k) == ValuesOf(ps, k)
  {
    if ps == [] then []
    else
      var init := DelAll(ps[..|ps| - 1], keys);
      var last := ps[|ps| - 1];
      if last.0 in keys then init else init + [last]
  }

  /** Deleting one more key after the others is deleting them all. */
  lemma {:induction false} DelAfterDelAll(ps: seq<Pair>, keys: seq<Bytes>, key: Bytes)
    ensures Del(DelAll(ps, keys), key) == DelAll(ps, keys + [key])
  {
    if ps != [] {
      var init := ps[..|ps| - 1];
      var last := ps[|ps| - 1];
      DelAfterDelAll(init, keys, key);
      var d := DelAll(init, keys);
      if last.0 !in keys {
        assert (d + [last])[..|d|] == d;
      }
    }
  }

  /** The loop of main.go that deletes the tracking keys one by one, over
      any list of keys: `q.Del(param)` for each `param` in turn. */
  method DelEach(q: seq<Pair>, keys: seq<Bytes>) returns (r: seq<Pair>)
    ensures r == DelAll(q, keys)
    ensures forall i :: 0 <= i < |r| ==> r[i].0 !in keys
  {
    r := q;
    DelAllNothing(q);
    for i := 0 to |keys|
      invariant r == DelAll(q, keys[..i])
    {
      DelNext(q, keys, i);
      r := Del(r, keys[i]);
    }
    assert keys[..|keys|] == keys;
  }

  /** One turn of the loop of DelEach. */
  lemma {:induction false} DelNext(q: seq<Pair>, keys: seq<Bytes>, i: nat)
    requires i < |keys|
    ensures Del(DelAll(q, keys[..i]), keys[i]) == DelAll(q, keys[..i + 1])
  {
    DelAfterDelAll(q, keys[..i], keys[i]);
    assert keys[..i] + [keys[i]] == keys[..i + 1];
  }

  lemma {:induction false} DelAllNothing(ps: seq<Pair>)
    ensures DelAll(ps, []) == ps
  {
    if ps != [] {
      DelAllNothing(ps[..|ps| - 1]);
      assert ps[..|ps| - 1] + [ps[|ps| - 1]] == ps;
    }
  }

  /** The URL with its query rebuilt as `cleanURL` rebuilds it: parsed by
      `Query()`, the tracking keys deleted, written back by `Encode()`. */
  function Rebuild(u: Url): (r: Url)
    ensures r.head == u.head && r.forceQuery == u.forceQuery && r.fragment == u.fragment
  {
    u.(rawQuery := Encode(DelAll(ParseQuery(u.rawQuery), TrackingParams)))
  }

  /** The string `cleanURL` hands to `url.Parse`. */
  function Prepare(raw: Bytes): Bytes {
    FullyDecode(TrimAngles(TrimSpace(raw)))
  }

  /** What `cleanURL` makes of a parsed URL. */
  function CleanParsed(u: Url): Bytes {
    var s := Render(Rebuild(u));
    match FindTarget(s)
    case Some(target) =>
      (match Unescape(target)
       case Success(extracted) => extracted
       case Failure(_) => s)
    case None => s
  }

  /** `cleanURL`. */
  function CleanURL(raw: Bytes, parse: Parser): (r: Result<Bytes, CleanError>)
    ensures r.Failure? <==> parse(Prepare(raw)).None?
  {
    match parse(Prepare(raw))
    case None => Failure(InvalidURL)
    case Some(u) => Success(CleanParsed(u))
  }

  /** The result of a successful clean: the unescaped redirector target
      when the rebuilt URL holds one that unescapes, with no further
      tracking-key removal; otherwise the rebuilt URL itself. */
  lemma {:induction false} CleanURLResult(raw: Bytes, parse: Parser)
    requires parse(Prepare(raw)).Some?
    ensures var s := Render(Rebuild(parse(Prepare(raw)).value));
            var target := FindTarget(s);
            CleanURL(raw, parse) ==
              if target.Some? && Unescape(target.value).Success? then Success(Unescape(target.value).value)
              else Success(s)
  {
  }

  /** The rebuilt query holds no tracking key; every other key keeps all its
      values in their original order; keys come out sorted. */
  lemma {:induction false} RebuiltQueryClean(u: Url)
    ensures var q := ParseQuery(Rebuild(u).rawQuery);
            && (forall i :: 0 <= i < |q| ==> q[i].0 !in TrackingParams)
            && KeysSorted(q)
            && (forall k :: k !in TrackingParams ==> ValuesOf(q, k) == ValuesOf(ParseQuery(u.rawQuery), k))
  {
    var kept := DelAll(ParseQuery(u.rawQuery), TrackingParams);
    ParseEncode(kept);
    var q := ParseQuery(Rebuild(u).rawQuery);
    assert q == SortByKey(kept);
    SortByKeySpec(kept);
    forall i | 0 <= i < |q|
      ensures q[i].0 !in TrackingParams
    {
      assert q[i] in multiset(kept);
    }
  }

  /** `cleanURL` ignores surrounding white space: cleaning the trimmed
      string gives the same result. */
  lemma {:induction false} CleanURLIgnoresSpace(raw: Bytes, parse: Parser)
    ensures CleanURL(TrimSpace(raw), parse) == CleanURL(raw, parse)
  {
    TrimIdempotent(raw, IsSpace);
  }

  /** Neither end of `s` is white space, `<` or `>`: trimming leaves it
      alone. */
  predicate Untrimmed(s: Bytes) {
    s == [] || (!IsSpace(s[0]) && !IsAngle(s[0]) && !IsSpace(s[|s| - 1]) && !IsAngle(s[|s| - 1]))
  }

  /** A string that trimming leaves alone is handed to `url.Parse` the
      same however many times it was query-escaped first. */
  lemma {:induction false} PrepareIgnoresEncodingDepth(s: Bytes, n: nat)
    requires Untrimmed(s)
    ensures Prepare(EscapeTimes(s, n)) == Prepare(s)
  {
    var e := EscapeTimes(s, n);
    TrimFixed(s, IsSpace);
    TrimFixed(s, IsAngle);
    if n > 0 {
      assert e == QueryEscape(EscapeTimes(s, n - 1));
      TrimFixed(e, IsSpace);
      TrimFixed(e, IsAngle);
    }
    FullyDecodeAbsorbsEscaping(s, n);
  }

  /** So it cleans to the same result: decode-loop convergence. */
  lemma {:induction false} CleanURLIgnoresEncodingDepth(s: Bytes, n: nat, parse: Parser)
    requires Untrimmed(s)
    ensures CleanURL(EscapeTimes(s, n), parse) == CleanURL(s, parse)
  {
    PrepareIgnoresEncodingDepth(s, n);
  }
}
