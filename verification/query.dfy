/** Go's `url.Values` as the shortener uses it: `URL.Query()` parses the raw
    query into keys with their values in order of appearance, `Values.Del`
    drops a key, and `Values.Encode` writes the keys back in sorted order,
    each key's values in their original order. A `url.Values` is modelled
    as the sequence of its (key, value) pairs in order of appearance: a
    key's values are the values of its pairs, in order. */
module Query {
  import opened Wrappers
  import opened Text
  import opened Escape

  type Pair = (Bytes, Bytes)

  /** The values of `key`, in order: `Values[key]` in Go. */
  function ValuesOf(ps: seq<Pair>, key: Bytes): seq<Bytes> {
    if ps == [] then []
    else ValuesOf(ps[..|ps| - 1], key) + (if ps[|ps| - 1].0 == key then [ps[|ps| - 1].1] else [])
  }

  /** A key has values exactly when some pair carries it. */
  lemma {:induction false} ValuesOfEmpty(ps: seq<Pair>, key: Bytes)
    ensures ValuesOf(ps, key) == [] <==> forall i :: 0 <= i < |ps| ==> ps[i].0 != key
  {
    if ps != [] {
      ValuesOfEmpty(ps[..|ps| - 1], key);
      assert forall i :: 0 <= i < |ps| - 1 ==> ps[..|ps| - 1][i] == ps[i];
    }
  }

  /** One `&`-separated segment of a raw query, as `url.ParseQuery` reads it:
      a segment holding `;` is rejected, an empty one skipped; otherwise the
      key is the text before the first `=` and the value the text after it,
      both query-unescaped, and the pair is dropped if either fails. */
  function ParseSegment(seg: Bytes): (r: seq<Pair>)
    ensures |r| <= 1
  {
    if ';' in seg || seg == [] then []
    else
      var (k, v, _) := Cut(seg, '=');
      match (Unescape(k), Unescape(v))
      case (Success(key), Success(value)) => [(key, value)]
      case _ => []
  }

  /** `URL.Query()`: `url.ParseQuery` with its error discarded. */
  function ParseQuery(q: Bytes): seq<Pair>
    decreases |q|
  {
    if q == [] then []
    else
      var (seg, rest, _) := Cut(q, '&');
      ParseSegment(seg) + ParseQuery(rest)
  }

  /** `Values.Del(key)`: every pair with that key is gone, the others keep
      their order. */
  function Del(ps: seq<Pair>, key: Bytes): (r: seq<Pair>)
    ensures forall i :: 0 <= i < |r| ==> r[i].0 != key
    ensures forall k :: k != key ==> ValuesOf(r, k) == ValuesOf(ps, k)
    ensures |r| <= |ps|
  {
    if ps == [] then []
    else
      var init := Del(ps[..|ps| - 1], key);
      var last := ps[|ps| - 1];
      if last.0 == key then init else init + [last]
  }

  /** Keys in non-decreasing byte-wise order, neighbour by neighbour. */
  predicate KeysSorted(ps: seq<Pair>) {
    forall i :: 0 < i < |ps| ==> LessEq(ps[i - 1].0, ps[i].0)
  }

  /** Insert `p` after every pair whose key is not above its own: one step of
      a stable sort by key. */
  function Insert(ps: seq<Pair>, p: Pair): (r: seq<Pair>)
    ensures |r| == |ps| + 1
    ensures r[|r| - 1] == p || (ps != [] && r[|r| - 1] == ps[|ps| - 1])
    ensures multiset(r) == multiset(ps) + multiset{p}
  {
    if ps == [] || LessEq(ps[|ps| - 1].0, p.0) then ps + [p]
    else
      var init := ps[..|ps| - 1];
      assert ps == init + [ps[|ps| - 1]];
      Insert(init, p) + [ps[|ps| - 1]]
  }

  lemma {:induction false} InsertSorted(ps: seq<Pair>, p: Pair)
    requires KeysSorted(ps)
    ensures KeysSorted(Insert(ps, p))
  {
    if ps != [] && !LessEq(ps[|ps| - 1].0, p.0) {
      var init := ps[..|ps| - 1];
      var last := ps[|ps| - 1];
      assert KeysSorted(init) by {
        assert forall i :: 0 <= i < |init| ==> init[i] == ps[i];
      }
      InsertSorted(init, p);
      var mid := Insert(init, p);
      LessEqTotal(last.0, p.0);
      assert LessEq(mid[|mid| - 1].0, last.0);
    }
  }

  lemma {:induction false} InsertValues(ps: seq<Pair>, p: Pair, key: Bytes)
    ensures ValuesOf(Insert(ps, p), key) == ValuesOf(ps, key) + (if p.0 == key then [p.1] else [])
  {
    if ps == [] || LessEq(ps[|ps| - 1].0, p.0) {
      assert (ps + [p])[..|ps|] == ps;
    } else {
      var init := ps[..|ps| - 1];
      var last := ps[|ps| - 1];
      var r := Insert(init, p) + [last];
      InsertValues(init, p, key);
      assert r[..|r| - 1] == Insert(init, p);
      if last.0 == p.0 {
        LessEqReflexive(p.0);
      }
    }
  }

  /** The pairs ordered by key, pairs with equal keys in their original
      order: the order in which `Values.Encode` writes them. */
  function SortByKey(ps: seq<Pair>): seq<Pair> {
    if ps == [] then [] else Insert(SortByKey(ps[..|ps| - 1]), ps[|ps| - 1])
  }

  /** SortByKey sorts the keys, keeps every pair, and keeps each key's
      values in their original order. */
  lemma {:induction false} SortByKeySpec(ps: seq<Pair>)
    ensures KeysSorted(SortByKey(ps))
    ensures multiset(SortByKey(ps)) == multiset(ps)
    ensures forall key :: ValuesOf(SortByKey(ps), key) == ValuesOf(ps, key)
  {
    SortByKeySorted(ps);
    SortByKeyPermutes(ps);
    forall key
      ensures ValuesOf(SortByKey(ps), key) == ValuesOf(ps, key)
    {
      SortByKeyValues(ps, key);
    }
  }

  lemma {:induction false} SortByKeySorted(ps: seq<Pair>)
    ensures KeysSorted(SortByKey(ps))
  {
    if ps != [] {
      SortByKeySorted(ps[..|ps| - 1]);
      InsertSorted(SortByKey(ps[..|ps| - 1]), ps[|ps| - 1]);
    }
  }

  lemma {:induction false} SortByKeyPermutes(ps: seq<Pair>)
    ensures multiset(SortByKey(ps)) == multiset(ps)
  {
    if ps != [] {
      SortByKeyPermutes(ps[..|ps| - 1]);
      assert ps == ps[..|ps| - 1] + [ps[|ps| - 1]];
    }
  }

  lemma {:induction false} SortByKeyValues(ps: seq<Pair>, key: Bytes)
    ensures ValuesOf(SortByKey(ps), key) == ValuesOf(ps, key)
  {
    if ps != [] {
      SortByKeyValues(ps[..|ps| - 1], key);
      InsertValues(SortByKey(ps[..|ps| - 1]), ps[|ps| - 1], key);
    }
  }

  /** One pair as `Values.Encode` writes it. */
  function EncodePair(p: Pair): Bytes {
    QueryEscape(p.0) + "=" + QueryEscape(p.1)
  }

  /** Encoded pairs joined with `&`, in the given order. */
  function JoinPairs(ps: seq<Pair>): Bytes {
    if ps == [] then []
    else if |ps| == 1 then EncodePair(ps[0])
    else EncodePair(ps[0]) + "&" + JoinPairs(ps[1..])
  }

  /** `Values.Encode`. */
  function Encode(ps: seq<Pair>): Bytes {
    JoinPairs(SortByKey(ps))
  }

  lemma {:induction false} ParseEncodedPair(p: Pair)
    ensures '&' !in EncodePair(p)
    ensures ParseSegment(EncodePair(p)) == [p]
  {
    var k := QueryEscape(p.0);
    var v := QueryEscape(p.1);
    assert EncodePair(p) == k + ['='] + v;
    CutJoin(k, '=', v);
    UnescapeEscape(p.0);
    UnescapeEscape(p.1);
  }

  /** Reading back joined pairs gives the same pairs in the same order. */
  lemma {:induction false} ParseJoinPairs(ps: seq<Pair>)
    ensures ParseQuery(JoinPairs(ps)) == ps
  {
    if ps != [] {
      ParseEncodedPair(ps[0]);
      if |ps| == 1 {
        assert ParseQuery([]) == [];
      } else {
        ParseJoinPairs(ps[1..]);
        CutJoin(EncodePair(ps[0]), '&', JoinPairs(ps[1..]));
        assert EncodePair(ps[0]) + "&" + JoinPairs(ps[1..]) == EncodePair(ps[0]) + ['&'] + JoinPairs(ps[1..]);
        assert [ps[0]] + ps[1..] == ps;
      }
    }
  }

  /** The round trip of `Values.Encode`: parsing the encoded query yields the
      pairs sorted by key, so every key keeps exactly its values in their
      original order. */
  lemma {:induction false} ParseEncode(ps: seq<Pair>)
    ensures ParseQuery(Encode(ps)) == SortByKey(ps)
    ensures KeysSorted(ParseQuery(Encode(ps)))
    ensures forall key :: ValuesOf(ParseQuery(Encode(ps)), key) == ValuesOf(ps, key)
  {
    ParseJoinPairs(SortByKey(ps));
    SortByKeySpec(ps);
  }
}
