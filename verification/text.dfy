/** Byte strings and the `strings` package helpers the shortener uses:
    TrimSpace, Trim with a cut set, TrimPrefix, Cut, and Go's byte-wise
    string ordering. */
module Text {

  /** Go strings are byte sequences; a `Byte` is a character below 256. */
  type Byte = c: char | c as int < 256

  type Bytes = seq<Byte>

  /** The ASCII white space `strings.TrimSpace` removes:
      tab, newline, vertical tab, form feed, carriage return, space. */
  predicate IsSpace(c: Byte) {
    c == ' ' || c == '\t' || c == '\n' || c == '\U{0B}' || c == '\U{0C}' || c == '\r'
  }

  /** The cut set `"<>"` of `strings.Trim(rawURL, "<>")`. */
  predicate IsAngle(c: Byte) {
    c == '<' || c == '>'
  }

  /** Length of the longest prefix of `s` made only of `drop` bytes. */
  function LeadingRun(s: Bytes, drop: Byte -> bool): (n: nat)
    ensures n <= |s|
  {
    if s == [] || !drop(s[0]) then 0 else 1 + LeadingRun(s[1..], drop)
  }

  /** The leading run is all `drop` bytes and stops at a byte that is not. */
  lemma {:induction false} LeadingRunSpec(s: Bytes, drop: Byte -> bool)
    ensures forall k :: 0 <= k < LeadingRun(s, drop) ==> drop(s[k])
    ensures LeadingRun(s, drop) == |s| || !drop(s[LeadingRun(s, drop)])
  {
    if s != [] && drop(s[0]) {
      LeadingRunSpec(s[1..], drop);
      forall k | 0 < k < LeadingRun(s, drop)
        ensures drop(s[k])
      {
        assert s[k] == s[1..][k - 1];
      }
    }
  }

  /** Length of the longest suffix of `s` made only of `drop` bytes. */
  function TrailingRun(s: Bytes, drop: Byte -> bool): (n: nat)
    ensures n <= |s|
  {
    if s == [] || !drop(s[|s| - 1]) then 0 else 1 + TrailingRun(s[..|s| - 1], drop)
  }

  /** The trailing run is all `drop` bytes and starts after a byte that is
      not. */
  lemma {:induction false} TrailingRunSpec(s: Bytes, drop: Byte -> bool)
    ensures forall k :: |s| - TrailingRun(s, drop) <= k < |s| ==> drop(s[k])
    ensures TrailingRun(s, drop) == |s| || !drop(s[|s| - 1 - TrailingRun(s, drop)])
  {
    if s != [] && drop(s[|s| - 1]) {
      TrailingRunSpec(s[..|s| - 1], drop);
    }
  }

  /** `s` with every leading and trailing `drop` byte removed: the shape of
      Go's `strings.Trim` and `strings.TrimSpace` on bytes. */
  function Trim(s: Bytes, drop: Byte -> bool): Bytes {
    var t := s[LeadingRun(s, drop)..];
    t[..|t| - TrailingRun(t, drop)]
  }

  /** The trimmed string is the slice of `s` between a leading and a trailing
      run of `drop` bytes, and neither of its ends can be dropped. */
  lemma {:induction false} TrimSpec(s: Bytes, drop: Byte -> bool)
    ensures var r := Trim(s, drop);
            && (r == [] || (!drop(r[0]) && !drop(r[|r| - 1])))
            && LeadingRun(s, drop) + |r| <= |s|
            && s[LeadingRun(s, drop)..LeadingRun(s, drop) + |r|] == r
            && (forall k :: LeadingRun(s, drop) + |r| <= k < |s| ==> drop(s[k]))
  {
    var i := LeadingRun(s, drop);
    var t := s[i..];
    var r := t[..|t| - TrailingRun(t, drop)];
    assert s[i..i + |r|] == r;
    if r != [] {
      LeadingRunSpec(s, drop);
      assert r[0] == s[i];
      TrailingRunSpec(t, drop);
      assert r[|r| - 1] == t[|t| - 1 - TrailingRun(t, drop)];
    }
    TrimTail(s, drop);
  }

  /** What follows the trimmed string in `s` is all `drop` bytes. */
  lemma {:induction false} TrimTail(s: Bytes, drop: Byte -> bool)
    ensures var i := LeadingRun(s, drop);
            var t := s[i..];
            forall k :: i + |t| - TrailingRun(t, drop) <= k < |s| ==> drop(s[k])
  {
    var i := LeadingRun(s, drop);
    var t := s[i..];
    TrailingRunSpec(t, drop);
    forall k | i + |t| - TrailingRun(t, drop) <= k < |s|
      ensures drop(s[k])
    {
      assert s[k] == t[k - i];
    }
  }

  /** Trimming a string that already has no droppable ends changes nothing. */
  lemma {:induction false} TrimFixed(s: Bytes, drop: Byte -> bool)
    requires s == [] || (!drop(s[0]) && !drop(s[|s| - 1]))
    ensures Trim(s, drop) == s
  {
    if s != [] {
      assert LeadingRun(s, drop) == 0;
      assert TrailingRun(s, drop) == 0;
    }
  }

  /** Trimming twice is trimming once. */
  lemma {:induction false} TrimIdempotent(s: Bytes, drop: Byte -> bool)
    ensures Trim(Trim(s, drop), drop) == Trim(s, drop)
  {
    TrimSpec(s, drop);
    TrimFixed(Trim(s, drop), drop);
  }

  function TrimSpace(s: Bytes): Bytes {
    Trim(s, IsSpace)
  }

  function TrimAngles(s: Bytes): Bytes {
    Trim(s, IsAngle)
  }

  /** `strings.TrimPrefix`: drop `prefix` once if `s` starts with it. */
  function TrimPrefix(s: Bytes, prefix: Bytes): (r: Bytes)
    ensures |prefix| <= |s| && s[..|prefix|] == prefix ==> prefix + r == s
    ensures !(|prefix| <= |s| && s[..|prefix|] == prefix) ==> r == s
  {
    if |prefix| <= |s| && s[..|prefix|] == prefix then s[|prefix|..] else s
  }

  /** `strings.Cut`: the text before the first `sep`, the text after it,
      and whether `sep` occurs at all. */
  function Cut(s: Bytes, sep: Byte): (r: (Bytes, Bytes, bool))
    ensures r.2 ==> r.0 + [sep] + r.1 == s && sep !in r.0
    ensures !r.2 ==> r.0 == s && r.1 == [] && sep !in s
  {
    if s == [] then ([], [], false)
    else if s[0] == sep then ([], s[1..], true)
    else
      var rest := Cut(s[1..], sep);
      assert s == [s[0]] + s[1..];
      ([s[0]] + rest.0, rest.1, rest.2)
  }

  /** Cutting at the first separator recovers the two halves it joined. */
  lemma {:induction false} CutJoin(a: Bytes, sep: Byte, b: Bytes)
    requires sep !in a
    ensures Cut(a + [sep] + b, sep) == (a, b, true)
  {
    if a != [] {
      var s := a + [sep] + b;
      assert s[0] == a[0] && a[0] != sep;
      assert s[1..] == a[1..] + [sep] + b;
      CutJoin(a[1..], sep, b);
      assert [a[0]] + a[1..] == a;
    } else {
      assert (a + [sep] + b)[1..] == b;
    }
  }

  /** Go's `<=` on strings: byte-wise lexicographic order. */
  predicate LessEq(a: Bytes, b: Bytes) {
    a == [] || (b != [] && (a[0] < b[0] || (a[0] == b[0] && LessEq(a[1..], b[1..]))))
  }

  lemma {:induction false} LessEqReflexive(a: Bytes)
    ensures LessEq(a, a)
  {
    if a != [] {
      LessEqReflexive(a[1..]);
    }
  }

  lemma {:induction false} LessEqTotal(a: Bytes, b: Bytes)
    ensures LessEq(a, b) || LessEq(b, a)
  {
    if a != [] && b != [] && a[0] == b[0] {
      LessEqTotal(a[1..], b[1..]);
    }
  }
}
