/** A hand-written matcher for the expression of `Pattern`, returning the
    third capture group, the one `cleanURL` unescapes. */
module Redirector {
  import opened Wrappers
  import opened Text
  import opened Pattern

  lemma {:induction false} PrefixAtIndex(s: Bytes, i: nat, p: Bytes, t: nat)
    requires PrefixAt(s, i, p) && t < |p|
    ensures i + t < |s| && s[i + t] == p[t]
    decreases t
  {
    if t > 0 {
      PrefixAtIndex(s, i + 1, p[1..], t - 1);
    }
  }

  lemma {:induction false} PrefixAtConcat(s: Bytes, i: nat, a: Bytes, b: Bytes)
    ensures PrefixAt(s, i, a + b) <==> PrefixAt(s, i, a) && PrefixAt(s, i + |a|, b)
    decreases |a|
  {
    if a == [] {
      assert a + b == b;
    } else {
      assert (a + b)[0] == a[0];
      assert (a + b)[1..] == a[1..] + b;
      PrefixAtConcat(s, i + 1, a[1..], b);
    }
  }

  /** The scheme is `https://` exactly when `s` follows `http` with `s`. */
  lemma {:induction false} SchemeDetermined(s: Bytes, i: nat, https: bool)
    requires PrefixAt(s, i, Scheme(https))
    ensures https == PrefixAt(s, i, Scheme(true))
  {
    if https {
      assert PrefixAt(s, i, Scheme(true));
    } else {
      PrefixAtIndex(s, i, Scheme(https), 4);
    }
  }

  /** `www.` is there exactly when the byte after the scheme is `w`: the host
      that follows otherwise starts with `l` or `o`. */
  lemma {:induction false} WwwDetermined(s: Bytes, j: nat, www: bool, out: bool, rest: Bytes)
    requires PrefixAt(s, j, Www(www) + (Host(out) + rest))
    ensures www == PrefixAt(s, j, Www(true))
  {
    PrefixAtConcat(s, j, Www(www), Host(out) + rest);
    if !www {
      assert Www(www) + (Host(out) + rest) == Host(out) + rest;
      PrefixAtIndex(s, j, Host(out) + rest, 0);
      assert (Host(out) + rest)[0] == Host(out)[0];
    }
  }

  /** The host is `out` exactly when its first byte is `o`. */
  lemma {:induction false} HostDetermined(s: Bytes, j: nat, out: bool, rest: Bytes)
    requires PrefixAt(s, j, Host(out) + rest)
    ensures out == PrefixAt(s, j, Host(true))
  {
    PrefixAtConcat(s, j, Host(out), rest);
    if !out {
      PrefixAtIndex(s, j, Host(out), 0);
    }
  }

  /** The prefix choice the bytes at `i` point to: `s` after `http`, `w`
      after the scheme, `o` before `.google`. */
  function Reading(s: Bytes, i: nat): (bool, bool, bool) {
    var https := PrefixAt(s, i, Scheme(true));
    var www := PrefixAt(s, i + |Scheme(https)|, Www(true));
    var out := PrefixAt(s, i + |Scheme(https)| + |Www(www)|, Host(true));
    (https, www, out)
  }

  /** At most one of the eight prefixes matches at a position: the one the
      bytes point to. */
  lemma {:induction false} PrefixDetermined(s: Bytes, i: nat, https: bool, www: bool, out: bool)
    requires PrefixAt(s, i, Prefix(https, www, out))
    ensures Reading(s, i) == (https, www, out)
  {
    PartsDetermined(s, i, https, www, out, ".google.com/url?");
  }

  lemma {:induction false} PartsDetermined(s: Bytes, i: nat, https: bool, www: bool, out: bool, tail: Bytes)
    requires PrefixAt(s, i, Scheme(https) + (Www(www) + (Host(out) + tail)))
    ensures Reading(s, i) == (https, www, out)
  {
    var rest := Host(out) + tail;
    PrefixAtConcat(s, i, Scheme(https), Www(www) + rest);
    SchemeDetermined(s, i, https);
    var j := i + |Scheme(https)|;
    WwwDetermined(s, j, www, out, tail);
    PrefixAtConcat(s, j, Www(www), rest);
    HostDetermined(s, j + |Www(www)|, out, tail);
  }

  /** Which of the eight prefixes matches at `i`, found the way the
      expression reads it: `s?` first, then `(www\.)?`, then `l` or `out`. */
  function PrefixChoice(s: Bytes, i: nat): (r: Option<(bool, bool, bool)>)
    ensures r.Some? ==> PrefixAt(s, i, Prefix(r.value.0, r.value.1, r.value.2))
    ensures r.None? ==> forall https, www, out :: !PrefixAt(s, i, Prefix(https, www, out))
  {
    var c := Reading(s, i);
    if PrefixAt(s, i, Prefix(c.0, c.1, c.2)) then Some(c)
    else
      NoOtherPrefix(s, i);
      None
  }

  /** When the prefix the bytes point to is absent, no prefix is present. */
  lemma {:induction false} NoOtherPrefix(s: Bytes, i: nat)
    requires var c := Reading(s, i); !PrefixAt(s, i, Prefix(c.0, c.1, c.2))
    ensures forall h, w, o :: !PrefixAt(s, i, Prefix(h, w, o))
  {
    forall h, w, o | PrefixAt(s, i, Prefix(h, w, o))
      ensures false
    {
      PrefixDetermined(s, i, h, w, o);
    }
  }

  /** A match starts inside the string, and its `url=` is followed by a
      byte other than `&`. */
  lemma {:induction false} MatchInside(s: Bytes, i: nat, k: nat)
    requires MatchAt(s, i, k)
    ensures i < |s|
    ensures ParamAt(s, k)
  {
    var h, w, o :| MatchWith(s, i, k, h, w, o);
    assert |Prefix(h, w, o)| > 0;
  }

  /** The lazy `.*?url=` step: the first `k` from `j` on, reached without
      crossing a newline, at which a `url=` with a non-empty value stands. */
  function LazyParam(s: Bytes, j: nat): (r: Option<nat>)
    requires j <= |s|
    decreases |s| - j
    ensures r.Some? ==> j <= r.value <= |s| && ParamAt(s, r.value) && NoNewline(s, j, r.value)
    ensures r.Some? ==> forall k :: j <= k < r.value ==> !ParamAt(s, k)
    ensures r.None? ==> forall k :: j <= k <= |s| && NoNewline(s, j, k) ==> !ParamAt(s, k)
  {
    if ParamAt(s, j) then Some(j)
    else if j < |s| && s[j] != '\n' then LazyParam(s, j + 1)
    else None
  }

  /** The match, if any, that starts at `i`: its `url=` position. */
  function MatchStartingAt(s: Bytes, i: nat): (r: Option<nat>)
    ensures r.Some? ==> MatchAt(s, i, r.value)
    ensures r.Some? ==> forall k: nat :: k < r.value ==> !MatchAt(s, i, k)
    ensures r.None? ==> forall k: nat :: !MatchAt(s, i, k)
  {
    match PrefixChoice(s, i)
    case None => None
    case Some((h, w, o)) =>
      LazyParamIsFirstMatch(s, i, h, w, o);
      LazyParam(s, i + |Prefix(h, w, o)|)
  }

  /** Once the prefix at `i` is known, the matches starting at `i` are
      exactly the `url=` positions the lazy step can reach. */
  lemma {:induction false} LazyParamIsFirstMatch(s: Bytes, i: nat, h: bool, w: bool, o: bool)
    requires PrefixAt(s, i, Prefix(h, w, o))
    ensures var r := LazyParam(s, i + |Prefix(h, w, o)|);
            && (r.Some? ==> MatchAt(s, i, r.value))
            && (forall k: nat :: MatchAt(s, i, k) ==> r.Some? && r.value <= k)
  {
    var r := LazyParam(s, i + |Prefix(h, w, o)|);
    forall k: nat | MatchAt(s, i, k)
      ensures r.Some? && r.value <= k
    {
      var h', w', o' :| MatchWith(s, i, k, h', w', o');
      PrefixDetermined(s, i, h, w, o);
      PrefixDetermined(s, i, h', w', o');
    }
    if r.Some? {
      assert MatchWith(s, i, r.value, h, w, o);
    }
  }

  /** Leftmost start from `i` on: the start and the `url=` position. */
  function MatchFrom(s: Bytes, i: nat): (r: Option<(nat, nat)>)
    requires i <= |s|
    decreases |s| - i
    ensures r.Some? ==> i <= r.value.0 < |s|
  {
    var m := MatchStartingAt(s, i);
    if m.Some? then
      MatchInside(s, i, m.value);
      Some((i, m.value))
    else if i < |s| then MatchFrom(s, i + 1)
    else None
  }

  /** The search from `i` finds the leftmost start from `i` on and, there,
      the earliest `url=`; when it finds nothing, no match starts from `i`
      on. */
  lemma {:induction false} MatchFromSpec(s: Bytes, i: nat)
    requires i <= |s|
    decreases |s| - i
    ensures var r := MatchFrom(s, i);
            && (r.Some? ==> MatchAt(s, r.value.0, r.value.1))
            && (r.Some? ==> forall i': nat, k: nat :: i <= i' < r.value.0 ==> !MatchAt(s, i', k))
            && (r.Some? ==> forall k: nat :: k < r.value.1 ==> !MatchAt(s, r.value.0, k))
            && (r.None? ==> forall i': nat, k: nat :: i <= i' ==> !MatchAt(s, i', k))
  {
    var m := MatchStartingAt(s, i);
    if m.Some? {
      assert MatchFrom(s, i).value == (i, m.value);
    } else {
      if i < |s| {
        MatchFromSpec(s, i + 1);
        var r := MatchFrom(s, i + 1);
        assert MatchFrom(s, i) == r;
        forall i': nat, k: nat | i <= i' && (r.None? || i' < r.value.0)
          ensures !MatchAt(s, i', k)
        {
          if i' == i {
            assert !MatchAt(s, i, k);
          } else {
            assert i + 1 <= i';
          }
        }
      } else {
        forall i': nat, k: nat | MatchAt(s, i', k)
          ensures i' < |s|
        {
          MatchInside(s, i', k);
        }
      }
    }
  }

  /** The end of the longest run of bytes other than `&` from `c` on. */
  function RunEnd(s: Bytes, c: nat): (e: nat)
    requires c <= |s|
    decreases |s| - c
    ensures c <= e <= |s|
    ensures forall m :: c <= m < e ==> s[m] != '&'
    ensures e == |s| || s[e] == '&'
  {
    if c == |s| || s[c] == '&' then c else RunEnd(s, c + 1)
  }

  /** `FindStringSubmatch(s)[3]`, when the expression matches `s`. */
  function FindTarget(s: Bytes): (r: Option<Bytes>)
    ensures r.None? <==> forall i: nat, k: nat :: !MatchAt(s, i, k)
    ensures r.Some? ==> exists i: nat, k: nat :: PreferredMatch(s, i, k) && k + 4 < |s|
                                                && r.value == s[k + 4..RunEnd(s, k + 4)]
    ensures r.Some? ==> r.value != [] && '&' !in r.value
  {
    var m := MatchFrom(s, 0);
    MatchFromSpec(s, 0);
    if m.None? then None
    else
      var k := m.value.1;
      LeftmostIsPreferred(s, m.value.0, k);
      Some(s[k + 4..RunEnd(s, k + 4)])
  }

  /** The search from the start of `s` stops at its preferred match. */
  lemma {:induction false} MatchFromFindsPreferred(s: Bytes, i: nat, k: nat)
    requires PreferredMatch(s, i, k)
    ensures MatchFrom(s, 0) == Some((i, k))
  {
    MatchFromSpec(s, 0);
    var m := MatchFrom(s, 0);
    if m.None? {
      assert false;
    }
    assert PreferredMatch(s, m.value.0, m.value.1);
    PreferredMatchUnique(s, i, k, m.value.0, m.value.1);
  }

  /** The leftmost match from the start of `s` is the preferred one, and
      its capture is the run of non-`&` bytes after its `url=`, at least one
      byte long. */
  lemma {:induction false} LeftmostIsPreferred(s: Bytes, i: nat, k: nat)
    requires MatchFrom(s, 0).Some? && MatchFrom(s, 0).value.0 == i && MatchFrom(s, 0).value.1 == k
    ensures k + 4 < |s|
    ensures exists i': nat, k': nat :: PreferredMatch(s, i', k') && k' + 4 < |s|
                                      && s[k + 4..RunEnd(s, k + 4)] == s[k' + 4..RunEnd(s, k' + 4)]
    ensures s[k + 4..RunEnd(s, k + 4)] != [] && '&' !in s[k + 4..RunEnd(s, k + 4)]
  {
    MatchFromSpec(s, 0);
    MatchInside(s, i, k);
    assert PreferredMatch(s, i, k);
    var t := s[k + 4..RunEnd(s, k + 4)];
    assert t[0] == s[k + 4];
    forall m | 0 <= m < |t|
      ensures t[m] != '&'
    {
      assert t[m] == s[k + 4 + m];
    }
  }
}
