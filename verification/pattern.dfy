/** The one regular expression of main.go,

      https?://(www\.)?(l|out)\.google\.com/url\?.*?url=([^&]+)

    used unanchored with `FindStringSubmatch`, so with Go's leftmost-first
    semantics: the earliest start position that can match wins; at that
    start the lazy `.*?` stops at the first `url=` after which `[^&]+` can
    match at least one byte, and `[^&]+` then takes the longest run of
    bytes other than `&`. In Go's syntax `.` matches any byte but a newline,
    while `[^&]` matches a newline too. This module says what a match is;
    `Redirector` finds it. */
module Pattern {
  import opened Text

  function Scheme(https: bool): Bytes {
    if https then "https://" else "http://"
  }

  function Www(www: bool): Bytes {
    if www then "www." else ""
  }

  function Host(out: bool): Bytes {
    if out then "out" else "l"
  }

  /** The string `https?://(www\.)?(l|out)\.google\.com/url\?` matches for
      one choice of each optional part and of the alternation. */
  function Prefix(https: bool, www: bool, out: bool): Bytes {
    Scheme(https) + (Www(www) + (Host(out) + ".google.com/url?"))
  }

  /** `p` stands in `s` from position `i` on, byte by byte. */
  predicate PrefixAt(s: Bytes, i: nat, p: Bytes)
    decreases |p|
  {
    i + |p| <= |s| && (p == [] || (s[i] == p[0] && PrefixAt(s, i + 1, p[1..])))
  }

  /** `url=` at `k`, followed by at least one byte other than `&`. */
  predicate ParamAt(s: Bytes, k: nat) {
    k + 4 < |s| && s[k..k + 4] == "url=" && s[k + 4] != '&'
  }

  /** No newline in `s[a..b]`: what `.*?` can skip over. */
  predicate NoNewline(s: Bytes, a: nat, b: nat)
    requires a <= b <= |s|
  {
    forall m :: a <= m < b ==> s[m] != '\n'
  }

  /** The expression matches from `i` with the given prefix choice and with
      its `url=` at `k`. */
  predicate MatchWith(s: Bytes, i: nat, k: nat, https: bool, www: bool, out: bool) {
    var p := Prefix(https, www, out);
    PrefixAt(s, i, p) && i + |p| <= k <= |s| && NoNewline(s, i + |p|, k) && ParamAt(s, k)
  }

  /** The expression matches starting at `i` with its `url=` at `k`. */
  ghost predicate MatchAt(s: Bytes, i: nat, k: nat) {
    exists https, www, out :: MatchWith(s, i, k, https, www, out)
  }

  /** The match the leftmost-first rule picks: no match starts earlier, and
      none at the same start has an earlier `url=`. */
  ghost predicate PreferredMatch(s: Bytes, i: nat, k: nat) {
    && MatchAt(s, i, k)
    && (forall i': nat, k': nat :: i' < i ==> !MatchAt(s, i', k'))
    && (forall k': nat :: k' < k ==> !MatchAt(s, i, k'))
  }

  /** At most one match is the preferred one. */
  lemma {:induction false} PreferredMatchUnique(s: Bytes, i: nat, k: nat, i': nat, k': nat)
    requires PreferredMatch(s, i, k) && PreferredMatch(s, i', k')
    ensures i == i' && k == k'
  {
  }
}
