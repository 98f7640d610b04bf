/** Go's `url.QueryUnescape` and `url.QueryEscape`: percent-encoding
    (section 2.1 of RFC 3986) in the `application/x-www-form-urlencoded`
    flavour of section 5 of the WHATWG URL Standard, where `+` stands for a
    space. */
module Escape {
  import opened Wrappers
  import opened Text

  /** The error `url.QueryUnescape` reports: the malformed escape itself,
      at most three bytes starting at the offending `%`. */
  datatype EscapeError = EscapeError(escape: Bytes)

  predicate IsHex(c: Byte) {
    ('0' <= c <= '9') || ('a' <= c <= 'f') || ('A' <= c <= 'F')
  }

  /** The value of a hexadecimal digit, either case. */
  function Unhex(c: Byte): (v: nat)
    requires IsHex(c)
    ensures v < 16
  {
    if '0' <= c <= '9' then c as int - '0' as int
    else if 'a' <= c <= 'f' then c as int - 'a' as int + 10
    else c as int - 'A' as int + 10
  }

  /** The upper-case hexadecimal digit `url.QueryEscape` writes for `v`. */
  function UpperHex(v: nat): (c: Byte)
    requires v < 16
    ensures IsHex(c) && Unhex(c) == v
    ensures c != '%' && c != '+' && c != '&' && c != '=' && c != ';'
  {
    if v < 10 then ('0' as int + v) as char else ('A' as int + v - 10) as char
  }

  /** Every `%` is followed by two hexadecimal digits: the check
      `url.QueryUnescape` makes before it decodes anything. */
  ghost predicate WellEscaped(s: Bytes) {
    forall i :: 0 <= i < |s| && s[i] == '%' ==> i + 2 < |s| && IsHex(s[i + 1]) && IsHex(s[i + 2])
  }

  /** `url.QueryUnescape`: `%XY` becomes the byte 0xXY, `+` becomes a space,
      every other byte is kept; the first malformed escape is an error. */
  function Unescape(s: Bytes): (r: Result<Bytes, EscapeError>)
    ensures r.Failure? ==> 1 <= |r.error.escape| <= 3 && r.error.escape[0] == '%'
  {
    if s == [] then Success([])
    else if s[0] == '%' then
      if |s| >= 3 && IsHex(s[1]) && IsHex(s[2]) then
        match Unescape(s[3..])
        case Success(t) => Success([(Unhex(s[1]) * 16 + Unhex(s[2])) as char] + t)
        case Failure(e) => Failure(e)
      else
        Failure(EscapeError(if |s| < 3 then s else s[..3]))
    else
      match Unescape(s[1..])
      case Success(t) => Success([if s[0] == '+' then ' ' else s[0]] + t)
      case Failure(e) => Failure(e)
  }

  /** Decoding succeeds exactly on well-escaped input. */
  lemma {:induction false} UnescapeSucceedsIff(s: Bytes)
    ensures Unescape(s).Success? <==> WellEscaped(s)
  {
    if s == [] {
    } else if s[0] == '%' {
      if |s| >= 3 && IsHex(s[1]) && IsHex(s[2]) {
        UnescapeSucceedsIff(s[3..]);
        assert forall i :: 3 <= i < |s| ==> s[i] == s[3..][i - 3];
        if WellEscaped(s[3..]) {
          forall i | 0 <= i < |s| && s[i] == '%'
            ensures i + 2 < |s| && IsHex(s[i + 1]) && IsHex(s[i + 2])
          {
            if i >= 3 {
              assert s[3..][i - 3] == '%';
            }
          }
        } else {
          var j :| 0 <= j < |s[3..]| && s[3..][j] == '%' && !(j + 2 < |s[3..]| && IsHex(s[3..][j + 1]) && IsHex(s[3..][j + 2]));
          assert s[j + 3] == '%';
        }
      } else {
        assert s[0] == '%';
      }
    } else {
      UnescapeSucceedsIff(s[1..]);
      assert forall i :: 1 <= i < |s| ==> s[i] == s[1..][i - 1];
      if WellEscaped(s[1..]) {
        forall i | 0 <= i < |s| && s[i] == '%'
          ensures i + 2 < |s| && IsHex(s[i + 1]) && IsHex(s[i + 2])
        {
          assert i >= 1 && s[1..][i - 1] == '%';
        }
      } else {
        var j :| 0 <= j < |s[1..]| && s[1..][j] == '%' && !(j + 2 < |s[1..]| && IsHex(s[1..][j + 1]) && IsHex(s[1..][j + 2]));
        assert s[j + 1] == '%';
      }
    }
  }

  /** `s` with every `+` read as a space: what decoding does to a string
      without escapes. */
  function PlusToSpace(s: Bytes): (r: Bytes)
    ensures |r| == |s|
    ensures forall i :: 0 <= i < |s| ==> r[i] == (if s[i] == '+' then ' ' else s[i])
  {
    if s == [] then [] else [if s[0] == '+' then ' ' else s[0]] + PlusToSpace(s[1..])
  }

  /** Number of `+` bytes in `s`. */
  function PlusCount(s: Bytes): nat {
    if s == [] then 0 else (if s[0] == '+' then 1 else 0) + PlusCount(s[1..])
  }

  lemma {:induction false} PlusToSpaceLeavesNoPlus(s: Bytes)
    ensures PlusCount(PlusToSpace(s)) == 0
  {
    if s != [] {
      PlusToSpaceLeavesNoPlus(s[1..]);
      assert PlusToSpace(s)[1..] == PlusToSpace(s[1..]);
    }
  }

  /** A string without `+` has nothing for PlusToSpace to change. */
  lemma {:induction false} NoPlusFixed(s: Bytes)
    requires PlusCount(s) == 0
    ensures PlusToSpace(s) == s
  {
    if s != [] {
      NoPlusFixed(s[1..]);
    }
  }

  /** Decoding never lengthens a string, and keeps its length only when
      there was no escape to decode, so that only `+` can have changed. */
  lemma {:induction false} UnescapeShrinks(s: Bytes)
    requires Unescape(s).Success?
    ensures |Unescape(s).value| <= |s|
    ensures |Unescape(s).value| == |s| ==> Unescape(s).value == PlusToSpace(s)
  {
    if s != [] {
      if s[0] == '%' {
        UnescapeShrinks(s[3..]);
      } else {
        UnescapeShrinks(s[1..]);
      }
    }
  }

  /** A decoding pass that changes its input makes progress in the order
      (length, number of `+`) compared lexicographically: the measure the
      unbounded loop of `fullyDecode` descends. */
  lemma {:induction false} DecodeProgress(s: Bytes)
    requires Unescape(s).Success? && Unescape(s).value != s
    ensures var t := Unescape(s).value;
            |t| < |s| || (|t| == |s| && PlusCount(t) < PlusCount(s))
  {
    var t := Unescape(s).value;
    UnescapeShrinks(s);
    if |t| == |s| {
      PlusToSpaceLeavesNoPlus(s);
      if PlusCount(s) == 0 {
        NoPlusFixed(s);
      }
    }
  }

  /** Bytes `url.QueryEscape` leaves alone: the unreserved characters of
      section 2.3 of RFC 3986. */
  predicate IsUnreserved(c: Byte) {
    ('a' <= c <= 'z') || ('A' <= c <= 'Z') || ('0' <= c <= '9') || c == '-' || c == '_' || c == '.' || c == '~'
  }

  /** How `url.QueryEscape` writes one byte. */
  function EscapeByte(c: Byte): Bytes {
    if IsUnreserved(c) then [c]
    else if c == ' ' then ['+']
    else ['%', UpperHex(c as int / 16), UpperHex(c as int % 16)]
  }

  /** `url.QueryEscape`. */
  function QueryEscape(s: Bytes): (r: Bytes)
    ensures '&' !in r && '=' !in r && ';' !in r
    ensures forall i :: 0 <= i < |r| ==> !IsSpace(r[i]) && r[i] != '<' && r[i] != '>'
  {
    if s == [] then [] else EscapeByte(s[0]) + QueryEscape(s[1..])
  }

  /** Unescaping undoes escaping. */
  lemma {:induction false} UnescapeEscape(s: Bytes)
    ensures Unescape(QueryEscape(s)) == Success(s)
  {
    if s != [] {
      UnescapeEscape(s[1..]);
      UnescapeEscapeByte(s[0], QueryEscape(s[1..]), s[1..]);
      assert [s[0]] + s[1..] == s;
    }
  }

  /** Unescaping reads one escaped byte back and goes on with the rest. */
  lemma {:induction false} UnescapeEscapeByte(c: Byte, rest: Bytes, t: Bytes)
    requires Unescape(rest) == Success(t)
    ensures Unescape(EscapeByte(c) + rest) == Success([c] + t)
  {
    var e := EscapeByte(c) + rest;
    if IsUnreserved(c) || c == ' ' {
      assert e[1..] == rest;
    } else {
      assert e[3..] == rest;
      assert (c as int / 16) * 16 + c as int % 16 == c as int;
    }
  }
}
