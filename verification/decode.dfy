/** `fullyDecode` (main.go): query-unescape again and again until a pass
    fails or changes nothing. The Go loop has no iteration cap; it stops
    because every pass that changes the string shrinks it or turns its
    `+` signs into spaces (Escape.DecodeProgress). */
module Decode {
  import opened Wrappers
  import opened Text
  import opened Escape

  /** A string on which one more decoding pass either fails or changes
      nothing: where the loop of `fullyDecode` stops. */
  predicate IsDecodeFixpoint(s: Bytes) {
    Unescape(s).Failure? || Unescape(s).value == s
  }

  function FullyDecode(s: Bytes): (r: Bytes)
    decreases |s|, PlusCount(s)
    ensures IsDecodeFixpoint(r)
    ensures |r| <= |s|
  {
    match Unescape(s)
    case Failure(_) => s
    case Success(t) =>
      if t == s then s
      else
        DecodeProgress(s);
        FullyDecode(t)
  }

  /** The loop of `fullyDecode` as written, which computes FullyDecode. */
  method FullyDecodeLoop(raw: Bytes) returns (decoded: Bytes)
    ensures IsDecodeFixpoint(decoded)
    ensures decoded == FullyDecode(raw)
  {
    decoded := raw;
    while true
      invariant FullyDecode(decoded) == FullyDecode(raw)
      decreases |decoded|, PlusCount(decoded)
    {
      var temp := Unescape(decoded);
      if temp.Failure? || temp.value == decoded {
        break;
      }
      DecodeProgress(decoded);
      decoded := temp.value;
    }
  }

  /** Running the decoder on its own output changes nothing. */
  lemma {:induction false} FullyDecodeIdempotent(s: Bytes)
    ensures FullyDecode(FullyDecode(s)) == FullyDecode(s)
  {
    var r := FullyDecode(s);
    assert IsDecodeFixpoint(r);
  }

  /** `n` rounds of `url.QueryEscape`. */
  function EscapeTimes(s: Bytes, n: nat): Bytes {
    if n == 0 then s else QueryEscape(EscapeTimes(s, n - 1))
  }

  /** Decode-loop convergence: a string query-escaped any number of times
      decodes to what the string itself decodes to. */
  lemma {:induction false} FullyDecodeAbsorbsEscaping(s: Bytes, n: nat)
    ensures FullyDecode(EscapeTimes(s, n)) == FullyDecode(s)
  {
    if n > 0 {
      var inner := EscapeTimes(s, n - 1);
      var outer := QueryEscape(inner);
      UnescapeEscape(inner);
      FullyDecodeAbsorbsEscaping(s, n - 1);
      if outer != inner {
        DecodeProgress(outer);
      }
    }
  }
}
