/** UTF-8, the character encoding `urlencode` applies to text before it
    percent-encodes the bytes (section 2.5 of RFC 3986 recommends it, and
    section 3 of RFC 3629 defines it). */
module Utf8 {
  import opened Wrappers

  type byte = x: int | 0 <= x < 256

  /** The integers Dafny's `char` can hold: the Unicode scalar values. */
  predicate IsScalar(n: int)
  {
    0 <= n < 0xD800 || 0xE000 <= n < 0x11_0000
  }

  /** The one to four bytes that encode one character. */
  function EncodeChar(c: char): (bs: seq<byte>)
    ensures 1 <= |bs| <= 4
    ensures (c as int < 0x80) == (|bs| == 1)
  {
    var n := c as int;
    if n < 0x80 then [n]
    else if n < 0x800 then [0xC0 + n / 64, 0x80 + n % 64]
    else if n < 0x1_0000 then [0xE0 + n / 4096, 0x80 + (n / 64) % 64, 0x80 + n % 64]
    else [0xF0 + n / 262144, 0x80 + (n / 4096) % 64, 0x80 + (n / 64) % 64, 0x80 + n % 64]
  }

  function Encode(s: string): seq<byte>
  {
    if s == [] then [] else EncodeChar(s[0]) + Encode(s[1..])
  }

  /** How many bytes a sequence starting with lead byte `b` has; 0 when `b`
      cannot start a sequence. */
  function SequenceLength(b: byte): nat
  {
    if b < 0x80 then 1
    else if 0xC0 <= b < 0xE0 then 2
    else if 0xE0 <= b < 0xF0 then 3
    else if 0xF0 <= b < 0xF8 then 4
    else 0
  }

  predicate IsContinuation(b: byte)
  {
    0x80 <= b < 0xC0
  }

  /** The smallest code point that needs `n` bytes; a smaller one in `n`
      bytes is an overlong form, which a strict decoder rejects. */
  function MinCodePoint(n: nat): int
  {
    if n <= 1 then 0 else if n == 2 then 0x80 else if n == 3 then 0x800 else 0x1_0000
  }

  function CodePoint(bs: seq<byte>): int
    requires 1 <= |bs| <= 4
  {
    var b0, n := bs[0] as int, |bs|;
    var b1 := if n > 1 then bs[1] as int - 0x80 else 0;
    var b2 := if n > 2 then bs[2] as int - 0x80 else 0;
    var b3 := if n > 3 then bs[3] as int - 0x80 else 0;
    if n == 1 then b0
    else if n == 2 then (b0 - 0xC0) * 64 + b1
    else if n == 3 then (b0 - 0xE0) * 4096 + b1 * 64 + b2
    else (b0 - 0xF0) * 262144 + b1 * 4096 + b2 * 64 + b3
  }

  /** Strict decoding: `None` for any byte sequence that is not well-formed
      UTF-8. */
  function Decode(bs: seq<byte>): Option<string>
    decreases |bs|
  {
    if bs == [] then Some([])
    else
      var n := SequenceLength(bs[0]);
      if n == 0 || |bs| < n || exists k :: 1 <= k < n && !IsContinuation(bs[k]) then None
      else
        var cp := CodePoint(bs[..n]);
        if cp < MinCodePoint(n) || !IsScalar(cp) then None
        else
          match Decode(bs[n..])
          case None => None
          case Some(rest) => Some([cp as char] + rest)
  }

  lemma DivMod64(x: nat)
    ensures x == (x / 64) * 64 + x % 64 && 0 <= x % 64 < 64
  {
  }

  /** The encoding of one character is a single well-formed sequence whose
      code point is the character's. */
  lemma EncodeCharIsSequence(c: char)
    ensures var e := EncodeChar(c);
            && SequenceLength(e[0]) == |e|
            && (forall k :: 1 <= k < |e| ==> IsContinuation(e[k]))
            && CodePoint(e) == c as int
            && MinCodePoint(|e|) <= c as int
  {
    var n := c as int;
    var e := EncodeChar(c);
    if n < 0x80 {
    } else if n < 0x800 {
      DivMod64(n);
      assert CodePoint(e) == (n / 64) * 64 + n % 64;
    } else if n < 0x1_0000 {
      DivMod64(n);
      DivMod64(n / 64);
      assert n / 4096 == (n / 64) / 64;
      assert CodePoint(e) == (n / 4096) * 4096 + ((n / 64) % 64) * 64 + n % 64;
    } else {
      DivMod64(n);
      DivMod64(n / 64);
      DivMod64(n / 4096);
      assert n / 4096 == (n / 64) / 64;
      assert n / 262144 == (n / 4096) / 64;
      assert n / 262144 <= 4;
      assert CodePoint(e) == (n / 262144) * 262144 + ((n / 4096) % 64) * 4096 + ((n / 64) % 64) * 64 + n % 64;
    }
  }

  lemma DecodeAfterChar(c: char, rest: seq<byte>)
    ensures Decode(EncodeChar(c) + rest) ==
            match Decode(rest)
            case None => None
            case Some(t) => Some([c] + t)
  {
    var e := EncodeChar(c);
    var bs := e + rest;
    EncodeCharIsSequence(c);
    assert bs[0] == e[0];
    assert bs[..|e|] == e;
    assert bs[|e|..] == rest;
    assert forall k :: 1 <= k < |e| ==> bs[k] == e[k];
  }

  /** Decoding undoes encoding. */
  lemma {:induction false} DecodeEncode(s: string)
    ensures Decode(Encode(s)) == Some(s)
    decreases |s|
  {
    if s != [] {
      DecodeEncode(s[1..]);
      DecodeAfterChar(s[0], Encode(s[1..]));
      assert [s[0]] + s[1..] == s;
    }
  }
}
