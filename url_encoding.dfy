/** `urllib.parse.urlencode` as `src/crawler.py` calls it (values passed
    through `quote_plus`), and its inverse `parse_qsl`: percent-encoding as in
    section 2.1 of RFC 3986 with the space written as `+`, as in the
    `application/x-www-form-urlencoded` format. */
module UrlEncoding {
  import opened Wrappers
  import opened Text
  import Utf8

  type byte = Utf8.byte

  /** The bytes `quote` never escapes: ASCII letters, digits and `_.-~`. */
  predicate IsAlwaysSafe(b: byte)
  {
    ('A' as int <= b <= 'Z' as int) || ('a' as int <= b <= 'z' as int)
    || ('0' as int <= b <= '9' as int)
    || b == '_' as int || b == '.' as int || b == '-' as int || b == '~' as int
  }

  const HexDigits: string := "0123456789ABCDEF"

  /** One byte as `quote_plus` writes it: itself when always safe, `+` for a
      space, otherwise `%` and two upper-case hexadecimal digits. */
  function QuoteByte(b: byte): string
  {
    if IsAlwaysSafe(b) then [b as char]
    else if b == 0x20 then "+"
    else ['%', HexDigits[b / 16], HexDigits[b % 16]]
  }

  /** The characters an encoded byte may consist of. */
  predicate IsQuotedChar(c: char)
  {
    (c as int < 0x80 && IsAlwaysSafe(c as int)) || c == '+' || c == '%'
  }

  function QuoteBytes(bs: seq<byte>): (r: string)
    ensures forall k :: 0 <= k < |r| ==> IsQuotedChar(r[k])
  {
    if bs == [] then "" else QuoteByte(bs[0]) + QuoteBytes(bs[1..])
  }

  /** `quote_plus(s)`: the UTF-8 bytes of `s`, each written by `QuoteByte`. */
  function QuotePlus(s: string): string
  {
    QuoteBytes(Utf8.Encode(s))
  }

  function HexValue(c: char): (v: Option<nat>)
    ensures v.Some? ==> v.value < 16
  {
    if '0' <= c <= '9' then Some(c as int - '0' as int)
    else if 'A' <= c <= 'F' then Some(c as int - 'A' as int + 10)
    else if 'a' <= c <= 'f' then Some(c as int - 'a' as int + 10)
    else None
  }

  /** The bytes `unquote_plus` reads from `t`: `+` is a space, `%` with two
      hexadecimal digits is that byte, anything else (a stray `%` included)
      stands for its own UTF-8 encoding. */
  function UnquoteBytes(t: string): seq<byte>
    decreases |t|
  {
    if t == [] then []
    else if t[0] == '+' then [0x20] + UnquoteBytes(t[1..])
    else if t[0] == '%' && |t| >= 3 && HexValue(t[1]).Some? && HexValue(t[2]).Some? then
      [HexValue(t[1]).value * 16 + HexValue(t[2]).value] + UnquoteBytes(t[3..])
    else Utf8.EncodeChar(t[0]) + UnquoteBytes(t[1..])
  }

  /** `unquote_plus(t)`, with strict UTF-8 decoding: `None` where Python
      would substitute U+FFFD for malformed bytes. */
  function UnquotePlus(t: string): Option<string>
  {
    Utf8.Decode(UnquoteBytes(t))
  }

  lemma UnquoteAfterByte(b: byte, rest: string)
    ensures UnquoteBytes(QuoteByte(b) + rest) == [b] + UnquoteBytes(rest)
  {
    var q := QuoteByte(b);
    var t := q + rest;
    if IsAlwaysSafe(b) {
      assert t[0] == b as char && t[1..] == rest;
    } else if b == 0x20 {
      assert t[0] == '+' && t[1..] == rest;
    } else {
      var hi, lo := b as nat / 16, b as nat % 16;
      HexDigitValue(hi);
      HexDigitValue(lo);
      assert q == ['%', HexDigits[hi], HexDigits[lo]];
      assert t[0] == '%' && t[1] == HexDigits[hi] && t[2] == HexDigits[lo] && t[3..] == rest;
      assert hi * 16 + lo == b as nat;
    }
  }

  /** Each hexadecimal digit `quote` writes reads back as its value. */
  lemma HexDigitValue(d: nat)
    requires d < 16
    ensures HexValue(HexDigits[d]) == Some(d)
  {
  }

  /** Reading the bytes back from their quoted form gives the bytes. */
  lemma {:induction false} UnquoteQuoteBytes(bs: seq<byte>)
    ensures UnquoteBytes(QuoteBytes(bs)) == bs
    decreases |bs|
  {
    if bs != [] {
      UnquoteQuoteBytes(bs[1..]);
      UnquoteAfterByte(bs[0], QuoteBytes(bs[1..]));
      assert [bs[0]] + bs[1..] == bs;
    }
  }

  /** `unquote_plus(quote_plus(s)) == s` for every string. */
  lemma UnquotePlusQuotePlus(s: string)
    ensures UnquotePlus(QuotePlus(s)) == Some(s)
  {
    UnquoteQuoteBytes(Utf8.Encode(s));
    Utf8.DecodeEncode(s);
  }

  /** The quoted form never contains the delimiters of a query string. */
  lemma QuotePlusHasNoDelimiters(s: string)
    ensures Free(QuotePlus(s), {'&', '=', '#', '\t', '\r', '\n'})
  {
  }

  function EncodePair(p: (string, string)): string
  {
    QuotePlus(p.0) + "=" + QuotePlus(p.1)
  }

  function EncodePairs(ps: seq<(string, string)>): (parts: seq<string>)
    ensures |parts| == |ps|
    ensures forall i :: 0 <= i < |ps| ==> parts[i] == EncodePair(ps[i])
  {
    if ps == [] then [] else [EncodePair(ps[0])] + EncodePairs(ps[1..])
  }

  /** `urlencode(ps)` for an ordered dictionary of string keys and values. */
  function UrlEncode(ps: seq<(string, string)>): string
  {
    Join(EncodePairs(ps), "&")
  }

  /** `urlencode` writes no `#` and no tab, carriage return or line feed, so
      its result can stand as the query of a URL; it is empty only for no
      pairs. */
  lemma UrlEncodeIsQuery(ps: seq<(string, string)>)
    ensures Free(UrlEncode(ps), {'#', '\t', '\r', '\n'})
    ensures ps != [] ==> UrlEncode(ps) != ""
  {
    var parts := EncodePairs(ps);
    forall i | 0 <= i < |parts|
      ensures Free(parts[i], {'#', '\t', '\r', '\n'})
    {
      QuotePlusHasNoDelimiters(ps[i].0);
      QuotePlusHasNoDelimiters(ps[i].1);
    }
    JoinFree(parts, "&", {'#', '\t', '\r', '\n'});
    if ps != [] {
      SplitEncodedPair(ps[0]);
      if |parts| > 1 {
        assert |Join(parts, "&")| >= |parts[0]|;
      }
    }
  }

  /** `name_value.split('=', 1)`, with a missing value read as `''` (as
      `parse_qsl` does with `keep_blank_values=True`). */
  function SplitNameValue(s: string): (string, string)
  {
    var parts := Split(s, {'='});
    (parts[0], Join(parts[1..], "="))
  }

  function ParsePairs(parts: seq<string>): Option<seq<(string, string)>>
  {
    if parts == [] then Some([])
    else if parts[0] == "" then ParsePairs(parts[1..])
    else
      var nv := SplitNameValue(parts[0]);
      match (UnquotePlus(nv.0), UnquotePlus(nv.1), ParsePairs(parts[1..]))
      case (Some(n), Some(v), Some(rest)) => Some([(n, v)] + rest)
      case _ => None
  }

  /** `parse_qsl(query, keep_blank_values=True)`: split on `&`, skip empty
      fields, split each field at its first `=` and unquote both halves. */
  function ParseQuery(query: string): Option<seq<(string, string)>>
  {
    ParsePairs(Split(query, {'&'}))
  }

  lemma SplitEncodedPair(p: (string, string))
    ensures EncodePair(p) != ""
    ensures SplitNameValue(EncodePair(p)) == (QuotePlus(p.0), QuotePlus(p.1))
  {
    var k, v := QuotePlus(p.0), QuotePlus(p.1);
    QuotePlusHasNoDelimiters(p.0);
    QuotePlusHasNoDelimiters(p.1);
    assert Free(k, {'='}) && Free(v, {'='});
    assert EncodePair(p) == k + ['='] + v;
    SplitAfterPart(k, '=', v, {'='});
    SplitOfFree(v, {'='});
    assert Split(EncodePair(p), {'='})[1..] == [v];
  }

  lemma {:induction false} ParseEncodedPairs(ps: seq<(string, string)>)
    ensures ParsePairs(EncodePairs(ps)) == Some(ps)
    decreases |ps|
  {
    if ps != [] {
      var p, tail := ps[0], ps[1..];
      var part, rest := EncodePair(p), EncodePairs(tail);
      assert EncodePairs(ps) == [part] + rest;
      ParseEncodedPairs(tail);
      assert ParsePairs([part] + rest) == Some([p] + tail) by {
        SplitEncodedPair(p);
        UnquotePlusQuotePlus(p.0);
        UnquotePlusQuotePlus(p.1);
        assert ([part] + rest)[0] == part && ([part] + rest)[1..] == rest;
      }
      assert [p] + tail == ps;
    }
  }

  /** Decoding the query `urlencode` writes gives back every key and value,
      in order. */
  lemma ParseQueryUrlEncode(ps: seq<(string, string)>)
    ensures ParseQuery(UrlEncode(ps)) == Some(ps)
  {
    if ps == [] {
      assert Split("", {'&'}) == [""];
    } else {
      var parts := EncodePairs(ps);
      forall i | 0 <= i < |parts|
        ensures Free(parts[i], {'&'})
      {
        QuotePlusHasNoDelimiters(ps[i].0);
        QuotePlusHasNoDelimiters(ps[i].1);
      }
      SplitJoin(parts, '&', {'&'});
      ParseEncodedPairs(ps);
    }
  }
}
