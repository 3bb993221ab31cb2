/** The few operations on Python `str` values that the crawler relies on:
    `strip()`, `split(sep)` and `sep.join(parts)`. */
module Text {

  /** Python's `str.isspace()` for one character: the Unicode characters whose
      bidirectional class is WS, B or S, or whose category is Zs. */
  predicate IsSpace(c: char)
  {
    var n := c as int;
    (0x09 <= n <= 0x0D) || (0x1C <= n <= 0x20) || n == 0x85 || n == 0xA0
    || n == 0x1680 || (0x2000 <= n <= 0x200A) || n == 0x2028 || n == 0x2029
    || n == 0x202F || n == 0x205F || n == 0x3000
  }

  /** `s.lstrip()`: the suffix of `s` left after dropping leading whitespace. */
  function LStrip(s: string): (r: string)
    ensures |r| <= |s| && r == s[|s| - |r|..]
    ensures forall k :: 0 <= k < |s| - |r| ==> IsSpace(s[k])
    ensures r != [] ==> !IsSpace(r[0])
    decreases |s|
  {
    if s != [] && IsSpace(s[0]) then LStrip(s[1..]) else s
  }

  /** `s.rstrip()`: the prefix of `s` left after dropping trailing whitespace. */
  function RStrip(s: string): (r: string)
    ensures |r| <= |s| && r == s[..|r|]
    ensures forall k :: |r| <= k < |s| ==> IsSpace(s[k])
    ensures r != [] ==> !IsSpace(r[|r| - 1])
    decreases |s|
  {
    if s != [] && IsSpace(s[|s| - 1]) then RStrip(s[..|s| - 1]) else s
  }

  /** `s.strip()`. */
  function Strip(s: string): string
  {
    RStrip(LStrip(s))
  }

  /** What `strip()` leaves: a slice of `s` with only whitespace cut away on
      either side, which neither starts nor ends with whitespace. */
  lemma StripIsTrimmedSlice(s: string)
    ensures exists i, j ::
              && 0 <= i <= j <= |s| && Strip(s) == s[i..j]
              && (forall k :: 0 <= k < i ==> IsSpace(s[k]))
              && (forall k :: j <= k < |s| ==> IsSpace(s[k]))
    ensures Strip(s) != [] ==> !IsSpace(Strip(s)[0]) && !IsSpace(Strip(s)[|Strip(s)| - 1])
  {
    var i, j := StripSlice(s);
    StripTrailing(s, i, j);
    StripEnds(s);
  }

  /** Where `strip()` cuts: after the leading whitespace `lstrip()` drops. */
  lemma StripSlice(s: string) returns (i: nat, j: nat)
    ensures i == |s| - |LStrip(s)| && j == i + |Strip(s)|
    ensures forall k :: 0 <= k < i ==> IsSpace(s[k])
    ensures j <= |s| && Strip(s) == s[i..j]
  {
    var l := LStrip(s);
    var r := RStrip(l);
    i := |s| - |l|;
    j := i + |r|;
    assert l == s[i..] && r == l[..|r|];
  }

  lemma StripTrailing(s: string, i: nat, j: nat)
    requires i == |s| - |LStrip(s)| && j == i + |Strip(s)|
    ensures forall k :: j <= k < |s| ==> IsSpace(s[k])
  {
    var l := LStrip(s);
    assert forall k :: i <= k < |s| ==> s[k] == l[k - i];
  }

  lemma StripEnds(s: string)
    ensures Strip(s) != [] ==> !IsSpace(Strip(s)[0]) && !IsSpace(Strip(s)[|Strip(s)| - 1])
  {
    var l := LStrip(s);
    var r := RStrip(l);
    if r != [] {
      assert r[0] == l[0];
    }
  }

  /** Stripping a stripped string changes nothing. */
  lemma StripIdempotent(s: string)
    ensures Strip(Strip(s)) == Strip(s)
  {
    var t := Strip(s);
    StripIsTrimmedSlice(s);
    assert LStrip(t) == t;
    assert RStrip(t) == t;
  }

  /** `s.split(sep)` generalised to a set of one-character separators: the
      maximal runs of non-separator characters, always at least one (possibly
      empty) part. */
  function Split(s: string, seps: set<char>): (parts: seq<string>)
    ensures |parts| >= 1
    ensures forall i :: 0 <= i < |parts| ==> Free(parts[i], seps)
    decreases |s|
  {
    if s == [] then [""]
    else
      var rest := Split(s[1..], seps);
      if s[0] in seps then [""] + rest
      else [[s[0]] + rest[0]] + rest[1..]
  }

  /** `sep.join(parts)`. */
  function Join(parts: seq<string>, sep: string): string
  {
    if parts == [] then ""
    else if |parts| == 1 then parts[0]
    else parts[0] + sep + Join(parts[1..], sep)
  }

  predicate Free(s: string, seps: set<char>)
  {
    forall k :: 0 <= k < |s| ==> s[k] !in seps
  }

  lemma {:induction false} SplitAfterPart(p: string, c: char, t: string, seps: set<char>)
    requires c in seps && Free(p, seps)
    ensures Split(p + [c] + t, seps) == [p] + Split(t, seps)
    decreases |p|
  {
    if p == [] {
      assert p + [c] + t == [c] + t;
      assert ([c] + t)[1..] == t;
    } else {
      SplitAfterPart(p[1..], c, t, seps);
      assert (p + [c] + t)[1..] == p[1..] + [c] + t;
      assert [p[0]] + p[1..] == p;
    }
  }

  lemma {:induction false} SplitOfFree(p: string, seps: set<char>)
    requires Free(p, seps)
    ensures Split(p, seps) == [p]
    decreases |p|
  {
    if p != [] {
      SplitOfFree(p[1..], seps);
      assert [p[0]] + p[1..] == p;
    }
  }

  /** Joining parts free of some characters with a separator free of them
      gives a string free of them. */
  lemma {:induction false} JoinFree(parts: seq<string>, sep: string, seps: set<char>)
    requires forall i :: 0 <= i < |parts| ==> Free(parts[i], seps)
    requires Free(sep, seps)
    ensures Free(Join(parts, sep), seps)
    decreases |parts|
  {
    if |parts| > 1 {
      JoinFree(parts[1..], sep, seps);
      var rest := Join(parts[1..], sep);
      forall k | 0 <= k < |parts[0] + sep + rest|
        ensures (parts[0] + sep + rest)[k] !in seps
      {
        if k >= |parts[0] + sep| {
          assert (parts[0] + sep + rest)[k] == rest[k - |parts[0] + sep|];
        } else if k >= |parts[0]| {
          assert (parts[0] + sep + rest)[k] == sep[k - |parts[0]|];
        }
      }
    }
  }

  /** Splitting on the separator undoes joining with it, as long as there is at
      least one part and no part contains a separator. */
  lemma {:induction false} SplitJoin(parts: seq<string>, c: char, seps: set<char>)
    requires |parts| >= 1 && c in seps
    requires forall i :: 0 <= i < |parts| ==> Free(parts[i], seps)
    ensures Split(Join(parts, [c]), seps) == parts
    decreases |parts|
  {
    if |parts| == 1 {
      SplitOfFree(parts[0], seps);
    } else {
      SplitJoin(parts[1..], c, seps);
      SplitAfterPart(parts[0], c, Join(parts[1..], [c]), seps);
      assert parts[0] + [c] + Join(parts[1..], [c]) == Join(parts, [c]);
      assert [parts[0]] + parts[1..] == parts;
    }
  }

  /** Joining with the separator undoes splitting on it. */
  lemma {:induction false} JoinSplit(s: string, c: char)
    ensures Join(Split(s, {c}), [c]) == s
    decreases |s|
  {
    if s != [] {
      var rest := Split(s[1..], {c});
      JoinSplit(s[1..], c);
      if s[0] == c {
        assert Split(s, {c}) == [""] + rest;
        assert [s[0]] + s[1..] == s;
      } else {
        var parts := Split(s, {c});
        assert parts == [[s[0]] + rest[0]] + rest[1..];
        if |rest| == 1 {
          assert [s[0]] + s[1..] == s;
        } else {
          assert rest == [rest[0]] + rest[1..];
          assert Join(rest, [c]) == rest[0] + [c] + Join(rest[1..], [c]);
          assert parts[1..] == rest[1..];
          assert [s[0]] + s[1..] == s;
        }
      }
    }
  }
}
