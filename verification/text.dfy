/**
  The few Python `str` operations the pipeline relies on, written out over
  `seq<char>`. Dafny characters are Unicode scalar values; the lone surrogate
  code points a Python `str` may hold have no counterpart here.
 */
module Text {

  /** `str.isspace()`: the characters `str.strip()` removes and the regex class `\s` matches. */
  predicate IsSpace(c: char) {
    ('\t' <= c <= '\r') || ('\U{1C}' <= c <= ' ')
    || c == '\U{85}' || c == '\U{A0}' || c == '\U{1680}'
    || ('\U{2000}' <= c <= '\U{200A}')
    || c == '\U{2028}' || c == '\U{2029}' || c == '\U{202F}' || c == '\U{205F}' || c == '\U{3000}'
  }

  predicate IsDigit(c: char) {
    '0' <= c <= '9'
  }

  /** Every character of `s` from position `lo` up to (not including) `hi` is white space. */
  predicate SpaceBetween(s: string, lo: int, hi: int)
    requires 0 <= lo && hi <= |s|
  {
    forall k :: lo <= k < hi ==> IsSpace(s[k])
  }

  predicate AllDigits(s: string) {
    forall k :: 0 <= k < |s| ==> IsDigit(s[k])
  }

  /** The end of the run of white space starting at `i` (also the greedy `\s*` of a regular expression). */
  function SkipSpaces(s: string, i: nat): (j: nat)
    requires i <= |s|
    ensures i <= j <= |s| && SpaceBetween(s, i, j) && (j < |s| ==> !IsSpace(s[j]))
    decreases |s| - i
  {
    if i < |s| && IsSpace(s[i]) then SkipSpaces(s, i + 1) else i
  }

  /** The start of the run of white space that ends at `j`. */
  function SkipSpacesBack(s: string, j: nat): (i: nat)
    requires j <= |s|
    ensures i <= j && SpaceBetween(s, i, j) && (i > 0 ==> !IsSpace(s[i - 1]))
    decreases j
  {
    if j > 0 && IsSpace(s[j - 1]) then SkipSpacesBack(s, j - 1) else j
  }

  /** Drops leading white space: the result is the suffix of `s` that starts at its first non-space character. */
  function TrimStart(s: string): (r: string)
    ensures |r| <= |s| && r == s[|s| - |r|..]
    ensures SpaceBetween(s, 0, |s| - |r|)
    ensures r != [] ==> !IsSpace(r[0])
  {
    s[SkipSpaces(s, 0)..]
  }

  /** Drops trailing white space: the result is the prefix of `s` that ends at its last non-space character. */
  function TrimEnd(s: string): (r: string)
    ensures |r| <= |s| && r == s[..|r|]
    ensures SpaceBetween(s, |r|, |s|)
    ensures r != [] ==> !IsSpace(r[|r| - 1])
  {
    s[..SkipSpacesBack(s, |s|)]
  }

  /** `str.strip()` with no argument. */
  function Strip(s: string): string {
    TrimEnd(TrimStart(s))
  }

  /** `r == s[i..j]` is `s` with only white space cut off either side, and neither end of `r` is white. */
  predicate IsTrimmedSlice(s: string, r: string, i: nat, j: nat) {
    i <= j <= |s| && r == s[i..j] && SpaceBetween(s, 0, i) && SpaceBetween(s, j, |s|)
    && (r != [] ==> !IsSpace(r[0]) && !IsSpace(r[|r| - 1]))
  }

  /** What `str.strip()` promises: a slice of `s` with only white space cut off either side, neither end of it white. */
  lemma StripIsTrimmedSlice(s: string)
    ensures exists i, j :: IsTrimmedSlice(s, Strip(s), i, j)
  {
    var t := TrimStart(s);
    var i := |s| - |t|;
    var r := TrimEnd(t);
    TrimmedSliceOfSuffix(s, t, r, i);
    assert IsTrimmedSlice(s, Strip(s), i, i + |r|);
  }

  lemma TrimmedSliceOfSuffix(s: string, t: string, r: string, i: nat)
    requires i <= |s| && t == s[i..] && SpaceBetween(s, 0, i) && (t != [] ==> !IsSpace(t[0]))
    requires |r| <= |t| && r == t[..|r|] && SpaceBetween(t, |r|, |t|) && (r != [] ==> !IsSpace(r[|r| - 1]))
    ensures IsTrimmedSlice(s, r, i, i + |r|)
  {
    var j := i + |r|;
    assert r == s[i..j];
    forall k | j <= k < |s|
      ensures IsSpace(s[k])
    {
      assert s[k] == t[k - i];
    }
    if r != [] {
      assert r[0] == t[0];
    }
  }

  /** A page is dropped exactly when it holds nothing but white space. */
  lemma StripEmptyIff(s: string)
    ensures Strip(s) == [] <==> SpaceBetween(s, 0, |s|)
  {
    var t := TrimStart(s);
    var i := |s| - |t|;
    if Strip(s) != [] {
      var r := Strip(s);
      assert r[0] == t[0] == s[i];
    }
  }

  /** `str.lower()` on ASCII letters; every other character is kept. */
  function LowerChar(c: char): char {
    if 'A' <= c <= 'Z' then (c as int - 'A' as int + 'a' as int) as char else c
  }

  /** ASCII lowering: capitals become small letters, every other character is kept, nothing else changes. */
  function Lower(s: string): (r: string)
    ensures |r| == |s|
    ensures forall k :: 0 <= k < |r| ==> !('A' <= r[k] <= 'Z')
    ensures forall k :: 0 <= k < |s| && !('A' <= s[k] <= 'Z') ==> r[k] == s[k]
    ensures forall k :: 0 <= k < |s| && 'A' <= s[k] <= 'Z' ==> r[k] as int == s[k] as int + 32
  {
    seq(|s|, k requires 0 <= k < |s| => LowerChar(s[k]))
  }

  /** `a` and `b` are the same character, or the same ASCII letter in either case. */
  predicate SameLetterAnyCase(a: char, b: char) {
    a == b
    || ('A' <= a <= 'Z' && b as int == a as int + 32)
    || ('A' <= b <= 'Z' && a as int == b as int + 32)
  }

  /** `s` and `t` differ at most in the ASCII case of their letters. */
  predicate SameTextAnyCase(s: string, t: string) {
    |s| == |t| && forall k :: 0 <= k < |s| ==> SameLetterAnyCase(s[k], t[k])
  }

  /** Lowering forgets ASCII case: texts that differ only in it lower to the same text. */
  lemma LowerIgnoresCase(s: string, t: string)
    requires SameTextAnyCase(s, t)
    ensures Lower(s) == Lower(t)
  {
    forall k | 0 <= k < |s| ensures Lower(s)[k] == Lower(t)[k] {
      assert SameLetterAnyCase(s[k], t[k]);
    }
  }

  predicate StartsWith(s: string, prefix: string) {
    |prefix| <= |s| && s[..|prefix|] == prefix
  }

  /** `sub` occurs in `s` starting at position `i`. */
  predicate OccursAt(s: string, sub: string, i: int) {
    0 <= i && i + |sub| <= |s| && s[i..i + |sub|] == sub
  }

  /** Python's `sub in s`, written as a scan from the left. */
  predicate Contains(s: string, sub: string)
    decreases |s|
  {
    StartsWith(s, sub) || (s != [] && Contains(s[1..], sub))
  }

  /** The scan agrees with the definition of a substring: some position where `sub` occurs. */
  lemma {:induction false} ContainsIff(s: string, sub: string)
    ensures Contains(s, sub) <==> exists i :: OccursAt(s, sub, i)
    decreases |s|
  {
    if StartsWith(s, sub) {
      assert OccursAt(s, sub, 0);
    } else if s == [] {
    } else {
      ContainsIff(s[1..], sub);
      if Contains(s[1..], sub) {
        var i :| OccursAt(s[1..], sub, i);
        assert s[1..][i..i + |sub|] == s[i + 1..i + 1 + |sub|];
        assert OccursAt(s, sub, i + 1);
      }
      if exists i :: OccursAt(s, sub, i) {
        var i :| OccursAt(s, sub, i);
        assert i != 0;
        assert s[1..][i - 1..i - 1 + |sub|] == s[i..i + |sub|];
        assert OccursAt(s[1..], sub, i - 1);
      }
    }
  }

  /** `sep.join(parts)`. */
  function Join(parts: seq<string>, sep: string): string
    decreases |parts|
  {
    if |parts| == 0 then ""
    else if |parts| == 1 then parts[0]
    else parts[0] + sep + Join(parts[1..], sep)
  }

  /** Where the `i`-th part starts in `Join(parts, sep)`: the earlier parts and one separator after each. */
  function JoinOffset(parts: seq<string>, sep: string, i: nat): nat
    requires i <= |parts|
    decreases i
  {
    if i == 0 then 0 else JoinOffset(parts, sep, i - 1) + |parts[i - 1]| + |sep|
  }

  /** Joining splits at any inner boundary: the parts before it, one separator, the parts after it. */
  lemma {:induction false} JoinSplit(parts: seq<string>, sep: string, i: nat)
    requires 0 < i < |parts|
    ensures Join(parts, sep) == Join(parts[..i], sep) + sep + Join(parts[i..], sep)
    decreases i
  {
    if i > 1 {
      var tail := parts[1..];
      JoinSplit(tail, sep, i - 1);
      assert tail[..i - 1] == parts[..i][1..];
      assert tail[i - 1..] == parts[i..];
    }
  }

  lemma {:induction false} JoinPrefixLength(parts: seq<string>, sep: string, i: nat)
    requires 0 < i <= |parts|
    ensures |Join(parts[..i], sep)| + |sep| == JoinOffset(parts, sep, i)
    decreases i
  {
    if i > 1 {
      var pre := parts[..i];
      JoinSplit(pre, sep, i - 1);
      assert pre[..i - 1] == parts[..i - 1];
      assert pre[i - 1..] == [parts[i - 1]];
      JoinPrefixLength(parts, sep, i - 1);
    }
  }

  /** The first part opens the joined string, followed by the separator when more parts follow. */
  lemma JoinHead(parts: seq<string>, sep: string)
    requires |parts| > 0
    ensures |parts[0]| <= |Join(parts, sep)| && Join(parts, sep)[..|parts[0]|] == parts[0]
    ensures |parts| == 1 ==> Join(parts, sep) == parts[0]
    ensures |parts| > 1 ==> |parts[0]| + |sep| <= |Join(parts, sep)|
                            && Join(parts, sep)[|parts[0]|..|parts[0]| + |sep|] == sep
  {
    if |parts| > 1 {
      var j := Join(parts, sep);
      assert j == parts[0] + sep + Join(parts[1..], sep);
      assert j[..|parts[0]|] == parts[0];
      assert j[|parts[0]|..|parts[0]| + |sep|] == sep;
    }
  }

  /**
    Every part appears whole and unchanged at its offset in the joined string,
    followed by the separator unless it is the last one; the joined string ends
    right after the last part.
   */
  lemma JoinAt(parts: seq<string>, sep: string, i: nat)
    requires i < |parts|
    ensures JoinOffset(parts, sep, i) + |parts[i]| <= |Join(parts, sep)|
    ensures Join(parts, sep)[JoinOffset(parts, sep, i)..JoinOffset(parts, sep, i) + |parts[i]|] == parts[i]
    ensures i + 1 < |parts| ==>
              JoinOffset(parts, sep, i + 1) <= |Join(parts, sep)|
              && Join(parts, sep)[JoinOffset(parts, sep, i) + |parts[i]|..JoinOffset(parts, sep, i + 1)] == sep
    ensures i + 1 == |parts| ==> JoinOffset(parts, sep, i) + |parts[i]| == |Join(parts, sep)|
  {
    var rest := parts[i..];
    JoinHead(rest, sep);
    var b := Join(rest, sep);
    if i > 0 {
      JoinSplit(parts, sep, i);
      JoinPrefixLength(parts, sep, i);
      var a := Join(parts[..i], sep);
      var o := JoinOffset(parts, sep, i);
      assert Join(parts, sep) == a + sep + b;
      assert Join(parts, sep)[o..] == b;
    }
  }

  /** An occurrence of `x + y` is an occurrence of `x` followed by one of `y`. */
  lemma OccursAtSplit(s: string, x: string, y: string, i: int)
    requires OccursAt(s, x + y, i)
    ensures OccursAt(s, x, i) && OccursAt(s, y, i + |x|)
  {
    assert s[i..i + |x|] == (x + y)[..|x|];
    assert s[i + |x|..i + |x| + |y|] == (x + y)[|x|..];
  }

  /** `x` occurs in `s` at `i` and `y` follows it directly. */
  predicate PiecesAt(s: string, x: string, y: string, i: int) {
    OccursAt(s, x, i) && OccursAt(s, y, i + |x|)
  }

  /** When part `i` of a join is `x + y`, `x` starts at the part's offset and `y` follows it. */
  lemma JoinedPieces(parts: seq<string>, sep: string, i: nat, x: string, y: string)
    requires i < |parts| && parts[i] == x + y
    ensures PiecesAt(Join(parts, sep), x, y, JoinOffset(parts, sep, i))
  {
    JoinAt(parts, sep, i);
    OccursAtSplit(Join(parts, sep), x, y, JoinOffset(parts, sep, i));
  }

  /** Pieces found in `b` are found in `a + b`, `|a|` further right. */
  lemma PiecesAtShift(a: string, b: string, x: string, y: string, i: int)
    requires PiecesAt(b, x, y, i)
    ensures PiecesAt(a + b, x, y, |a| + i)
  {
    assert (a + b)[|a| + i..|a| + i + |x|] == b[i..i + |x|];
    assert (a + b)[|a| + i + |x|..|a| + i + |x| + |y|] == b[i + |x|..i + |x| + |y|];
  }

  /** Pieces found in `a` stay where they are when text is appended. */
  lemma PiecesAtExtend(a: string, b: string, x: string, y: string, i: int)
    requires PiecesAt(a, x, y, i)
    ensures PiecesAt(a + b, x, y, i)
  {
    assert (a + b)[i..i + |x|] == a[i..i + |x|];
    assert (a + b)[i + |x|..i + |x| + |y|] == a[i + |x|..i + |x| + |y|];
  }

  /**
    The layout of `head + mid + (lead + q + tail)`: `mid` right after `head`,
    then `lead` with `q` right after it, and `tail` at the very end.
   */
  lemma FramedLayout(head: string, mid: string, lead: string, q: string, tail: string)
    ensures var p := head + mid + (lead + q + tail);
            && StartsWith(p, head)
            && OccursAt(p, mid, |head|)
            && PiecesAt(p, lead, q, |head| + |mid|)
            && OccursAt(p, tail, |p| - |tail|)
  {
    var p := head + mid + (lead + q + tail);
    var o := |head| + |mid|;
    assert p[..|head|] == head;
    assert p[|head|..o] == mid;
    assert p[o..o + |lead|] == lead;
    assert p[o + |lead|..o + |lead| + |q|] == q;
    assert p[|p| - |tail|..] == tail;
  }

  /** `s[:limit]`: the first `limit` characters, or all of `s` when it is shorter. */
  function Truncate(s: string, limit: nat): (r: string)
    ensures |r| <= limit && StartsWith(s, r)
    ensures |s| <= limit ==> r == s
    ensures |s| > limit ==> |r| == limit
  {
    if |s| <= limit then s else s[..limit]
  }

  function DigitChar(d: nat): (c: char)
    requires d < 10
    ensures IsDigit(c)
  {
    ('0' as int + d) as char
  }

  /** `str(n)` for a non-negative integer: its decimal digits, no leading zero. */
  function NatToString(n: nat): (r: string)
    ensures r != [] && AllDigits(r)
    ensures r[0] == '0' ==> n == 0
    decreases n
  {
    if n < 10 then [DigitChar(n)] else NatToString(n / 10) + [DigitChar(n % 10)]
  }

  /** `int(s)` for a string of decimal digits (leading zeros allowed). */
  function DigitsValue(s: string): nat
    requires AllDigits(s)
    decreases |s|
  {
    if s == [] then 0 else DigitsValue(s[..|s| - 1]) * 10 + (s[|s| - 1] as int - '0' as int)
  }

  /** Reading back the digits that `str(n)` writes gives `n`. */
  lemma {:induction false} DigitsRoundTrip(n: nat)
    ensures DigitsValue(NatToString(n)) == n
    decreases n
  {
    if n >= 10 {
      DigitsRoundTrip(n / 10);
      var s := NatToString(n);
      assert s[..|s| - 1] == NatToString(n / 10);
    }
  }

  /** Distinct numbers are written differently. */
  lemma NatToStringInjective(m: nat, n: nat)
    ensures NatToString(m) == NatToString(n) ==> m == n
  {
    DigitsRoundTrip(m);
    DigitsRoundTrip(n);
  }

  /** `s.replace(pat, "")`: drops the non-overlapping occurrences of `pat`, found from the left. */
  function RemoveAll(s: string, pat: string): (r: string)
    requires pat != []
    ensures |r| <= |s|
    decreases |s|
  {
    if |s| < |pat| then s
    else if s[..|pat|] == pat then RemoveAll(s[|pat|..], pat)
    else [s[0]] + RemoveAll(s[1..], pat)
  }

  /** A string with no occurrence of the pattern comes back unchanged. */
  lemma {:induction false} RemoveAllAbsent(s: string, pat: string)
    requires pat != [] && !Contains(s, pat)
    ensures RemoveAll(s, pat) == s
    decreases |s|
  {
    if |s| >= |pat| {
      RemoveAllAbsent(s[1..], pat);
      assert s == [s[0]] + s[1..];
    }
  }
}
