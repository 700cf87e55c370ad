/**
  The literal-reference scanner of `find_relevant_documents`: the leftmost
  match of the regular expression `\b(?:slide|page)\s*(\d+)\b` in the
  lowercased query, and the number its group reads.
 */
module SlideRef {
  import opened Wrappers
  import opened Text

  /** `\w`, restricted to ASCII: letters, digits and the underscore. */
  predicate IsWordChar(c: char) {
    'a' <= c <= 'z' || 'A' <= c <= 'Z' || IsDigit(c) || c == '_'
  }

  /** `\b` just before a word character at `i`: the start of the string or a non-word character before it. */
  predicate WordStart(s: string, i: int)
    requires 0 <= i <= |s|
  {
    i == 0 || !IsWordChar(s[i - 1])
  }

  /** `\b` just after a word character ending at `j`: the end of the string or a non-word character at `j`. */
  predicate WordEnd(s: string, j: int)
    requires 0 <= j <= |s|
  {
    j == |s| || !IsWordChar(s[j])
  }

  /**
    The regular expression matches at `i`: the keyword `slide` or `page` is
    `s[i..m]`, `s[m..k]` is white space and the group `(\d+)` is `s[k..j]`.
   */
  predicate PatternAt(s: string, i: int, m: int, k: int, j: int) {
    0 <= i <= m <= k < j <= |s| && WordStart(s, i) && (s[i..m] == "slide" || s[i..m] == "page")
    && SpaceBetween(s, m, k) && AllDigits(s[k..j]) && WordEnd(s, j)
  }

  ghost predicate MatchesAt(s: string, i: int) {
    exists m, k, j :: PatternAt(s, i, m, k, j)
  }

  /** Length of the keyword `slide` or `page` starting at `i`, or 0 when neither starts there. */
  function KeywordAt(s: string, i: nat): (n: nat)
    requires i <= |s|
    ensures i + n <= |s|
    ensures n == 5 ==> s[i..i + 5] == "slide"
    ensures n == 4 ==> s[i..i + 4] == "page"
    ensures n == 0 || n == 4 || n == 5
  {
    if StartsWith(s[i..], "slide") then 5 else if StartsWith(s[i..], "page") then 4 else 0
  }

  /** The end of the run of decimal digits starting at `i` (the greedy `\d+`). */
  function SkipDigits(s: string, i: nat): (j: nat)
    requires i <= |s|
    ensures i <= j <= |s| && AllDigits(s[i..j]) && (j < |s| ==> !IsDigit(s[j]))
    decreases |s| - i
  {
    if i < |s| && IsDigit(s[i]) then
      var j := SkipDigits(s, i + 1);
      assert forall t :: 0 < t < j - i ==> s[i..j][t] == s[i + 1..j][t - 1];
      j
    else i
  }

  /** The number referenced by a match of the regular expression at `i`, if it matches there. */
  function MatchAt(s: string, i: nat): Option<nat>
    requires i <= |s|
  {
    var kw := KeywordAt(s, i);
    if kw == 0 || !WordStart(s, i) then None
    else
      var k := SkipSpaces(s, i + kw);
      var j := SkipDigits(s, k);
      if j == k || !WordEnd(s, j) then None else Some(DigitsValue(s[k..j]))
  }

  lemma {:induction false} SkipSpacesUnique(s: string, i: nat, k: nat)
    requires i <= k < |s| && SpaceBetween(s, i, k) && !IsSpace(s[k])
    ensures SkipSpaces(s, i) == k
    decreases k - i
  {
    if i < k {
      SkipSpacesUnique(s, i + 1, k);
    }
  }

  lemma {:induction false} SkipDigitsUnique(s: string, k: nat, j: nat)
    requires k <= j <= |s| && AllDigits(s[k..j]) && (j < |s| ==> !IsDigit(s[j]))
    ensures SkipDigits(s, k) == j
    decreases j - k
  {
    if k < j {
      assert s[k..j][0] == s[k];
      var run, tail := s[k..j], s[k + 1..j];
      forall t | 0 <= t < |tail| ensures IsDigit(tail[t]) {
        assert tail[t] == run[t + 1];
      }
      SkipDigitsUnique(s, k + 1, j);
    }
  }

  /** Whatever the scanner reports at `i` is a match of the regular expression there. */
  lemma MatchAtSound(s: string, i: nat)
    requires i <= |s| && MatchAt(s, i).Some?
    ensures exists m, k, j :: PatternAt(s, i, m, k, j) && MatchAt(s, i).value == DigitsValue(s[k..j])
  {
    var m := i + KeywordAt(s, i);
    var k := SkipSpaces(s, m);
    var j := SkipDigits(s, k);
    assert PatternAt(s, i, m, k, j);
  }

  /** Every match of the regular expression at `i` is found by the scanner, with the same number. */
  lemma MatchAtComplete(s: string, i: nat, m: int, k: int, j: int)
    requires PatternAt(s, i, m, k, j)
    ensures MatchAt(s, i) == Some(DigitsValue(s[k..j]))
  {
    KeywordIsFound(s, i, m);
    assert s[k..j][0] == s[k];
    SkipSpacesUnique(s, m, k);
    SkipDigitsUnique(s, k, j);
  }

  /** The scanner at one position agrees with the regular expression's meaning there, in both directions. */
  lemma MatchAtIff(s: string, i: nat, n: nat)
    requires i <= |s|
    ensures MatchAt(s, i) == Some(n) <==> exists m, k, j :: PatternAt(s, i, m, k, j) && n == DigitsValue(s[k..j])
  {
    if MatchAt(s, i) == Some(n) {
      MatchAtSound(s, i);
    }
    if exists m, k, j :: PatternAt(s, i, m, k, j) && n == DigitsValue(s[k..j]) {
      var m, k, j :| PatternAt(s, i, m, k, j) && n == DigitsValue(s[k..j]);
      MatchAtComplete(s, i, m, k, j);
    }
  }

  lemma MatchAtNoneIff(s: string, i: nat)
    requires i <= |s|
    ensures MatchAt(s, i).None? <==> !MatchesAt(s, i)
  {
    if MatchAt(s, i).Some? {
      MatchAtIff(s, i, MatchAt(s, i).value);
    }
    if MatchesAt(s, i) {
      var m, k, j :| PatternAt(s, i, m, k, j);
      MatchAtIff(s, i, DigitsValue(s[k..j]));
    }
  }

  /** The scanner's result at every position of `s`, the end included: the attempts `re.search` makes in turn. */
  function Attempts(s: string): seq<Option<nat>> {
    seq(|s| + 1, q requires 0 <= q <= |s| => MatchAt(s, q))
  }

  /** The first result found among the attempts from position `i` on. */
  function FirstFound(hits: seq<Option<nat>>, i: nat): Option<nat>
    requires i <= |hits|
    decreases |hits| - i
  {
    if i == |hits| then None else if hits[i].Some? then hits[i] else FirstFound(hits, i + 1)
  }

  /** The page or slide number the query refers to, if any (`slide_match.group(1)` read as an int). */
  function FindSlideRef(s: string): Option<nat> {
    FirstFound(Attempts(s), 0)
  }

  /** Where the search stops: the first attempt from `i` that finds something, or the end. */
  function FirstPos(hits: seq<Option<nat>>, i: nat): (p: nat)
    requires i <= |hits|
    ensures i <= p <= |hits| && (p < |hits| ==> hits[p].Some?)
    decreases |hits| - i
  {
    if i == |hits| || hits[i].Some? then i else FirstPos(hits, i + 1)
  }

  /** The search reports the attempt where it stops, and every attempt before that found nothing. */
  lemma {:induction false} FirstFoundSound(hits: seq<Option<nat>>, i: nat)
    requires i <= |hits|
    ensures FirstFound(hits, i) == if FirstPos(hits, i) < |hits| then hits[FirstPos(hits, i)] else None
    ensures forall q :: i <= q < FirstPos(hits, i) ==> hits[q].None?
    decreases |hits| - i
  {
    if i < |hits| && hits[i].None? {
      FirstFoundSound(hits, i + 1);
    }
  }

  /** The search reports the attempt at `p` when every attempt between `i` and `p` found nothing. */
  lemma {:induction false} FirstFoundComplete(hits: seq<Option<nat>>, i: nat, p: nat)
    requires i <= p < |hits| && hits[p].Some?
    requires forall q :: i <= q < p ==> hits[q].None?
    ensures FirstFound(hits, i) == hits[p]
    decreases p - i
  {
    if i < p {
      FirstFoundComplete(hits, i + 1, p);
    }
  }

  /**
    The number found is the group of the LEFTMOST match of the regular
    expression: a match at `p` reading `n`, and no match at any earlier
    position. Later matches are never consulted.
   */
  lemma FindSlideRefIsLeftmostMatch(s: string, n: nat)
    ensures FindSlideRef(s) == Some(n) <==>
              exists p, m, k, j :: PatternAt(s, p, m, k, j) && n == DigitsValue(s[k..j])
                                   && forall q :: 0 <= q < p ==> !MatchesAt(s, q)
  {
    var hits := Attempts(s);
    if FindSlideRef(s) == Some(n) {
      FirstFoundSound(hits, 0);
      var p := FirstPos(hits, 0);
      assert p < |hits| && hits[p] == MatchAt(s, p);
      MatchAtSound(s, p);
      var m, k, j :| PatternAt(s, p, m, k, j) && n == DigitsValue(s[k..j]);
      forall q | 0 <= q < p ensures !MatchesAt(s, q) {
        assert hits[q] == MatchAt(s, q);
        MatchAtNoneIff(s, q);
      }
      assert PatternAt(s, p, m, k, j) && n == DigitsValue(s[k..j]) && forall q :: 0 <= q < p ==> !MatchesAt(s, q);
    }
    if exists p, m, k, j :: PatternAt(s, p, m, k, j) && n == DigitsValue(s[k..j]) && forall q :: 0 <= q < p ==> !MatchesAt(s, q) {
      var p, m, k, j :| PatternAt(s, p, m, k, j) && n == DigitsValue(s[k..j]) && forall q :: 0 <= q < p ==> !MatchesAt(s, q);
      MatchAtComplete(s, p, m, k, j);
      assert hits[p] == MatchAt(s, p);
      forall q | 0 <= q < p ensures hits[q].None? {
        assert hits[q] == MatchAt(s, q);
        MatchAtNoneIff(s, q);
      }
      FirstFoundComplete(hits, 0, p);
    }
  }

  /** The scanner sees the keyword `slide` or `page` that is written at `i`. */
  lemma KeywordIsFound(s: string, i: nat, m: nat)
    requires i <= m <= |s| && (s[i..m] == "slide" || s[i..m] == "page")
    ensures KeywordAt(s, i) == m - i
  {
    if s[i..m] == "slide" {
      assert s[i..][..5] == s[i..m];
    } else {
      assert s[i..][..4] == s[i..m];
      assert s[i] == 'p';
      assert !StartsWith(s[i..], "slide");
    }
  }
}
