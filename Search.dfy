// Pattern search in TString (tstring.cc): bytesearch finds the leftmost
// acceptable match in a window, search counts the non-overlapping matches
// found by restarting after each one, and searchReplace rebuilds the string
// with each match replaced (optionally padded and case-preserving).
module Searching {
  import opened Outcomes
  import opened Chars
  import opened TStrings

  /** A byte as the comparison sees it: folded to lower case when ignoring case. */
  function Fold(c: char, ignoreCase: bool): char
  {
    if ignoreCase then ToLower(c) else c
  }

  /** pat occurs at position i of s: byte by byte equal after folding. */
  predicate MatchAt(s: seq<char>, i: nat, pat: seq<char>, ignoreCase: bool)
    decreases |pat|
  {
    i + |pat| <= |s| &&
    (|pat| == 0 || (Fold(s[i], ignoreCase) == Fold(pat[0], ignoreCase) && MatchAt(s, i + 1, pat[1..], ignoreCase)))
  }

  /** A match is a folded equality at every position of the pattern. */
  lemma {:induction false} MatchAtMeaning(s: seq<char>, i: nat, pat: seq<char>, ignoreCase: bool)
    ensures MatchAt(s, i, pat, ignoreCase) <==>
            i + |pat| <= |s| && forall j :: 0 <= j < |pat| ==> Fold(s[i + j], ignoreCase) == Fold(pat[j], ignoreCase)
    decreases |pat|
  {
    if |pat| > 0 && i + |pat| <= |s| {
      MatchAtMeaning(s, i + 1, pat[1..], ignoreCase);
      if forall j :: 0 <= j < |pat| ==> Fold(s[i + j], ignoreCase) == Fold(pat[j], ignoreCase) {
        assert forall j :: 0 <= j < |pat| - 1 ==> Fold(s[i + 1 + j], ignoreCase) == Fold(pat[1..][j], ignoreCase) by {
          forall j | 0 <= j < |pat| - 1
            ensures Fold(s[i + 1 + j], ignoreCase) == Fold(pat[1..][j], ignoreCase)
          {
            assert s[i + (j + 1)] == s[i + 1 + j];
          }
        }
      }
    }
  }

  /** A byte that continues a word: alphanumeric or underscore. */
  predicate WordChar(c: char)
  {
    IsAlnum(c) || c == '_'
  }

  /**
   * bytesearch accepts a match at i of the window starting at from when,
   * for whole words, the byte before it inside the window and the byte
   * after it inside the string are not word bytes.
   */
  predicate Accept(s: seq<char>, from: nat, i: nat, pat: seq<char>, ignoreCase: bool, wholeWords: bool)
  {
    MatchAt(s, i, pat, ignoreCase) &&
    (wholeWords ==>
      (i <= from || !WordChar(s[i - 1])) && (i + |pat| == |s| || !WordChar(s[i + |pat|])))
  }

  /** The candidates i, i + 1, ... of bytesearch: the first accepted one, or -1. */
  function Find(s: seq<char>, from: nat, i: nat, pat: seq<char>, ignoreCase: bool, wholeWords: bool): (r: int)
    requires from <= i
    ensures r == -1 || (i <= r && r + |pat| <= |s| && Accept(s, from, r, pat, ignoreCase, wholeWords))
    decreases |s| - i
  {
    if i + |pat| > |s| then -1
    else if Accept(s, from, i, pat, ignoreCase, wholeWords) then i
    else Find(s, from, i + 1, pat, ignoreCase, wholeWords)
  }

  /** Find returns the leftmost accepted candidate: none before it, and none at all when it gives -1. */
  lemma {:induction false} FindLeftmost(s: seq<char>, from: nat, i: nat, pat: seq<char>, ignoreCase: bool, wholeWords: bool)
    requires from <= i
    ensures var r := Find(s, from, i, pat, ignoreCase, wholeWords);
            forall k :: i <= k && (r == -1 || k < r) ==> !Accept(s, from, k, pat, ignoreCase, wholeWords)
    decreases |s| - i
  {
    if i + |pat| <= |s| && !Accept(s, from, i, pat, ignoreCase, wholeWords) {
      FindLeftmost(s, from, i + 1, pat, ignoreCase, wholeWords);
    }
  }

  /** bytesearch on the window s[from..]: the position of the leftmost accepted match, or -1. */
  function ByteSearch(s: seq<char>, from: nat, pat: seq<char>, ignoreCase: bool, wholeWords: bool): int
  {
    Find(s, from, from, pat, ignoreCase, wholeWords)
  }

  /** The positions search visits from from on: each match, then the next search after it. */
  function Positions(s: seq<char>, from: nat, pat: seq<char>, ignoreCase: bool, wholeWords: bool): (ps: seq<nat>)
    requires |pat| > 0
    decreases |s| - from
  {
    var k := ByteSearch(s, from, pat, ignoreCase, wholeWords);
    if k < 0 then [] else [k as nat] + Positions(s, k + |pat|, pat, ignoreCase, wholeWords)
  }

  /**
   * The positions are matches in increasing order that do not overlap, and
   * each is the leftmost accepted one after the end of the previous match.
   */
  lemma PositionsMeaning(s: seq<char>, from: nat, pat: seq<char>, ignoreCase: bool, wholeWords: bool)
    requires |pat| > 0
    ensures var ps := Positions(s, from, pat, ignoreCase, wholeWords);
            (forall k :: 0 <= k < |ps| ==> from <= ps[k] && MatchAt(s, ps[k], pat, ignoreCase)) &&
            (forall k :: 0 < k < |ps| ==> ps[k - 1] + |pat| <= ps[k]) &&
            (forall i :: from <= i && (ps == [] || i < ps[0]) ==> !Accept(s, from, i, pat, ignoreCase, wholeWords))
  {
    PositionsMatch(s, from, pat, ignoreCase, wholeWords);
    PositionsApart(s, from, pat, ignoreCase, wholeWords);
    FindLeftmost(s, from, from, pat, ignoreCase, wholeWords);
  }

  /** Every position in ps is a match at or after from. */
  predicate MatchesFrom(s: seq<char>, from: nat, ps: seq<nat>, pat: seq<char>, ignoreCase: bool)
  {
    forall k :: 0 <= k < |ps| ==> from <= ps[k] && MatchAt(s, ps[k], pat, ignoreCase)
  }

  lemma {:induction false} PositionsMatch(s: seq<char>, from: nat, pat: seq<char>, ignoreCase: bool, wholeWords: bool)
    requires |pat| > 0
    ensures MatchesFrom(s, from, Positions(s, from, pat, ignoreCase, wholeWords), pat, ignoreCase)
    decreases |s| - from
  {
    var ps := Positions(s, from, pat, ignoreCase, wholeWords);
    var m := ByteSearch(s, from, pat, ignoreCase, wholeWords);
    if m >= 0 {
      var rest := Positions(s, m + |pat|, pat, ignoreCase, wholeWords);
      PositionsMatch(s, m + |pat|, pat, ignoreCase, wholeWords);
      assert ps == [m as nat] + rest;
    }
  }

  /** Consecutive positions in ps are at least n apart. */
  predicate Apart(ps: seq<nat>, n: nat)
  {
    forall k :: 0 < k < |ps| ==> ps[k - 1] + n <= ps[k]
  }

  /** The positions search visits do not overlap: each starts after the previous match ends. */
  lemma {:induction false} PositionsApart(s: seq<char>, from: nat, pat: seq<char>, ignoreCase: bool, wholeWords: bool)
    requires |pat| > 0
    ensures Apart(Positions(s, from, pat, ignoreCase, wholeWords), |pat|)
    decreases |s| - from
  {
    var ps := Positions(s, from, pat, ignoreCase, wholeWords);
    var m := ByteSearch(s, from, pat, ignoreCase, wholeWords);
    if m >= 0 {
      var rest := Positions(s, m + |pat|, pat, ignoreCase, wholeWords);
      PositionsApart(s, m + |pat|, pat, ignoreCase, wholeWords);
      PositionsMatch(s, m + |pat|, pat, ignoreCase, wholeWords);
      assert ps == [m as nat] + rest;
      assert rest != [] ==> m + |pat| <= rest[0];
    }
  }

  /** Without case folding a match is an equal slice. */
  lemma MatchExact(s: seq<char>, i: nat, pat: seq<char>)
    requires i + |pat| <= |s|
    ensures MatchAt(s, i, pat, false) <==> s[i..i + |pat|] == pat
  {
    MatchAtMeaning(s, i, pat, false);
    if MatchAt(s, i, pat, false) {
      assert forall j :: 0 <= j < |pat| ==> s[i..i + |pat|][j] == pat[j];
    }
  }

  /** search: the number of matches, an error for an empty pattern. */
  method Search(s: seq<char>, pat: seq<char>, ignoreCase: bool, wholeWords: bool) returns (r: Result<nat>)
    ensures pat == [] ==> r == Err(StringIsEmpty)
    ensures pat != [] ==> r == Ok(|Positions(s, 0, pat, ignoreCase, wholeWords)|)
  {
    if |pat| == 0 {
      return Err(StringIsEmpty);
    }
    var num := 0;
    var p := 0;
    var q := ByteSearch(s, p, pat, ignoreCase, wholeWords);
    while q >= 0
      invariant p <= |s| && q == ByteSearch(s, p, pat, ignoreCase, wholeWords)
      invariant num + |Positions(s, p, pat, ignoreCase, wholeWords)| == |Positions(s, 0, pat, ignoreCase, wholeWords)|
      decreases |s| - p
    {
      p := q + |pat|;
      num := num + 1;
      q := ByteSearch(s, p, pat, ignoreCase, wholeWords);
    }
    return Ok(num);
  }

  // ------------------------------------------------------------------
  // searchReplace
  // ------------------------------------------------------------------

  /** The options of searchReplace besides the search pattern and replacement. */
  datatype ReplaceOptions = ReplaceOptions(ignoreCase: bool, wholeWords: bool, preserveCase: bool,
                                           pre: seq<char>, post: seq<char>)

  /** What replaces the match m: the replacement, in the case of m when preserving case. */
  function Piece(m: seq<char>, replace: seq<char>, preserve: bool): (r: seq<char>)
    ensures |r| == |replace|
  {
    PreserveCaseShape(m, replace);
    if preserve then PreserveCase(m, replace) else replace
  }

  /** The text searchReplace writes for s[from..]: skipped bytes, padded pieces, and the rest. */
  function Replaced(s: seq<char>, from: nat, pat: seq<char>, replace: seq<char>, o: ReplaceOptions): seq<char>
    requires |pat| > 0 && from <= |s|
    decreases |s| - from, 1
  {
    var k := ByteSearch(s, from, pat, o.ignoreCase, o.wholeWords);
    if k < 0 then s[from..] else s[from..k] + Matched(s, k, pat, replace, o)
  }

  /** The text searchReplace writes from a match at k on: the padded piece, then the rest. */
  function Matched(s: seq<char>, k: nat, pat: seq<char>, replace: seq<char>, o: ReplaceOptions): seq<char>
    requires |pat| > 0 && k + |pat| <= |s|
    decreases |s| - k, 0
  {
    o.pre + Piece(s[k..k + |pat|], replace, o.preserveCase) + o.post + Replaced(s, k + |pat|, pat, replace, o)
  }

  /** The length searchReplace allocates is the length it writes. */
  lemma {:induction false} ReplacedLength(s: seq<char>, from: nat, pat: seq<char>, replace: seq<char>, o: ReplaceOptions)
    requires |pat| > 0 && from <= |s|
    ensures |Replaced(s, from, pat, replace, o)| ==
            |s| - from + |Positions(s, from, pat, o.ignoreCase, o.wholeWords)| *
                         (|replace| - |pat| + |o.pre| + |o.post|)
    decreases |s| - from
  {
    var k := ByteSearch(s, from, pat, o.ignoreCase, o.wholeWords);
    if Positions(s, from, pat, o.ignoreCase, o.wholeWords) != [] {
      ReplaceStep(s, from, pat, replace, o, k);
      ReplacedLength(s, k + |pat|, pat, replace, o);
      LengthStep(s, from, pat, replace, o, k);
    } else {
      ReplacedRest(s, from, pat, replace, o);
    }
  }

  /** The length of the text written from from on, given the length of the text after the first match. */
  lemma LengthStep(s: seq<char>, from: nat, pat: seq<char>, replace: seq<char>, o: ReplaceOptions, k: int)
    requires |pat| > 0 && from <= |s| && Positions(s, from, pat, o.ignoreCase, o.wholeWords) != []
    requires k == ByteSearch(s, from, pat, o.ignoreCase, o.wholeWords) && from <= k && k + |pat| <= |s|
    requires |Replaced(s, k + |pat|, pat, replace, o)| ==
             |s| - (k + |pat|) + |Positions(s, k + |pat|, pat, o.ignoreCase, o.wholeWords)| *
                                 (|replace| - |pat| + |o.pre| + |o.post|)
    ensures |Replaced(s, from, pat, replace, o)| ==
            |s| - from + |Positions(s, from, pat, o.ignoreCase, o.wholeWords)| *
                         (|replace| - |pat| + |o.pre| + |o.post|)
  {
    ReplaceStep(s, from, pat, replace, o, k);
    MatchedLength(s, k, pat, replace, o);
    CountStep(|Replaced(s, from, pat, replace, o)|, |Matched(s, k, pat, replace, o)|,
              |Replaced(s, k + |pat|, pat, replace, o)|, |s|, from, k, |pat|,
              |o.pre| + |replace| + |o.post|, |replace| - |pat| + |o.pre| + |o.post|,
              |Positions(s, from, pat, o.ignoreCase, o.wholeWords)|,
              |Positions(s, k + |pat|, pat, o.ignoreCase, o.wholeWords)|);
  }

  /** From a match on, searchReplace writes the padded piece and then the text after the match. */
  lemma MatchedLength(s: seq<char>, k: nat, pat: seq<char>, replace: seq<char>, o: ReplaceOptions)
    requires |pat| > 0 && k + |pat| <= |s|
    ensures |Matched(s, k, pat, replace, o)| == |o.pre| + |replace| + |o.post| + |Replaced(s, k + |pat|, pat, replace, o)|
  {
  }

  /**
   * The length arithmetic of one match: the bytes skipped, the padded piece
   * and the rest, against one more difference in the count.
   */
  lemma CountStep(total: int, matched: int, rest: int, len: int, from: int, k: int, m: int,
                  piece: int, d: int, count: int, more: int)
    requires total == k - from + matched && matched == piece + rest
    requires rest == len - (k + m) + more * d && count == 1 + more && d == piece - m
    ensures total == len - from + count * d
  {
  }

  /** One match of searchReplace: the bytes skipped before it, then what it writes from the match on. */
  lemma ReplaceStep(s: seq<char>, p: nat, pat: seq<char>, replace: seq<char>, o: ReplaceOptions, k: int)
    requires |pat| > 0 && p <= |s| && Positions(s, p, pat, o.ignoreCase, o.wholeWords) != []
    requires k == ByteSearch(s, p, pat, o.ignoreCase, o.wholeWords)
    ensures 0 <= p <= k && k + |pat| <= |s|
    ensures Replaced(s, p, pat, replace, o) == s[p..k] + Matched(s, k, pat, replace, o)
    ensures |Positions(s, p, pat, o.ignoreCase, o.wholeWords)| ==
            1 + |Positions(s, k + |pat|, pat, o.ignoreCase, o.wholeWords)|
  {
  }

  /** The outcome of searchReplace: the new string and the number of replacements. */
  datatype Replacement = Replacement(text: seq<char>, count: nat)

  /** Appending the parts of one match one by one, then the rest, is appending them all at once. */
  lemma Regroup<T>(out: seq<T>, a: seq<T>, b: seq<T>, c: seq<T>, e: seq<T>, rest: seq<T>)
    ensures (out + a + b + c + e) + rest == out + a + (b + c + e + rest)
  {
  }

  /** One replacement of searchReplace: copy the skipped bytes, then the padded piece. */
  method ReplaceMatch(s: seq<char>, p: nat, k: int, pat: seq<char>, replace: seq<char>, o: ReplaceOptions,
                      out: seq<char>) returns (out': seq<char>)
    requires |pat| > 0 && p <= |s| && Positions(s, p, pat, o.ignoreCase, o.wholeWords) != []
    requires k == ByteSearch(s, p, pat, o.ignoreCase, o.wholeWords)
    ensures 0 <= p <= k && k + |pat| <= |s|
    ensures out' + Replaced(s, k + |pat|, pat, replace, o) == out + Replaced(s, p, pat, replace, o)
    ensures |Positions(s, p, pat, o.ignoreCase, o.wholeWords)| ==
            1 + |Positions(s, k + |pat|, pat, o.ignoreCase, o.wholeWords)|
  {
    ReplaceStep(s, p, pat, replace, o, k);
    var piece := Piece(s[k..k + |pat|], replace, o.preserveCase);
    out' := out + s[p..k] + o.pre + piece + o.post;
    Regroup(out, s[p..k], o.pre, piece, o.post, Replaced(s, k + |pat|, pat, replace, o));
  }

  /** Without further matches, searchReplace copies the rest as it is. */
  lemma ReplacedRest(s: seq<char>, p: nat, pat: seq<char>, replace: seq<char>, o: ReplaceOptions)
    requires |pat| > 0 && p <= |s| && Positions(s, p, pat, o.ignoreCase, o.wholeWords) == []
    ensures Replaced(s, p, pat, replace, o) == s[p..]
  {
  }

  /** The copying pass of searchReplace: num matches, each replaced, then the rest of the string. */
  method ReplaceAll(s: seq<char>, pat: seq<char>, replace: seq<char>, o: ReplaceOptions, num: nat)
    returns (out: seq<char>)
    requires |pat| > 0 && num == |Positions(s, 0, pat, o.ignoreCase, o.wholeWords)|
    ensures out == Replaced(s, 0, pat, replace, o)
  {
    out := [];
    var p: nat := 0;
    var i := 0;
    while i < num
      invariant i <= num && p <= |s|
      invariant i + |Positions(s, p, pat, o.ignoreCase, o.wholeWords)| == num
      invariant out + Replaced(s, p, pat, replace, o) == Replaced(s, 0, pat, replace, o)
    {
      var k := ByteSearch(s, p, pat, o.ignoreCase, o.wholeWords);
      out := ReplaceMatch(s, p, k, pat, replace, o, out);
      p := k + |pat|;
      i := i + 1;
    }
    ReplacedRest(s, p, pat, replace, o);
    out := out + s[p..];
  }

  /** searchReplace: count the matches, then copy and replace them into a buffer of the new length. */
  method SearchReplace(s: seq<char>, pat: seq<char>, replace: seq<char>, o: ReplaceOptions)
    returns (r: Result<Replacement>)
    ensures pat == [] ==> r == Err(StringIsEmpty)
    ensures pat != [] ==> (r.Ok? &&
      r.value.count == |Positions(s, 0, pat, o.ignoreCase, o.wholeWords)| &&
      r.value.text == Replaced(s, 0, pat, replace, o) &&
      |r.value.text| == |s| + r.value.count * (|replace| - |pat| + |o.pre| + |o.post|))
  {
    var found := Search(s, pat, o.ignoreCase, o.wholeWords);
    if found.Err? {
      return Err(found.error);
    }
    var num := found.value;
    ReplacedLength(s, 0, pat, replace, o);
    if num == 0 {
      ReplacedRest(s, 0, pat, replace, o);
      assert s[0..] == s;
      return Ok(Replacement(s, 0));
    }
    var text := ReplaceAll(s, pat, replace, o, num);
    return Ok(Replacement(text, num));
  }
}
