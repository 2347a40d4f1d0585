// TString (tstring.h, tstring.cc) as a value: the bytes of a string are a
// seq<char>.  The reference-counted Rep and its copy-on-write detach become
// value semantics, so writing through one string never changes another.
// This module holds substring extraction, element access, comparison, the
// scanners and the small queries and rewrites of a single string.
module TStrings {
  import opened Outcomes
  import opened Chars

  /** The terminating byte of every Rep. */
  const NUL: char := '\0'

  /** The special positions of the substring operator. */
  const START: int := -1002
  const END: int := -1001

  // ------------------------------------------------------------------
  // Substring, element access, append
  // ------------------------------------------------------------------

  /**
   * operator()(start, end): START means 0 and END means the length; the
   * bounds are compared unsigned, so a negative one is out of range.
   */
  function Substring(s: seq<char>, start: int, end: int): (r: Result<seq<char>>)
    ensures var b := if start == START then 0 else start;
            var e := if end == END then |s| else end;
            (r.Ok? <==> 0 <= b <= e <= |s|) &&
            (r.Ok? ==> |r.value| == e - b &&
                       forall k :: 0 <= k < |r.value| ==> r.value[k] == s[b + k])
  {
    var b := if start == START then 0 else start;
    var e := if end == END then |s| else end;
    if b < 0 || b > |s| || e < 0 || e > |s| || e < b then Err(InvalidRange)
    else Ok(s[b..e])
  }

  /** Cutting a string at any position and gluing the halves gives it back. */
  lemma SubstringSplit(s: seq<char>, i: int)
    requires 0 <= i <= |s|
    ensures Substring(s, START, END) == Ok(s)
    ensures Substring(s, START, i).Ok? && Substring(s, i, END).Ok?
    ensures Substring(s, START, i).value + Substring(s, i, END).value == s
  {
    assert s[0..|s|] == s;
    assert s[..i] + s[i..] == s;
  }

  /** The const operator[]: index len is allowed and reads the terminating NUL. */
  function At(s: seq<char>, i: int): (r: Result<char>)
    ensures r.Ok? <==> 0 <= i <= |s|
    ensures r.Ok? && i < |s| ==> r.value == s[i]
    ensures r.Ok? && i == |s| ==> r.value == NUL
  {
    if i < 0 || i > |s| then Err(IndexOutOfRange)
    else if i == |s| then Ok(NUL) else Ok(s[i])
  }

  /** A write through the non-const operator[]: only indices below len. */
  function Store(s: seq<char>, i: int, c: char): (r: Result<seq<char>>)
    ensures r.Ok? <==> 0 <= i < |s|
    ensures r.Ok? ==> |r.value| == |s| && r.value[i] == c &&
                      forall j :: 0 <= j < |s| && j != i ==> r.value[j] == s[j]
  {
    if i < 0 || i >= |s| then Err(IndexOutOfRange) else Ok(s[i := c])
  }

  /** append / operator+=: the old contents stay an unchanged prefix. */
  function Append(s: seq<char>, a: seq<char>): (r: seq<char>)
    ensures |r| == |s| + |a|
    ensures r[..|s|] == s && r[|s|..] == a
  {
    s + a
  }

  /** lastChar: NUL for the empty string, otherwise the last byte. */
  function LastChar(s: seq<char>): (c: char)
    ensures |s| == 0 ==> c == NUL
    ensures |s| > 0 ==> c == s[|s| - 1]
  {
    if |s| == 0 then NUL else s[|s| - 1]
  }

  // ------------------------------------------------------------------
  // Comparison
  // ------------------------------------------------------------------

  /**
   * memcmp on the first n bytes: the sign of the first difference, the
   * bytes compared as unsigned.
   */
  function Memcmp(a: seq<char>, b: seq<char>, n: nat): (r: int)
    requires n <= |a| && n <= |b|
    ensures -1 <= r <= 1
    ensures r == 0 <==> a[..n] == b[..n]
    ensures r != 0 ==> exists k :: 0 <= k < n && a[..k] == b[..k] && a[k] != b[k] &&
                                   (r < 0 <==> a[k] < b[k])
  {
    if n == 0 then 0
    else if a[0] != b[0] then (if a[0] < b[0] then -1 else 1)
    else
      var r := Memcmp(a[1..], b[1..], n - 1);
      assert a[..n] == [a[0]] + a[1..][..n - 1] && b[..n] == [b[0]] + b[1..][..n - 1];
      if r != 0 then
        var k :| 0 <= k < n - 1 && a[1..][..k] == b[1..][..k] && a[1..][k] != b[1..][k] &&
                  (r < 0 <==> a[1..][k] < b[1..][k]);
        assert a[..k + 1] == [a[0]] + a[1..][..k] && b[..k + 1] == [b[0]] + b[1..][..k];
        r
      else r
  }

  /** _string_cmp: memcmp over the common length, then the shorter string first. */
  function Cmp(a: seq<char>, b: seq<char>): (r: int)
    ensures -1 <= r <= 1
  {
    var m := if |a| < |b| then |a| else |b|;
    var r := Memcmp(a, b, m);
    if r != 0 then r
    else if |a| > |b| then 1
    else if |a| < |b| then -1
    else 0
  }

  /** _string_equ: equal lengths and equal bytes. */
  function Equ(a: seq<char>, b: seq<char>): (r: bool)
    ensures r <==> a == b
  {
    |a| == |b| && Memcmp(a, b, |a|) == 0
  }

  /** Lexicographic order: a proper prefix, or a smaller byte at the first difference. */
  ghost predicate LexLess(a: seq<char>, b: seq<char>)
  {
    (|a| < |b| && a == b[..|a|]) ||
    exists k :: 0 <= k < |a| && k < |b| && a[..k] == b[..k] && a[k] < b[k]
  }

  /** Two strings that agree up to a difference at k and at k' have k == k'. */
  lemma FirstDifference(a: seq<char>, b: seq<char>, k: nat, k': nat)
    requires k < |a| && k < |b| && k' < |a| && k' < |b|
    requires a[..k] == b[..k] && a[k] != b[k]
    requires a[..k'] == b[..k'] && a[k'] != b[k']
    ensures k == k'
  {
  }

  /** _string_cmp is the lexicographic order, and 0 exactly on equal strings. */
  lemma CmpIsLexicographic(a: seq<char>, b: seq<char>)
    ensures Cmp(a, b) < 0 <==> LexLess(a, b)
    ensures Cmp(a, b) == 0 <==> a == b
  {
    var m := if |a| < |b| then |a| else |b|;
    var r := Memcmp(a, b, m);
    if r != 0 {
      var k :| 0 <= k < m && a[..k] == b[..k] && a[k] != b[k] && (r < 0 <==> a[k] < b[k]);
      if a[k] > b[k] {
        if LexLess(a, b) {
          if |a| < |b| && a == b[..|a|] {
            assert a[k] == b[..|a|][k];
          } else {
            var k' :| 0 <= k' < |a| && k' < |b| && a[..k'] == b[..k'] && a[k'] < b[k'];
            FirstDifference(a, b, k, k');
          }
        }
      }
    } else {
      assert a[..m] == b[..m];
      if |a| == |b| {
        assert a == a[..m] && b == b[..m];
      } else if |a| > |b| {
        assert b == a[..m];
      } else {
        assert a == b[..m];
      }
    }
  }

  /** Swapping the arguments of _string_cmp flips its sign. */
  lemma CmpAntisymmetric(a: seq<char>, b: seq<char>)
    ensures Cmp(b, a) == -Cmp(a, b)
  {
    var m := if |a| < |b| then |a| else |b|;
    var r := Memcmp(a, b, m);
    var r' := Memcmp(b, a, m);
    if r != 0 {
      var k :| 0 <= k < m && a[..k] == b[..k] && a[k] != b[k] && (r < 0 <==> a[k] < b[k]);
      assert r' != 0;
      var k' :| 0 <= k' < m && b[..k'] == a[..k'] && b[k'] != a[k'] && (r' < 0 <==> b[k'] < a[k']);
      FirstDifference(a, b, k, k');
    }
  }

  // ------------------------------------------------------------------
  // Scanners: a scanner is an int position that only moves forward
  // ------------------------------------------------------------------

  /** The const operator[] without the error: the byte at i, NUL at and past the end. */
  function CharAt(s: seq<char>, i: nat): char
  {
    if i < |s| then s[i] else NUL
  }

  /** scanUpTo(scanner, upto): advance to the next upto and return the bytes passed. */
  method ScanUpTo(s: seq<char>, scanner: int, upto: char) returns (sc: int, r: Result<seq<char>>)
    ensures r.Ok? <==> 0 <= scanner <= |s|
    ensures !(0 <= scanner <= |s|) ==> sc == scanner
    ensures 0 <= scanner <= |s| ==>
              scanner <= sc <= |s| && (sc == |s| || s[sc] == upto) &&
              (forall k :: scanner <= k < sc ==> s[k] != upto) &&
              r.value == s[scanner..sc]
  {
    sc := scanner;
    while 0 <= sc < |s| && s[sc] != upto
      invariant 0 <= scanner <= |s| ==> scanner <= sc <= |s|
      invariant !(0 <= scanner <= |s|) ==> sc == scanner
      invariant forall k :: scanner <= k < sc ==> s[k] != upto
      decreases |s| - sc
    {
      sc := sc + 1;
    }
    r := Substring(s, scanner, sc);
  }

  /** strchr(upto, c) is non-null: c occurs in the C string upto, or c is its terminator. */
  predicate StopsAt(upto: seq<char>, c: char)
  {
    c == NUL || c in upto
  }

  /** scanUpTo(scanner, upto-set): advance to the next byte of the C string upto. */
  method ScanUpToAny(s: seq<char>, scanner: int, upto: seq<char>)
    returns (sc: int, r: Result<seq<char>>)
    requires NUL !in upto
    ensures r.Ok? <==> 0 <= scanner <= |s|
    ensures !(0 <= scanner <= |s|) ==> sc == scanner
    ensures 0 <= scanner <= |s| ==>
              scanner <= sc <= |s| && (sc == |s| || StopsAt(upto, s[sc])) &&
              (forall k :: scanner <= k < sc ==> !StopsAt(upto, s[k])) &&
              r.value == s[scanner..sc]
  {
    sc := scanner;
    while 0 <= sc < |s| && !StopsAt(upto, s[sc])
      invariant 0 <= scanner <= |s| ==> scanner <= sc <= |s|
      invariant !(0 <= scanner <= |s|) ==> sc == scanner
      invariant forall k :: scanner <= k < sc ==> !StopsAt(upto, s[k])
      decreases |s| - sc
    {
      sc := sc + 1;
    }
    r := Substring(s, scanner, sc);
  }

  /** scanRest: the rest of the string, leaving the scanner at the end. */
  method ScanRest(s: seq<char>, scanner: int) returns (sc: int, r: seq<char>)
    ensures 0 <= scanner < |s| ==> sc == |s| && r == s[scanner..]
    ensures !(0 <= scanner < |s|) ==> sc == scanner && r == []
  {
    if 0 <= scanner < |s| {
      sc := |s|;
      var t := Substring(s, scanner, sc);
      r := t.value;
    } else {
      sc := scanner;
      r := [];
    }
  }

  /** skipSpace: advance over whitespace. */
  method SkipSpace(s: seq<char>, scanner: int) returns (sc: int)
    ensures !(0 <= scanner < |s|) ==> sc == scanner
    ensures 0 <= scanner < |s| ==>
              scanner <= sc <= |s| && (sc == |s| || !IsSpace(s[sc])) &&
              forall k :: scanner <= k < sc ==> IsSpace(s[k])
  {
    sc := scanner;
    while 0 <= sc < |s| && IsSpace(s[sc])
      invariant 0 <= scanner < |s| ==> scanner <= sc <= |s|
      invariant !(0 <= scanner < |s|) ==> sc == scanner
      invariant forall k :: scanner <= k < sc ==> IsSpace(s[k])
      decreases |s| - sc
    {
      sc := sc + 1;
    }
  }

  /** perhapsSkipOneChar: step over one c if it is the next byte. */
  method PerhapsSkipOneChar(s: seq<char>, scanner: int, c: char) returns (sc: int)
    ensures sc == (if 0 <= scanner < |s| && s[scanner] == c then scanner + 1 else scanner)
    ensures scanner <= sc && (0 <= scanner <= |s| ==> sc <= |s|)
  {
    sc := scanner;
    if 0 <= sc < |s| && s[sc] == c {
      sc := sc + 1;
    }
  }

  // ------------------------------------------------------------------
  // Queries
  // ------------------------------------------------------------------

  /** firstOccurence: the least index of c, or -1 when c does not occur. */
  function FirstOccurence(s: seq<char>, c: char): (r: int)
    ensures r == -1 <==> c !in s
    ensures r != -1 ==> 0 <= r < |s| && s[r] == c && c !in s[..r]
  {
    if |s| == 0 then -1
    else if s[0] == c then 0
    else
      var r := FirstOccurence(s[1..], c);
      if r == -1 then -1
      else
        assert s[..r + 1] == [s[0]] + s[1..][..r];
        r + 1
  }

  /** strrchr: the greatest index of c, or -1 when c does not occur. */
  function LastOccurence(s: seq<char>, c: char): (r: int)
    ensures r == -1 <==> c !in s
    ensures r != -1 ==> 0 <= r < |s| && s[r] == c && c !in s[r + 1..]
  {
    if |s| == 0 then -1
    else if s[|s| - 1] == c then |s| - 1
    else
      var r := LastOccurence(s[..|s| - 1], c);
      assert s == s[..|s| - 1] + [s[|s| - 1]];
      assert r != -1 ==> s[r + 1..] == s[..|s| - 1][r + 1..] + [s[|s| - 1]];
      r
  }

  /** The C string of a Rep: the bytes before the first NUL. */
  function CStr(s: seq<char>): (r: seq<char>)
    ensures NUL !in r && r <= s
    ensures |r| < |s| ==> s[|r|] == NUL
  {
    var n := FirstOccurence(s, NUL);
    if n == -1 then s else s[..n]
  }

  /** hasPrefix: the leading bytes are the prefix. */
  function HasPrefix(s: seq<char>, p: seq<char>): (r: bool)
    ensures r <==> p <= s
  {
    |p| <= |s| && Memcmp(s, p, |p|) == 0
  }

  /** hasSuffix: the trailing bytes are the suffix. */
  function HasSuffix(s: seq<char>, p: seq<char>): (r: bool)
    ensures r <==> |p| <= |s| && s[|s| - |p|..] == p
  {
    |p| <= |s| && Memcmp(s[|s| - |p|..], p, |p|) == 0
  }

  /** A string has every prefix and suffix it is built from. */
  lemma PrefixSuffixOfConcat(p: seq<char>, t: seq<char>)
    ensures HasPrefix(p + t, p) && HasSuffix(t + p, p)
  {
    assert (p + t)[..|p|] == p;
    assert (t + p)[|t|..] == p;
  }

  /** truncate(max): keep the first max bytes; a negative max (unsigned huge) changes nothing. */
  function Truncate(s: seq<char>, max: int): (r: seq<char>)
    ensures r <= s
    ensures 0 <= max < |s| ==> |r| == max
    ensures !(0 <= max < |s|) ==> r == s
  {
    if 0 <= max < |s| then s[..max] else s
  }

  /** truncate never lengthens and is idempotent. */
  lemma TruncateTwice(s: seq<char>, max: int)
    ensures |Truncate(s, max)| <= |s|
    ensures Truncate(Truncate(s, max), max) == Truncate(s, max)
  {
  }

  // ------------------------------------------------------------------
  // Case
  // ------------------------------------------------------------------

  /** isLower: non-empty and no upper-case letter. */
  predicate IsLowerString(s: seq<char>)
  {
    |s| > 0 && forall i :: 0 <= i < |s| ==> !IsUpper(s[i])
  }

  /** isUpper: non-empty and no lower-case letter. */
  predicate IsUpperString(s: seq<char>)
  {
    |s| > 0 && forall i :: 0 <= i < |s| ==> !IsLower(s[i])
  }

  /** isCapitalized: non-empty, the first byte not lower case, no other upper case. */
  predicate IsCapitalizedString(s: seq<char>)
  {
    |s| > 0 && !IsLower(s[0]) && forall i :: 1 <= i < |s| ==> !IsUpper(s[i])
  }

  /** The result of lower(). */
  function Lowered(s: seq<char>): seq<char>
  {
    seq(|s|, i requires 0 <= i < |s| => ToLower(s[i]))
  }

  /** The result of upper(). */
  function Uppered(s: seq<char>): seq<char>
  {
    seq(|s|, i requires 0 <= i < |s| => ToUpper(s[i]))
  }

  /** The result of capitalize(): lower case, then the first byte upper case. */
  function Capitalized(s: seq<char>): seq<char>
  {
    var l := Lowered(s);
    if |l| == 0 then l else l[0 := ToUpper(l[0])]
  }

  /** lower(), upper() and capitalize() make the matching case predicate hold. */
  lemma CaseConversions(s: seq<char>)
    requires |s| > 0
    ensures IsLowerString(Lowered(s)) && IsUpperString(Uppered(s))
    ensures IsCapitalizedString(Capitalized(s))
    ensures Lowered(Uppered(s)) == Lowered(s) && Uppered(Lowered(s)) == Uppered(s)
  {
  }

  /** lower(): rewrite every byte in place. */
  method Lower(s: seq<char>) returns (r: seq<char>)
    ensures r == Lowered(s)
  {
    r := s;
    var i := 0;
    while i < |r|
      invariant |r| == |s| && 0 <= i <= |r|
      invariant r[..i] == Lowered(s)[..i] && r[i..] == s[i..]
    {
      r := r[i := ToLower(r[i])];
      i := i + 1;
    }
  }

  /** upper(): rewrite every byte in place. */
  method Upper(s: seq<char>) returns (r: seq<char>)
    ensures r == Uppered(s)
  {
    r := s;
    var i := 0;
    while i < |r|
      invariant |r| == |s| && 0 <= i <= |r|
      invariant r[..i] == Uppered(s)[..i] && r[i..] == s[i..]
    {
      r := r[i := ToUpper(r[i])];
      i := i + 1;
    }
  }

  /** capitalize(): lower(), then the first byte upper case. */
  method Capitalize(s: seq<char>) returns (r: seq<char>)
    ensures r == Capitalized(s)
  {
    r := Lower(s);
    if |r| > 0 {
      r := r[0 := ToUpper(r[0])];
    }
  }

  /**
   * preserveCase(from, to): with equal lengths every letter of to takes the
   * case of the byte of from at its position; otherwise whole-string
   * heuristics apply one after the other.
   */
  function PreserveCase(from: seq<char>, to: seq<char>): seq<char>
  {
    if |from| == |to| then
      seq(|to|, i requires 0 <= i < |to| =>
        if IsLower(from[i]) then ToLower(to[i])
        else if IsUpper(from[i]) then ToUpper(to[i])
        else to[i])
    else
      var r1 := if IsLowerString(from) then Lowered(to) else to;
      var r2 := if IsUpperString(from) then Uppered(r1) else r1;
      if IsCapitalizedString(from) then Capitalized(r2) else r2
  }

  /**
   * preserveCase keeps the length of the replacement, so searchReplace may
   * advance by the replacement's length; with equal lengths each letter
   * follows the case of the matched text.
   */
  lemma PreserveCaseShape(from: seq<char>, to: seq<char>)
    ensures |PreserveCase(from, to)| == |to|
    ensures |from| == |to| ==> forall i :: 0 <= i < |to| && IsAlpha(to[i]) ==>
              (IsLower(from[i]) ==> IsLower(PreserveCase(from, to)[i])) &&
              (IsUpper(from[i]) ==> IsUpper(PreserveCase(from, to)[i]))
    ensures |from| != |to| && |to| > 0 && IsLowerString(from) && IsLower(from[0]) ==>
              IsLowerString(PreserveCase(from, to))
  {
  }

  // ------------------------------------------------------------------
  // Paths
  // ------------------------------------------------------------------

  /** extractFilename: the C string after its last '/', the whole string without one. */
  function ExtractFilename(s: seq<char>): (r: seq<char>)
    ensures '/' !in CStr(s) ==> r == s
    ensures '/' in CStr(s) ==> '/' !in r && NUL !in r
  {
    var t := CStr(s);
    var p := LastOccurence(t, '/');
    if p == -1 then s else t[p + 1..]
  }

  /** extractPath: up to and including the last '/', empty without one. */
  function ExtractPath(s: seq<char>): (r: seq<char>)
    ensures r == [] || LastChar(r) == '/'
  {
    var p := LastOccurence(CStr(s), '/');
    if p == -1 then [] else Truncate(s, p + 1)
  }

  /** For a string without NUL, the path and the file name put together give it back. */
  lemma PathAndFilename(s: seq<char>)
    requires NUL !in s
    ensures ExtractPath(s) + ExtractFilename(s) == s
  {
    assert CStr(s) == s;
    var p := LastOccurence(s, '/');
    if p != -1 {
      assert s[..p + 1] + s[p + 1..] == s;
    }
  }

  /** addDirSlash: append '/' unless the string already ends with one. */
  function AddDirSlash(s: seq<char>): (r: seq<char>)
    ensures LastChar(r) == '/' && s <= r && |r| <= |s| + 1
  {
    if LastChar(s) != '/' then s + "/" else s
  }

  /** removeDirSlash: drop trailing '/' but keep a lone "/". */
  method RemoveDirSlash(s: seq<char>) returns (r: seq<char>)
    ensures r <= s && (|s| > 0 ==> |r| > 0)
    ensures |r| <= 1 || LastChar(r) != '/'
    ensures forall k :: |r| <= k < |s| ==> s[k] == '/'
  {
    r := s;
    while LastChar(r) == '/' && |r| > 1
      invariant r <= s && (|s| > 0 ==> |r| > 0)
      invariant forall k :: |r| <= k < |s| ==> s[k] == '/'
      decreases |r|
    {
      r := Truncate(r, |r| - 1);
    }
  }

  /** Removing and re-adding the directory slash of a directory name ends in one '/'. */
  lemma {:induction false} DirSlashRoundTrip(s: seq<char>, r: seq<char>)
    requires r <= s && |r| > 1 && LastChar(r) != '/'
    ensures AddDirSlash(r) == r + "/"
    ensures LastChar(AddDirSlash(r)) == '/' && AddDirSlash(r)[..|r|] == r
  {
    assert (r + "/")[..|r|] == r;
  }

  /** extractFilenameExtension: after the last '.', unless that '.' starts the name. */
  function ExtractFilenameExtension(s: seq<char>): (r: seq<char>)
    ensures '.' !in r && NUL !in r
    ensures r != [] ==> exists p :: 0 < p < |CStr(ExtractFilename(s))| &&
                                   CStr(ExtractFilename(s))[p] == '.' &&
                                   r == CStr(ExtractFilename(s))[p + 1..]
  {
    var t := CStr(ExtractFilename(s));
    var p := LastOccurence(t, '.');
    if p > 0 then t[p + 1..] else []
  }

  /** isAbsolutePath: the first byte (NUL for the empty string) is '/'. */
  function IsAbsolutePath(s: seq<char>): (r: bool)
    ensures r <==> |s| > 0 && s[0] == '/'
  {
    At(s, 0) == Ok('/')
  }

  // ------------------------------------------------------------------
  // toBool
  // ------------------------------------------------------------------

  /** The number of bytes toBool reads as its word: up to NUL or space, at most 6. */
  function WordEnd(s: seq<char>, i: nat): (n: nat)
    requires i <= 6
    ensures i <= n <= 6
    ensures forall k :: i <= k < n ==> CharAt(s, k) != NUL && !IsSpace(CharAt(s, k))
    ensures n < 6 ==> CharAt(s, n) == NUL || IsSpace(CharAt(s, n))
    decreases 6 - i
  {
    if i == 6 || CharAt(s, i) == NUL || IsSpace(CharAt(s, i)) then i
    else WordEnd(s, i + 1)
  }

  /** The lower-cased word toBool looks at. */
  function Word(s: seq<char>): seq<char>
  {
    seq(WordEnd(s, 0), k requires 0 <= k < WordEnd(s, 0) => ToLower(CharAt(s, k)))
  }

  /**
   * The switch of toBool as written: (success, new value of bool_out).
   * Every case returns true whatever the word, and only a true word or
   * "false" reaches the assignment before that return.
   */
  function BoolAsWritten(w: seq<char>, out: bool): (bool, bool)
  {
    if |w| == 1 then (true, if w == "1" || w == "t" then true else out)
    else if |w| == 2 then (true, if w == "on" then true else out)
    else if |w| == 3 then (true, if w == "yes" then true else out)
    else if |w| == 4 then (true, if w == "true" then true else out)
    else if |w| == 5 then (true, if w == "false" then false else out)
    else (false, out)
  }

  /** The words toBool evidently means to accept, with their values. */
  function BoolValue(w: seq<char>): (r: Option<bool>)
    ensures r == Some(true) <==> w in {"1", "t", "on", "yes", "true"}
    ensures r == Some(false) <==> w in {"0", "f", "no", "off", "false"}
  {
    if w in {"1", "t", "on", "yes", "true"} then Some(true)
    else if w in {"0", "f", "no", "off", "false"} then Some(false)
    else None
  }

  /** toBool as written: the scan of the word, then the switch on its length. */
  method ToBool(s: seq<char>, out: bool) returns (ok: bool, b: bool)
    ensures (ok, b) == BoolAsWritten(Word(s), out)
  {
    var buf: seq<char> := [];
    var i := 0;
    while i < 6
      invariant 0 <= i <= WordEnd(s, 0) && buf == Word(s)[..i]
      decreases 6 - i
    {
      var c := ToLower(CharAt(s, i));
      if c == NUL || IsSpace(c) {
        break;
      }
      buf := buf + [c];
      i := i + 1;
    }
    assert buf == Word(s);
    ok, b := true, out;
    if i == 1 {
      if buf == "1" || buf == "t" { b := true; }
    } else if i == 2 {
      if buf == "on" { b := true; }
    } else if i == 3 {
      if buf == "yes" { b := true; }
    } else if i == 4 {
      if buf == "true" { b := true; }
    } else if i == 5 {
      if buf == "false" { b := false; }
    } else {
      ok := false;
    }
  }

  /**
   * What toBool as written reports: success exactly for words of one to five
   * bytes, and a written true exactly for the true words.
   */
  lemma BoolAsWrittenMeaning(w: seq<char>, out: bool)
    ensures BoolAsWritten(w, out).0 <==> 1 <= |w| <= 5
    ensures BoolValue(w) == Some(true) ==> BoolAsWritten(w, out) == (true, true)
  {
  }

  /** "no" succeeds without writing false, although it is a false word. */
  lemma BoolNoIsLost()
    ensures BoolValue("no") == Some(false)
    ensures BoolAsWritten("no", true) == (true, true)
    ensures Word("no") == "no"
  {
    assert WordEnd("no", 0) == 2 by {
      assert WordEnd("no", 2) == 2;
    }
  }

  /** toBool as evidently intended: success exactly for the listed words, with their value. */
  method ToBoolFixed(s: seq<char>, out: bool) returns (ok: bool, b: bool)
    ensures ok <==> BoolValue(Word(s)).Some?
    ensures ok ==> b == BoolValue(Word(s)).value
    ensures !ok ==> b == out
  {
    var buf: seq<char> := [];
    var i := 0;
    while i < 6
      invariant 0 <= i <= WordEnd(s, 0) && buf == Word(s)[..i]
      decreases 6 - i
    {
      var c := ToLower(CharAt(s, i));
      if c == NUL || IsSpace(c) {
        break;
      }
      buf := buf + [c];
      i := i + 1;
    }
    assert buf == Word(s);
    ok, b := true, out;
    if buf in {"1", "t", "on", "yes", "true"} {
      b := true;
    } else if buf in {"0", "f", "no", "off", "false"} {
      b := false;
    } else {
      ok := false;
    }
  }
}
