// setStrLen of TDiffOutput (tdiffoutput.cc:259-280): a half line is cut or
// padded to a given number of terminal columns.  Colour changes are SGR
// escape sequences (section 8.3.117 of ECMA-48): they start with ESC, end
// with 'm' and take no column.  A C string ends at its first NUL.
module Columns {
  import opened MinMax
  import opened Glyphs
  import opened Seqs

  /** The index just past the first 'm' of s, or |s| when s has none. */
  function PastSgr(s: seq<char>): (r: nat)
    ensures r <= |s|
    ensures s != [] ==> r >= 1
    ensures 'm' in s ==> r >= 1 && s[r - 1] == 'm'
    ensures 'm' !in s ==> r == |s|
  {
    if s == [] then 0
    else if s[0] == 'm' then 1
    else
      assert 'm' in s ==> 'm' in s[1..];
      1 + PastSgr(s[1..])
  }

  /** The escape sequence ends just past the first 'm'. */
  lemma {:induction false} PastSgrAt(s: seq<char>, j: nat)
    requires j < |s| && s[j] == 'm'
    requires forall i :: 0 <= i < j ==> s[i] != 'm'
    ensures PastSgr(s) == j + 1
    decreases j
  {
    if j > 0 {
      assert s[0] != 'm';
      PastSgrAt(s[1..], j - 1);
    }
  }

  /** Text after a complete escape sequence does not change where that sequence ends. */
  lemma PastSgrConcat(a: seq<char>, b: seq<char>)
    requires 'm' in a
    ensures PastSgr(a + b) == PastSgr(a)
  {
    if a[0] != 'm' {
      assert (a + b)[1..] == a[1..] + b;
      assert 'm' in a[1..];
      PastSgrConcat(a[1..], b);
    }
  }

  /** The columns s takes on the terminal: escape sequences take none, and NUL ends the string. */
  function Visible(s: seq<char>): nat
    decreases |s|
  {
    if s == [] || s[0] == NUL then 0
    else if s[0] == ESC then Visible(s[PastSgr(s)..])
    else 1 + Visible(s[1..])
  }

  /** s holds no NUL, and each of its escape sequences is finished by an 'm'. */
  predicate Closed(s: seq<char>)
    decreases |s|
  {
    s == [] ||
    (s[0] != NUL &&
     if s[0] == ESC then 'm' in s && Closed(s[PastSgr(s)..]) else Closed(s[1..]))
  }

  /** Plain text is closed and takes one column per character. */
  lemma {:induction false} PlainColumns(s: seq<char>)
    requires Plain(s)
    ensures Closed(s) && Visible(s) == |s|
  {
    if s != [] {
      assert Plain(s[1..]);
      PlainColumns(s[1..]);
    }
  }

  /** Columns add up across a closed prefix. */
  lemma {:induction false} VisibleConcat(a: seq<char>, b: seq<char>)
    requires Closed(a)
    ensures Visible(a + b) == Visible(a) + Visible(b)
    ensures Closed(b) ==> Closed(a + b)
    decreases |a|
  {
    if a == [] {
      assert a + b == b;
    } else if a[0] == ESC {
      var p := PastSgr(a);
      PastSgrConcat(a, b);
      assert (a + b)[p..] == a[p..] + b;
      VisibleConcat(a[p..], b);
    } else {
      assert (a + b)[1..] == a[1..] + b;
      VisibleConcat(a[1..], b);
    }
  }

  /** Two closed strings joined are closed, and their columns add up. */
  lemma ClosedJoin(a: seq<char>, b: seq<char>)
    requires Closed(a) && Closed(b)
    ensures Closed(a + b) && Visible(a + b) == Visible(a) + Visible(b)
  {
    VisibleConcat(a, b);
  }

  /** Dropping a plain prefix from a closed string leaves it closed. */
  lemma {:induction false} ClosedDrop(a: seq<char>, b: seq<char>)
    requires Plain(a) && Closed(a + b)
    ensures Closed(b)
    decreases |a|
  {
    if a != [] {
      assert (a + b)[0] == a[0];
      assert (a + b)[1..] == a[1..] + b;
      assert Plain(a[1..]);
      ClosedDrop(a[1..], b);
    } else {
      assert a + b == b;
    }
  }

  /**
   * The part of s that setStrLen keeps for len columns: it walks s up to its
   * end, a NUL, or the point where len columns are used, stepping over each
   * escape sequence whole.
   */
  function Keep(s: seq<char>, len: nat): seq<char>
    decreases |s|
  {
    if s == [] || s[0] == NUL || len == 0 then []
    else if s[0] == ESC then
      var p := PastSgr(s);
      s[..p] + Keep(s[p..], len)
    else
      [s[0]] + Keep(s[1..], len - 1)
  }

  /** setStrLen keeps len columns of a line that has them, and all of one that has not. */
  lemma {:induction false} KeepVisible(s: seq<char>, len: nat)
    ensures Visible(Keep(s, len)) == Min(len, Visible(s))
    ensures Closed(s) ==> Closed(Keep(s, len))
    decreases |s|
  {
    if s == [] || s[0] == NUL || len == 0 {
    } else if s[0] == ESC {
      var p := PastSgr(s);
      KeepVisible(s[p..], len);
      KeepEscape(s, p, Keep(s[p..], len));
    } else {
      var rest := Keep(s[1..], len - 1);
      KeepVisible(s[1..], len - 1);
      assert ([s[0]] + rest)[1..] == rest;
    }
  }

  /** A finished escape sequence followed by anything is skipped as a whole. */
  lemma EscapeHead(s: seq<char>, p: nat, rest: seq<char>)
    requires 'm' in s && p == PastSgr(s)
    ensures PastSgr(s[..p] + rest) == p && (s[..p] + rest)[p..] == rest
  {
    assert s[..p][p - 1] == 'm';
    PastSgrConcat(s[..p], rest);
    assert PastSgr(s[..p]) == p by {
      PastSgrConcat(s[..p], s[p..]);
      assert s[..p] + s[p..] == s;
    }
  }

  /** One escape sequence in front of text takes no column and keeps it closed. */
  lemma KeepEscape(s: seq<char>, p: nat, rest: seq<char>)
    requires s != [] && s[0] == ESC && p == PastSgr(s)
    requires p == |s| ==> rest == []
    ensures Visible(s[..p] + rest) == Visible(rest)
    ensures Closed(s) && Closed(rest) ==> Closed(s[..p] + rest)
  {
    var x := s[..p] + rest;
    assert x[0] == ESC;
    if 'm' in s {
      EscapeHead(s, p, rest);
    } else {
      assert x == s;
    }
  }

  /** s holds an escape sequence. */
  predicate SwitchesColour(s: seq<char>)
  {
    ESC in s
  }

  /**
   * setStrLen's result: the kept part, blanks up to len columns, and the
   * reset sequence `nor` when the kept part switched colours.
   */
  function Fit(s: seq<char>, len: nat, nor: seq<char>): seq<char>
  {
    var k := Keep(s, len);
    KeepVisible(s, len);
    k + Spaces(len - Visible(k)) + (if SwitchesColour(k) then nor else [])
  }

  /**
   * A closed half line comes out exactly len columns wide, given a reset
   * sequence that takes no column.
   */
  lemma FitWidth(s: seq<char>, len: nat, nor: seq<char>)
    requires Closed(s) && Closed(nor) && Visible(nor) == 0
    ensures Visible(Fit(s, len, nor)) == len
    ensures Closed(Fit(s, len, nor))
  {
    var k := Keep(s, len);
    KeepVisible(s, len);
    var tail := if SwitchesColour(k) then nor else [];
    Pad(k, len - Visible(k), tail);
  }

  /** Blanks and a reset sequence after closed text: columns add up. */
  lemma Pad(k: seq<char>, n: nat, tail: seq<char>)
    requires Closed(k) && Closed(tail) && Visible(tail) == 0
    ensures Visible(k + Spaces(n) + tail) == Visible(k) + n
    ensures Closed(k + Spaces(n) + tail)
  {
    var sp := Spaces(n);
    SpacesColumns(n);
    VisibleConcat(sp, tail);
    VisibleConcat(k, sp + tail);
    Regroup(k, sp, tail);
  }

  /** Blanks are closed and take one column each. */
  lemma SpacesColumns(n: nat)
    ensures Closed(Spaces(n)) && Visible(Spaces(n)) == n
  {
    var sp := Spaces(n);
    assert Plain(sp);
    PlainColumns(sp);
  }

  /** A closed line narrower than len is kept whole: setStrLen only pads it. */
  lemma {:induction false} KeepShort(s: seq<char>, len: nat)
    requires Closed(s) && Visible(s) < len
    ensures Keep(s, len) == s
    decreases |s|
  {
    if s != [] {
      if s[0] == ESC {
        var p := PastSgr(s);
        KeepShort(s[p..], len);
        assert s[..p] + s[p..] == s;
      } else {
        KeepShort(s[1..], len - 1);
        assert [s[0]] + s[1..] == s;
      }
    }
  }

  /** setStrLen (tdiffoutput.cc:259-280). */
  method SetStrLen(str: seq<char>, len: nat, nor: seq<char>) returns (r: seq<char>)
    ensures r == Fit(str, len, nor)
  {
    var p, l, esc := WalkLine(str, len);
    r := str[..p];
    ghost var cut := l;
    while l < len
      invariant cut <= l <= len && r == str[..p] + Spaces(l - cut)
    {
      PadOne(str[..p], l - cut);
      r := r + [' '];
      l := l + 1;
    }
    if esc {
      r := r + nor;
    }
  }

  /**
   * The first loop of setStrLen: it stops at the end of str, at a NUL or
   * once len columns are counted; p is where it stops, l the columns it
   * counted and esc whether it stepped over an escape sequence.
   */
  method WalkLine(str: seq<char>, len: nat) returns (p: nat, l: nat, esc: bool)
    ensures p <= |str| && Keep(str, len) == str[..p]
    ensures l == Visible(Keep(str, len)) && l <= len
    ensures esc == SwitchesColour(str[..p])
  {
    p, l, esc := 0, 0, false;
    StartWalk(str, len);
    while p < |str| && str[p] != NUL && l != len
      invariant Walked(str, len, p, l)
      invariant esc == SwitchesColour(str[..p])
      decreases |str| - p
    {
      p, l, esc := WalkStep(str, len, p, l, esc);
    }
    StopWalk(str, len, p, l);
  }

  /** One turn of setStrLen's first loop: an escape sequence or one visible character. */
  method WalkStep(str: seq<char>, len: nat, p: nat, l: nat, esc: bool) returns (p': nat, l': nat, esc': bool)
    requires p < |str| && str[p] != NUL && l < len
    requires Walked(str, len, p, l) && esc == SwitchesColour(str[..p])
    ensures p < p' && Walked(str, len, p', l') && esc' == SwitchesColour(str[..p'])
  {
    if str[p] == ESC {
      var e := FindM(str, p);
      StepEscape(str, len, p, e, l);
      // the C loop steps over the 'm'; without one it would run off the string
      p', l', esc' := if e < |str| then e + 1 else e, l, true;
    } else {
      StepChar(str, len, p, l);
      p', l', esc' := p + 1, l + 1, esc;
    }
  }

  /** The inner loop of setStrLen: the first 'm' at or after p, or the end of str. */
  method FindM(str: seq<char>, p: nat) returns (e: nat)
    requires p <= |str|
    ensures p <= e <= |str| && 'm' !in str[p..e] && (e == |str| || str[e] == 'm')
  {
    e := p;
    while e < |str| && str[e] != 'm'
      invariant p <= e <= |str| && 'm' !in str[p..e]
    {
      assert str[p..e + 1] == str[p..e] + [str[e]];
      e := e + 1;
    }
  }

  /** One more blank of padding. */
  lemma PadOne(k: seq<char>, n: nat)
    ensures k + Spaces(n) + [' '] == k + Spaces(n + 1)
  {
    assert Spaces(n) + [' '] == Spaces(n + 1);
  }

  /**
   * After p characters of str setStrLen has counted l columns: what it will
   * keep is str[..p] followed by what it keeps of the rest.
   */
  predicate Walked(str: seq<char>, len: nat, p: nat, l: nat)
  {
    p <= |str| && l <= len &&
    Keep(str, len) == str[..p] + Keep(str[p..], len - l) &&
    Visible(str) == l + Visible(str[p..])
  }

  /** The walk starts at the beginning with no column counted. */
  lemma StartWalk(str: seq<char>, len: nat)
    ensures Walked(str, len, 0, 0)
  {
    assert str[0..] == str && str[..0] + Keep(str, len) == Keep(str, len);
  }

  /**
   * setStrLen steps over one escape sequence: its inner loop stops at e, the
   * first 'm' after p or the end of str, and the walk resumes after the 'm'.
   */
  lemma StepEscape(str: seq<char>, len: nat, p: nat, e: nat, l: nat)
    requires p < |str| && str[p] == ESC && l < len
    requires p <= e <= |str| && 'm' !in str[p..e] && (e == |str| || str[e] == 'm')
    requires Walked(str, len, p, l)
    ensures Walked(str, len, if e < |str| then e + 1 else e, l)
    ensures SwitchesColour(str[..if e < |str| then e + 1 else e])
  {
    var q := if e < |str| then e + 1 else e;
    SkipSgr(str, p, e);
    SkipEscape(str, p, q, len - l);
    JoinAt(str, p, q, Keep(str[q..], len - l));
    assert str[..q][p] == ESC;
  }

  /** The prefix up to p, then the stretch from p to q, is the prefix up to q. */
  lemma JoinAt<T>(str: seq<T>, p: nat, q: nat, x: seq<T>)
    requires p <= q <= |str|
    ensures str[..p] + (str[p..q] + x) == str[..q] + x
  {
    Regroup(str[..p], str[p..q], x);
    assert str[..p] + str[p..q] == str[..q];
  }

  /** Walking over the escape sequence str[p..q] keeps it whole and counts no column. */
  lemma SkipEscape(str: seq<char>, p: nat, q: nat, n: nat)
    requires p < q <= |str| && str[p] == ESC && q - p == PastSgr(str[p..]) && n > 0
    ensures Keep(str[p..], n) == str[p..q] + Keep(str[q..], n)
    ensures Visible(str[p..]) == Visible(str[q..])
  {
    var t := str[p..];
    assert t[0] == ESC;
    assert t[q - p..] == str[q..];
    assert t[..q - p] == str[p..q];
  }

  /** setStrLen counts one visible character. */
  lemma StepChar(str: seq<char>, len: nat, p: nat, l: nat)
    requires p < |str| && str[p] != ESC && str[p] != NUL && l < len
    requires Walked(str, len, p, l)
    ensures Walked(str, len, p + 1, l + 1)
    ensures SwitchesColour(str[..p + 1]) == SwitchesColour(str[..p])
  {
    var t := str[p..];
    assert t[0] == str[p] && t[1..] == str[p + 1..];
    var rest := Keep(str[p + 1..], len - l - 1);
    assert Keep(t, len - l) == [str[p]] + rest;
    assert Visible(t) == 1 + Visible(str[p + 1..]);
    assert str[..p + 1] == str[..p] + [str[p]];
    assert str[..p] + ([str[p]] + rest) == str[..p + 1] + rest;
  }

  /** Where setStrLen's walk stops, nothing more is kept. */
  lemma StopWalk(str: seq<char>, len: nat, p: nat, l: nat)
    requires p <= |str| && l <= len && (p == |str| || str[p] == NUL || l == len)
    requires Walked(str, len, p, l)
    ensures Keep(str, len) == str[..p] && Visible(Keep(str, len)) == l
  {
    assert Keep(str[p..], len - l) == [];
    assert str[..p] + [] == str[..p];
    KeepVisible(str, len);
  }

  /** The inner loop of setStrLen, stopping at e, lands where PastSgr says. */
  lemma SkipSgr(str: seq<char>, p: nat, e: nat)
    requires p < |str| && str[p] == ESC && p <= e <= |str|
    requires 'm' !in str[p..e] && (e == |str| || str[e] == 'm')
    ensures PastSgr(str[p..]) == (if e < |str| then e + 1 else e) - p
  {
    var s := str[p..];
    if e < |str| {
      forall i | 0 <= i < e - p
        ensures s[i] != 'm'
      {
        assert s[i] == str[p..e][i];
      }
      PastSgrAt(s, e - p);
    } else {
      assert s == str[p..e];
    }
  }

  /** A string whose only 'm' is its last character ends its escape sequence there. */
  lemma ExactSgr(s: seq<char>)
    requires s != [] && s[|s| - 1] == 'm' && 'm' !in s[..|s| - 1]
    ensures PastSgr(s) == |s|
  {
    forall i | 0 <= i < |s| - 1
      ensures s[i] != 'm'
    {
      assert s[i] == s[..|s| - 1][i];
    }
    PastSgrAt(s, |s| - 1);
  }
}
