// Whitespace rewrites of TString (tstring.cc): cropSpace, cropSpaceEnd and
// collapseSpace, each a loop over the bytes proved against a specification
// function whose meaning is proved separately.
module Spaces {
  import opened Chars
  import opened TStrings

  // ------------------------------------------------------------------
  // cropSpace / cropSpaceEnd
  // ------------------------------------------------------------------

  /** The number of leading whitespace bytes. */
  function Lead(s: seq<char>): (n: nat)
    ensures n <= |s| && (n == |s| || !IsSpace(s[n]))
    ensures forall k :: 0 <= k < n ==> IsSpace(s[k])
  {
    if |s| == 0 || !IsSpace(s[0]) then 0
    else 1 + Lead(s[1..])
  }

  /** The number of trailing whitespace bytes. */
  function Trail(s: seq<char>): (n: nat)
    ensures n <= |s| && (n == |s| || !IsSpace(s[|s| - 1 - n]))
    ensures forall k :: |s| - n <= k < |s| ==> IsSpace(s[k])
  {
    if |s| == 0 || !IsSpace(s[|s| - 1]) then 0
    else 1 + Trail(s[..|s| - 1])
  }

  /** The result of cropSpaceEnd: trailing whitespace removed. */
  function TrimEnd(s: seq<char>): (r: seq<char>)
    ensures r <= s && (r == [] || !IsSpace(r[|r| - 1]))
    ensures forall k :: |r| <= k < |s| ==> IsSpace(s[k])
  {
    s[..|s| - Trail(s)]
  }

  /** The result of cropSpace: leading and trailing whitespace removed. */
  function Trim(s: seq<char>): (r: seq<char>)
    ensures r == [] <==> forall k :: 0 <= k < |s| ==> IsSpace(s[k])
    ensures r != [] ==> !IsSpace(r[0]) && !IsSpace(r[|r| - 1])
    ensures r != [] ==> r == s[Lead(s)..|s| - Trail(s)] &&
                        forall k :: 0 <= k < Lead(s) || |s| - Trail(s) <= k < |s| ==> IsSpace(s[k])
  {
    if Lead(s) == |s| then [] else s[Lead(s)..|s| - Trail(s)]
  }

  /** Cropping both ends is cropping the end after the leading whitespace. */
  lemma TrimIsTrimEndOfRest(s: seq<char>)
    ensures Trim(s) == TrimEnd(s[Lead(s)..])
  {
    var f := Lead(s);
    var t := s[f..];
    TrailOfSuffix(s, f);
    if f < |s| {
      var n := Trail(s);
      assert Trim(s) == s[f..|s| - n];
      assert TrimEnd(t) == t[..|t| - n];
      assert t[..|t| - n] == s[f..|s| - n];
    } else {
      assert t == [] && TrimEnd(t) == [];
    }
  }

  /** Cropping twice crops nothing more. */
  lemma TrimIdempotent(s: seq<char>)
    ensures Trim(Trim(s)) == Trim(s) && TrimEnd(TrimEnd(s)) == TrimEnd(s)
  {
    var t := Trim(s);
    if t != [] {
      LeadUnique(t, 0);
      TrailUnique(t, 0);
    }
    TrailUnique(TrimEnd(s), 0);
  }

  /** Dropping a prefix of non-trailing bytes does not change the trailing whitespace. */
  lemma {:induction false} TrailOfSuffix(s: seq<char>, f: nat)
    requires f <= |s| && (f < |s| ==> !IsSpace(s[f]))
    ensures f < |s| ==> Trail(s[f..]) == Trail(s) && Trail(s) < |s| - f
    ensures f == |s| ==> Trail(s[f..]) == 0
  {
    if f < |s| && |s| > 0 && IsSpace(s[|s| - 1]) {
      var u := s[..|s| - 1];
      if f < |u| {
        TrailOfSuffix(u, f);
        assert s[f..][..|s[f..]| - 1] == u[f..];
      }
    }
  }

  /** cropSpace: find the first and the last non-space and keep what lies between. */
  method CropSpace(s: seq<char>) returns (r: seq<char>)
    ensures r == Trim(s)
  {
    var first := 0;
    while first < |s| && IsSpace(s[first])
      invariant 0 <= first <= |s|
      invariant forall k :: 0 <= k < first ==> IsSpace(s[k])
    {
      first := first + 1;
    }
    if first == |s| {
      return [];
    }
    assert first == Lead(s) by {
      LeadUnique(s, first);
    }
    var i := |s| - 1;
    while i >= first && IsSpace(s[i])
      invariant first <= i + 1 <= |s|
      invariant forall k :: i < k < |s| ==> IsSpace(s[k])
      decreases i
    {
      i := i - 1;
    }
    var last := i + 1;
    assert last == |s| - Trail(s) by {
      TrailUnique(s, |s| - last);
    }
    if first == 0 {
      r := Truncate(s, last);
    } else {
      var t := Substring(s, first, last);
      r := t.value;
    }
  }

  /** The leading-whitespace count is the first non-space position. */
  lemma LeadUnique(s: seq<char>, n: nat)
    requires n <= |s| && (n == |s| || !IsSpace(s[n]))
    requires forall k :: 0 <= k < n ==> IsSpace(s[k])
    ensures Lead(s) == n
  {
  }

  /** The trailing-whitespace count is the distance of the last non-space from the end. */
  lemma TrailUnique(s: seq<char>, n: nat)
    requires n <= |s| && (n == |s| || !IsSpace(s[|s| - 1 - n]))
    requires forall k :: |s| - n <= k < |s| ==> IsSpace(s[k])
    ensures Trail(s) == n
  {
  }

  /** cropSpaceEnd: step back over trailing whitespace, then truncate. */
  method CropSpaceEnd(s: seq<char>) returns (r: seq<char>)
    ensures r == TrimEnd(s)
  {
    if |s| == 0 {
      return s;
    }
    var e := |s| - 1;
    while e >= 0 && IsSpace(s[e])
      invariant -1 <= e < |s|
      invariant forall k :: e < k < |s| ==> IsSpace(s[k])
      decreases e
    {
      e := e - 1;
    }
    TrailUnique(s, |s| - 1 - e);
    r := Truncate(s, e + 1);
  }

  // ------------------------------------------------------------------
  // collapseSpace
  // ------------------------------------------------------------------

  /** The non-whitespace bytes of s, in order. */
  function NonSpace(s: seq<char>): seq<char>
  {
    if |s| == 0 then []
    else NonSpace(s[..|s| - 1]) + (if IsSpace(s[|s| - 1]) then [] else [s[|s| - 1]])
  }

  /** No whitespace but ' ', and no two blanks in a row. */
  predicate Squeezed(r: seq<char>)
  {
    (forall k :: 0 <= k < |r| && IsSpace(r[k]) ==> r[k] == ' ') &&
    (forall k :: 0 <= k < |r| - 1 ==> !TwoBlanks(r, k))
  }

  /** Bytes k and k + 1 of r are both blanks. */
  predicate TwoBlanks(r: seq<char>, k: nat)
    requires k < |r| - 1
  {
    r[k] == ' ' && r[k + 1] == ' '
  }

  /**
   * What the write pointer of collapseSpace has produced after reading s:
   * each whitespace run becomes one blank, except at the start.
   */
  function Squeeze(s: seq<char>): (r: seq<char>)
    ensures Squeezed(r) && (r == [] || r[0] != ' ')
    ensures NonSpace(r) == NonSpace(s) && |r| <= |s|
  {
    if |s| == 0 then []
    else
      var p := Squeeze(s[..|s| - 1]);
      var c := s[|s| - 1];
      if IsSpace(c) then
        if p == [] || p[|p| - 1] == ' ' then p
        else
          SqueezedAppend(p, ' ');
          p + [' ']
      else
        SqueezedAppend(p, c);
        p + [c]
  }

  /** One more byte after a squeezed string: a blank only after a non-blank. */
  lemma SqueezedAppend(p: seq<char>, c: char)
    requires Squeezed(p) && (IsSpace(c) ==> c == ' ' && p != [] && p[|p| - 1] != ' ')
    ensures Squeezed(p + [c])
    ensures NonSpace(p + [c]) == NonSpace(p) + (if IsSpace(c) then [] else [c])
  {
    var r := p + [c];
    assert r[..|p|] == p;
    forall k | 0 <= k < |r| && IsSpace(r[k])
      ensures r[k] == ' '
    {
      if k < |p| {
        assert r[k] == p[k];
      }
    }
    forall k | 0 <= k < |r| - 1
      ensures !TwoBlanks(r, k)
    {
      assert r[k] == p[k];
      if k + 1 < |p| {
        assert r[k + 1] == p[k + 1] && !TwoBlanks(p, k);
      }
    }
  }

  /** The result of collapseSpace: the squeezed string without a trailing blank. */
  function Collapse(s: seq<char>): seq<char>
  {
    var q := Squeeze(s);
    if |q| > 0 && q[|q| - 1] == ' ' then q[..|q| - 1] else q
  }

  /**
   * collapseSpace maps each whitespace run to one blank, drops leading and
   * trailing whitespace and keeps every other byte in order.
   */
  lemma CollapseMeaning(s: seq<char>)
    ensures Squeezed(Collapse(s))
    ensures Collapse(s) == [] || (Collapse(s)[0] != ' ' && Collapse(s)[|Collapse(s)| - 1] != ' ')
    ensures NonSpace(Collapse(s)) == NonSpace(s)
    ensures Collapse(s) == [] <==> NonSpace(s) == []
  {
    var q := Squeeze(s);
    if |q| > 0 && q[|q| - 1] == ' ' {
      var r := q[..|q| - 1];
      assert q == r + [' '];
      assert NonSpace(q) == NonSpace(r);
      forall k | 0 <= k < |r| - 1
        ensures !TwoBlanks(r, k)
      {
        assert !TwoBlanks(q, k);
      }
      if |r| > 0 {
        assert !TwoBlanks(q, |r| - 1);
      }
    }
    NonSpaceEmpty(Collapse(s));
  }

  /** A squeezed string without leading blank has no non-space byte only when it is empty. */
  lemma {:induction false} NonSpaceEmpty(r: seq<char>)
    requires Squeezed(r) && (r == [] || r[0] != ' ')
    ensures NonSpace(r) == [] <==> r == []
  {
    if r != [] {
      NonSpaceHas(r, 0);
    }
  }

  /** A non-space byte of s shows up in NonSpace(s). */
  lemma {:induction false} NonSpaceHas(s: seq<char>, k: nat)
    requires k < |s| && !IsSpace(s[k])
    ensures NonSpace(s) != []
  {
    if k < |s| - 1 {
      NonSpaceHas(s[..|s| - 1], k);
    }
  }

  /** One byte more read by collapseSpace: a blank only after a non-blank, any other byte as is. */
  lemma SqueezeStep(s: seq<char>, i: nat)
    requires i < |s|
    ensures var p := Squeeze(s[..i]);
            Squeeze(s[..i + 1]) ==
              if !IsSpace(s[i]) then p + [s[i]]
              else if p == [] || p[|p| - 1] == ' ' then p
              else p + [' ']
  {
    assert s[..i + 1][..i] == s[..i];
  }

  /** The state of collapseSpace after reading s[..i]: the written prefix and the last byte written. */
  predicate Collapsing(s: seq<char>, i: nat, t: seq<char>, l: nat, last: char)
  {
    l <= i <= |s| && |t| == |s| &&
    t[..l] == Squeeze(s[..i]) && t[i..] == s[i..] &&
    last == (if l == 0 then ' ' else t[l - 1])
  }

  /** Equal from i on means equal at i and from i + 1 on. */
  lemma SliceTail(t: seq<char>, s: seq<char>, i: nat)
    requires i < |s| == |t| && t[i..] == s[i..]
    ensures t[i] == s[i] && t[i + 1..] == s[i + 1..]
  {
    assert t[i] == t[i..][0] && s[i] == s[i..][0];
    assert t[i + 1..] == t[i..][1..] && s[i + 1..] == s[i..][1..];
  }

  /** One iteration of collapseSpace: read s[i], perhaps write it (a blank for whitespace). */
  method CollapseStep(s: seq<char>, i: nat, t: seq<char>, l: nat, last: char)
    returns (t': seq<char>, l': nat, last': char)
    requires i < |s| && Collapsing(s, i, t, l, last)
    ensures Collapsing(s, i + 1, t', l', last')
  {
    var c := t[i];
    t', l', last' := t, l, last;
    if !IsSpace(c) || !IsSpace(last) {
      if IsSpace(c) {
        c := ' ';
      }
      CollapseWrite(s, i, t, l, last, c);
      t', l', last' := t[l := c], l + 1, c;
    } else {
      CollapseSkip(s, i, t, l, last);
    }
  }

  /** A byte that collapseSpace writes: itself, or a blank for whitespace after a non-blank. */
  lemma CollapseWrite(s: seq<char>, i: nat, t: seq<char>, l: nat, last: char, c: char)
    requires i < |s| && Collapsing(s, i, t, l, last)
    requires !IsSpace(s[i]) || !IsSpace(last)
    requires c == if IsSpace(s[i]) then ' ' else s[i]
    ensures Collapsing(s, i + 1, t[l := c], l + 1, c)
  {
    var p := Squeeze(s[..i]);
    SqueezeStep(s, i);
    assert t[i] == s[i];
    assert IsSpace(s[i]) ==> l > 0 && p[|p| - 1] == t[l - 1];
    assert Squeeze(s[..i + 1]) == p + [c];
    WriteAt(t, l, i, c);
  }

  /** Writing c at l <= i extends the prefix before l and leaves the bytes after i alone. */
  lemma WriteAt(t: seq<char>, l: nat, i: nat, c: char)
    requires l <= i < |t|
    ensures t[l := c][..l + 1] == t[..l] + [c] && t[l := c][i + 1..] == t[i + 1..]
  {
    assert t[l := c][..l + 1] == t[..l] + [c];
    assert t[l := c][i + 1..] == t[i + 1..];
  }

  /** Whitespace after a blank, or at the start, is not written. */
  lemma CollapseSkip(s: seq<char>, i: nat, t: seq<char>, l: nat, last: char)
    requires i < |s| && Collapsing(s, i, t, l, last)
    requires IsSpace(s[i]) && IsSpace(last)
    ensures Collapsing(s, i + 1, t, l, last)
  {
    var p := Squeeze(s[..i]);
    SqueezeStep(s, i);
    SliceTail(t, s, i);
    if l > 0 {
      assert p[|p| - 1] == t[l - 1];
      assert p[|p| - 1] == ' ';
    }
    assert Squeeze(s[..i + 1]) == p;
  }

  /** collapseSpace: rewrite in place with a read index i and a write index l. */
  method CollapseSpace(s: seq<char>) returns (r: seq<char>)
    ensures r == Collapse(s)
  {
    var t := s;
    var l: nat := 0;
    var last := ' ';
    var i := 0;
    while i < |s|
      invariant Collapsing(s, i, t, l, last)
    {
      t, l, last := CollapseStep(s, i, t, l, last);
      i := i + 1;
    }
    assert s[..i] == s;
    if IsSpace(last) && l > 0 {
      l := l - 1;
    }
    r := t[..l];
  }
}
