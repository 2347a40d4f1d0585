// Splitting and joining TStrings (tstring.cc): split cuts a C string at
// separator bytes, optionally honouring quotes and backslashes and cropping
// each piece; join glues pieces with a separator; normalizePath rebuilds a
// path from its split components; getFitWords cuts a first line of at most
// max bytes off a string.
module Words {
  import opened Outcomes
  import opened Chars
  import opened TStrings
  import opened Spaces
  import opened Seqs

  // ------------------------------------------------------------------
  // split
  // ------------------------------------------------------------------

  /** The bytes collected into the buffer and the read index where collecting stopped. */
  datatype Collected = Collected(buf: seq<char>, stop: nat)

  /**
   * The quote loop of split, entered after the opening quote q: it collects
   * up to the closing quote or the end, and a backslash keeps itself and
   * the byte after it (so it escapes the closing quote).
   */
  function Quoted(u: seq<char>, i: nat, q: char): (r: Collected)
    requires i <= |u|
    ensures i <= r.stop <= |u| && (r.stop < |u| ==> u[r.stop] == q)
    decreases |u| - i
  {
    if i == |u| || u[i] == q then Collected([], i)
    else if u[i] == '\\' then
      if i + 1 == |u| then Collected(['\\'], |u|)
      else
        var c := Quoted(u, i + 2, q);
        Collected(['\\', u[i + 1]] + c.buf, c.stop)
    else
      var c := Quoted(u, i + 1, q);
      Collected([u[i]] + c.buf, c.stop)
  }

  /**
   * The collecting loop of split for one piece, from read index i up to a
   * separator byte or the end.  With quoting a backslash drops itself before
   * a separator (and at the end, where strchr finds the terminator of sep)
   * and keeps itself before any other byte, and a quote collects up to its
   * closing quote, both quotes included (the closing one even when missing).
   */
  function Piece(u: seq<char>, i: nat, sep: seq<char>, quoting: bool): (r: Collected)
    requires i <= |u|
    ensures i <= r.stop <= |u| && (r.stop < |u| ==> u[r.stop] in sep)
    decreases |u| - i
  {
    if i == |u| || u[i] in sep then Collected([], i)
    else if !quoting then
      var c := Piece(u, i + 1, sep, quoting);
      Collected([u[i]] + c.buf, c.stop)
    else if u[i] == '\\' then
      if i + 1 == |u| then Collected([], |u|)
      else
        var c := Piece(u, i + 2, sep, quoting);
        Collected((if u[i + 1] in sep then [] else ['\\']) + [u[i + 1]] + c.buf, c.stop)
    else if u[i] == '\'' || u[i] == '"' then
      var qd := Quoted(u, i + 1, u[i]);
      var c := Piece(u, if qd.stop < |u| then qd.stop + 1 else qd.stop, sep, quoting);
      Collected([u[i]] + qd.buf + [u[i]] + c.buf, c.stop)
    else
      var c := Piece(u, i + 1, sep, quoting);
      Collected([u[i]] + c.buf, c.stop)
  }

  /** The pieces split makes of u from read index i on: one per separator, and one more. */
  function Pieces(u: seq<char>, i: nat, sep: seq<char>, quoting: bool, crop: bool): (r: seq<seq<char>>)
    requires i <= |u|
    decreases |u| - i
  {
    var c := Piece(u, i, sep, quoting);
    var t := Cropped(c.buf, crop);
    if c.stop == |u| then [t] else [t] + Pieces(u, c.stop + 1, sep, quoting, crop)
  }

  /** A piece as split stores it: cropped at both ends when asked. */
  function Cropped(b: seq<char>, crop: bool): seq<char>
  {
    if crop then Trim(b) else b
  }

  /** split(s, sep, allow_quoting, crop_space) on the C strings of s and sep. */
  function SplitOf(s: seq<char>, sep: seq<char>, quoting: bool, crop: bool): seq<seq<char>>
  {
    Pieces(CStr(s), 0, CStr(sep), quoting, crop)
  }

  /** The quote loop: copy bytes up to the closing quote q into buf. */
  method CollectQuoted(u: seq<char>, i: nat, q: char, buf0: seq<char>) returns (buf: seq<char>, p: nat)
    requires i <= |u|
    ensures buf == buf0 + Quoted(u, i, q).buf && p == Quoted(u, i, q).stop
  {
    buf, p := buf0, i;
    while p < |u| && u[p] != q
      invariant i <= p <= |u|
      invariant buf + Quoted(u, p, q).buf == buf0 + Quoted(u, i, q).buf
      invariant Quoted(u, p, q).stop == Quoted(u, i, q).stop
      decreases |u| - p
    {
      var c := Quoted(u, p, q);
      if u[p] == '\\' {
        if p + 1 < |u| {
          Regroup(buf, ['\\', u[p + 1]], Quoted(u, p + 2, q).buf);
          buf := buf + ['\\', u[p + 1]];
          p := p + 2;
        } else {
          buf := buf + ['\\'];
          p := p + 1;
        }
      } else {
        Regroup(buf, [u[p]], Quoted(u, p + 1, q).buf);
        buf := buf + [u[p]];
        p := p + 1;
      }
    }
  }

  /** The collecting loop of one piece: from read index i up to a separator or the end. */
  method CollectPiece(u: seq<char>, i: nat, sep: seq<char>, quoting: bool) returns (buf: seq<char>, p: nat)
    requires i <= |u|
    ensures buf == Piece(u, i, sep, quoting).buf && p == Piece(u, i, sep, quoting).stop
  {
    buf, p := [], i;
    while p < |u| && u[p] !in sep
      invariant i <= p <= |u|
      invariant buf + Piece(u, p, sep, quoting).buf == Piece(u, i, sep, quoting).buf
      invariant Piece(u, p, sep, quoting).stop == Piece(u, i, sep, quoting).stop
      decreases |u| - p
    {
      buf, p := PieceStep(u, i, sep, quoting, buf, p);
    }
  }

  /** One pass of the collecting loop: a plain byte, a backslash pair or a quoted section. */
  method PieceStep(u: seq<char>, i: nat, sep: seq<char>, quoting: bool, buf: seq<char>, p: nat)
    returns (buf': seq<char>, p': nat)
    requires i <= p < |u| && u[p] !in sep
    requires buf + Piece(u, p, sep, quoting).buf == Piece(u, i, sep, quoting).buf
    requires Piece(u, p, sep, quoting).stop == Piece(u, i, sep, quoting).stop
    ensures p < p' <= |u|
    ensures buf' + Piece(u, p', sep, quoting).buf == Piece(u, i, sep, quoting).buf
    ensures Piece(u, p', sep, quoting).stop == Piece(u, i, sep, quoting).stop
  {
    var e: seq<char>;
    if !quoting || (u[p] != '\\' && u[p] != '\'' && u[p] != '"') {
      e, p' := [u[p]], p + 1;
      buf' := buf + e;
    } else if u[p] == '\\' {
      if p + 1 < |u| {
        e := (if u[p + 1] in sep then [] else ['\\']) + [u[p + 1]];
        p' := p + 2;
        buf' := buf + e;
      } else {
        e, p' := [], p + 1;
        buf' := buf;
      }
    } else {
      var q := u[p];
      buf', p' := CollectQuoted(u, p + 1, q, buf + [q]);
      buf' := buf' + [q];
      if p' < |u| {
        p' := p' + 1;
      }
      e := [q] + Quoted(u, p + 1, q).buf + [q];
      Enclosed(buf, q, Quoted(u, p + 1, q).buf);
    }
    PieceAhead(u, p, sep, quoting, e, p');
    Regroup(buf, e, Piece(u, p', sep, quoting).buf);
  }

  /** Appending the opening quote, the quoted bytes and the closing quote one after another. */
  lemma Enclosed(buf: seq<char>, q: char, b: seq<char>)
    ensures buf + [q] + b + [q] == buf + ([q] + b + [q])
  {
  }

  /**
   * The bytes one pass collects from p and where it leaves the read index:
   * Piece from p is those bytes, then Piece from there.
   */
  lemma PieceAhead(u: seq<char>, p: nat, sep: seq<char>, quoting: bool, e: seq<char>, p': nat)
    requires p < |u| && u[p] !in sep && p' <= |u|
    requires !quoting || (u[p] != '\\' && u[p] != '\'' && u[p] != '"') ==> e == [u[p]] && p' == p + 1
    requires quoting && u[p] == '\\' ==>
      if p + 1 < |u| then e == (if u[p + 1] in sep then [] else ['\\']) + [u[p + 1]] && p' == p + 2
      else e == [] && p' == p + 1
    requires quoting && (u[p] == '\'' || u[p] == '"') ==>
      var qd := Quoted(u, p + 1, u[p]);
      e == [u[p]] + qd.buf + [u[p]] && p' == (if qd.stop < |u| then qd.stop + 1 else qd.stop)
    ensures Piece(u, p, sep, quoting).buf == e + Piece(u, p', sep, quoting).buf
    ensures Piece(u, p, sep, quoting).stop == Piece(u, p', sep, quoting).stop
  {
  }

  /** One piece of split: collect it, crop it when asked, and say where it stopped. */
  method NextPiece(u: seq<char>, p: nat, sep: seq<char>, quoting: bool, crop: bool)
    returns (t: seq<char>, stop: nat)
    requires p <= |u|
    ensures p <= stop <= |u|
    ensures stop == |u| ==> Pieces(u, p, sep, quoting, crop) == [t]
    ensures stop < |u| ==> Pieces(u, p, sep, quoting, crop) == [t] + Pieces(u, stop + 1, sep, quoting, crop)
  {
    var buf;
    buf, stop := CollectPiece(u, p, sep, quoting);
    t := buf;
    if crop {
      t := CropSpace(buf);
    }
    PiecesAt(u, p, sep, quoting, crop, buf, stop);
  }

  /** The pieces from p on: the piece collected from p, then the pieces after its separator. */
  lemma PiecesAt(u: seq<char>, p: nat, sep: seq<char>, quoting: bool, crop: bool, buf: seq<char>, stop: nat)
    requires p <= |u| && buf == Piece(u, p, sep, quoting).buf && stop == Piece(u, p, sep, quoting).stop
    ensures stop <= |u|
    ensures stop == |u| ==> Pieces(u, p, sep, quoting, crop) == [Cropped(buf, crop)]
    ensures stop < |u| ==> Pieces(u, p, sep, quoting, crop) == [Cropped(buf, crop)] + Pieces(u, stop + 1, sep, quoting, crop)
  {
  }

  /** split: collect piece after piece, skipping the separator between them. */
  method Split(s: seq<char>, sep: seq<char>, quoting: bool, crop: bool) returns (r: seq<seq<char>>)
    ensures r == SplitOf(s, sep, quoting, crop)
  {
    var u := CStr(s);
    var sp := CStr(sep);
    var t, stop := NextPiece(u, 0, sp, quoting, crop);
    r := [t];
    while stop < |u|
      invariant stop <= |u|
      invariant stop < |u| ==> r + Pieces(u, stop + 1, sp, quoting, crop) == SplitOf(s, sep, quoting, crop)
      invariant stop == |u| ==> r == SplitOf(s, sep, quoting, crop)
      decreases |u| - stop
    {
      ghost var r0 := r;
      var p := stop + 1;
      t, stop := NextPiece(u, p, sp, quoting, crop);
      if stop < |u| {
        Append(r0, t, Pieces(u, stop + 1, sp, quoting, crop));
      }
      r := r + [t];
    }
  }

  /** Appending one piece, then the rest, is appending both. */
  lemma Append(r: seq<seq<char>>, t: seq<char>, rest: seq<seq<char>>)
    ensures (r + [t]) + rest == r + ([t] + rest)
  {
  }

  /** Every split gives at least one piece. */
  lemma SplitNonEmpty(s: seq<char>, sep: seq<char>, quoting: bool, crop: bool)
    ensures |SplitOf(s, sep, quoting, crop)| >= 1
  {
  }

  // ------------------------------------------------------------------
  // join
  // ------------------------------------------------------------------

  /** join(a, sep): the pieces in order with sep between neighbours; empty for no pieces. */
  function Join(a: seq<seq<char>>, sep: seq<char>): (r: seq<char>)
    ensures |a| == 1 ==> r == a[0]
  {
    if |a| == 0 then []
    else if |a| == 1 then a[0]
    else a[0] + sep + Join(a[1..], sep)
  }

  // ------------------------------------------------------------------
  // split and join undo each other
  // ------------------------------------------------------------------

  /** Without quoting a piece is the longest run of bytes without c from i on. */
  lemma {:induction false} PlainPiece(u: seq<char>, i: nat, c: char)
    requires i <= |u|
    ensures Piece(u, i, [c], false).buf == u[i..Piece(u, i, [c], false).stop]
    ensures c !in Piece(u, i, [c], false).buf
    decreases |u| - i
  {
    if i < |u| && u[i] != c {
      PlainPiece(u, i + 1, c);
      var r := Piece(u, i + 1, [c], false);
      assert u[i..r.stop] == [u[i]] + u[i + 1..r.stop];
    }
  }

  /** Joining the plain pieces of u[i..] with c gives u[i..] back. */
  lemma {:induction false} JoinPieces(u: seq<char>, i: nat, c: char)
    requires i <= |u|
    ensures Join(Pieces(u, i, [c], false, false), [c]) == u[i..]
    decreases |u| - i
  {
    var r := Piece(u, i, [c], false);
    PlainPiece(u, i, c);
    if r.stop < |u| {
      JoinPieces(u, r.stop + 1, c);
      PiecesAt(u, i, [c], false, false, r.buf, r.stop);
      assert u[i..] == u[i..r.stop] + [c] + u[r.stop + 1..];
    }
  }

  /** There is one plain piece more than there are bytes c in u[i..]. */
  lemma {:induction false} CountPieces(u: seq<char>, i: nat, c: char)
    requires i <= |u|
    ensures |Pieces(u, i, [c], false, false)| == multiset(u[i..])[c] + 1
    decreases |u| - i
  {
    var r := Piece(u, i, [c], false);
    PlainPiece(u, i, c);
    PiecesAt(u, i, [c], false, false, r.buf, r.stop);
    if r.stop < |u| {
      CountPieces(u, r.stop + 1, c);
      InSingle(u[r.stop], c);
      CountAround(u, i, r.stop, c);
    } else {
      CountNone(u, i, r.stop, c);
    }
  }

  /** The only member of [c] is c. */
  lemma InSingle(x: char, c: char)
    requires x in [c]
    ensures x == c
  {
  }

  /** Up to the first c at k, u[i..] counts one c more than u[k + 1..]. */
  lemma CountAround(u: seq<char>, i: nat, k: nat, c: char)
    requires i <= k < |u| && u[k] == c && c !in u[i..k]
    ensures multiset(u[i..])[c] == multiset(u[k + 1..])[c] + 1
  {
    assert u[i..] == u[i..k] + [c] + u[k + 1..];
    CountOneMore(u[i..k], c, u[k + 1..]);
  }

  /** Without a c up to the end, u[i..] counts no c. */
  lemma CountNone(u: seq<char>, i: nat, k: nat, c: char)
    requires i <= k == |u| && c !in u[i..k]
    ensures multiset(u[i..])[c] == 0
  {
    assert u[i..k] == u[i..];
    NoneCounted(u[i..], c);
  }

  /** A run without c, then c, then y: one c more than y has. */
  lemma CountOneMore(x: seq<char>, c: char, y: seq<char>)
    requires c !in x
    ensures multiset(x + [c] + y)[c] == multiset(y)[c] + 1
  {
    assert multiset(x + [c] + y) == multiset(x) + multiset([c]) + multiset(y);
    NoneCounted(x, c);
  }

  /** A run without c counts no c. */
  lemma NoneCounted(x: seq<char>, c: char)
    requires c !in x
    ensures multiset(x)[c] == 0
  {
  }

  /**
   * split and join at a single separator byte, without quoting or cropping:
   * a NUL-free string has one piece more than separators, and joining the
   * pieces gives the string back.
   */
  lemma SplitJoin(s: seq<char>, c: char)
    requires NUL !in s && c != NUL
    ensures |SplitOf(s, [c], false, false)| == multiset(s)[c] + 1
    ensures Join(SplitOf(s, [c], false, false), [c]) == s
  {
    assert CStr(s) == s;
    assert CStr([c]) == [c];
    assert s[0..] == s;
    CountPieces(s, 0, c);
    JoinPieces(s, 0, c);
  }

  /** No piece of a holds c. */
  predicate Avoids(a: seq<seq<char>>, c: char)
    decreases |a|
  {
    a == [] || (c !in a[0] && Avoids(a[1..], c))
  }

  /** Pieces of which none holds c avoid c. */
  lemma {:induction false} AvoidsEach(a: seq<seq<char>>, c: char)
    requires forall k :: 0 <= k < |a| ==> c !in a[k]
    ensures Avoids(a, c)
    decreases |a|
  {
    if a != [] {
      assert forall k :: 0 <= k < |a[1..]| ==> a[1..][k] == a[k + 1];
      AvoidsEach(a[1..], c);
    }
  }

  /** Splitting the join of pieces without c at c gives the pieces back. */
  lemma {:induction false} PiecesOfJoin(u: seq<char>, i: nat, c: char, a: seq<seq<char>>)
    requires i <= |u| && |a| > 0 && u[i..] == Join(a, [c]) && Avoids(a, c)
    ensures Pieces(u, i, [c], false, false) == a
    decreases |a|
  {
    var j := PiecesOfJoinHead(u, i, c, a);
    if |a| == 1 {
      Single(a);
    } else {
      PiecesOfJoin(u, j, c, a[1..]);
      Uncons(a);
    }
  }

  /** The pieces of a join: its first part, then the pieces from just after the following c. */
  lemma PiecesOfJoinHead(u: seq<char>, i: nat, c: char, a: seq<seq<char>>) returns (j: nat)
    requires i <= |u| && |a| > 0 && u[i..] == Join(a, [c]) && c !in a[0]
    ensures |a| == 1 ==> Pieces(u, i, [c], false, false) == [a[0]]
    ensures |a| > 1 ==> j <= |u| && u[j..] == Join(a[1..], [c]) &&
                        Pieces(u, i, [c], false, false) == [a[0]] + Pieces(u, j, [c], false, false)
  {
    var stop := FirstPiece(u, i, c, a);
    PiecesAt(u, i, [c], false, false, a[0], stop);
    assert Cropped(a[0], false) == a[0];
    j := stop + 1;
  }

  /** A list of one is its only element in brackets. */
  lemma Single(a: seq<seq<char>>)
    requires |a| == 1
    ensures a == [a[0]]
  {
  }

  /** A non-empty list is its head before its tail. */
  lemma Uncons(a: seq<seq<char>>)
    requires |a| > 0
    ensures a == [a[0]] + a[1..]
  {
  }

  /**
   * The first plain piece of a join is its first part; it stops at the end
   * when that is the only part, else at the c before the join of the rest.
   */
  lemma FirstPiece(u: seq<char>, i: nat, c: char, a: seq<seq<char>>) returns (stop: nat)
    requires i <= |u| && |a| > 0 && u[i..] == Join(a, [c]) && c !in a[0]
    ensures stop == Piece(u, i, [c], false).stop && a[0] == Piece(u, i, [c], false).buf
    ensures |a| == 1 ==> stop == |u|
    ensures |a| > 1 ==> stop < |u| && u[stop + 1..] == Join(a[1..], [c])
  {
    var r := Piece(u, i, [c], false);
    stop := r.stop;
    PlainPiece(u, i, c);
    JoinHead(u, i, c, a);
    FirstSeparator(u, i, c, |a[0]|, r.stop);
  }

  /** Where u[i..] is a join, the first piece comes first, then c and the join of the rest. */
  lemma JoinHead(u: seq<char>, i: nat, c: char, a: seq<seq<char>>)
    requires i <= |u| && |a| > 0 && u[i..] == Join(a, [c]) && c !in a[0]
    ensures i + |a[0]| <= |u| && u[i..i + |a[0]|] == a[0] && c !in u[i..i + |a[0]|]
    ensures |a| == 1 ==> i + |a[0]| == |u|
    ensures |a| > 1 ==> i + |a[0]| < |u| && u[i + |a[0]|] == c && u[i + |a[0]| + 1..] == Join(a[1..], [c])
  {
    var n := |a[0]|;
    if |a| > 1 {
      var v := u[i..];
      assert v == a[0] + [c] + Join(a[1..], [c]);
      assert v[n] == c;
      assert v[..n] == a[0];
      assert v[n + 1..] == Join(a[1..], [c]);
      assert u[i + n + 1..] == v[n + 1..];
      assert u[i..i + n] == v[..n];
    }
  }

  /** The plain piece ends at the first c: after the c-free prefix of length n. */
  lemma FirstSeparator(u: seq<char>, i: nat, c: char, n: nat, stop: nat)
    requires i + n <= |u| && c !in u[i..i + n] && (i + n == |u| || u[i + n] == c)
    requires stop == Piece(u, i, [c], false).stop && c !in u[i..stop]
    ensures stop == i + n
  {
  }

  /**
   * The other direction: for NUL-free pieces without the separator byte c,
   * splitting their join at c gives them back.
   */
  lemma JoinSplit(a: seq<seq<char>>, c: char)
    requires |a| > 0 && c != NUL
    requires forall k :: 0 <= k < |a| ==> c !in a[k] && NUL !in a[k]
    ensures SplitOf(Join(a, [c]), [c], false, false) == a
  {
    var u := Join(a, [c]);
    JoinNoNul(a, c);
    assert CStr(u) == u;
    assert CStr([c]) == [c];
    assert u[0..] == u;
    AvoidsEach(a, c);
    PiecesOfJoin(u, 0, c, a);
  }

  /** Joining NUL-free pieces with a NUL-free separator gives a NUL-free string. */
  lemma {:induction false} JoinNoNul(a: seq<seq<char>>, c: char)
    requires c != NUL && forall k :: 0 <= k < |a| ==> NUL !in a[k]
    ensures NUL !in Join(a, [c])
    decreases |a|
  {
    if |a| > 1 {
      JoinNoNul(a[1..], c);
    }
  }

  // ------------------------------------------------------------------
  // The quote loop of split as written
  // ------------------------------------------------------------------

  /**
   * One pass of the quote loop as written, from read index p inside a quote:
   * the bytes appended and the next read index.  After a backslash the body
   * steps once and the loop header steps again, even when the backslash was
   * the last byte and the body stopped on the terminator.
   */
  function QuotedPassAsWritten(u: seq<char>, p: nat): (seq<char>, nat)
    requires p < |u|
  {
    if u[p] == '\\' then (['\\'] + (if p + 1 < |u| then [u[p + 1]] else []), p + 2)
    else ([u[p]], p + 1)
  }

  /**
   * A quoted piece that ends in a backslash, such as the two bytes ' and \,
   * makes the loop as written step past the terminator (index 2), so its next
   * test reads outside the string; Quoted stops on the terminator instead.
   */
  lemma QuoteOverrunsTerminator()
    ensures var u := ['\'', '\\'];
            QuotedPassAsWritten(u, 1).1 == |u| + 1 &&
            Quoted(u, 1, '\'').stop == |u| && Quoted(u, 1, '\'').buf == ['\\']
  {
  }

  /** The next read index of the quote loop as written never falls short of the end of the pass. */
  lemma QuotedPassAgrees(u: seq<char>, p: nat, q: char)
    requires p < |u| && u[p] != q && !(u[p] == '\\' && p + 1 == |u|)
    ensures var (b, n) := QuotedPassAsWritten(u, p);
            n <= |u| && b + Quoted(u, n, q).buf == Quoted(u, p, q).buf &&
            Quoted(u, n, q).stop == Quoted(u, p, q).stop
  {
  }

  // ------------------------------------------------------------------
  // normalizePath
  // ------------------------------------------------------------------

  /** A component normalizePath drops: empty (from // or an end slash) or ".". */
  predicate Dot(p: seq<char>)
  {
    p == [] || p == "."
  }

  /** The components that are not dropped, in order. */
  function Clean(a: seq<seq<char>>): (r: seq<seq<char>>)
    decreases |a|
  {
    if |a| == 0 then [] else (if Dot(a[0]) then [] else [a[0]]) + Clean(a[1..])
  }

  /** Clean keeps exactly the components that are not Dot, in order. */
  lemma {:induction false} CleanMeaning(a: seq<seq<char>>)
    ensures forall k :: 0 <= k < |Clean(a)| ==> !Dot(Clean(a)[k]) && Clean(a)[k] in a
    ensures forall x :: x in a && !Dot(x) ==> x in Clean(a)
    ensures (forall k :: 0 <= k < |a| ==> !Dot(a[k])) ==> Clean(a) == a
    decreases |a|
  {
    if |a| > 0 {
      CleanMeaning(a[1..]);
      var r := Clean(a);
      forall x | x in a && !Dot(x)
        ensures x in r
      {
        if x != a[0] {
          assert x in a[1..];
        }
      }
      forall k | 0 <= k < |r|
        ensures !Dot(r[k]) && r[k] in a
      {
        if !Dot(a[0]) && k > 0 {
          assert r[k] == Clean(a[1..])[k - 1];
        }
        if Dot(a[0]) {
          assert r[k] == Clean(a[1..])[k];
        }
      }
      if forall k :: 0 <= k < |a| ==> !Dot(a[k]) {
        assert forall k :: 0 <= k < |a| - 1 ==> !Dot(a[1..][k]);
      }
    }
  }

  /**
   * Clean works component by component: cleaning a concatenation cleans
   * each part, so the kept components stay in their order.
   */
  lemma {:induction false} CleanAppend(a: seq<seq<char>>, b: seq<seq<char>>)
    ensures Clean(a + b) == Clean(a) + Clean(b)
    decreases |a|
  {
    if |a| > 0 {
      assert (a + b)[0] == a[0] && (a + b)[1..] == a[1..] + b;
      CleanAppend(a[1..], b);
    } else {
      assert a + b == b;
    }
  }

  /** The first loop of normalizePath: remove the Dot components with slowRemove. */
  method RemoveDots(a: seq<seq<char>>) returns (b: seq<seq<char>>)
    ensures b == Clean(a)
  {
    b := a;
    var i := 0;
    while i < |b|
      invariant 0 <= i <= |b|
      invariant b[..i] + Clean(b[i..]) == Clean(a)
      decreases |b| - i
    {
      CleanAt(b, i);
      if Dot(b[i]) {
        Cut(b, i, i + 1);
        b := b[..i] + b[i + 1..];
      } else {
        TakeOneMore(b, i);
        i := i + 1;
      }
    }
    Ends(b, i);
  }

  /** Clean from index i on: the component at i when kept, then the clean rest. */
  lemma CleanAt(b: seq<seq<char>>, i: nat)
    requires i < |b|
    ensures Clean(b[i..]) == (if Dot(b[i]) then [] else [b[i]]) + Clean(b[i + 1..])
  {
    assert b[i..][0] == b[i] && b[i..][1..] == b[i + 1..];
  }

  /** Taking one element more. */
  lemma TakeOneMore(b: seq<seq<char>>, i: nat)
    requires i < |b|
    ensures b[..i + 1] == b[..i] + [b[i]]
  {
  }

  /** The two ends of b cut at i: all of b before an empty rest at the end, all of b after an empty front at the start. */
  lemma Ends(b: seq<seq<char>>, i: nat)
    requires i <= |b|
    ensures i == |b| ==> b[..i] == b && b[i..] == []
    ensures i == 0 ==> b[..i] == [] && b[i..] == b
  {
  }

  /** Erasing b[j..k] leaves the part before j and shifts the part from k down to j. */
  lemma Cut(b: seq<seq<char>>, j: nat, k: nat)
    requires j <= k <= |b|
    ensures (b[..j] + b[k..])[..j] == b[..j] && (b[..j] + b[k..])[j..] == b[k..]
  {
  }

  /** Reduce from index i on: push the component at i, then reduce the rest. */
  lemma ReduceAt(b: seq<seq<char>>, i: nat)
    requires i < |b|
    ensures Reduce(b[..i], b[i..]) == Reduce(Push(b[..i], b[i]), b[i + 1..])
  {
    assert b[i..][0] == b[i] && b[i..][1..] == b[i + 1..];
  }

  /** ".." after a component that is not ".." cancels it; anything else is kept. */
  function Push(st: seq<seq<char>>, c: seq<char>): seq<seq<char>>
  {
    if c == ".." && |st| > 0 && st[|st| - 1] != ".." then st[..|st| - 1] else st + [c]
  }

  /** The components after cancelling, read left to right onto the stack st. */
  function Reduce(st: seq<seq<char>>, rest: seq<seq<char>>): seq<seq<char>>
    decreases |rest|
  {
    if |rest| == 0 then st else Reduce(Push(st, rest[0]), rest[1..])
  }

  /** No ".." follows a component that is not "..": all ".." lead. */
  predicate Reduced(st: seq<seq<char>>)
  {
    forall k :: 0 < k < |st| && st[k] == ".." ==> st[k - 1] == ".."
  }

  /** Cancelling keeps the stack reduced and only ever holds components read. */
  lemma {:induction false} ReduceMeaning(st: seq<seq<char>>, rest: seq<seq<char>>)
    requires Reduced(st)
    ensures Reduced(Reduce(st, rest))
    ensures forall k :: 0 <= k < |Reduce(st, rest)| ==> Reduce(st, rest)[k] in st || Reduce(st, rest)[k] in rest
    decreases |rest|
  {
    if |rest| > 0 {
      var st' := Push(st, rest[0]);
      assert Reduced(st');
      ReduceMeaning(st', rest[1..]);
      forall k | 0 <= k < |Reduce(st, rest)|
        ensures Reduce(st, rest)[k] in st || Reduce(st, rest)[k] in rest
      {
        var x := Reduce(st, rest)[k];
        if x in st' && x !in st {
          assert x == rest[0];
        }
      }
    }
  }

  /** A reduced list is left as it is. */
  lemma {:induction false} ReduceReduced(st: seq<seq<char>>, rest: seq<seq<char>>)
    requires Reduced(st + rest)
    ensures Reduce(st, rest) == st + rest
    decreases |rest|
  {
    if |rest| > 0 {
      assert Push(st, rest[0]) == st + [rest[0]] by {
        if rest[0] == ".." && |st| > 0 {
          assert (st + rest)[|st|] == "..";
          assert (st + rest)[|st| - 1] == st[|st| - 1];
        }
      }
      assert st + rest == (st + [rest[0]]) + rest[1..];
      ReduceReduced(st + [rest[0]], rest[1..]);
    }
  }

  /** The second loop of normalizePath: cancel ".." against the component before it. */
  method RemoveParents(a: seq<seq<char>>) returns (b: seq<seq<char>>)
    ensures b == Reduce([], a)
  {
    b := a;
    var i := 0;
    Ends(b, 0);
    while i < |b|
      invariant 0 <= i <= |b|
      invariant Reduce(b[..i], b[i..]) == Reduce([], a)
      decreases |b| - i
    {
      ReduceAt(b, i);
      if b[i] == ".." && i >= 1 && b[i - 1] != ".." {
        assert b[..i][i - 1] == b[i - 1] && b[..i][..i - 1] == b[..i - 1];
        Cut(b, i - 1, i + 1);
        b := b[..i - 1] + b[i + 1..];
        i := i - 1;
      } else {
        TakeOneMore(b, i);
        i := i + 1;
      }
    }
    Ends(b, i);
  }

  /** The components normalizePath keeps of s. */
  function Components(s: seq<char>): seq<seq<char>>
  {
    Reduce([], Clean(SplitOf(s, "/", false, false)))
  }

  /** Whether normalizePath treats s as absolute: its first byte (the terminator when empty) is '/'. */
  predicate Absolute(s: seq<char>)
  {
    CharAt(s, 0) == '/'
  }

  /** The result of normalizePath. */
  function Normalized(s: seq<char>): seq<char>
  {
    var a := Components(s);
    if Absolute(s) then "/" + Join(a, "/")
    else if a == [] then "."
    else "./" + Join(a, "/")
  }

  /** normalizePath: split at '/', drop Dot components, cancel "..", and reassemble. */
  method NormalizePath(s: seq<char>) returns (r: seq<char>)
    ensures r == Normalized(s)
  {
    var a := Split(s, "/", false, false);
    a := RemoveDots(a);
    if CharAt(s, 0) == '/' {
      r := [];
    } else {
      r := ".";
    }
    a := RemoveParents(a);
    assert a == Components(s);
    assert |r| == 0 <==> Absolute(s);
    if |a| > 0 || |r| == 0 {
      r := r + ("/" + Join(a, "/"));
    }
  }

  /** The pieces of a string without NUL and the separator byte c hold neither. */
  lemma {:induction false} PiecesFree(u: seq<char>, i: nat, c: char)
    requires i <= |u| && NUL !in u
    ensures forall k :: 0 <= k < |Pieces(u, i, [c], false, false)| ==>
              c !in Pieces(u, i, [c], false, false)[k] && NUL !in Pieces(u, i, [c], false, false)[k]
    decreases |u| - i
  {
    var r := Piece(u, i, [c], false);
    PlainPiece(u, i, c);
    assert NUL !in u[i..r.stop];
    if r.stop < |u| {
      PiecesFree(u, r.stop + 1, c);
      assert Pieces(u, i, [c], false, false) == [r.buf] + Pieces(u, r.stop + 1, [c], false, false);
    }
  }

  /** What a component of normalizePath is: no '/', no NUL, not empty and not ".". */
  predicate Component(p: seq<char>)
  {
    '/' !in p && NUL !in p && !Dot(p)
  }

  /** The components of a path are proper components, and all ".." lead. */
  lemma ComponentsMeaning(s: seq<char>)
    ensures forall k :: 0 <= k < |Components(s)| ==> Component(Components(s)[k])
    ensures Reduced(Components(s))
  {
    var u := CStr(s);
    var pieces := SplitOf(s, "/", false, false);
    assert CStr("/") == "/";
    PiecesFree(u, 0, '/');
    var clean := Clean(pieces);
    CleanMeaning(pieces);
    assert forall k :: 0 <= k < |clean| ==> Component(clean[k]);
    ReduceMeaning([], clean);
  }

  /**
   * normalizePath starts the result with '/' exactly for an absolute path
   * and with '.' otherwise, and splitting the result at '/' gives that root
   * ("" or ".") followed by the components.
   */
  lemma NormalizedMeaning(s: seq<char>)
    ensures var r := Normalized(s);
            |r| > 0 && (r[0] == '/' <==> Absolute(s)) && (!Absolute(s) ==> r[0] == '.')
    ensures var a := Components(s);
            a != [] ==> SplitOf(Normalized(s), "/", false, false) == [if Absolute(s) then "" else "."] + a
  {
    var a := Components(s);
    if a != [] {
      ComponentsMeaning(s);
      var root: seq<char> := if Absolute(s) then "" else ".";
      var b := [root] + a;
      JoinRooted(root, a);
      assert Join(b, "/") == Normalized(s);
      RootedFree(root, a);
      JoinSplit(b, '/');
    }
  }

  /** Joining a root and at least one component puts a slash after the root. */
  lemma JoinRooted(root: seq<char>, a: seq<seq<char>>)
    requires a != []
    ensures Join([root] + a, "/") == root + "/" + Join(a, "/")
  {
    assert ([root] + a)[1..] == a;
  }

  /** A root without slash or NUL before proper components: no piece holds a slash or a NUL. */
  lemma RootedFree(root: seq<char>, a: seq<seq<char>>)
    requires '/' !in root && NUL !in root
    requires forall k :: 0 <= k < |a| ==> Component(a[k])
    ensures forall k :: 0 <= k < |[root] + a| ==> '/' !in ([root] + a)[k] && NUL !in ([root] + a)[k]
  {
    forall k | 0 <= k < |[root] + a|
      ensures '/' !in ([root] + a)[k] && NUL !in ([root] + a)[k]
    {
      if k > 0 {
        assert ([root] + a)[k] == a[k - 1];
      }
    }
  }

  /** normalizePath leaves a normalized path as it is. */
  lemma NormalizeIdempotent(s: seq<char>)
    ensures Normalized(Normalized(s)) == Normalized(s)
  {
    NormalizedMeaning(s);
    ComponentsOfNormalized(s);
  }

  /** A normalized path has the components of the path it came from. */
  lemma ComponentsOfNormalized(s: seq<char>)
    ensures Components(Normalized(s)) == Components(s)
  {
    var r := Normalized(s);
    var a := Components(s);
    NormalizedMeaning(s);
    if a != [] {
      ComponentsMeaning(s);
      var root: seq<char> := if Absolute(s) then "" else ".";
      assert Clean([root] + a) == Clean(a);
      CleanMeaning(a);
      assert [] + a == a;
      ReduceReduced([], a);
    } else {
      RootsHaveNoComponents();
      assert r == (if Absolute(s) then "/" else ".");
    }
  }

  /** The bare roots "/" and "." have no components. */
  lemma RootsHaveNoComponents()
    ensures Components("/") == [] && Components(".") == []
  {
    var r: seq<char> := "/";
    assert CStr(r) == r;
    assert Piece(r, 0, "/", false) == Collected([], 0);
    assert Piece(r, 1, "/", false) == Collected([], 1);
    assert SplitOf(r, "/", false, false) == [[], []];
    var d: seq<char> := ".";
    assert CStr(d) == d;
    assert Piece(d, 1, "/", false) == Collected([], 1);
    assert Piece(d, 0, "/", false) == Collected(".", 1);
    assert SplitOf(d, "/", false, false) == ["."];
  }

  // ------------------------------------------------------------------
  // getFitWords
  // ------------------------------------------------------------------

  /** The line getFitWords returns and what it leaves in the string. */
  datatype Fit = Fit(line: seq<char>, rest: seq<char>)

  /** The cut getFitWords makes in a long line: the last blank at or before max, else max. */
  function LastSpace(s: seq<char>, max: nat): (n: nat)
    requires max < |s|
    ensures n <= max
  {
    var l := LastOccurence(s[..max + 1], ' ');
    if l == -1 then max else l
  }

  /**
   * getFitWords(max): an InvalidWidth error for max < 1; up to a newline at
   * or before max; the whole string when it fits; otherwise up to the last
   * blank at or before max (or exactly max bytes), the string keeping what
   * follows the whitespace after the cut.  The line loses its trailing
   * whitespace.
   */
  function FitWords(s: seq<char>, max: int): Result<Fit>
  {
    if max < 1 then Err(InvalidWidth)
    else
      var lf := FirstOccurence(s, '\n');
      if lf != -1 && lf <= max then Ok(Fit(TrimEnd(Truncate(s, lf)), s[lf + 1..]))
      else if |s| <= max then Ok(Fit(TrimEnd(s), []))
      else
        Ok(LongFit(s, max))
  }

  /** strrchr is the only blank with no blank after it. */
  lemma LastOccurenceUnique(t: seq<char>, c: char, l: nat)
    requires l < |t| && t[l] == c && c !in t[l + 1..]
    ensures LastOccurence(t, c) == l
  {
  }

  /** The cut of FitWords for a line longer than max without an early newline. */
  function LongFit(s: seq<char>, max: nat): Fit
    requires max < |s|
  {
    var n := LastSpace(s, max);
    Fit(TrimEnd(Truncate(s, n)), s[n + Lead(s[n..])..])
  }

  /** getFitWords: check for a newline, for a fit, then cut a long line. */
  method GetFitWords(s: seq<char>, max: int) returns (r: Result<Fit>)
    ensures r == FitWords(s, max)
  {
    if max < 1 {
      return Err(InvalidWidth);
    }
    var lf := FirstOccurence(s, '\n');
    if lf != -1 && lf <= max {
      var line := CropSpaceEnd(Truncate(s, lf));
      return Ok(Fit(line, s[lf + 1..]));
    }
    if |s| <= max {
      var line := CropSpaceEnd(s);
      return Ok(Fit(line, []));
    }
    var f := CutLongLine(s, max);
    return Ok(f);
  }

  /** The last part of getFitWords: cut at the last blank, then skip the whitespace after it. */
  method CutLongLine(s: seq<char>, max: nat) returns (f: Fit)
    requires max < |s|
    ensures f == LongFit(s, max)
  {
    var last := LastBlank(s, max);
    var line := CropSpaceEnd(Truncate(s, last));
    var e := last;
    while e < |s| && IsSpace(s[e])
      invariant last <= e <= |s|
      invariant forall k :: last <= k < e ==> IsSpace(s[k])
      decreases |s| - e
    {
      e := e + 1;
    }
    LeadUnique(s[last..], e - last);
    f := Fit(line, s[e..]);
  }

  /** The search loop of getFitWords: the last blank among s[0..max], else max. */
  method LastBlank(s: seq<char>, max: nat) returns (last: nat)
    requires max < |s|
    ensures last == LastSpace(s, max)
  {
    var l := -1;
    var i := 0;
    while i <= max
      invariant 0 <= i <= max + 1
      invariant l == -1 ==> ' ' !in s[..i]
      invariant l != -1 ==> 0 <= l < i && s[l] == ' ' && ' ' !in s[l + 1..i]
    {
      if s[i] == ' ' {
        l := i;
      } else {
        assert s[..i + 1] == s[..i] + [s[i]];
        if l != -1 {
          assert s[l + 1..i + 1] == s[l + 1..i] + [s[i]];
        }
      }
      i := i + 1;
    }
    var t := s[..max + 1];
    if l == -1 {
      assert t == s[..i];
      last := max;
    } else {
      assert t[l + 1..] == s[l + 1..i];
      LastOccurenceUnique(t, ' ', l);
      last := l;
    }
  }

  /**
   * What getFitWords promises of a cut: the line fits in max bytes and holds
   * no newline or trailing whitespace; the string is the line, some
   * whitespace, and the rest; and a non-empty string shrinks.
   */
  predicate GoodFit(s: seq<char>, max: int, f: Fit)
  {
    |f.line| <= max && '\n' !in f.line && (f.line == [] || !IsSpace(f.line[|f.line| - 1])) &&
    f.line <= s && |f.line| + |f.rest| <= |s| && f.rest == s[|s| - |f.rest|..] &&
    (forall k :: |f.line| <= k < |s| - |f.rest| ==> IsSpace(s[k])) &&
    (s != [] ==> |f.rest| < |s|)
  }

  /**
   * getFitWords fails exactly for max < 1 and otherwise makes a good cut, so
   * the callers' while (h) loops end.
   */
  lemma FitWordsMeaning(s: seq<char>, max: int)
    ensures FitWords(s, max).Err? <==> max < 1
    ensures FitWords(s, max).Ok? ==> GoodFit(s, max, FitWords(s, max).value)
  {
    if max >= 1 {
      var lf := FirstOccurence(s, '\n');
      if lf != -1 && lf <= max {
        NewlineFit(s, max, lf);
      } else if |s| <= max {
        WholeFit(s, max);
      } else {
        LongFitGood(s, max);
      }
    }
  }

  /** The cut at a newline at or before max is good. */
  lemma NewlineFit(s: seq<char>, max: int, lf: nat)
    requires lf < |s| && lf <= max && s[lf] == '\n' && '\n' !in s[..lf]
    ensures GoodFit(s, max, Fit(TrimEnd(Truncate(s, lf)), s[lf + 1..]))
  {
    var f := Fit(TrimEnd(Truncate(s, lf)), s[lf + 1..]);
    assert f.line <= s[..lf];
    assert s[|s| - |f.rest|..] == f.rest;
  }

  /** A string that fits is a good cut of itself. */
  lemma WholeFit(s: seq<char>, max: int)
    requires |s| <= max && '\n' !in s
    ensures GoodFit(s, max, Fit(TrimEnd(s), []))
  {
  }

  /** The cut of a long line is good. */
  lemma LongFitGood(s: seq<char>, max: nat)
    requires 1 <= max < |s| && (forall k :: 0 <= k <= max ==> s[k] != '\n')
    ensures GoodFit(s, max, LongFit(s, max))
  {
    var n := LastSpace(s, max);
    var e := n + Lead(s[n..]);
    var f := LongFit(s, max);
    assert f.rest == s[e..];
    assert forall k :: n <= k < e ==> IsSpace(s[k]) by {
      forall k | n <= k < e
        ensures IsSpace(s[k])
      {
        assert s[n..][k - n] == s[k];
      }
    }
    assert '\n' !in s[..n];
    if n == 0 {
      var l := LastOccurence(s[..max + 1], ' ');
      assert l == 0;
    }
  }
}
