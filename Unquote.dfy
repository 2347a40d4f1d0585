// TString::unquote (tstring.cc): remove the quotes of a string in place,
// with optional backslash escapes of the closing quote and optional
// cropping of unquoted leading and trailing whitespace.  The rewrite reads
// at p and writes at q <= p; it is specified by Scan, the sequence of bytes
// written, each marked with whether it moved the nonspace pointer.
module Unquote {
  import opened Chars
  import opened TStrings
  import opened Spaces

  /** One written byte; solid when it was quoted or not whitespace (it moved nonspace). */
  datatype Cell = Cell(c: char, solid: bool)

  /** The bytes of the cells. */
  function Text(cells: seq<Cell>): (r: seq<char>)
    ensures |r| == |cells| && forall k :: 0 <= k < |cells| ==> r[k] == cells[k].c
  {
    if |cells| == 0 then [] else Text(cells[..|cells| - 1]) + [cells[|cells| - 1].c]
  }

  /** The index of the last solid cell, -1 when there is none. */
  function LastSolid(cells: seq<Cell>): (k: int)
    ensures -1 <= k < |cells| && (k >= 0 ==> cells[k].solid)
    ensures forall j :: k < j < |cells| ==> !cells[j].solid
  {
    if |cells| == 0 then -1
    else if cells[|cells| - 1].solid then |cells| - 1
    else LastSolid(cells[..|cells| - 1])
  }

  /** Where the nonspace pointer stands: the last solid cell, or the start of the buffer. */
  function Mark(cells: seq<Cell>): (m: nat)
    ensures cells != [] ==> m < |cells|
  {
    if LastSolid(cells) < 0 then 0 else LastSolid(cells)
  }

  /**
   * The cells unquote writes while reading u in quote state quote (NUL when
   * outside quotes).  A backslash, when allowed, drops itself before the
   * current quote character (outside quotes: before the end, so a trailing
   * backslash vanishes); an opening or closing quote is dropped; reading
   * stops at the first NUL.
   */
  function Scan(u: seq<char>, allow: bool, quote: char): (r: seq<Cell>)
    ensures |r| <= |u|
    decreases |u|, 1
  {
    if |u| == 0 || u[0] == NUL then [] else ScanByte(u, allow, quote)
  }

  /** What unquote makes of the byte u[0], which is not NUL, and of the rest. */
  function ScanByte(u: seq<char>, allow: bool, quote: char): (r: seq<Cell>)
    requires |u| > 0 && u[0] != NUL
    ensures |r| <= |u|
    decreases |u|, 0
  {
    if allow && u[0] == '\\' then
      if CharAt(u, 1) == quote then
        if CharAt(u, 1) == NUL then []
        else [Cell(u[1], true)] + Scan(u[2..], allow, quote)
      else [Cell('\\', true)] + Scan(u[1..], allow, quote)
    else if quote != NUL then
      if u[0] == quote then Scan(u[1..], allow, NUL)
      else [Cell(u[0], true)] + Scan(u[1..], allow, quote)
    else if u[0] == '\'' || u[0] == '\"' then Scan(u[1..], allow, u[0])
    else [Cell(u[0], !IsSpace(u[0]))] + Scan(u[1..], allow, NUL)
  }

  /** No cell holds NUL, and a cell that does not move nonspace holds whitespace. */
  predicate Clean(cells: seq<Cell>)
  {
    forall k :: 0 <= k < |cells| ==> cells[k].c != NUL && (!cells[k].solid ==> IsSpace(cells[k].c))
  }

  /** Every cell unquote writes is clean. */
  lemma {:induction false} ScanCells(u: seq<char>, allow: bool, quote: char)
    ensures Clean(Scan(u, allow, quote))
    decreases |u|
  {
    if |u| > 0 && u[0] != NUL {
      var r := Scan(u, allow, quote);
      assert r == ScanByte(u, allow, quote);
      if allow && u[0] == '\\' {
        if CharAt(u, 1) == quote {
          if CharAt(u, 1) != NUL {
            ScanCells(u[2..], allow, quote);
            CleanConcat([Cell(u[1], true)], Scan(u[2..], allow, quote));
          }
        } else {
          ScanCells(u[1..], allow, quote);
          CleanConcat([Cell('\\', true)], Scan(u[1..], allow, quote));
        }
      } else if quote != NUL {
        ScanCells(u[1..], allow, NUL);
        ScanCells(u[1..], allow, quote);
        CleanConcat([Cell(u[0], true)], Scan(u[1..], allow, quote));
      } else if u[0] == '\'' || u[0] == '\"' {
        ScanCells(u[1..], allow, u[0]);
      } else {
        ScanCells(u[1..], allow, NUL);
        CleanConcat([Cell(u[0], !IsSpace(u[0]))], Scan(u[1..], allow, NUL));
      }
    }
  }

  /** Clean cells stay clean when joined. */
  lemma CleanConcat(a: seq<Cell>, b: seq<Cell>)
    requires Clean(a) && Clean(b)
    ensures Clean(a + b)
  {
    assert forall k :: |a| <= k < |a + b| ==> (a + b)[k] == b[k - |a|];
  }

  /** Where reading starts: after the leading whitespace when cropping. */
  function Start(s: seq<char>, crop: bool): (p: nat)
    ensures p <= |s|
  {
    if crop then Lead(s) else 0
  }

  /**
   * The result of unquote as written: with crop_space the string is cut
   * after the byte nonspace points to, whenever anything was written, even
   * when nothing solid was.
   */
  function UnquoteAsWritten(s: seq<char>, allow: bool, crop: bool): (r: seq<char>)
    ensures |r| <= |s|
  {
    var cells := Scan(s[Start(s, crop)..], allow, NUL);
    if crop && cells != [] then Text(cells)[..Mark(cells) + 1] else Text(cells)
  }

  /** unquote with the crop it evidently intends: cut after the last solid byte, or to nothing. */
  function UnquoteFixed(s: seq<char>, allow: bool, crop: bool): (r: seq<char>)
    ensures |r| <= |s|
  {
    var cells := Scan(s[Start(s, crop)..], allow, NUL);
    if crop then Text(cells)[..LastSolid(cells) + 1] else Text(cells)
  }

  // ------------------------------------------------------------------
  // The in-place rewrite
  // ------------------------------------------------------------------

  /**
   * The state of unquote: read index p, write index q <= p, the unread
   * bytes intact, the written bytes those of done, nonspace at Mark(done),
   * and done followed by what is still to come is everything.
   */
  predicate Unquoting(s: seq<char>, allow: bool, all: seq<Cell>,
                      p: nat, quote: char, t: seq<char>, q: nat, ns: nat, done: seq<Cell>)
  {
    q <= p <= |s| && |t| == |s| && t[p..] == s[p..] &&
    |done| == q && t[..q] == Text(done) && ns == Mark(done) &&
    done + Scan(s[p..], allow, quote) == all
  }

  /** Reading at the end or at a NUL produces nothing more. */
  lemma ScanEnd(s: seq<char>, p: nat, allow: bool, quote: char)
    requires p <= |s| && (p == |s| || s[p] == NUL)
    ensures Scan(s[p..], allow, quote) == []
  {
  }

  /**
   * A backslash at p, when allowed: before the quote character it is
   * dropped and the quote written (outside quotes, at the end, nothing more
   * is read); before anything else it is written itself.
   */
  lemma ScanBackslash(s: seq<char>, p: nat, allow: bool, quote: char)
    requires p < |s| && allow && s[p] == '\\'
    ensures CharAt(s, p + 1) == quote == NUL ==>
              Scan(s[p..], allow, quote) == [] == Scan(s[p + 1..], allow, quote)
    ensures CharAt(s, p + 1) == quote != NUL ==>
              Scan(s[p..], allow, quote) == [Cell(s[p + 1], true)] + Scan(s[p + 2..], allow, quote)
    ensures CharAt(s, p + 1) != quote ==>
              Scan(s[p..], allow, quote) == [Cell('\\', true)] + Scan(s[p + 1..], allow, quote)
  {
    var u := s[p..];
    assert Scan(u, allow, quote) == ScanByte(u, allow, quote);
    assert CharAt(u, 1) == CharAt(s, p + 1);
    assert u[1..] == s[p + 1..];
    if p + 2 <= |s| {
      assert u[2..] == s[p + 2..];
    }
  }

  /** Inside quotes, the quote character at p closes them and any other byte is written. */
  lemma ScanInQuotes(s: seq<char>, p: nat, allow: bool, quote: char)
    requires p < |s| && s[p] != NUL && quote != NUL && !(allow && s[p] == '\\')
    ensures s[p] == quote ==> Scan(s[p..], allow, quote) == Scan(s[p + 1..], allow, NUL)
    ensures s[p] != quote ==> Scan(s[p..], allow, quote) == [Cell(s[p], true)] + Scan(s[p + 1..], allow, quote)
  {
    var u := s[p..];
    assert Scan(u, allow, quote) == ScanByte(u, allow, quote);
    assert u[1..] == s[p + 1..];
  }

  /** Outside quotes, a quote character at p opens them and any other byte is written. */
  lemma ScanOutside(s: seq<char>, p: nat, allow: bool)
    requires p < |s| && s[p] != NUL && !(allow && s[p] == '\\')
    ensures (s[p] == '\'' || s[p] == '\"') ==> Scan(s[p..], allow, NUL) == Scan(s[p + 1..], allow, s[p])
    ensures !(s[p] == '\'' || s[p] == '\"') ==>
              Scan(s[p..], allow, NUL) == [Cell(s[p], !IsSpace(s[p]))] + Scan(s[p + 1..], allow, NUL)
  {
    var u := s[p..];
    assert Scan(u, allow, NUL) == ScanByte(u, allow, NUL);
    assert u[1..] == s[p + 1..];
  }

  /** Reading without writing keeps the state of unquote. */
  lemma Skip(s: seq<char>, allow: bool, all: seq<Cell>, p: nat, quote: char,
             t: seq<char>, q: nat, ns: nat, done: seq<Cell>, p': nat, quote': char)
    requires Unquoting(s, allow, all, p, quote, t, q, ns, done) && p < p' <= |s|
    requires Scan(s[p..], allow, quote) == Scan(s[p'..], allow, quote')
    ensures Unquoting(s, allow, all, p', quote', t, q, ns, done)
  {
    assert t[p'..] == t[p..][p' - p..];
    assert s[p'..] == s[p..][p' - p..];
  }

  /** Writing one more cell at q keeps the written text and the nonspace pointer in step. */
  lemma WriteCell(t: seq<char>, q: nat, done: seq<Cell>, x: Cell)
    requires q < |t| && |done| == q && t[..q] == Text(done)
    ensures t[q := x.c][..q + 1] == Text(done + [x])
  {
    assert (done + [x])[..q] == done;
  }

  /** The nonspace pointer moves to a solid cell and stays put otherwise. */
  lemma MarkCell(done: seq<Cell>, x: Cell)
    ensures Mark(done + [x]) == if x.solid then |done| else Mark(done)
  {
    assert (done + [x])[..|done|] == done;
  }

  /** Reading and writing one cell keeps the state of unquote. */
  lemma Emit(s: seq<char>, allow: bool, all: seq<Cell>, p: nat, quote: char,
             t: seq<char>, q: nat, ns: nat, done: seq<Cell>, p': nat, quote': char, x: Cell)
    requires Unquoting(s, allow, all, p, quote, t, q, ns, done) && p < p' <= |s|
    requires Scan(s[p..], allow, quote) == [x] + Scan(s[p'..], allow, quote')
    ensures Unquoting(s, allow, all, p', quote', t[q := x.c], q + 1, if x.solid then q else ns, done + [x])
  {
    WriteCell(t, q, done, x);
    MarkCell(done, x);
    assert t[q := x.c][p'..] == t[p'..];
    assert t[p'..] == t[p..][p' - p..];
    assert s[p'..] == s[p..][p' - p..];
    assert (done + [x]) + Scan(s[p'..], allow, quote') == done + ([x] + Scan(s[p'..], allow, quote'));
  }

  /** The bytes at p and p + 1 of the buffer are those of s, since nothing was written there yet. */
  lemma Unread(s: seq<char>, p: nat, t: seq<char>)
    requires p < |s| == |t| && t[p..] == s[p..]
    ensures t[p] == s[p] && CharAt(t, p + 1) == CharAt(s, p + 1)
  {
    assert t[p..][0] == t[p] && s[p..][0] == s[p];
    if p + 1 < |s| {
      assert t[p..][1] == t[p + 1] && s[p..][1] == s[p + 1];
    }
  }

  /** The write at the end of the loop body: move nonspace if the byte is solid, store it at q. */
  method Put(s: seq<char>, allow: bool, ghost all: seq<Cell>,
             p: nat, quote: char, t: seq<char>, q: nat, ns: nat, ghost done: seq<Cell>,
             p': nat, x: Cell)
    returns (t': seq<char>, q': nat, ns': nat, ghost done': seq<Cell>)
    requires Unquoting(s, allow, all, p, quote, t, q, ns, done) && p < p' <= |s|
    requires Scan(s[p..], allow, quote) == [x] + Scan(s[p'..], allow, quote)
    ensures Unquoting(s, allow, all, p', quote, t', q', ns', done')
  {
    Emit(s, allow, all, p, quote, t, q, ns, done, p', quote, x);
    if x.solid {
      ns' := q;
    } else {
      ns' := ns;
    }
    t', q', done' := t[q := x.c], q + 1, done + [x];
  }

  /** The loop body on a backslash, when allowed. */
  method BackslashStep(s: seq<char>, allow: bool, ghost all: seq<Cell>,
                       p: nat, quote: char, t: seq<char>, q: nat, ns: nat, ghost done: seq<Cell>)
    returns (p': nat, t': seq<char>, q': nat, ns': nat, ghost done': seq<Cell>)
    requires p < |s| && allow && s[p] == '\\'
    requires Unquoting(s, allow, all, p, quote, t, q, ns, done)
    ensures Unquoting(s, allow, all, p', quote, t', q', ns', done') && p < p'
  {
    Unread(s, p, t);
    ScanBackslash(s, p, allow, quote);
    if CharAt(t, p + 1) == quote {
      p' := p + 1;
      if CharAt(t, p') == NUL {
        Skip(s, allow, all, p, quote, t, q, ns, done, p', quote);
        return p', t, q, ns, done;
      }
      t', q', ns', done' := Put(s, allow, all, p, quote, t, q, ns, done, p' + 1, Cell(t[p'], true));
      p' := p' + 1;
    } else {
      t', q', ns', done' := Put(s, allow, all, p, quote, t, q, ns, done, p + 1, Cell('\\', true));
      p' := p + 1;
    }
  }

  /** The loop body on any other byte inside quotes. */
  method QuotedStep(s: seq<char>, allow: bool, ghost all: seq<Cell>,
                    p: nat, quote: char, t: seq<char>, q: nat, ns: nat, ghost done: seq<Cell>)
    returns (quote': char, t': seq<char>, q': nat, ns': nat, ghost done': seq<Cell>)
    requires p < |s| && s[p] != NUL && quote != NUL && !(allow && s[p] == '\\')
    requires Unquoting(s, allow, all, p, quote, t, q, ns, done)
    ensures Unquoting(s, allow, all, p + 1, quote', t', q', ns', done')
  {
    Unread(s, p, t);
    ScanInQuotes(s, p, allow, quote);
    if t[p] == quote {
      Skip(s, allow, all, p, quote, t, q, ns, done, p + 1, NUL);
      return NUL, t, q, ns, done;
    }
    quote' := quote;
    t', q', ns', done' := Put(s, allow, all, p, quote, t, q, ns, done, p + 1, Cell(t[p], true));
  }

  /** The loop body on any other byte outside quotes. */
  method OpenStep(s: seq<char>, allow: bool, ghost all: seq<Cell>,
                  p: nat, t: seq<char>, q: nat, ns: nat, ghost done: seq<Cell>)
    returns (quote': char, t': seq<char>, q': nat, ns': nat, ghost done': seq<Cell>)
    requires p < |s| && s[p] != NUL && !(allow && s[p] == '\\')
    requires Unquoting(s, allow, all, p, NUL, t, q, ns, done)
    ensures Unquoting(s, allow, all, p + 1, quote', t', q', ns', done')
  {
    Unread(s, p, t);
    ScanOutside(s, p, allow);
    var c := t[p];
    if c == '\'' || c == '\"' {
      Skip(s, allow, all, p, NUL, t, q, ns, done, p + 1, c);
      return c, t, q, ns, done;
    }
    quote' := NUL;
    t', q', ns', done' := Put(s, allow, all, p, NUL, t, q, ns, done, p + 1, Cell(c, !IsSpace(c)));
  }

  /** One pass of the loop of unquote. */
  method UnquoteStep(s: seq<char>, allow: bool, ghost all: seq<Cell>,
                     p: nat, quote: char, t: seq<char>, q: nat, ns: nat, ghost done: seq<Cell>)
    returns (p': nat, quote': char, t': seq<char>, q': nat, ns': nat, ghost done': seq<Cell>)
    requires p < |s| && s[p] != NUL
    requires Unquoting(s, allow, all, p, quote, t, q, ns, done)
    ensures Unquoting(s, allow, all, p', quote', t', q', ns', done') && p < p'
  {
    Unread(s, p, t);
    if allow && t[p] == '\\' {
      p', t', q', ns', done' := BackslashStep(s, allow, all, p, quote, t, q, ns, done);
      quote' := quote;
    } else if quote != NUL {
      quote', t', q', ns', done' := QuotedStep(s, allow, all, p, quote, t, q, ns, done);
      p' := p + 1;
    } else {
      quote', t', q', ns', done' := OpenStep(s, allow, all, p, t, q, ns, done);
      p' := p + 1;
    }
  }

  /** unquote: skip leading whitespace when cropping, rewrite in place, then cut. */
  method Unquote(s: seq<char>, allow: bool, crop: bool) returns (r: seq<char>)
    ensures r == UnquoteAsWritten(s, allow, crop)
  {
    var t := s;
    var p: nat := 0;
    if crop {
      while p < |t| && IsSpace(t[p])
        invariant p <= |t|
        invariant forall k :: 0 <= k < p ==> IsSpace(s[k])
      {
        p := p + 1;
      }
      LeadUnique(s, p);
    }
    ghost var start := p;
    ghost var all := Scan(s[p..], allow, NUL);
    var q: nat := 0;
    var ns: nat := 0;
    var quote := NUL;
    ghost var done: seq<Cell> := [];
    while p < |t| && t[p] != NUL
      invariant Unquoting(s, allow, all, p, quote, t, q, ns, done)
      decreases |s| - p
    {
      p, quote, t, q, ns, done := UnquoteStep(s, allow, all, p, quote, t, q, ns, done);
    }
    ScanEnd(s, p, allow, quote);
    assert done == all;
    // *q = 0; the byte at nonspace is a written one exactly when ns < q
    if crop && ns < q {
      r := t[..ns + 1];
    } else {
      r := t[..q];
    }
    Cut(s, allow, crop, start, t, q, ns, all);
  }

  /** Cutting the written bytes after nonspace is the crop of unquote as written. */
  lemma Cut(s: seq<char>, allow: bool, crop: bool, start: nat, t: seq<char>, q: nat, ns: nat, all: seq<Cell>)
    requires start == Start(s, crop) && all == Scan(s[start..], allow, NUL)
    requires |all| == q <= |t| && t[..q] == Text(all) && ns == Mark(all)
    ensures UnquoteAsWritten(s, allow, crop) == if crop && ns < q then t[..ns + 1] else t[..q]
  {
    if crop && ns < q {
      assert t[..ns + 1] == t[..q][..ns + 1];
    }
  }

  // ------------------------------------------------------------------
  // Properties
  // ------------------------------------------------------------------

  /** The cells of bytes read inside quotes: all of them solid. */
  function Solid(s: seq<char>): (r: seq<Cell>)
    ensures |r| == |s| && forall k :: 0 <= k < |s| ==> r[k] == Cell(s[k], true)
  {
    if |s| == 0 then [] else [Cell(s[0], true)] + Solid(s[1..])
  }

  /** Single quotes escaped with a backslash, as unquote reads them back. */
  function EscapeQuotes(s: seq<char>): (r: seq<char>)
    ensures |s| <= |r| <= 2 * |s|
  {
    if |s| == 0 then []
    else (if s[0] == '\'' then ['\\', '\''] else [s[0]]) + EscapeQuotes(s[1..])
  }

  /** s in single quotes, its quotes escaped. */
  function Quoted(s: seq<char>): seq<char>
  {
    ['\''] + EscapeQuotes(s) + ['\'']
  }

  /** No NUL byte: the whole string is read. */
  predicate NoNul(s: seq<char>)
  {
    forall k :: 0 <= k < |s| ==> s[k] != NUL
  }

  /** Inside single quotes, an escaped body reads back as itself up to the closing quote. */
  lemma {:induction false} ScanEscaped(s: seq<char>, rest: seq<char>)
    requires NoNul(s) && (s == [] || s[|s| - 1] != '\\')
    ensures Scan(EscapeQuotes(s) + ['\''] + rest, true, '\'') == Solid(s) + Scan(rest, true, NUL)
  {
    var u := EscapeQuotes(s) + ['\''] + rest;
    if s == [] {
      assert u == ['\''] + rest && u[0..] == u;
      ScanInQuotes(u, 0, true, '\'');
      assert u[1..] == rest;
    } else {
      ScanEscaped(s[1..], rest);
      ScanEscapedHead(s, rest);
      assert Solid(s) == [Cell(s[0], true)] + Solid(s[1..]);
    }
  }

  /** The first byte of an escaped body reads back as itself. */
  lemma ScanEscapedHead(s: seq<char>, rest: seq<char>)
    requires s != [] && NoNul(s) && s[|s| - 1] != '\\'
    ensures Scan(EscapeQuotes(s) + ['\''] + rest, true, '\'') ==
            [Cell(s[0], true)] + Scan(EscapeQuotes(s[1..]) + ['\''] + rest, true, '\'')
  {
    var u := EscapeQuotes(s) + ['\''] + rest;
    var tail := EscapeQuotes(s[1..]) + ['\''] + rest;
    assert u[0..] == u;
    if s[0] == '\'' {
      assert u == ['\\', '\''] + tail;
      ScanBackslash(u, 0, true, '\'');
      assert u[2..] == tail;
    } else {
      assert u == [s[0]] + tail;
      assert u[1..] == tail;
      if s[0] == '\\' {
        assert tail[0] != '\'' by {
          if s[1] == '\'' {
            assert tail[0] == '\\';
          } else {
            assert tail[0] == s[1];
          }
        }
        ScanBackslash(u, 0, true, '\'');
      } else {
        ScanInQuotes(u, 0, true, '\'');
      }
    }
  }

  /** Quoting with escaped quotes and then unquoting gives back every NUL-free string. */
  lemma QuoteRoundTrip(s: seq<char>, crop: bool)
    requires NoNul(s) && (s == [] || s[|s| - 1] != '\\')
    ensures UnquoteAsWritten(Quoted(s), true, crop) == s
    ensures UnquoteFixed(Quoted(s), true, crop) == s
  {
    var w := Quoted(s);
    assert Start(w, crop) == 0 by {
      if crop {
        LeadUnique(w, 0);
      }
    }
    ScanEscaped(s, []);
    assert w[1..] == EscapeQuotes(s) + ['\''] + [];
    assert w[0..] == w;
    ScanOutside(w, 0, true);
    var cells := Scan(w, true, NUL);
    assert cells == Solid(s);
    assert Text(cells) == s;
  }

  /** Without backslash escapes, a body free of single quotes reads back as itself. */
  lemma {:induction false} ScanPlain(s: seq<char>, rest: seq<char>)
    requires NoNul(s) && forall k :: 0 <= k < |s| ==> s[k] != '\''
    ensures Scan(s + ['\''] + rest, false, '\'') == Solid(s) + Scan(rest, false, NUL)
  {
    var u := s + ['\''] + rest;
    if s == [] {
      assert u[1..] == rest;
    } else {
      ScanPlain(s[1..], rest);
      assert u[1..] == s[1..] + ['\''] + rest;
      assert Solid(s) == [Cell(s[0], true)] + Solid(s[1..]);
    }
  }

  /** Unquoting a single-quoted string without escapes gives back its body. */
  lemma PlainQuoteRoundTrip(s: seq<char>, crop: bool)
    requires NoNul(s) && forall k :: 0 <= k < |s| ==> s[k] != '\''
    ensures UnquoteAsWritten(['\''] + s + ['\''], false, crop) == s
  {
    var w := ['\''] + s + ['\''];
    assert Start(w, crop) == 0 by {
      if crop {
        LeadUnique(w, 0);
      }
    }
    ScanPlain(s, []);
    assert w[1..] == s + ['\''] + [];
    assert Text(Scan(w, false, NUL)) == s;
  }

  /** A string without quotes, backslashes or NUL is left as it is when not cropping. */
  lemma {:induction false} UnquoteUnquoted(s: seq<char>, allow: bool)
    requires NoNul(s) && forall k :: 0 <= k < |s| ==> s[k] != '\'' && s[k] != '\"' && s[k] != '\\'
    ensures Text(Scan(s, allow, NUL)) == s
    ensures UnquoteAsWritten(s, allow, false) == s
  {
    if s != [] {
      UnquoteUnquoted(s[1..], allow);
      var rest := Scan(s[1..], allow, NUL);
      var x := Cell(s[0], !IsSpace(s[0]));
      assert Scan(s, allow, NUL) == [x] + rest;
      assert Text([x] + rest)[1..] == Text(rest);
    }
    assert s[0..] == s;
  }

  /**
   * The intended crop keeps everything up to the last solid byte and drops
   * only unquoted whitespace after it.
   */
  lemma CropFixedMeaning(s: seq<char>, allow: bool)
    ensures var cells := Scan(s[Lead(s)..], allow, NUL);
            var r := UnquoteFixed(s, allow, true);
            r == Text(cells)[..|r|] &&
            (r == [] || cells[|r| - 1].solid) &&
            forall j :: |r| <= j < |cells| ==> !cells[j].solid && IsSpace(cells[j].c)
  {
    ScanCells(s[Lead(s)..], allow, NUL);
  }

  /** As written, an empty quoted string followed by a blank keeps the blank when cropping. */
  lemma CropKeepsBlank()
    ensures UnquoteAsWritten("'' ", false, true) == " "
    ensures UnquoteFixed("'' ", false, true) == ""
  {
    var w := "'' ";
    assert Lead(w) == 0 by {
      LeadUnique(w, 0);
    }
    assert w[1..] == "' ";
    assert w[1..][1..] == " ";
    assert w[1..][1..][1..] == [];
    var cells := Scan(w, false, NUL);
    assert cells == [Cell(' ', false)];
    assert LastSolid(cells) == -1;
  }
}
