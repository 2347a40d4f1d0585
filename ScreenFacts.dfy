// What the renderer's operations promise, proved on the functions of
// Screen: every operation keeps the invariant (so every printed split line
// has its '|' in the same column), the cursors advance by what each event
// reports, the hex dump keeps both sides on the same byte count, and the
// ASCII modes keep both sides on the same column.
module ScreenFacts {
  import opened MinMax
  import opened Outcomes
  import opened Glyphs
  import opened Chars
  import opened Columns
  import opened Layouts
  import opened Screen
  import opened Seqs

  /** The constructor's state satisfies the invariant. */
  lemma StartOk(lay: Layout)
    requires LayoutOk(lay)
    ensures Inv(lay, Start)
  {
  }

  /** Every colour switch of a usable palette takes no column. */
  lemma ColourOk(lay: Layout, k: Kind)
    requires PaletteOk(lay.pal)
    ensures Invisible(Colour(lay.pal, k))
  {
  }

  /** Appending to a half line keeps its blank gutter. */
  lemma GutterAppend(a: seq<char>, b: seq<char>)
    requires Gutter(a)
    ensures Gutter(a + b)
  {
    assert (a + b)[..GutterWidth] == a[..GutterWidth];
  }

  /** Plain text joined to closed text is closed. */
  lemma PlainThenClosed(a: seq<char>, b: seq<char>)
    requires Plain(a) && Closed(b)
    ensures Closed(a + b)
  {
    PlainColumns(a);
    ClosedJoin(a, b);
  }

  /** Closed text followed by plain text is closed. */
  lemma ClosedThenPlain(a: seq<char>, b: seq<char>)
    requires Closed(a) && Plain(b)
    ensures Closed(a + b)
  {
    PlainColumns(b);
    ClosedJoin(a, b);
  }

  /** A split row printed from two closed half lines is aligned. */
  lemma SplitRowAligned(lay: Layout, a: seq<char>, b: seq<char>)
    requires LayoutOk(lay) && Closed(a) && Closed(b)
    ensures Aligned(lay, SplitRow(lay, a, b))
  {
    FitWidth(a, lay.half, lay.pal.nor);
    FitWidth(b, lay.half, lay.pal.nor);
  }

  /** Printing an aligned row keeps every printed row aligned. */
  lemma AppendAligned(lay: Layout, rows: seq<Row>, r: Row)
    requires forall i :: 0 <= i < |rows| ==> Aligned(lay, rows[i])
    requires Aligned(lay, r)
    ensures forall i :: 0 <= i < |rows + [r]| ==> Aligned(lay, (rows + [r])[i])
  {
    forall i | 0 <= i < |rows + [r]|
      ensures Aligned(lay, (rows + [r])[i])
    {
      if i < |rows| {
        assert (rows + [r])[i] == rows[i];
      }
    }
  }

  /** flush keeps the invariant: the line it prints is aligned. */
  lemma FlushedOk(lay: Layout, s: State)
    requires LayoutOk(lay) && Inv(lay, s)
    ensures Inv(lay, Flushed(lay, s))
  {
    if Pending(s) {
      SplitRowAligned(lay, s.h1.buf, s.h2.buf);
      AppendAligned(lay, s.rows, SplitRow(lay, s.h1.buf, s.h2.buf));
    }
  }

  /**
   * The label and colour before a present byte keep the half line closed;
   * a labelled half line no longer needs its label afterwards.
   */
  lemma PrefixedFacts(lay: Layout, h: Half, labelled: bool, tag: seq<char>, k: Kind)
    requires PaletteOk(lay.pal) && Closed(h.buf) && Plain(tag)
    requires h.needadr && h.bytesin > 0 && labelled ==> Gutter(h.buf)
    ensures var p := Prefixed(lay, h, labelled, tag, k);
      Closed(p.buf) && p.bytesin == h.bytesin && p.line == h.line &&
      (labelled ==> !p.needadr) &&
      (!labelled ==> p.needadr == h.needadr && (Gutter(h.buf) ==> Gutter(p.buf)))
  {
    PlainColumns(tag);
    var a := if h.bytesin == 0 && labelled then h.(buf := tag, needadr := false) else h;
    assert Closed(a.buf);
    if a.needadr && labelled {
      var buf := a.buf;
      assert buf == buf[..GutterWidth] + buf[GutterWidth..];
      ClosedDrop(buf[..GutterWidth], buf[GutterWidth..]);
      ClosedJoin(tag, buf[GutterWidth..]);
    }
    var b := if a.needadr && labelled then a.(buf := Stamp(tag, a.buf), needadr := false) else a;
    assert Closed(b.buf);
    if b.lastcolor != Some(k) {
      ColourOk(lay, k);
      ClosedJoin(b.buf, Colour(lay.pal, k));
      if Gutter(b.buf) {
        GutterAppend(b.buf, Colour(lay.pal, k));
      }
    }
  }

  /** Plain text drawn onto a half line that holds no pending gutter keeps it well formed. */
  lemma DrawnOk(lay: Layout, p: Half, text: seq<char>, n: nat)
    requires Closed(p.buf) && p.line >= 1 && Plain(text) && n >= 1
    requires p.needadr && lay.lineNumbers ==> Gutter(p.buf)
    ensures HalfOk(lay, p.(buf := p.buf + text, bytesin := p.bytesin + n))
  {
    ClosedThenPlain(p.buf, text);
    if p.needadr && lay.lineNumbers {
      GutterAppend(p.buf, text);
    }
  }

  /** Drawing a present byte keeps a half line without a pending gutter well formed. */
  lemma DrawOk(lay: Layout, p: Half, b: byte, ooff: int, ob: byte, opos: nat)
    requires LayoutOk(lay) && Closed(p.buf) && p.line >= 1
    requires p.needadr && lay.lineNumbers ==> Gutter(p.buf)
    ensures var r := Draw(lay, p, b, ooff, ob, opos);
      HalfOk(lay, r) && r.bytesin > p.bytesin
  {
    var st := lay.style;
    var glyph := Glyph(st, b, p.bytesin);
    GlyphPlain(st, b, p.bytesin);
    var pos := p.bytesin + CharLen(st, b, p.bytesin);
    DrawnOk(lay, p, glyph, CharLen(st, b, p.bytesin));
    var g := p.(buf := p.buf + glyph, bytesin := pos);
    var w := CharLen(st, ob, opos);
    var own := CharLen(st, b, pos);
    if ooff >= 0 && w > own {
      DrawnOk(lay, g, Spaces(w - own), w - own);
    }
  }

  /** A present byte on one side of putAscElem keeps the half line well formed. */
  lemma AscPresentOk(lay: Layout, h: Half, off: nat, b: byte, ooff: int, ob: byte, opos: nat, k: Kind, formatted: bool)
    requires LayoutOk(lay) && HalfOk(lay, h)
    ensures var r := AscHalf(lay, h, off, b, ooff, ob, opos, k, formatted);
      HalfOk(lay, r) && r.bytesin > h.bytesin
  {
    var tag := Label(h, off, formatted);
    LabelsPlain(off, h.line);
    PrefixedFacts(lay, h, lay.lineNumbers, tag, k);
    DrawOk(lay, Prefixed(lay, h, lay.lineNumbers, tag, k), b, ooff, ob, opos);
  }

  /** An absent byte on one side of putAscElem keeps the half line well formed. */
  lemma AscAbsentOk(lay: Layout, h: Half, b: byte, ooff: int, ob: byte, opos: nat, k: Kind, formatted: bool)
    requires LayoutOk(lay) && HalfOk(lay, h)
    ensures var r := AscHalf(lay, h, -1, b, ooff, ob, opos, k, formatted);
      HalfOk(lay, r) && r.bytesin > h.bytesin
  {
    var w := CharLen(lay.style, ob, opos);
    var q := if h.bytesin == 0 && lay.lineNumbers then Spaces(GutterWidth) else h.buf;
    if h.bytesin == 0 && lay.lineNumbers {
      PlainColumns(q);
      assert Gutter(q);
    }
    ClosedThenPlain(q, Spaces(w));
    if h.needadr && lay.lineNumbers {
      GutterAppend(q, Spaces(w));
    }
  }

  /** One side of putAscElem keeps its half line well formed and counts at least one column. */
  lemma AscHalfOk(lay: Layout, h: Half, off: int, b: byte, ooff: int, ob: byte, opos: nat, k: Kind, formatted: bool)
    requires LayoutOk(lay) && HalfOk(lay, h)
    ensures var r := AscHalf(lay, h, off, b, ooff, ob, opos, k, formatted);
      HalfOk(lay, r) && r.bytesin > h.bytesin
  {
    if off >= 0 {
      AscPresentOk(lay, h, off, b, ooff, ob, opos, k, formatted);
    } else {
      AscAbsentOk(lay, h, b, ooff, ob, opos, k, formatted);
      assert AscHalf(lay, h, off, b, ooff, ob, opos, k, formatted) == AscHalf(lay, h, -1, b, ooff, ob, opos, k, formatted);
    }
  }

  /** One side of putHexElem keeps its half line well formed and counts exactly one more byte. */
  lemma HexHalfOk(lay: Layout, h: Half, off: int, b: byte, k: Kind)
    requires LayoutOk(lay) && lay.lineNumbers && HalfOk(lay, h)
    ensures var r := HexHalf(lay, h, off, b, k);
      HalfOk(lay, r) && r.bytesin == h.bytesin + 1
  {
    if off >= 0 {
      LabelsPlain(off, 1);
      PrefixedFacts(lay, h, true, AddressLabel(off), k);
      var p := Prefixed(lay, h, true, AddressLabel(off), k);
      var cell := if p.bytesin != 0 then [Mark(lay, off)] + Hex2(b) else Hex2(b);
      assert Plain(cell);
      ClosedThenPlain(p.buf, cell);
    } else {
      if h.bytesin == 0 {
        var sp := Spaces(GutterWidth + 2);
        PlainColumns(sp);
        assert sp[..GutterWidth] == Spaces(GutterWidth);
      } else {
        ClosedThenPlain(h.buf, Spaces(3));
        if h.needadr && lay.lineNumbers {
          GutterAppend(h.buf, Spaces(3));
        }
      }
    }
  }

  /** Counting columns without drawing keeps a half line that already holds a byte well formed. */
  lemma CountedOk(lay: Layout, h: Half, w: nat)
    requires HalfOk(lay, h) && h.bytesin > 0
    ensures HalfOk(lay, h.(bytesin := h.bytesin + w))
  {
  }

  /** The line break before a pair keeps the invariant. */
  lemma AscBreakOk(lay: Layout, s: State, off1: int, b1: byte, off2: int, b2: byte)
    requires LayoutOk(lay) && Inv(lay, s)
    ensures Inv(lay, AscBreak(lay, s, off1, b1, off2, b2))
  {
    FlushedOk(lay, s);
  }

  /** Drawing a pair keeps the invariant (in the ASCII modes it serves). */
  lemma AscDrawOk(lay: Layout, t: State, off1: int, b1: byte, off2: int, b2: byte, k: Kind, formatted: bool)
    requires LayoutOk(lay) && lay.mode != HexDump && Inv(lay, t)
    ensures Inv(lay, AscDraw(lay, t, off1, b1, off2, b2, k, formatted))
  {
    var st := lay.style;
    if t.h1.bytesin > lay.maxBytesPerLine {
      CountedOk(lay, t.h1, CharLen(st, b1, t.h1.bytesin));
      CountedOk(lay, t.h2, CharLen(st, b2, t.h2.bytesin));
    } else {
      AscHalfOk(lay, t.h1, off1, b1, off2, b2, t.h2.bytesin, k, formatted);
      var n1 := AscHalf(lay, t.h1, off1, b1, off2, b2, t.h2.bytesin, k, formatted);
      AscHalfOk(lay, t.h2, off2, b2, off1, b1, n1.bytesin, k, formatted);
    }
  }

  /** Ending a line at a newline keeps the invariant. */
  lemma AscLineEndOk(lay: Layout, u: State, off1: int, b1: byte, off2: int, b2: byte, formatted: bool)
    requires LayoutOk(lay) && Inv(lay, u)
    ensures Inv(lay, AscLineEnd(lay, u, off1, b1, off2, b2, formatted))
  {
    if formatted && (Newline(off1, b1) || Newline(off2, b2)) {
      var v := u.(h1 := u.h1.(line := u.h1.line + if Newline(off1, b1) then 1 else 0),
                  h2 := u.h2.(line := u.h2.line + if Newline(off2, b2) then 1 else 0));
      assert Inv(lay, v);
      FlushedOk(lay, v);
    }
  }

  /** putAscElem keeps the invariant (in the ASCII modes it serves). */
  lemma AscElemOk(lay: Layout, s: State, off1: int, b1: byte, off2: int, b2: byte, k: Kind, formatted: bool)
    requires LayoutOk(lay) && lay.mode != HexDump && Inv(lay, s)
    ensures Inv(lay, AscElem(lay, s, off1, b1, off2, b2, k, formatted))
  {
    AscBreakOk(lay, s, off1, b1, off2, b2);
    var t := AscBreak(lay, s, off1, b1, off2, b2);
    AscDrawOk(lay, t, off1, b1, off2, b2, k, formatted);
    AscLineEndOk(lay, AscDraw(lay, t, off1, b1, off2, b2, k, formatted), off1, b1, off2, b2, formatted);
  }

  /** HexHalf counts one byte and keeps the line counter. */
  lemma HexHalfCounts(lay: Layout, h: Half, off: int, b: byte, k: Kind)
    ensures HexHalf(lay, h, off, b, k).bytesin == h.bytesin + 1
    ensures HexHalf(lay, h, off, b, k).line == h.line
  {
    if off >= 0 {
      PrefixedBytes(lay, h, true, AddressLabel(off), k);
    }
  }

  /** Breaking a full hex-dump line keeps the invariant and leaves room for one more byte. */
  lemma HexBreakOk(lay: Layout, s: State)
    requires LayoutOk(lay) && lay.mode == HexDump && Inv(lay, s)
    ensures var t := HexBreak(lay, s);
      Inv(lay, t) && t.h1.bytesin < lay.bytesPerLine &&
      t.h1.bytesin == (if s.h1.bytesin == lay.bytesPerLine then 0 else s.h1.bytesin) &&
      t.rows == (if s.h1.bytesin == lay.bytesPerLine then s.rows + [SplitRow(lay, s.h1.buf, s.h2.buf)] else s.rows)
  {
    FlushedOk(lay, s);
  }

  /** Drawing a hex pair keeps the invariant and counts one byte on each side. */
  lemma HexDrawOk(lay: Layout, t: State, off1: int, b1: byte, off2: int, b2: byte, k: Kind)
    requires LayoutOk(lay) && lay.mode == HexDump && Inv(lay, t) && t.h1.bytesin < lay.bytesPerLine
    ensures var r := HexDraw(lay, t, off1, b1, off2, b2, k);
      Inv(lay, r) && r.h1.bytesin == t.h1.bytesin + 1 && r.rows == t.rows
  {
    if t.h1.bytesin > lay.maxBytesPerLine || t.h2.bytesin > lay.maxBytesPerLine {
      CountedOk(lay, t.h1, 1);
      CountedOk(lay, t.h2, 1);
    } else {
      HexHalfOk(lay, t.h1, off1, b1, k);
      HexHalfOk(lay, t.h2, off2, b2, k);
    }
  }

  /** putHexElem keeps the invariant. */
  lemma HexElemOk(lay: Layout, s: State, off1: int, b1: byte, off2: int, b2: byte, k: Kind)
    requires LayoutOk(lay) && lay.mode == HexDump && Inv(lay, s)
    ensures Inv(lay, HexElem(lay, s, off1, b1, off2, b2, k))
  {
    HexBreakOk(lay, s);
    HexDrawOk(lay, HexBreak(lay, s), off1, b1, off2, b2, k);
  }

  /** Putting out one pair keeps the invariant. */
  lemma PairOk(lay: Layout, f1: seq<byte>, f2: seq<byte>, s: State, k: Kind, take1: bool, take2: bool)
    requires LayoutOk(lay) && Inv(lay, s)
    requires take1 ==> s.o1 < |f1|
    requires take2 ==> s.o2 < |f2|
    ensures Inv(lay, Pair(lay, f1, f2, s, k, take1, take2))
  {
    var off1: int := if take1 then s.o1 else -1;
    var off2: int := if take2 then s.o2 else -1;
    var b1: byte := if take1 then f1[s.o1] else 0;
    var b2: byte := if take2 then f2[s.o2] else 0;
    match lay.mode
    case Vertical =>
      var row := ByteRow(k, if take1 then Some((s.o1, b1)) else None, if take2 then Some((s.o2, b2)) else None);
      AppendAligned(lay, s.rows, row);
    case HexDump =>
      HexElemOk(lay, s, off1, b1, off2, b2, k);
    case _ =>
      AscElemOk(lay, s, off1, b1, off2, b2, k, lay.mode == FormattedAscii);
  }

  /** The invariant does not look at the cursors. */
  lemma InvMoves(lay: Layout, s: State, a: nat, b: nat)
    requires Inv(lay, s)
    ensures Inv(lay, s.(o1 := a, o2 := b))
  {
  }

  /** One turn of a byte loop keeps the invariant. */
  lemma ElemOk(lay: Layout, f1: seq<byte>, f2: seq<byte>, s: State, k: Kind, take1: bool, take2: bool)
    requires LayoutOk(lay) && Inv(lay, s)
    requires take1 ==> s.o1 < |f1|
    requires take2 ==> s.o2 < |f2|
    ensures Inv(lay, Elem(lay, f1, f2, s, k, take1, take2))
  {
    PairOk(lay, f1, f2, s, k, take1, take2);
    InvMoves(lay, Pair(lay, f1, f2, s, k, take1, take2), s.o1 + (if take1 then 1 else 0), s.o2 + (if take2 then 1 else 0));
  }

  /** A whole byte loop keeps the invariant. */
  lemma {:induction false} RunOk(lay: Layout, f1: seq<byte>, f2: seq<byte>, s: State, n: nat, k: Kind, take1: bool, take2: bool)
    requires LayoutOk(lay) && Inv(lay, s)
    requires take1 ==> s.o1 + n <= |f1|
    requires take2 ==> s.o2 + n <= |f2|
    ensures Inv(lay, Run(lay, f1, f2, s, n, k, take1, take2))
    decreases n
  {
    if n > 0 {
      RunOk(lay, f1, f2, s, n - 1, k, take1, take2);
      RunLast(lay, f1, f2, s, n, k, take1, take2);
      ElemOk(lay, f1, f2, Run(lay, f1, f2, s, n - 1, k, take1, take2), k, take1, take2);
    }
  }

  /** The text of a range line is closed. */
  lemma RangeTextClosed(lay: Layout, at: nat, k: Kind, n: nat, words: seq<char>)
    requires PaletteOk(lay.pal) && Plain(words)
    ensures Closed(RangeText(lay, at, k, n, words))
  {
    LabelsPlain(at, 1);
    var head := AddressLabel(at) + [' '];
    PlainColumns(head);
    ColourOk(lay, k);
    ClosedJoin(head, Colour(lay.pal, k));
    FieldPlain(n, words);
    ClosedThenPlain(head + Colour(lay.pal, k), Field10(n) + words);
    Regroup(head + Colour(lay.pal, k), Field10(n), words);
    ClosedJoin(head + Colour(lay.pal, k) + Field10(n) + words, lay.pal.nor);
  }

  /** Plain texts joined are plain. */
  lemma PlainJoin(a: seq<char>, b: seq<char>)
    requires Plain(a) && Plain(b)
    ensures Plain(a + b)
  {
    forall i | 0 <= i < |a + b|
      ensures (a + b)[i] != ESC && (a + b)[i] != NUL
    {
      if i >= |a| {
        assert (a + b)[i] == b[i - |a|];
      }
    }
  }

  /** The right-aligned count followed by plain words is plain. */
  lemma FieldPlain(n: nat, words: seq<char>)
    requires Plain(words)
    ensures Plain(Field10(n) + words)
  {
    var d := Digits(n);
    DigitsPlain(n);
    var sp := Spaces(Max(10, |d|) - |d|);
    assert Plain(sp);
    PlainJoin(sp, d);
    PlainJoin(sp + d, words);
  }

  /** A hidden stretch keeps the invariant. */
  lemma SkipOk(lay: Layout, s: State, a: nat, b: nat)
    requires LayoutOk(lay) && Inv(lay, s)
    ensures Inv(lay, Skip(lay, s, a, b))
  {
    if lay.mode != Vertical {
      FlushedOk(lay, s);
    }
  }

  /** A range line keeps the invariant, given closed texts. */
  lemma RangedOk(lay: Layout, s: State, row: Row, left: seq<char>, right: seq<char>, a: nat, b: nat)
    requires LayoutOk(lay) && Inv(lay, s) && !row.Split? && Closed(left) && Closed(right)
    ensures Inv(lay, Ranged(lay, s, row, left, right, a, b))
  {
    if lay.mode == Vertical {
      AppendAligned(lay, s.rows, row);
    } else {
      FlushedOk(lay, s);
      var f := Flushed(lay, s);
      SplitRowAligned(lay, left, right);
      AppendAligned(lay, f.rows, SplitRow(lay, left, right));
    }
  }

  /** mat keeps the invariant. */
  lemma MatOutOk(lay: Layout, f1: seq<byte>, f2: seq<byte>, s: State, num: nat)
    requires LayoutOk(lay) && Inv(lay, s)
    requires !lay.hideMat && !lay.rangeMat ==> s.o1 + num <= |f1| && s.o2 + num <= |f2|
    ensures Inv(lay, MatOut(lay, f1, f2, s, num))
  {
    if lay.hideMat {
      SkipOk(lay, s, num, num);
    } else if lay.rangeMat {
      RangeTextClosed(lay, s.o1, Match, num, " bytes match");
      RangeTextClosed(lay, s.o2, Match, num, " bytes match");
      RangedOk(lay, s, RangeRow(Match, Some((s.o1, num)), Some((s.o2, num))),
               RangeText(lay, s.o1, Match, num, " bytes match"),
               RangeText(lay, s.o2, Match, num, " bytes match"), num, num);
    } else {
      RunOk(lay, f1, f2, s, num, Match, true, true);
    }
  }

  /** sub keeps the invariant. */
  lemma SubOutOk(lay: Layout, f1: seq<byte>, f2: seq<byte>, s: State, num: nat, ins: nat, del: nat)
    requires LayoutOk(lay) && Inv(lay, s)
    requires !lay.hideSub && !lay.rangeSub ==> s.o1 + num + del <= |f1| && s.o2 + num + ins <= |f2|
    ensures Inv(lay, SubOut(lay, f1, f2, s, num, ins, del))
  {
    if lay.hideSub {
      SkipOk(lay, s, num + del, num + ins);
    } else if lay.rangeSub {
      SubRangedOk(lay, s, num + del, num + ins);
    } else {
      SubRunsOk(lay, f1, f2, s, num, ins, del);
    }
  }

  /** The range row of sub keeps the renderer's invariant. */
  lemma SubRangedOk(lay: Layout, s: State, a: nat, b: nat)
    requires LayoutOk(lay) && Inv(lay, s)
    ensures Inv(lay, Ranged(lay, s, RangeRow(Subst, Some((s.o1, a)), Some((s.o2, b))),
                            RangeText(lay, s.o1, Subst, a, " bytes substituted"),
                            RangeText(lay, s.o2, Subst, b, " bytes substituted"), a, b))
  {
    var words := " bytes substituted";
    assert Plain(words);
    RangeTextClosed(lay, s.o1, Subst, a, words);
    RangeTextClosed(lay, s.o2, Subst, b, words);
    RangedOk(lay, s, RangeRow(Subst, Some((s.o1, a)), Some((s.o2, b))),
             RangeText(lay, s.o1, Subst, a, words), RangeText(lay, s.o2, Subst, b, words), a, b);
  }

  /** The three byte loops of sub keep the renderer's invariant. */
  lemma SubRunsOk(lay: Layout, f1: seq<byte>, f2: seq<byte>, s: State, num: nat, ins: nat, del: nat)
    requires LayoutOk(lay) && Inv(lay, s)
    requires s.o1 + num + del <= |f1| && s.o2 + num + ins <= |f2|
    ensures Inv(lay, SubRuns(lay, f1, f2, s, num, ins, del))
  {
    RunOk(lay, f1, f2, s, num, Subst, true, true);
    var pairs := Run(lay, f1, f2, s, num, Subst, true, true);
    RunOk(lay, f1, f2, pairs, del, Subst, true, false);
    var dels := Run(lay, f1, f2, pairs, del, Subst, true, false);
    RunOk(lay, f1, f2, dels, ins, Subst, false, true);
  }

  /** del keeps the invariant. */
  lemma DelOutOk(lay: Layout, f1: seq<byte>, f2: seq<byte>, s: State, num: nat)
    requires LayoutOk(lay) && Inv(lay, s)
    requires !lay.hideDel && !lay.rangeDel ==> s.o1 + num <= |f1|
    ensures Inv(lay, DelOut(lay, f1, f2, s, num))
  {
    if lay.hideDel {
      SkipOk(lay, s, num, 0);
    } else if lay.rangeDel {
      RangeTextClosed(lay, s.o1, Deletion, num, " bytes deleted");
      RangedOk(lay, s, RangeRow(Deletion, Some((s.o1, num)), None),
               RangeText(lay, s.o1, Deletion, num, " bytes deleted"), [], num, 0);
    } else {
      RunOk(lay, f1, f2, s, num, Deletion, true, false);
    }
  }

  /** ins keeps the invariant. */
  lemma InsOutOk(lay: Layout, f1: seq<byte>, f2: seq<byte>, s: State, num: nat)
    requires LayoutOk(lay) && Inv(lay, s)
    requires !lay.hideIns && !lay.rangeIns ==> s.o2 + num <= |f2|
    ensures Inv(lay, InsOut(lay, f1, f2, s, num))
  {
    if lay.hideIns {
      SkipOk(lay, s, 0, num);
    } else if lay.rangeIns {
      RangeTextClosed(lay, s.o2, Insertion, num, " bytes inserted");
      RangedOk(lay, s, RangeRow(Insertion, None, Some((s.o2, num))),
               [], RangeText(lay, s.o2, Insertion, num, " bytes inserted"), 0, num);
    } else {
      RunOk(lay, f1, f2, s, num, Insertion, false, true);
    }
  }

  // ---------------------------------------------------------------------
  // What the output looks like

  /**
   * The separator of an aligned split line sits in column half_line_len,
   * and the whole line is 2 * half_line_len + 2 columns wide.
   */
  lemma SeparatorColumn(lay: Layout, r: Row)
    requires PaletteOk(lay.pal) && r.Split? && Aligned(lay, r)
    ensures var t := Text(lay, r); var at := |r.left + lay.pal.sep|;
      at < |t| && t[at] == '|' && Visible(t[..at]) == lay.half && Visible(t) == 2 * lay.half + 2
  {
    var p := lay.pal;
    assert Plain(['|']) && Plain(['\n']);
    PlainColumns(['|']);
    PlainColumns(['\n']);
    JoinSix(r.left, p.sep, ['|'], p.nor, r.right, ['\n']);
    var t := Text(lay, r);
    var at := |r.left + p.sep|;
    assert t[..at] == r.left + p.sep;
  }

  /** Six closed pieces joined are closed, and their columns add up. */
  lemma JoinSix(a: seq<char>, b: seq<char>, c: seq<char>, d: seq<char>, e: seq<char>, f: seq<char>)
    requires Closed(a) && Closed(b) && Closed(c) && Closed(d) && Closed(e) && Closed(f)
    ensures Closed(a + b) && Visible(a + b) == Visible(a) + Visible(b)
    ensures Closed(a + b + c + d + e + f)
    ensures Visible(a + b + c + d + e + f) ==
      Visible(a) + Visible(b) + Visible(c) + Visible(d) + Visible(e) + Visible(f)
  {
    ClosedJoin(a, b);
    ClosedJoin(a + b, c);
    ClosedJoin(a + b + c, d);
    ClosedJoin(a + b + c + d, e);
    ClosedJoin(a + b + c + d + e, f);
  }

  /** Every split line printed so far has its separator in column half_line_len. */
  lemma PrintedAligned(lay: Layout, s: State, i: nat)
    requires LayoutOk(lay) && Inv(lay, s) && i < |s.rows| && s.rows[i].Split?
    ensures var t := Text(lay, s.rows[i]); var at := |s.rows[i].left + lay.pal.sep|;
      at < |t| && t[at] == '|' && Visible(t[..at]) == lay.half && Visible(t) == 2 * lay.half + 2
  {
    SeparatorColumn(lay, s.rows[i]);
  }

  /** flush leaves nothing pending, so a second flush prints nothing. */
  lemma FlushIdempotent(lay: Layout, s: State)
    ensures !Pending(Flushed(lay, s))
    ensures Flushed(lay, Flushed(lay, s)) == Flushed(lay, s)
  {
  }

  /**
   * A hex-dump pair counts one more byte on each side, or, after a full
   * line, prints that line and starts the next with this pair.
   */
  lemma HexCounts(lay: Layout, s: State, off1: int, b1: byte, off2: int, b2: byte, k: Kind)
    requires LayoutOk(lay) && lay.mode == HexDump && Inv(lay, s)
    ensures var r := HexElem(lay, s, off1, b1, off2, b2, k);
      r.h1.bytesin == r.h2.bytesin &&
      r.h1.bytesin == (if s.h1.bytesin == lay.bytesPerLine then 1 else s.h1.bytesin + 1) &&
      r.rows == (if s.h1.bytesin == lay.bytesPerLine then s.rows + [SplitRow(lay, s.h1.buf, s.h2.buf)] else s.rows)
  {
    HexBreakOk(lay, s);
    HexDrawOk(lay, HexBreak(lay, s), off1, b1, off2, b2, k);
  }

  /** A present byte whose width does not depend on its column. */
  predicate Steady(st: Style, off: int, b: byte)
  {
    off < 0 || b != 9 || st.showLfAndTab
  }

  /**
   * The columns one side of putAscElem counts: its own byte, widened to the
   * other side's when both are present; an absent byte takes the other's.
   */
  lemma AscHalfBytes(lay: Layout, h: Half, off: int, b: byte, ooff: int, ob: byte, opos: nat, k: Kind, formatted: bool)
    requires lay.style.tabSize >= 1 && Steady(lay.style, off, b)
    ensures var st := lay.style; var r := AscHalf(lay, h, off, b, ooff, ob, opos, k, formatted);
      r.line == h.line &&
      r.bytesin == h.bytesin +
        (if off < 0 then CharLen(st, ob, opos)
         else if ooff >= 0 then Max(CharLen(st, b, h.bytesin), CharLen(st, ob, opos))
         else CharLen(st, b, h.bytesin))
  {
    if off >= 0 {
      var p := Prefixed(lay, h, lay.lineNumbers, Label(h, off, formatted), k);
      PrefixedBytes(lay, h, lay.lineNumbers, Label(h, off, formatted), k);
      DrawBytes(lay, p, b, ooff, ob, opos);
    }
  }

  /** Drawing a byte whose width does not depend on its column counts its width, widened to the other side's. */
  lemma DrawBytes(lay: Layout, p: Half, b: byte, ooff: int, ob: byte, opos: nat)
    requires lay.style.tabSize >= 1 && (b != 9 || lay.style.showLfAndTab)
    ensures var st := lay.style; var r := Draw(lay, p, b, ooff, ob, opos);
      r.line == p.line &&
      r.bytesin == p.bytesin +
        (if ooff >= 0 then Max(CharLen(st, b, p.bytesin), CharLen(st, ob, opos)) else CharLen(st, b, p.bytesin))
  {
    var st := lay.style;
    CharLenPositionFree(st, b, p.bytesin, p.bytesin + CharLen(st, b, p.bytesin));
  }

  /**
   * putAscElem keeps both sides on the same column: when both half lines
   * end at the same column and no byte is a tab whose width depends on its
   * column, both advance by the wider of the two bytes.
   */
  lemma AscSameColumn(lay: Layout, t: State, off1: int, b1: byte, off2: int, b2: byte, k: Kind, formatted: bool)
    requires LayoutOk(lay) && (off1 >= 0 || off2 >= 0)
    requires t.h1.bytesin == t.h2.bytesin <= lay.maxBytesPerLine
    requires Steady(lay.style, off1, b1) && Steady(lay.style, off2, b2)
    ensures var u := AscDraw(lay, t, off1, b1, off2, b2, k, formatted);
      var st := lay.style; var at := t.h1.bytesin;
      var w1 := if off1 >= 0 then CharLen(st, b1, at) else 0;
      var w2 := if off2 >= 0 then CharLen(st, b2, at) else 0;
      u.h1.bytesin == u.h2.bytesin == at + Max(w1, w2)
  {
    var st := lay.style;
    var at := t.h1.bytesin;
    AscHalfBytes(lay, t.h1, off1, b1, off2, b2, at, k, formatted);
    var n1 := AscHalf(lay, t.h1, off1, b1, off2, b2, at, k, formatted);
    AscHalfBytes(lay, t.h2, off2, b2, off1, b1, n1.bytesin, k, formatted);
    if off1 >= 0 {
      CharLenPositionFree(st, b1, at, n1.bytesin);
    }
  }

  /** The label and colour take no counted column. */
  lemma PrefixedBytes(lay: Layout, h: Half, labelled: bool, tag: seq<char>, k: Kind)
    ensures Prefixed(lay, h, labelled, tag, k).bytesin == h.bytesin
    ensures Prefixed(lay, h, labelled, tag, k).line == h.line
  {
  }

  /** One side of putAscElem keeps its line counter. */
  lemma AscHalfLine(lay: Layout, h: Half, off: int, b: byte, ooff: int, ob: byte, opos: nat, k: Kind, formatted: bool)
    requires lay.style.tabSize >= 1
    ensures AscHalf(lay, h, off, b, ooff, ob, opos, k, formatted).line == h.line
  {
    if off >= 0 {
      PrefixedBytes(lay, h, lay.lineNumbers, Label(h, off, formatted), k);
    }
  }

  /** The break and the drawing of putAscElem keep both line counters. */
  lemma AscDrawLines(lay: Layout, s: State, off1: int, b1: byte, off2: int, b2: byte, k: Kind, formatted: bool)
    requires lay.style.tabSize >= 1
    ensures var u := AscDraw(lay, AscBreak(lay, s, off1, b1, off2, b2), off1, b1, off2, b2, k, formatted);
      u.h1.line == s.h1.line && u.h2.line == s.h2.line
  {
    var t := AscBreak(lay, s, off1, b1, off2, b2);
    AscHalfLine(lay, t.h1, off1, b1, off2, b2, t.h2.bytesin, k, formatted);
    var n1 := AscHalf(lay, t.h1, off1, b1, off2, b2, t.h2.bytesin, k, formatted);
    AscHalfLine(lay, t.h2, off2, b2, off1, b1, n1.bytesin, k, formatted);
  }

  /**
   * In formatted mode a newline on either side ends the output line and
   * counts one line on each side where it appears; otherwise the line
   * counters stay.
   */
  lemma NewlineEndsLine(lay: Layout, s: State, off1: int, b1: byte, off2: int, b2: byte, k: Kind, formatted: bool)
    requires lay.style.tabSize >= 1
    ensures var r := AscElem(lay, s, off1, b1, off2, b2, k, formatted);
      var ends := formatted && (Newline(off1, b1) || Newline(off2, b2));
      (ends ==> !Pending(r)) &&
      r.h1.line == s.h1.line + (if formatted && Newline(off1, b1) then 1 else 0) &&
      r.h2.line == s.h2.line + (if formatted && Newline(off2, b2) then 1 else 0)
  {
    AscDrawLines(lay, s, off1, b1, off2, b2, k, formatted);
  }

  /** The line of vertical mode for one turn of a byte loop. */
  function ByteLine(k: Kind, f1: seq<byte>, f2: seq<byte>, o1: nat, o2: nat, take1: bool, take2: bool): Row
    requires take1 ==> o1 < |f1|
    requires take2 ==> o2 < |f2|
  {
    ByteRow(k, if take1 then Some((o1, f1[o1])) else None, if take2 then Some((o2, f2[o2])) else None)
  }

  /**
   * Vertical mode prints one line per turn of a byte loop, in order, each
   * with the offsets and bytes of the sides taken, and buffers nothing.
   */
  lemma {:induction false} VerticalRun(lay: Layout, f1: seq<byte>, f2: seq<byte>, s: State, n: nat, k: Kind, take1: bool, take2: bool)
    requires lay.style.tabSize >= 1 && lay.mode == Vertical
    requires take1 ==> s.o1 + n <= |f1|
    requires take2 ==> s.o2 + n <= |f2|
    ensures var r := Run(lay, f1, f2, s, n, k, take1, take2);
      r.h1 == s.h1 && r.h2 == s.h2 && |r.rows| == |s.rows| + n && r.rows[..|s.rows|] == s.rows &&
      forall j :: |s.rows| <= j < |r.rows| ==>
        r.rows[j] == ByteLine(k, f1, f2, s.o1 + (if take1 then j - |s.rows| else 0),
                              s.o2 + (if take2 then j - |s.rows| else 0), take1, take2)
    decreases n
  {
    if n > 0 {
      VerticalRun(lay, f1, f2, s, n - 1, k, take1, take2);
      var p := Run(lay, f1, f2, s, n - 1, k, take1, take2);
      var r := Run(lay, f1, f2, s, n, k, take1, take2);
      assert r.rows == p.rows + [ByteLine(k, f1, f2, p.o1, p.o2, take1, take2)];
    }
  }
}
