// TDiffOutput (tdiffoutput.cc) as a class: the fields of tdiffoutput.h that
// change while the diff is printed, and one method per member.  Every method
// is proved to compute the function of module Screen that states it on
// values, and to keep the invariant Screen.Inv; the properties of those
// functions are the lemmas of ScreenFacts.
module DiffOutput {
  import opened MinMax
  import opened Outcomes
  import opened Glyphs
  import opened Columns
  import opened Layouts
  import opened Screen
  import opened ScreenFacts
  import opened Sync

  // ---------------------------------------------------------------------
  // One side of a pair, on values (the code of putAscElem and putHexElem
  // is written out once per side in the source; here once for both)

  /** The label and colour switch before a present byte (tdiffoutput.cc:442-455). */
  method Prefix(lay: Layout, h: Half, labelled: bool, tag: seq<char>, k: Kind) returns (r: Half)
    ensures r == Prefixed(lay, h, labelled, tag, k)
    ensures r.bytesin == h.bytesin && r.line == h.line
  {
    r := h;
    if r.bytesin == 0 && labelled {
      r := r.(buf := tag, needadr := false);
    }
    if r.needadr && labelled {
      r := r.(buf := Stamp(tag, r.buf), needadr := false);
    }
    if r.lastcolor != Some(k) {
      r := r.(buf := r.buf + Colour(lay.pal, k), lastcolor := Some(k));
    }
  }

  /** One side of putAscElem outside its overflow branch (tdiffoutput.cc:440-466). */
  method AscSide(lay: Layout, h: Half, off: int, b: byte, ooff: int, ob: byte, opos: nat,
                 k: Kind, formatted: bool) returns (r: Half)
    requires LayoutOk(lay)
    ensures r == AscHalf(lay, h, off, b, ooff, ob, opos, k, formatted)
  {
    if off >= 0 {
      var tag := if formatted then LineLabel(h.line) else AddressLabel(off);
      var p := Prefix(lay, h, lay.lineNumbers, tag, k);
      r := DrawSide(lay, p, b, ooff, ob, opos);
    } else {
      var w := CharLen(lay.style, ob, opos);
      var lead := h.buf;
      if h.bytesin == 0 && lay.lineNumbers {
        lead := PutSpace(GutterWidth);
      }
      var pad := PutSpace(w);
      r := h.(buf := lead + pad, bytesin := h.bytesin + w);
    }
  }

  /** A present byte's glyph, then blanks up to the other side's width (tdiffoutput.cc:455-460). */
  method DrawSide(lay: Layout, p: Half, b: byte, ooff: int, ob: byte, opos: nat) returns (r: Half)
    requires LayoutOk(lay)
    ensures r == Draw(lay, p, b, ooff, ob, opos)
  {
    var st := lay.style;
    var w := CharLen(st, ob, opos);
    var g := PutChar(st, b, p.bytesin);
    var pos := p.bytesin + CharLen(st, b, p.bytesin);
    r := p.(buf := p.buf + g, bytesin := pos);
    var own := CharLen(st, b, pos);
    if ooff >= 0 && w > own {
      var pad := PutSpace(w - own);
      r := r.(buf := r.buf + pad, bytesin := pos + (w - own));
    }
  }

  /** One side of putHexElem outside its overflow branch (tdiffoutput.cc:512-538). */
  method HexSide(lay: Layout, h: Half, off: int, b: byte, k: Kind) returns (r: Half)
    ensures r == HexHalf(lay, h, off, b, k)
  {
    if off >= 0 {
      var p := Prefix(lay, h, true, AddressLabel(off), k);
      var cell := Hex2(b);
      if p.bytesin != 0 {
        cell := [Mark(lay, off)] + cell;
      }
      r := p.(buf := p.buf + cell, bytesin := p.bytesin + 1);
    } else if h.bytesin == 0 {
      var pad := PutSpace(GutterWidth + 2);
      r := h.(buf := pad, bytesin := 1);
    } else {
      var pad := PutSpace(3);
      r := h.(buf := h.buf + pad, bytesin := h.bytesin + 1);
    }
  }

  // ---------------------------------------------------------------------
  // The renderer

  /**
   * TDiffOutput: the two files, the configuration the constructor settles,
   * the cursors o1 and o2, per side the line buffer up to its write pointer
   * (linebufN), the columns counted (bytesinN), the colour last switched to
   * (lastcolorN, None for NIL), whether the label is still to be written
   * (needadrN) and the line number (lineN); rows is what has been printed.
   */
  class Renderer {
    const f1: seq<byte>
    const f2: seq<byte>
    const lay: Layout
    var o1: nat
    var o2: nat
    var linebuf1: seq<char>
    var linebuf2: seq<char>
    var bytesin1: nat
    var bytesin2: nat
    var lastcolor1: Option<Kind>
    var lastcolor2: Option<Kind>
    var needadr1: bool
    var needadr2: bool
    var line1: nat
    var line2: nat
    var rows: seq<Row>

    /** Side 1's half line. */
    function Side1(): Half
      reads this
    {
      Half(linebuf1, bytesin1, lastcolor1, needadr1, line1)
    }

    /** Side 2's half line. */
    function Side2(): Half
      reads this
    {
      Half(linebuf2, bytesin2, lastcolor2, needadr2, line2)
    }

    /** The renderer's state as a value of Screen. */
    function State(): Screen.State
      reads this
    {
      Screen.State(o1, o2, Side1(), Side2(), rows)
    }

    /** The configuration is usable and the state keeps Screen's invariant. */
    predicate Valid()
      reads this
    {
      LayoutOk(lay) && Inv(lay, State())
    }

    /** The state the constructor leaves (tdiffoutput.cc:192-204): cursors at 0, empty halves on line 1. */
    constructor (f1: seq<byte>, f2: seq<byte>, lay: Layout)
      requires LayoutOk(lay)
      ensures this.f1 == f1 && this.f2 == f2 && this.lay == lay
      ensures Valid() && State() == Start
    {
      this.f1, this.f2, this.lay := f1, f2, lay;
      o1, o2 := 0, 0;
      linebuf1, linebuf2 := [], [];
      bytesin1, bytesin2 := 0, 0;
      lastcolor1, lastcolor2 := None, None;
      needadr1, needadr2 := true, true;
      line1, line2 := 1, 1;
      rows := [];
      new;
      StartOk(lay);
    }

    /** Both half lines replaced at once. */
    method Store(n1: Half, n2: Half)
      modifies this
      ensures State() == old(State()).(h1 := n1, h2 := n2)
    {
      Store1(n1);
      Store2(n2);
    }

    /** Side 1's fields replaced. */
    method Store1(n: Half)
      modifies this
      ensures Side1() == n && Side2() == old(Side2()) && o1 == old(o1) && o2 == old(o2) && rows == old(rows)
    {
      linebuf1, bytesin1, lastcolor1, needadr1, line1 := n.buf, n.bytesin, n.lastcolor, n.needadr, n.line;
    }

    /** Side 2's fields replaced. */
    method Store2(n: Half)
      modifies this
      ensures Side2() == n && Side1() == old(Side1()) && o1 == old(o1) && o2 == old(o2) && rows == old(rows)
    {
      linebuf2, bytesin2, lastcolor2, needadr2, line2 := n.buf, n.bytesin, n.lastcolor, n.needadr, n.line;
    }

    /** printSplitLine (tdiffoutput.cc:584-588): a row of both halves fitted to half_line_len columns. */
    method PrintSplitLine(a: seq<char>, b: seq<char>)
      modifies this
      ensures State() == old(State()).(rows := old(rows) + [SplitRow(lay, a, b)])
    {
      var left := SetStrLen(a, lay.half, lay.pal.nor);
      var right := SetStrLen(b, lay.half, lay.pal.nor);
      rows := rows + [Split(left, right)];
    }

    /** flush (tdiffoutput.cc:283-293). */
    method Flush()
      modifies this
      ensures State() == Flushed(lay, old(State()))
    {
      if bytesin1 != 0 || bytesin2 != 0 {
        PrintSplitLine(linebuf1, linebuf2);
      }
      Store(Reset(Side1()), Reset(Side2()));
    }

    /** The line break before a pair that would overfill the line (tdiffoutput.cc:431-435). */
    method BreakAsc(off1: int, b1: byte, off2: int, b2: byte)
      requires LayoutOk(lay)
      modifies this
      ensures State() == AscBreak(lay, old(State()), off1, b1, off2, b2)
    {
      var st := lay.style;
      var w1 := if off1 >= 0 then CharLen(st, b1, bytesin1) else CharLen(st, b2, bytesin2);
      var w2 := if off2 >= 0 then CharLen(st, b2, bytesin2) else CharLen(st, b1, bytesin1);
      if bytesin1 + w1 > lay.bytesPerLine || bytesin2 + w2 > lay.bytesPerLine {
        if !lay.noLineBreak {
          Flush();
        }
      }
    }

    /** Both sides of the pair drawn, or only counted past max_bytes_per_line (tdiffoutput.cc:436-496). */
    method DrawAsc(off1: int, b1: byte, off2: int, b2: byte, k: Kind, formatted: bool)
      requires LayoutOk(lay)
      modifies this
      ensures State() == AscDraw(lay, old(State()), off1, b1, off2, b2, k, formatted)
    {
      var st := lay.style;
      if bytesin1 > lay.maxBytesPerLine {
        bytesin1, bytesin2 := bytesin1 + CharLen(st, b1, bytesin1), bytesin2 + CharLen(st, b2, bytesin2);
      } else {
        var n1 := AscSide(lay, Side1(), off1, b1, off2, b2, bytesin2, k, formatted);
        var n2 := AscSide(lay, Side2(), off2, b2, off1, b1, n1.bytesin, k, formatted);
        Store(n1, n2);
      }
    }

    /** In formatted mode a newline counts a line on its side and ends the output line (tdiffoutput.cc:497-502). */
    method EndAscLine(off1: int, b1: byte, off2: int, b2: byte, formatted: bool)
      modifies this
      ensures State() == AscLineEnd(lay, old(State()), off1, b1, off2, b2, formatted)
    {
      if formatted && (Newline(off1, b1) || Newline(off2, b2)) {
        if Newline(off1, b1) {
          line1 := line1 + 1;
        }
        if Newline(off2, b2) {
          line2 := line2 + 1;
        }
        Flush();
      }
    }

    /** putAscElem (tdiffoutput.cc:429-503). */
    method PutAscElem(off1: int, b1: byte, off2: int, b2: byte, k: Kind, formatted: bool)
      requires Valid() && lay.mode != HexDump
      modifies this
      ensures Valid() && State() == AscElem(lay, old(State()), off1, b1, off2, b2, k, formatted)
    {
      AscElemOk(lay, State(), off1, b1, off2, b2, k, formatted);
      BreakAsc(off1, b1, off2, b2);
      DrawAsc(off1, b1, off2, b2, k, formatted);
      EndAscLine(off1, b1, off2, b2, formatted);
    }

    /** putHexElem (tdiffoutput.cc:506-569). */
    method PutHexElem(off1: int, b1: byte, off2: int, b2: byte, k: Kind)
      requires Valid() && lay.mode == HexDump
      modifies this
      ensures Valid() && State() == HexElem(lay, old(State()), off1, b1, off2, b2, k)
    {
      ghost var s := State();
      HexElemOk(lay, s, off1, b1, off2, b2, k);
      if bytesin1 == lay.bytesPerLine || bytesin2 == lay.bytesPerLine {
        Flush();
      }
      ghost var t := State();
      assert t == HexBreak(lay, s);
      if bytesin1 > lay.maxBytesPerLine || bytesin2 > lay.maxBytesPerLine {
        bytesin1, bytesin2 := bytesin1 + 1, bytesin2 + 1;
      } else {
        var n1 := HexSide(lay, Side1(), off1, b1, k);
        var n2 := HexSide(lay, Side2(), off2, b2, k);
        Store(n1, n2);
      }
      assert State() == HexDraw(lay, t, off1, b1, off2, b2, k);
    }

    /** The pair of one turn of a byte loop put out (the bodies of the loops of mat, sub, del and ins). */
    method PutPair(k: Kind, take1: bool, take2: bool)
      requires Valid() && (take1 ==> o1 < |f1|) && (take2 ==> o2 < |f2|)
      modifies this
      ensures State() == Pair(lay, f1, f2, old(State()), k, take1, take2)
    {
      var off1: int := if take1 then o1 else -1;
      var off2: int := if take2 then o2 else -1;
      var b1: byte := if take1 then f1[o1] else 0;
      var b2: byte := if take2 then f2[o2] else 0;
      match lay.mode
      case Vertical =>
        rows := rows + [ByteRow(k, if take1 then Some((o1, b1)) else None, if take2 then Some((o2, b2)) else None)];
      case HexDump =>
        PutHexElem(off1, b1, off2, b2, k);
      case _ =>
        PutAscElem(off1, b1, off2, b2, k, lay.mode == FormattedAscii);
    }

    /** One turn of a byte loop: the pair put out, then the cursors of the sides taken advance. */
    method Put(k: Kind, take1: bool, take2: bool)
      requires Valid() && (take1 ==> o1 < |f1|) && (take2 ==> o2 < |f2|)
      modifies this
      ensures Valid() && State() == Elem(lay, f1, f2, old(State()), k, take1, take2)
    {
      ElemOk(lay, f1, f2, State(), k, take1, take2);
      PutPair(k, take1, take2);
      Move(if take1 then 1 else 0, if take2 then 1 else 0);
    }

    /** The cursors advance by a and b bytes. */
    method Move(a: nat, b: nat)
      modifies this
      ensures State() == old(State()).(o1 := old(o1) + a, o2 := old(o2) + b)
    {
      o1, o2 := o1 + a, o2 + b;
    }

    /** n turns of a byte loop. */
    method PutRun(n: nat, k: Kind, take1: bool, take2: bool)
      requires Valid() && (take1 ==> o1 + n <= |f1|) && (take2 ==> o2 + n <= |f2|)
      modifies this
      ensures Valid() && State() == Run(lay, f1, f2, old(State()), n, k, take1, take2)
    {
      ghost var s := State();
      for i := 0 to n
        invariant Valid() && State() == Run(lay, f1, f2, s, i, k, take1, take2)
      {
        Put(k, take1, take2);
        RunStep(lay, f1, f2, s, i, k, take1, take2);
      }
    }

    /** A hidden kind: the split modes flush, and the cursors skip a and b bytes. */
    method Hide(a: nat, b: nat)
      modifies this
      ensures State() == Skip(lay, old(State()), a, b)
    {
      if lay.mode != Vertical {
        Flush();
      }
      Move(a, b);
    }

    /** A range line: printed as row in vertical mode, else as a split line of the two texts after a flush. */
    method Range(row: Row, left: seq<char>, right: seq<char>, a: nat, b: nat)
      modifies this
      ensures State() == Ranged(lay, old(State()), row, left, right, a, b)
    {
      if lay.mode == Vertical {
        rows := rows + [row];
      } else {
        Flush();
        PrintSplitLine(left, right);
      }
      Move(a, b);
    }

    /** mat (tdiffoutput.cc:591-642). */
    method Mat(num: nat)
      requires Valid()
      requires !lay.hideMat && !lay.rangeMat ==> o1 + num <= |f1| && o2 + num <= |f2|
      modifies this
      ensures Valid() && State() == MatOut(lay, f1, f2, old(State()), num)
    {
      MatOutOk(lay, f1, f2, State(), num);
      if lay.hideMat {
        Hide(num, num);
      } else if lay.rangeMat {
        Range(RangeRow(Match, Some((o1, num)), Some((o2, num))),
              RangeText(lay, o1, Match, num, " bytes match"),
              RangeText(lay, o2, Match, num, " bytes match"), num, num);
      } else {
        PutRun(num, Match, true, true);
      }
    }

    /** sub (tdiffoutput.cc:645-712): num pairs, then del bytes of file 1, then ins bytes of file 2. */
    method Sub(num: nat, ins: nat, del: nat)
      requires Valid()
      requires !lay.hideSub && !lay.rangeSub ==> o1 + num + del <= |f1| && o2 + num + ins <= |f2|
      modifies this
      ensures Valid() && State() == SubOut(lay, f1, f2, old(State()), num, ins, del)
    {
      ghost var before := State();
      if lay.hideSub {
        Hide(num + del, num + ins);
      } else if lay.rangeSub {
        Range(RangeRow(Subst, Some((o1, num + del)), Some((o2, num + ins))),
              RangeText(lay, o1, Subst, num + del, " bytes substituted"),
              RangeText(lay, o2, Subst, num + ins, " bytes substituted"), num + del, num + ins);
      } else {
        PutSubRuns(num, ins, del);
      }
      SubOutOk(lay, f1, f2, before, num, ins, del);
    }

    /** The byte loops of sub: num pairs, del bytes of file 1, ins bytes of file 2. */
    method PutSubRuns(num: nat, ins: nat, del: nat)
      requires Valid() && o1 + num + del <= |f1| && o2 + num + ins <= |f2|
      modifies this
      ensures Valid()
      ensures State() == SubRuns(lay, f1, f2, old(State()), num, ins, del)
    {
      PutRun(num, Subst, true, true);
      PutRun(del, Subst, true, false);
      PutRun(ins, Subst, false, true);
    }

    /** del (tdiffoutput.cc:715-759). */
    method Del(num: nat)
      requires Valid()
      requires !lay.hideDel && !lay.rangeDel ==> o1 + num <= |f1|
      modifies this
      ensures Valid() && State() == DelOut(lay, f1, f2, old(State()), num)
    {
      DelOutOk(lay, f1, f2, State(), num);
      if lay.hideDel {
        Hide(num, 0);
      } else if lay.rangeDel {
        Range(RangeRow(Deletion, Some((o1, num)), None),
              RangeText(lay, o1, Deletion, num, " bytes deleted"), [], num, 0);
      } else {
        PutRun(num, Deletion, true, false);
      }
    }

    /** ins (tdiffoutput.cc:762-806): the range text goes on the right half. */
    method Ins(num: nat)
      requires Valid()
      requires !lay.hideIns && !lay.rangeIns ==> o2 + num <= |f2|
      modifies this
      ensures Valid() && State() == InsOut(lay, f1, f2, old(State()), num)
    {
      InsOutOk(lay, f1, f2, State(), num);
      if lay.hideIns {
        Hide(0, num);
      } else if lay.rangeIns {
        Range(RangeRow(Insertion, None, Some((o2, num))),
              [], RangeText(lay, o2, Insertion, num, " bytes inserted"), 0, num);
      } else {
        PutRun(num, Insertion, false, true);
      }
    }

    /** One call of the driver: the renderer operation the event names (qdiff.cc:236-300). */
    method Call(e: Event)
      requires Valid() && Fits(f1, f2, (o1, o2), e)
      modifies this
      ensures Valid() && State() == Step(lay, f1, f2, old(State()), e)
    {
      match e
      case Mat(n) => Mat(n);
      case Sub(n, ins, del) => Sub(n, ins, del);
      case Del(n) => Del(n);
      case Ins(n) => Ins(n);
      case Flush => FlushedOk(lay, State()); Flush();
      case EofNotice(_, _) =>
    }
  }

  /**
   * The constructor with its option decisions (tdiffoutput.cc:38-205): the
   * renderer when the options are accepted, the user error otherwise.  A tab
   * size of at least 1 and an unprintable character other than ESC are
   * what the drawing code relies on.
   */
  method Create(o: Options, terminal: Option<int>, f1: seq<byte>, f2: seq<byte>) returns (r: Result<Renderer>)
    requires o.tabSize >= 1 && o.unprintable != [ESC]
    ensures r.Ok? <==> Configure(o, terminal, f1, f2).Ok?
    ensures r.Err? ==> r.error == UserError
    ensures r.Ok? ==> fresh(r.value) && r.value.lay == Configure(o, terminal, f1, f2).value &&
                      r.value.f1 == f1 && r.value.f2 == f2 && r.value.Valid() && r.value.State() == Start
  {
    var c := Configure(o, terminal, f1, f2);
    if c.Err? {
      return Err(UserError);
    }
    ConfigureOk(o, terminal, f1, f2);
    var renderer := new Renderer(f1, f2, c.value);
    r := Ok(renderer);
  }

  // ---------------------------------------------------------------------
  // The renderer driven by the synchronisation engine

  /** What one call of the driver does to the state (EofNotice is printed by main, not the renderer). */
  function Step(lay: Layout, f1: seq<byte>, f2: seq<byte>, s: State, e: Event): (r: State)
    requires lay.style.tabSize >= 1
    requires Fits(f1, f2, (s.o1, s.o2), e)
    ensures r.o1 == s.o1 + Advance(e).0 && r.o2 == s.o2 + Advance(e).1
  {
    match e
    case Mat(n) => MatOut(lay, f1, f2, s, n)
    case Sub(n, ins, del) => SubOut(lay, f1, f2, s, n, ins, del)
    case Del(n) => DelOut(lay, f1, f2, s, n)
    case Ins(n) => InsOut(lay, f1, f2, s, n)
    case Flush => Flushed(lay, s)
    case EofNotice(_, _) => s
  }

  /**
   * The state after the renderer has been given the stream es from the
   * start; its cursors are where the engine's replay puts them.
   */
  function Rendered(lay: Layout, f1: seq<byte>, f2: seq<byte>, es: seq<Event>): (r: State)
    requires lay.style.tabSize >= 1 && Sound(f1, f2, es)
    ensures (r.o1, r.o2) == Consumed(es)
    decreases |es|
  {
    if es == [] then Start
    else
      var p := Rendered(lay, f1, f2, es[..|es| - 1]);
      SoundLast(f1, f2, es, p.o1, p.o2);
      Step(lay, f1, f2, p, es[|es| - 1])
  }

  /** The last event of a sound stream fits where the others leave the cursors, and advances them. */
  lemma SoundLast(f1: seq<byte>, f2: seq<byte>, es: seq<Event>, o1: nat, o2: nat)
    requires es != [] && Sound(f1, f2, es) && (o1, o2) == Consumed(es[..|es| - 1])
    ensures Sound(f1, f2, es[..|es| - 1]) && Fits(f1, f2, (o1, o2), es[|es| - 1])
    ensures Consumed(es) == (o1 + Advance(es[|es| - 1]).0, o2 + Advance(es[|es| - 1]).1)
  {
  }

  /** The prefix of a sound stream is sound. */
  lemma {:induction false} SoundPrefix(f1: seq<byte>, f2: seq<byte>, es: seq<Event>, i: nat)
    requires Sound(f1, f2, es) && i <= |es|
    ensures Sound(f1, f2, es[..i])
    decreases |es|
  {
    if i < |es| {
      assert es[..|es| - 1][..i] == es[..i];
      SoundPrefix(f1, f2, es[..|es| - 1], i);
    } else {
      assert es[..i] == es;
    }
  }

  /** The invariant holds after every sound stream. */
  lemma {:induction false} RenderedOk(lay: Layout, f1: seq<byte>, f2: seq<byte>, es: seq<Event>)
    requires LayoutOk(lay) && Sound(f1, f2, es)
    ensures Inv(lay, Rendered(lay, f1, f2, es))
    decreases |es|
  {
    if es == [] {
      StartOk(lay);
    } else {
      var p := Rendered(lay, f1, f2, es[..|es| - 1]);
      RenderedOk(lay, f1, f2, es[..|es| - 1]);
      match es[|es| - 1]
      case Mat(n) => MatOutOk(lay, f1, f2, p, n);
      case Sub(n, ins, del) => SubOutOk(lay, f1, f2, p, n, ins, del);
      case Del(n) => DelOutOk(lay, f1, f2, p, n);
      case Ins(n) => InsOutOk(lay, f1, f2, p, n);
      case Flush => FlushedOk(lay, p);
      case EofNotice(_, _) =>
    }
  }

  /** After a closing flush nothing is left in the half lines: every counted byte has been printed. */
  lemma ClosingFlush(lay: Layout, f1: seq<byte>, f2: seq<byte>, es: seq<Event>)
    requires lay.style.tabSize >= 1 && Sound(f1, f2, es) && |es| > 0 && es[|es| - 1] == Flush
    ensures !Pending(Rendered(lay, f1, f2, es))
    ensures var r := Rendered(lay, f1, f2, es);
      r.h1.buf == [] && r.h2.buf == [] && r.h1.needadr && r.h2.needadr
  {
  }

  /**
   * Gives the stream es to a fresh renderer, call by call, as main does
   * (qdiff.cc:236-300); the EOF notice is main's own message.
   */
  method Play(r: Renderer, es: seq<Event>)
    requires r.Valid() && r.State() == Start && Sound(r.f1, r.f2, es)
    modifies r
    ensures r.Valid() && r.State() == Rendered(r.lay, r.f1, r.f2, es)
  {
    for i := 0 to |es|
      invariant r.Valid() && Sound(r.f1, r.f2, es[..i])
      invariant r.State() == Rendered(r.lay, r.f1, r.f2, es[..i])
    {
      SoundPrefix(r.f1, r.f2, es, i + 1);
      assert es[..i + 1][..i] == es[..i];
      r.Call(es[i]);
    }
    assert es[..|es|] == es;
  }
}
