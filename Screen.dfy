// What TDiffOutput (tdiffoutput.cc) does, stated on values: the state of the
// two half lines and the rows printed so far, and one function per
// operation giving the state after it.  The class in DiffOutput is proved
// to compute these functions; the lemmas here state what they promise.
module Screen {
  import opened MinMax
  import opened Outcomes
  import opened Glyphs
  import opened Chars
  import opened Columns
  import opened Layouts

  /**
   * One side's half line: linebufN up to its write pointer, bytesinN (the
   * columns counted), lastcolorN (None for NIL), needadrN and lineN.
   */
  datatype Half = Half(buf: seq<char>, bytesin: nat, lastcolor: Option<Kind>, needadr: bool, line: nat)

  /** A line printed on standard output. */
  datatype Row =
    | Split(left: seq<char>, right: seq<char>)                           // printSplitLine
    | ByteRow(kind: Kind, byte1: Option<(nat, byte)>, byte2: Option<(nat, byte)>)  // a vertical-mode byte line: offset and byte per side
    | RangeRow(kind: Kind, span1: Option<(nat, nat)>, span2: Option<(nat, nat)>) // a vertical-mode range line: offset and count per side

  /** The renderer's state: the cursors o1 and o2, both half lines and the output. */
  datatype State = State(o1: nat, o2: nat, h1: Half, h2: Half, rows: seq<Row>)

  /** A half line as the constructor and flush leave it. */
  function Reset(h: Half): (r: Half)
    ensures r.buf == [] && r.bytesin == 0 && r.lastcolor == None && r.needadr && r.line == h.line
  {
    Half([], 0, None, true, h.line)
  }

  /** The state the constructor leaves: both cursors at 0, empty half lines on line 1, nothing printed. */
  const Start: State := State(0, 0, Half([], 0, None, true, 1), Half([], 0, None, true, 1), [])

  /** printSplitLine (tdiffoutput.cc:584-588): both halves cut or padded to half_line_len columns. */
  function SplitRow(lay: Layout, a: seq<char>, b: seq<char>): Row
  {
    Split(Fit(a, lay.half, lay.pal.nor), Fit(b, lay.half, lay.pal.nor))
  }

  /** The printed text of a split row: the halves around a coloured '|'. */
  function Text(lay: Layout, r: Row): seq<char>
    requires r.Split?
  {
    r.left + lay.pal.sep + ['|'] + lay.pal.nor + r.right + ['\n']
  }

  /** Something is buffered: a byte has been counted on either side. */
  predicate Pending(s: State)
  {
    s.h1.bytesin != 0 || s.h2.bytesin != 0
  }

  /** flush (tdiffoutput.cc:283-293): prints the pending line, if any, and empties both halves. */
  function Flushed(lay: Layout, s: State): (r: State)
    ensures r.o1 == s.o1 && r.o2 == s.o2
  {
    var rows := if Pending(s) then s.rows + [SplitRow(lay, s.h1.buf, s.h2.buf)] else s.rows;
    s.(h1 := Reset(s.h1), h2 := Reset(s.h2), rows := rows)
  }

  /** The nine columns of an address or line-number label. */
  const GutterWidth: nat := 9

  /** Writing a label over the first nine columns of a half line, keeping the rest. */
  function Stamp(tag: seq<char>, buf: seq<char>): seq<char>
  {
    tag + buf[Min(GutterWidth, |buf|)..]
  }

  /** The label of formatted mode is the line number, otherwise the byte's offset. */
  function Label(h: Half, off: nat, formatted: bool): seq<char>
  {
    if formatted then LineLabel(h.line) else AddressLabel(off)
  }

  /**
   * What a half line gets before a present byte: the label when it is
   * empty, the label over the blank gutter when an absent byte came first,
   * and the colour switch when the kind changes.
   */
  function Prefixed(lay: Layout, h: Half, labelled: bool, tag: seq<char>, k: Kind): Half
  {
    var a := if h.bytesin == 0 && labelled then h.(buf := tag, needadr := false) else h;
    var b := if a.needadr && labelled then a.(buf := Stamp(tag, a.buf), needadr := false) else a;
    if b.lastcolor != Some(k) then b.(buf := b.buf + Colour(lay.pal, k), lastcolor := Some(k)) else b
  }

  /**
   * One side of putAscElem outside its overflow branch
   * (tdiffoutput.cc:440-494).  off < 0 means the side has no byte;
   * (ooff, ob) is the other side's byte, opos its column.
   */
  function AscHalf(lay: Layout, h: Half, off: int, b: byte, ooff: int, ob: byte, opos: nat,
                   k: Kind, formatted: bool): Half
    requires lay.style.tabSize >= 1
  {
    if off >= 0 then
      Draw(lay, Prefixed(lay, h, lay.lineNumbers, Label(h, off, formatted), k), b, ooff, ob, opos)
    else
      var w := CharLen(lay.style, ob, opos);
      var q := if h.bytesin == 0 && lay.lineNumbers then Spaces(GutterWidth) else h.buf;
      h.(buf := q + Spaces(w), bytesin := h.bytesin + w)
  }

  /**
   * A present byte after its label and colour (tdiffoutput.cc:455-460):
   * its glyph, then blanks up to the width the other side's byte takes.
   */
  function Draw(lay: Layout, p: Half, b: byte, ooff: int, ob: byte, opos: nat): Half
    requires lay.style.tabSize >= 1
  {
    var st := lay.style;
    var w := CharLen(st, ob, opos);
    var pos := p.bytesin + CharLen(st, b, p.bytesin);
    var own := CharLen(st, b, pos);
    var g := p.(buf := p.buf + Glyph(st, b, p.bytesin), bytesin := pos);
    if ooff >= 0 && w > own then g.(buf := g.buf + Spaces(w - own), bytesin := pos + (w - own)) else g
  }

  /** The pair of bytes would take either side past bytes_per_line. */
  predicate Overfull(lay: Layout, s: State, off1: int, b1: byte, off2: int, b2: byte)
    requires lay.style.tabSize >= 1
  {
    var st := lay.style;
    var w1 := if off1 >= 0 then CharLen(st, b1, s.h1.bytesin) else CharLen(st, b2, s.h2.bytesin);
    var w2 := if off2 >= 0 then CharLen(st, b2, s.h2.bytesin) else CharLen(st, b1, s.h1.bytesin);
    s.h1.bytesin + w1 > lay.bytesPerLine || s.h2.bytesin + w2 > lay.bytesPerLine
  }

  /** A newline is among the present bytes of the pair. */
  predicate Newline(off: int, b: byte)
  {
    off >= 0 && b == 10
  }

  /** The line break before a pair that would overfill the line (tdiffoutput.cc:431-435). */
  function AscBreak(lay: Layout, s: State, off1: int, b1: byte, off2: int, b2: byte): (r: State)
    requires lay.style.tabSize >= 1
    ensures r.o1 == s.o1 && r.o2 == s.o2
  {
    if Overfull(lay, s, off1, b1, off2, b2) && !lay.noLineBreak then Flushed(lay, s) else s
  }

  /**
   * Both sides of a pair (tdiffoutput.cc:436-496): drawn, or only counted
   * once side 1 is past max_bytes_per_line.
   */
  function AscDraw(lay: Layout, t: State, off1: int, b1: byte, off2: int, b2: byte,
                   k: Kind, formatted: bool): (r: State)
    requires lay.style.tabSize >= 1
    ensures r.o1 == t.o1 && r.o2 == t.o2
  {
    var st := lay.style;
    if t.h1.bytesin > lay.maxBytesPerLine then
      t.(h1 := t.h1.(bytesin := t.h1.bytesin + CharLen(st, b1, t.h1.bytesin)),
         h2 := t.h2.(bytesin := t.h2.bytesin + CharLen(st, b2, t.h2.bytesin)))
    else
      var n1 := AscHalf(lay, t.h1, off1, b1, off2, b2, t.h2.bytesin, k, formatted);
      t.(h1 := n1, h2 := AscHalf(lay, t.h2, off2, b2, off1, b1, n1.bytesin, k, formatted))
  }

  /** In formatted mode a newline counts a line on its side and ends the output line (tdiffoutput.cc:497-502). */
  function AscLineEnd(lay: Layout, u: State, off1: int, b1: byte, off2: int, b2: byte, formatted: bool): (r: State)
    ensures r.o1 == u.o1 && r.o2 == u.o2
  {
    if formatted && (Newline(off1, b1) || Newline(off2, b2)) then
      Flushed(lay, u.(h1 := u.h1.(line := u.h1.line + if Newline(off1, b1) then 1 else 0),
                      h2 := u.h2.(line := u.h2.line + if Newline(off2, b2) then 1 else 0)))
    else u
  }

  /** putAscElem (tdiffoutput.cc:429-503). */
  function AscElem(lay: Layout, s: State, off1: int, b1: byte, off2: int, b2: byte,
                   k: Kind, formatted: bool): (r: State)
    requires lay.style.tabSize >= 1
    ensures r.o1 == s.o1 && r.o2 == s.o2
  {
    AscLineEnd(lay, AscDraw(lay, AscBreak(lay, s, off1, b1, off2, b2), off1, b1, off2, b2, k, formatted),
               off1, b1, off2, b2, formatted)
  }

  /** The alignment mark before a byte of the hex dump: '+' every 8 bytes, '-' every 4. */
  function Mark(lay: Layout, off: nat): char
  {
    if !lay.alignmentMarks then ' ' else if off % 8 == 0 then '+' else if off % 4 == 0 then '-' else ' '
  }

  /** One side of putHexElem outside its overflow branch (tdiffoutput.cc:512-567). */
  function HexHalf(lay: Layout, h: Half, off: int, b: byte, k: Kind): Half
  {
    if off >= 0 then
      var p := Prefixed(lay, h, true, AddressLabel(off), k);
      var cell := if p.bytesin != 0 then [Mark(lay, off)] + Hex2(b) else Hex2(b);
      p.(buf := p.buf + cell, bytesin := p.bytesin + 1)
    else
      h.(buf := if h.bytesin == 0 then Spaces(GutterWidth + 2) else h.buf + Spaces(3),
         bytesin := h.bytesin + 1)
  }

  /**
   * putHexElem (tdiffoutput.cc:506-569): break a full line, then draw both
   * sides, or only count them once a side is past max_bytes_per_line.
   */
  function HexElem(lay: Layout, s: State, off1: int, b1: byte, off2: int, b2: byte, k: Kind): (r: State)
    ensures r.o1 == s.o1 && r.o2 == s.o2
  {
    HexDraw(lay, HexBreak(lay, s), off1, b1, off2, b2, k)
  }

  /** A full hex-dump line is printed before the next pair (tdiffoutput.cc:507). */
  function HexBreak(lay: Layout, s: State): (r: State)
    ensures r.o1 == s.o1 && r.o2 == s.o2
  {
    if s.h1.bytesin == lay.bytesPerLine || s.h2.bytesin == lay.bytesPerLine then Flushed(lay, s) else s
  }

  /** Both sides of a hex pair: drawn, or only counted past max_bytes_per_line (tdiffoutput.cc:508-567). */
  function HexDraw(lay: Layout, t: State, off1: int, b1: byte, off2: int, b2: byte, k: Kind): (r: State)
    ensures r.o1 == t.o1 && r.o2 == t.o2
  {
    if t.h1.bytesin > lay.maxBytesPerLine || t.h2.bytesin > lay.maxBytesPerLine then
      t.(h1 := t.h1.(bytesin := t.h1.bytesin + 1), h2 := t.h2.(bytesin := t.h2.bytesin + 1))
    else
      t.(h1 := HexHalf(lay, t.h1, off1, b1, k), h2 := HexHalf(lay, t.h2, off2, b2, k))
  }

  /**
   * The bytes of one turn of the byte loops of mat, sub, del and ins put out:
   * byte o1 of file 1 when take1, byte o2 of file 2 when take2 (an absent
   * byte is passed as offset -1 and byte 0), as a vertical line or into the
   * half lines.
   */
  function Pair(lay: Layout, f1: seq<byte>, f2: seq<byte>, s: State, k: Kind, take1: bool, take2: bool): (r: State)
    requires lay.style.tabSize >= 1
    requires take1 ==> s.o1 < |f1|
    requires take2 ==> s.o2 < |f2|
    ensures r.o1 == s.o1 && r.o2 == s.o2
  {
    var off1: int := if take1 then s.o1 else -1;
    var off2: int := if take2 then s.o2 else -1;
    var b1: byte := if take1 then f1[s.o1] else 0;
    var b2: byte := if take2 then f2[s.o2] else 0;
    match lay.mode
    case Vertical =>
      s.(rows := s.rows + [ByteRow(k, if take1 then Some((s.o1, b1)) else None,
                                      if take2 then Some((s.o2, b2)) else None)])
    case HexDump => HexElem(lay, s, off1, b1, off2, b2, k)
    case _ => AscElem(lay, s, off1, b1, off2, b2, k, lay.mode == FormattedAscii)
  }

  /** One turn of a byte loop: the pair put out, then the cursors of the sides taken advance. */
  function Elem(lay: Layout, f1: seq<byte>, f2: seq<byte>, s: State, k: Kind, take1: bool, take2: bool): (r: State)
    requires lay.style.tabSize >= 1
    requires take1 ==> s.o1 < |f1|
    requires take2 ==> s.o2 < |f2|
    ensures r.o1 == s.o1 + (if take1 then 1 else 0) && r.o2 == s.o2 + (if take2 then 1 else 0)
  {
    Pair(lay, f1, f2, s, k, take1, take2).(o1 := s.o1 + (if take1 then 1 else 0), o2 := s.o2 + (if take2 then 1 else 0))
  }

  /** n turns of a byte loop. */
  function Run(lay: Layout, f1: seq<byte>, f2: seq<byte>, s: State, n: nat, k: Kind, take1: bool, take2: bool): (r: State)
    requires lay.style.tabSize >= 1
    requires take1 ==> s.o1 + n <= |f1|
    requires take2 ==> s.o2 + n <= |f2|
    ensures r.o1 == s.o1 + (if take1 then n else 0) && r.o2 == s.o2 + (if take2 then n else 0)
    decreases n, 0
  {
    if n == 0 then s
    else Turn(lay, f1, f2, s, n - 1, k, take1, take2)
  }

  /** Turn n + 1 of a byte loop: one more pair after the first n turns. */
  function Turn(lay: Layout, f1: seq<byte>, f2: seq<byte>, s: State, n: nat, k: Kind, take1: bool, take2: bool): (r: State)
    requires lay.style.tabSize >= 1
    requires take1 ==> s.o1 + n < |f1|
    requires take2 ==> s.o2 + n < |f2|
    ensures r.o1 == s.o1 + (if take1 then n + 1 else 0) && r.o2 == s.o2 + (if take2 then n + 1 else 0)
    decreases n, 1
  {
    Elem(lay, f1, f2, Run(lay, f1, f2, s, n, k, take1, take2), k, take1, take2)
  }

  /** n + 1 turns are n turns and one more. */
  lemma RunStep(lay: Layout, f1: seq<byte>, f2: seq<byte>, s: State, n: nat, k: Kind, take1: bool, take2: bool)
    requires lay.style.tabSize >= 1
    requires take1 ==> s.o1 + n < |f1|
    requires take2 ==> s.o2 + n < |f2|
    ensures Run(lay, f1, f2, s, n + 1, k, take1, take2) == Elem(lay, f1, f2, Run(lay, f1, f2, s, n, k, take1, take2), k, take1, take2)
  {
  }

  /** A run of n > 0 turns ends with one turn after the first n - 1. */
  lemma RunLast(lay: Layout, f1: seq<byte>, f2: seq<byte>, s: State, n: nat, k: Kind, take1: bool, take2: bool)
    requires lay.style.tabSize >= 1 && n > 0
    requires take1 ==> s.o1 + n <= |f1|
    requires take2 ==> s.o2 + n <= |f2|
    ensures Run(lay, f1, f2, s, n, k, take1, take2) == Elem(lay, f1, f2, Run(lay, f1, f2, s, n - 1, k, take1, take2), k, take1, take2)
  {
  }

  /** "%10d": the decimal digits right-aligned in ten columns. */
  function Field10(n: nat): seq<char>
  {
    var d := Digits(n);
    Spaces(Max(10, |d|) - |d|) + d
  }

  /** The text of a range in the split modes: "%08X: " then the coloured count and words. */
  function RangeText(lay: Layout, at: nat, k: Kind, n: nat, words: seq<char>): seq<char>
  {
    AddressLabel(at) + [' '] + Colour(lay.pal, k) + Field10(n) + words + lay.pal.nor
  }

  /** A hidden stretch: the split modes flush, and the cursors skip a and b bytes. */
  function Skip(lay: Layout, s: State, a: nat, b: nat): (r: State)
    ensures r.o1 == s.o1 + a && r.o2 == s.o2 + b
  {
    var t := if lay.mode == Vertical then s else Flushed(lay, s);
    t.(o1 := s.o1 + a, o2 := s.o2 + b)
  }

  /** A range line: vertical mode prints row; the split modes flush and print a split line of the texts. */
  function Ranged(lay: Layout, s: State, row: Row, left: seq<char>, right: seq<char>, a: nat, b: nat): (r: State)
    ensures r.o1 == s.o1 + a && r.o2 == s.o2 + b
  {
    var t := if lay.mode == Vertical then s.(rows := s.rows + [row])
             else var f := Flushed(lay, s); f.(rows := f.rows + [SplitRow(lay, left, right)]);
    t.(o1 := s.o1 + a, o2 := s.o2 + b)
  }

  /** mat (tdiffoutput.cc:591-642). */
  function MatOut(lay: Layout, f1: seq<byte>, f2: seq<byte>, s: State, num: nat): (r: State)
    requires lay.style.tabSize >= 1
    requires !lay.hideMat && !lay.rangeMat ==> s.o1 + num <= |f1| && s.o2 + num <= |f2|
    ensures r.o1 == s.o1 + num && r.o2 == s.o2 + num
  {
    if lay.hideMat then Skip(lay, s, num, num)
    else if lay.rangeMat then
      Ranged(lay, s, RangeRow(Match, Some((s.o1, num)), Some((s.o2, num))),
             RangeText(lay, s.o1, Match, num, " bytes match"),
             RangeText(lay, s.o2, Match, num, " bytes match"), num, num)
    else Run(lay, f1, f2, s, num, Match, true, true)
  }

  /** sub (tdiffoutput.cc:645-712): num pairs, then del bytes of file 1, then ins bytes of file 2. */
  function SubOut(lay: Layout, f1: seq<byte>, f2: seq<byte>, s: State, num: nat, ins: nat, del: nat): (r: State)
    requires lay.style.tabSize >= 1
    requires !lay.hideSub && !lay.rangeSub ==> s.o1 + num + del <= |f1| && s.o2 + num + ins <= |f2|
    ensures r.o1 == s.o1 + num + del && r.o2 == s.o2 + num + ins
  {
    if lay.hideSub then Skip(lay, s, num + del, num + ins)
    else if lay.rangeSub then
      Ranged(lay, s, RangeRow(Subst, Some((s.o1, num + del)), Some((s.o2, num + ins))),
             RangeText(lay, s.o1, Subst, num + del, " bytes substituted"),
             RangeText(lay, s.o2, Subst, num + ins, " bytes substituted"), num + del, num + ins)
    else SubRuns(lay, f1, f2, s, num, ins, del)
  }

  /** The byte loops of sub: num pairs, del bytes of file 1, ins bytes of file 2. */
  function SubRuns(lay: Layout, f1: seq<byte>, f2: seq<byte>, s: State, num: nat, ins: nat, del: nat): (r: State)
    requires lay.style.tabSize >= 1
    requires s.o1 + num + del <= |f1| && s.o2 + num + ins <= |f2|
    ensures r.o1 == s.o1 + num + del && r.o2 == s.o2 + num + ins
  {
    var pairs := Run(lay, f1, f2, s, num, Subst, true, true);
    var dels := Run(lay, f1, f2, pairs, del, Subst, true, false);
    Run(lay, f1, f2, dels, ins, Subst, false, true)
  }

  /** del (tdiffoutput.cc:715-759). */
  function DelOut(lay: Layout, f1: seq<byte>, f2: seq<byte>, s: State, num: nat): (r: State)
    requires lay.style.tabSize >= 1
    requires !lay.hideDel && !lay.rangeDel ==> s.o1 + num <= |f1|
    ensures r.o1 == s.o1 + num && r.o2 == s.o2 + 0
  {
    if lay.hideDel then Skip(lay, s, num, 0)
    else if lay.rangeDel then
      Ranged(lay, s, RangeRow(Deletion, Some((s.o1, num)), None),
             RangeText(lay, s.o1, Deletion, num, " bytes deleted"), [], num, 0)
    else Run(lay, f1, f2, s, num, Deletion, true, false)
  }

  /** ins (tdiffoutput.cc:762-806): the range text goes on the right half. */
  function InsOut(lay: Layout, f1: seq<byte>, f2: seq<byte>, s: State, num: nat): (r: State)
    requires lay.style.tabSize >= 1
    requires !lay.hideIns && !lay.rangeIns ==> s.o2 + num <= |f2|
    ensures r.o1 == s.o1 + 0 && r.o2 == s.o2 + num
  {
    if lay.hideIns then Skip(lay, s, 0, num)
    else if lay.rangeIns then
      Ranged(lay, s, RangeRow(Insertion, None, Some((s.o2, num))),
             [], RangeText(lay, s.o2, Insertion, num, " bytes inserted"), 0, num)
    else Run(lay, f1, f2, s, num, Insertion, false, true)
  }

  /** The blank gutter an absent first byte leaves for the label written later. */
  predicate Gutter(buf: seq<char>)
  {
    |buf| >= GutterWidth && buf[..GutterWidth] == Spaces(GutterWidth)
  }

  /**
   * A half line is closed text; it is empty while no byte is counted; its
   * line number is at least 1; and while it still needs its label, it
   * starts with the blank gutter.
   */
  predicate HalfOk(lay: Layout, h: Half)
  {
    Closed(h.buf) && (h.bytesin == 0 ==> h.buf == []) && h.line >= 1 &&
    (h.needadr && h.bytesin > 0 && lay.lineNumbers ==> Gutter(h.buf))
  }

  /** A split row is two closed halves of exactly half_line_len columns. */
  predicate Aligned(lay: Layout, r: Row)
  {
    r.Split? ==> Closed(r.left) && Closed(r.right) && Visible(r.left) == lay.half && Visible(r.right) == lay.half
  }

  /**
   * The renderer's invariant: both halves are well formed, they are empty
   * together, the hex dump counts the same number of bytes on both sides and
   * never more than bytes_per_line, and every split row printed is aligned.
   */
  predicate Inv(lay: Layout, s: State)
  {
    HalfOk(lay, s.h1) && HalfOk(lay, s.h2) && (s.h1.bytesin == 0 <==> s.h2.bytesin == 0) &&
    (lay.mode == HexDump ==> s.h1.bytesin == s.h2.bytesin <= lay.bytesPerLine) &&
    forall i :: 0 <= i < |s.rows| ==> Aligned(lay, s.rows[i])
  }
}
