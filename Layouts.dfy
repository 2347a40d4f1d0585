// The decisions the constructor of TDiffOutput takes from the command line
// (tdiffoutput.cc:38-205) and the automatic choice of the output mode
// (autoMode, tdiffoutput.cc:809-845): which mode, how wide a half line is,
// how many bytes go on a line, which colours, and what is hidden or shown as
// a range.
module Layouts {
  import opened MinMax
  import opened Outcomes
  import opened Glyphs
  import opened Columns

  /** MODE_T: one byte per line, formatted or unformatted text, or a hex dump. */
  datatype Mode = Vertical | FormattedAscii | UnformattedAscii | HexDump

  /** DIFF_T without NIL: what a stretch of output reports. */
  datatype Kind = Match | Subst | Deletion | Insertion

  /** The colour switches written before each kind, the reset and the separator's colour. */
  datatype Palette = Palette(nor: seq<char>, ins: seq<char>, del: seq<char>, sub: seq<char>,
                             mat: seq<char>, sep: seq<char>)

  /** An SGR sequence (section 8.3.117 of ECMA-48): ESC '[' params 'm'. */
  function Sgr(params: seq<char>): (r: seq<char>)
    ensures |r| == |params| + 3 && r[0] == ESC && r[|r| - 1] == 'm'
  {
    [ESC, '['] + params + ['m']
  }

  /** The default colours, bold. */
  const Bold: Palette :=
    Palette(Sgr(""), Sgr("00;32"), Sgr("01;31"), Sgr("01;33"), Sgr("01;37"), Sgr("00;34"))

  /** --alt-colors: the same colours without bold. */
  const Thin: Palette :=
    Palette(Sgr("00"), Sgr("35"), Sgr("31"), Sgr("33"), Sgr("37"), Sgr("34"))

  /** --no-color: every switch is empty. */
  const Colourless: Palette := Palette("", "", "", "", "", "")

  /** colorStr (tdiffoutput.cc:572-581). */
  function Colour(p: Palette, k: Kind): seq<char>
  {
    match k
    case Match => p.mat
    case Subst => p.sub
    case Insertion => p.ins
    case Deletion => p.del
  }

  /** A colour switch is closed and takes no column. */
  predicate Invisible(s: seq<char>)
  {
    Closed(s) && Visible(s) == 0
  }

  predicate PaletteOk(p: Palette)
  {
    Invisible(p.nor) && Invisible(p.ins) && Invisible(p.del) && Invisible(p.sub) &&
    Invisible(p.mat) && Invisible(p.sep)
  }

  /** An SGR sequence without an 'm' or NUL among its parameters takes no column. */
  lemma SgrInvisible(params: seq<char>)
    requires 'm' !in params
    ensures Invisible(Sgr(params))
  {
    var s := Sgr(params);
    assert s[..|s| - 1] == [ESC, '['] + params;
    ExactSgr(s);
    assert s[|s|..] == [];
  }

  /** The default palette is usable: its switches take no column. */
  lemma BoldOk()
    ensures PaletteOk(Bold)
  {
    SgrInvisible(""); SgrInvisible("00;32"); SgrInvisible("01;31"); SgrInvisible("01;33");
    SgrInvisible("01;37"); SgrInvisible("00;34");
  }

  /** The alternative palette is usable. */
  lemma ThinOk()
    ensures PaletteOk(Thin)
  {
    SgrInvisible("00"); SgrInvisible("35"); SgrInvisible("31"); SgrInvisible("33");
    SgrInvisible("37"); SgrInvisible("34");
  }

  /** All three palettes are usable: their switches take no column. */
  lemma PalettesOk()
    ensures PaletteOk(Bold) && PaletteOk(Thin) && PaletteOk(Colourless)
  {
    BoldOk();
    ThinOk();
  }

  /** The palette --no-color and --alt-colors choose: Bold unless one of them is given. */
  function Colours(noColor: bool, altColors: bool): (r: Palette)
    ensures PaletteOk(r)
    ensures r == Colourless <==> noColor
  {
    PalettesOk();
    assert Bold.nor != [] && Thin.nor != [];
    if noColor then Colourless else if altColors then Thin else Bold
  }

  /** The options the constructor reads from the option framework. */
  datatype Options = Options(
    altColors: bool, alignmentMarks: bool, lineNumbers: bool, noLineBreak: bool,
    controlHex: bool, unprintable: seq<char>, width: int, tabSize: int,
    showLfAndTab: bool, showSpace: bool,
    hex: bool, formatted: bool, unformatted: bool, vertical: bool,
    bytesPerLine: int, noColor: bool,
    hideMatch: bool, hideDeletion: bool, hideInsertion: bool, hideSubstitution: bool,
    rangeMatch: bool, rangeDeletion: bool, rangeInsertion: bool, rangeSubstitution: bool,
    range: bool)

  /** The renderer's configuration once the constructor has run. */
  datatype Layout = Layout(
    mode: Mode, style: Style, pal: Palette,
    hideMat: bool, hideIns: bool, hideDel: bool, hideSub: bool,
    rangeMat: bool, rangeIns: bool, rangeDel: bool, rangeSub: bool,
    width: int, half: nat, bytesPerLine: int, maxBytesPerLine: int,
    alignmentMarks: bool, lineNumbers: bool, noLineBreak: bool)

  /** What the renderer relies on: a usable style and palette, line labels outside formatted mode. */
  predicate LayoutOk(lay: Layout)
  {
    StyleOk(lay.style) && PaletteOk(lay.pal) && lay.half >= 20 && lay.maxBytesPerLine >= 0 &&
    (lay.mode != Vertical ==> lay.bytesPerLine >= 1) &&
    (lay.mode != FormattedAscii ==> lay.lineNumbers)
  }

  /** How many of the four mode switches are given. */
  function Switches(o: Options): nat
  {
    (if o.hex then 1 else 0) + (if o.formatted then 1 else 0) +
    (if o.unformatted then 1 else 0) + (if o.vertical then 1 else 0)
  }

  /** The terminal width: --width, else the width the terminal reports, else 80; at least 42. */
  function Width(o: Options, terminal: Option<int>): (r: int)
    ensures r >= 42
  {
    var w := if o.width != 0 then o.width else if terminal.Some? then terminal.value else 80;
    if w < 42 then 42 else w
  }

  /** The bytes of a full line: the half line less the nine-column label when there is one. */
  function MaxBytes(mode: Mode, half: int, lineNumbers: bool): int
  {
    match mode
    case HexDump => (half - 8) / 3
    case FormattedAscii => if lineNumbers then half - 9 else half
    case UnformattedAscii => half - 9
    case Vertical => 0
  }

  /** The mode of the constructor's first switch: auto is what autoMode returns when no switch is given. */
  function ModeOf(o: Options, auto: Mode): Mode
  {
    if Switches(o) == 0 then auto
    else if o.hex then HexDump
    else if o.formatted then FormattedAscii
    else if o.unformatted then UnformattedAscii
    else Vertical
  }

  /**
   * The constructor (tdiffoutput.cc:38-205) once its mode is known.
   * terminal is what the terminal reports for its width, None when it
   * reports nothing; auto is the mode autoMode picks from the files.  Every
   * userError is Err(UserError).
   */
  function Construct(o: Options, terminal: Option<int>, auto: Mode): Result<Layout>
  {
    if |o.unprintable| > 1 || Switches(o) > 1 then Err(UserError)
    else
      var unprint := if |o.unprintable| == 1 then o.unprintable[0] else NUL;
      var mode := ModeOf(o, auto);
      if mode == HexDump && (unprint != NUL || o.showSpace || o.controlHex) then Err(UserError)
      else if mode != FormattedAscii && (o.lineNumbers || o.noLineBreak) then Err(UserError)
      else if o.hideMatch && o.hideInsertion && o.hideDeletion && o.hideSubstitution then Err(UserError)
      else Ok(LayoutOf(o, terminal, unprint, mode))
  }

  /** The layout of accepted options; range switches are read into the field of their own kind. */
  function LayoutOf(o: Options, terminal: Option<int>, unprint: char, mode: Mode): Layout
  {
    var width := Width(o, terminal);
    var half := (width - 1) / 2;
    var max := MaxBytes(mode, half, o.lineNumbers);
    var bpl := if mode == Vertical then 0 else if o.bytesPerLine <= 0 then max else o.bytesPerLine;
    var style := Style(unprint, o.controlHex, o.showLfAndTab || mode != FormattedAscii,
                       o.showSpace, o.tabSize);
    var pal := Colours(o.noColor, o.altColors);
    Layout(mode, style, pal,
           o.hideMatch, o.hideInsertion, o.hideDeletion, o.hideSubstitution,
           o.rangeMatch || o.range, o.rangeInsertion || o.range,
           o.rangeDeletion || o.range, o.rangeSubstitution || o.range,
           width, half, bpl, max,
           o.alignmentMarks, o.lineNumbers || mode != FormattedAscii, o.noLineBreak)
  }

  /**
   * The corrected constructor: autoMode samples both files (AutoChoice) and
   * each range switch ranges its own kind.  ConfigureAsWritten is the code,
   * which samples file 1 twice and crosses two range switches.
   */
  function Configure(o: Options, terminal: Option<int>, f1: seq<byte>, f2: seq<byte>): (r: Result<Layout>)
    ensures r.Ok? && Switches(o) == 0 ==> r.value.mode == AutoChoice(f1, f2)
    ensures r.Ok? ==> r.value.rangeDel == (o.rangeDeletion || o.range) &&
                      r.value.rangeIns == (o.rangeInsertion || o.range)
  {
    Construct(o, terminal, AutoChoice(f1, f2))
  }

  /** More than one mode switch, or more than one unprintable character, is refused. */
  lemma ConflictingSwitches(o: Options, terminal: Option<int>, f1: seq<byte>, f2: seq<byte>)
    ensures Switches(o) > 1 ==> Configure(o, terminal, f1, f2).Err?
    ensures |o.unprintable| > 1 ==> Configure(o, terminal, f1, f2).Err?
  {
  }

  /** Hiding all four kinds of output is refused. */
  lemma HideAllRefused(o: Options, terminal: Option<int>, f1: seq<byte>, f2: seq<byte>)
    requires o.hideMatch && o.hideDeletion && o.hideInsertion && o.hideSubstitution
    ensures Configure(o, terminal, f1, f2).Err?
  {
  }

  /**
   * The refusals that follow the choice of mode: a hex dump with a
   * character option, a line option outside formatted mode, or everything
   * hidden.
   */
  predicate Refused(o: Options, mode: Mode)
  {
    (mode == HexDump && ((o.unprintable != [] && o.unprintable[0] != NUL) || o.showSpace || o.controlHex)) ||
    (mode != FormattedAscii && (o.lineNumbers || o.noLineBreak)) ||
    (o.hideMatch && o.hideDeletion && o.hideInsertion && o.hideSubstitution)
  }

  /**
   * Past the conflicts of switches, the errors are exactly the ones the
   * constructor names, for the constructor as written and the corrected one
   * alike; they differ only in the mode autoMode supplies.
   */
  lemma ConfigureErrors(o: Options, terminal: Option<int>, f1: seq<byte>, f2: seq<byte>)
    requires Switches(o) <= 1 && |o.unprintable| <= 1
    ensures Configure(o, terminal, f1, f2).Err? <==> Refused(o, ModeOf(o, AutoChoice(f1, f2)))
    ensures ConfigureAsWritten(o, terminal, f1, f2).Err? <==> Refused(o, ModeOf(o, AutoChoiceAsWritten(f1, f2)))
  {
    ConstructErrors(o, terminal, AutoChoice(f1, f2));
    assert Configure(o, terminal, f1, f2) == Construct(o, terminal, AutoChoice(f1, f2));
    AsWrittenErrors(o, terminal, f1, f2);
  }

  /** The errors of the constructor as written, which sees the options with two range switches crossed. */
  lemma AsWrittenErrors(o: Options, terminal: Option<int>, f1: seq<byte>, f2: seq<byte>)
    requires Switches(o) <= 1 && |o.unprintable| <= 1
    ensures ConfigureAsWritten(o, terminal, f1, f2).Err? <==> Refused(o, ModeOf(o, AutoChoiceAsWritten(f1, f2)))
  {
    CrossedErrors(o, terminal, AutoChoiceAsWritten(f1, f2));
  }

  /** Crossing the two range switches changes none of the constructor's refusals. */
  lemma CrossedErrors(o: Options, terminal: Option<int>, auto: Mode)
    requires Switches(o) <= 1 && |o.unprintable| <= 1
    ensures Construct(Crossed(o), terminal, auto).Err? <==> Refused(o, ModeOf(o, auto))
  {
    SwappedAccepted(o, Crossed(o), terminal, auto);
    ConstructErrors(o, terminal, auto);
  }

  /** The errors of the constructor once autoMode has supplied auto. */
  lemma ConstructErrors(o: Options, terminal: Option<int>, auto: Mode)
    requires Switches(o) <= 1 && |o.unprintable| <= 1
    ensures Construct(o, terminal, auto).Err? <==> Refused(o, ModeOf(o, auto))
  {
  }

  /** The mode of lay obeys an explicit switch; without one it is auto. */
  predicate ObeysSwitches(o: Options, lay: Layout, auto: Mode)
  {
    (o.hex <==> lay.mode == HexDump && Switches(o) == 1) &&
    (o.formatted ==> lay.mode == FormattedAscii) &&
    (o.unformatted ==> lay.mode == UnformattedAscii) &&
    (o.vertical ==> lay.mode == Vertical) &&
    (Switches(o) == 0 ==> lay.mode == auto)
  }

  /**
   * An explicit mode switch is obeyed; without one the files decide: as
   * written by file 1's sample counted twice, corrected by both samples.
   */
  lemma ChosenMode(o: Options, terminal: Option<int>, f1: seq<byte>, f2: seq<byte>)
    ensures Configure(o, terminal, f1, f2).Ok? ==>
      ObeysSwitches(o, Configure(o, terminal, f1, f2).value, AutoChoice(f1, f2))
    ensures ConfigureAsWritten(o, terminal, f1, f2).Ok? ==>
      ObeysSwitches(o, ConfigureAsWritten(o, terminal, f1, f2).value, AutoChoiceAsWritten(f1, f2))
  {
    ConstructMode(o, terminal, AutoChoice(f1, f2));
    var auto := AutoChoiceAsWritten(f1, f2);
    ConstructMode(Crossed(o), terminal, auto);
    assert Switches(Crossed(o)) == Switches(o);
  }

  /** The mode of the constructor once autoMode has supplied auto. */
  lemma ConstructMode(o: Options, terminal: Option<int>, auto: Mode)
    ensures Construct(o, terminal, auto).Ok? ==> ObeysSwitches(o, Construct(o, terminal, auto).value, auto)
  {
  }

  /**
   * Each range switch ranges its own kind of difference, and --range sets
   * all four.
   */
  lemma RangeSwitches(o: Options, terminal: Option<int>, f1: seq<byte>, f2: seq<byte>)
    requires Configure(o, terminal, f1, f2).Ok?
    ensures var lay := Configure(o, terminal, f1, f2).value;
      lay.rangeDel == (o.rangeDeletion || o.range) &&
      lay.rangeIns == (o.rangeInsertion || o.range) &&
      lay.rangeMat == (o.rangeMatch || o.range) &&
      lay.rangeSub == (o.rangeSubstitution || o.range)
  {
  }

  /** The options with --range-deletion and --range-insertion exchanged. */
  function Crossed(o: Options): Options
  {
    o.(rangeDeletion := o.rangeInsertion, rangeInsertion := o.rangeDeletion)
  }

  /**
   * The constructor as written: autoMode counts the sample of file 1 twice
   * (tdiffoutput.cc:826-829), and --range-deletion is read into range_ins
   * and --range-insertion into range_del (tdiffoutput.cc:189-190).
   */
  function ConfigureAsWritten(o: Options, terminal: Option<int>, f1: seq<byte>, f2: seq<byte>): Result<Layout>
  {
    Construct(Crossed(o), terminal, AutoChoiceAsWritten(f1, f2))
  }

  /**
   * As written, the deletion switch ranges insertions and the insertion
   * switch deletions.  With the same mode from autoMode, nothing else
   * differs from the constructor that reads each switch into its own field.
   */
  lemma RangeSwitchesCrossed(o: Options, terminal: Option<int>, f1: seq<byte>, f2: seq<byte>)
    ensures var auto := AutoChoiceAsWritten(f1, f2);
      ConfigureAsWritten(o, terminal, f1, f2).Ok? <==> Construct(o, terminal, auto).Ok?
    ensures ConfigureAsWritten(o, terminal, f1, f2).Ok? ==>
      var lay := ConfigureAsWritten(o, terminal, f1, f2).value;
      lay.rangeIns == (o.rangeDeletion || o.range) && lay.rangeDel == (o.rangeInsertion || o.range) &&
      lay.rangeMat == (o.rangeMatch || o.range) && lay.rangeSub == (o.rangeSubstitution || o.range) &&
      lay == Construct(o, terminal, AutoChoiceAsWritten(f1, f2)).value.(rangeIns := lay.rangeIns, rangeDel := lay.rangeDel)
  {
    CrossedLayout(o, terminal, AutoChoiceAsWritten(f1, f2));
  }

  /** The crossing of the two range switches, once autoMode has supplied auto. */
  lemma CrossedLayout(o: Options, terminal: Option<int>, auto: Mode)
    ensures Construct(Crossed(o), terminal, auto).Ok? <==> Construct(o, terminal, auto).Ok?
    ensures Construct(Crossed(o), terminal, auto).Ok? ==>
      var lay := Construct(Crossed(o), terminal, auto).value;
      lay.rangeIns == (o.rangeDeletion || o.range) && lay.rangeDel == (o.rangeInsertion || o.range) &&
      lay.rangeMat == (o.rangeMatch || o.range) && lay.rangeSub == (o.rangeSubstitution || o.range) &&
      lay == Construct(o, terminal, auto).value.(rangeIns := lay.rangeIns, rangeDel := lay.rangeDel)
  {
    SwappedAccepted(o, Crossed(o), terminal, auto);
    if Construct(o, terminal, auto).Ok? {
      SwappedLayout(o, Crossed(o), terminal, auto);
    }
  }

  /** Swapping the two range switches does not change whether the options are accepted. */
  lemma SwappedAccepted(o: Options, o': Options, terminal: Option<int>, auto: Mode)
    requires o' == o.(rangeDeletion := o.rangeInsertion, rangeInsertion := o.rangeDeletion)
    ensures Construct(o', terminal, auto).Ok? <==> Construct(o, terminal, auto).Ok?
  {
    assert Switches(o') == Switches(o);
  }

  /** Swapping the two range switches changes no field of the layout but range_ins and range_del. */
  lemma SwappedLayout(o: Options, o': Options, terminal: Option<int>, auto: Mode)
    requires o' == o.(rangeDeletion := o.rangeInsertion, rangeInsertion := o.rangeDeletion)
    requires Construct(o, terminal, auto).Ok? && Construct(o', terminal, auto).Ok?
    ensures var lay, lay' := Construct(o, terminal, auto).value, Construct(o', terminal, auto).value;
      lay' == lay.(rangeIns := lay'.rangeIns, rangeDel := lay'.rangeDel)
  {
    assert Switches(o') == Switches(o) && Width(o', terminal) == Width(o, terminal);
  }

  /**
   * With file 1 = "a\n", file 2 two NUL bytes and --line-numbers, the
   * constructor as written picks formatted text and accepts; counting both
   * files picks a hex dump, where line numbers are refused.
   */
  lemma LineNumbersAgainstBinary(o: Options, terminal: Option<int>)
    requires Switches(o) == 0 && |o.unprintable| <= 1 && o.lineNumbers
    requires !(o.hideMatch && o.hideDeletion && o.hideInsertion && o.hideSubstitution)
    ensures ConfigureAsWritten(o, terminal, [97, 10], [0, 0]).Ok?
    ensures ConfigureAsWritten(o, terminal, [97, 10], [0, 0]).value.mode == FormattedAscii
    ensures Configure(o, terminal, [97, 10], [0, 0]).Err?
  {
    AsWrittenMissesSecondFile();
    ConfigureErrors(o, terminal, [97, 10], [0, 0]);
    ChosenMode(o, terminal, [97, 10], [0, 0]);
  }

  /**
   * Outside formatted mode lines are always labelled and newlines and tabs
   * always shown, and --line-numbers and --no-line-break were not given.
   */
  lemma UnformattedDefaults(o: Options, terminal: Option<int>, f1: seq<byte>, f2: seq<byte>)
    requires Configure(o, terminal, f1, f2).Ok?
    ensures var lay := Configure(o, terminal, f1, f2).value;
      (lay.mode != FormattedAscii ==> lay.lineNumbers && lay.style.showLfAndTab && !lay.noLineBreak) &&
      (lay.mode == FormattedAscii ==> lay.lineNumbers == o.lineNumbers && lay.style.showLfAndTab == o.showLfAndTab) &&
      (lay.mode == HexDump ==> lay.style.unprint == NUL && !lay.style.showSpace && !lay.style.controlHex)
  {
  }

  /**
   * The geometry: at least 42 columns, two halves and the separator fit in
   * the width, at least one byte per line, and a default line of the hex
   * dump (label, first byte, three columns per further byte) fits in a half.
   */
  lemma Geometry(o: Options, terminal: Option<int>, f1: seq<byte>, f2: seq<byte>)
    requires Configure(o, terminal, f1, f2).Ok?
    ensures var lay := Configure(o, terminal, f1, f2).value;
      lay.width >= 42 && lay.half >= 20 && 2 * lay.half + 1 <= lay.width <= 2 * lay.half + 2 &&
      (lay.mode != Vertical ==> lay.maxBytesPerLine >= 4 && lay.bytesPerLine >= 1) &&
      (lay.mode != Vertical && o.bytesPerLine <= 0 ==> lay.bytesPerLine == lay.maxBytesPerLine) &&
      (lay.mode == HexDump ==> 9 + 2 + 3 * (lay.maxBytesPerLine - 1) <= lay.half) &&
      (lay.mode != HexDump && lay.lineNumbers ==> 9 + lay.maxBytesPerLine <= lay.half)
  {
    var lay := Configure(o, terminal, f1, f2).value;
    assert lay.half == (lay.width - 1) / 2;
  }

  /**
   * What the renderer needs holds for an accepted configuration exactly when
   * the unprintable character is not ESC: an ESC glyph would be read by
   * setStrLen as the start of a colour sequence.
   */
  lemma ConfigureOk(o: Options, terminal: Option<int>, f1: seq<byte>, f2: seq<byte>)
    requires o.tabSize >= 1
    requires Configure(o, terminal, f1, f2).Ok?
    ensures LayoutOk(Configure(o, terminal, f1, f2).value) <==> o.unprintable != [ESC]
  {
    var lay := Configure(o, terminal, f1, f2).value;
    MaxBytesPositive(lay.mode, lay.half, o.lineNumbers);
    if o.unprintable == [ESC] {
      assert lay.style.unprint == ESC;
    } else {
      assert StyleOk(lay.style);
    }
  }

  /** Every mode but the vertical one has room for at least one byte per line. */
  lemma MaxBytesPositive(mode: Mode, half: int, lineNumbers: bool)
    requires half >= 20
    ensures mode != Vertical ==> MaxBytes(mode, half, lineNumbers) >= 4
    ensures MaxBytes(mode, half, lineNumbers) >= 0
  {
  }

  // ---------------------------------------------------------------------
  // autoMode

  /** The bytes autoMode reads from each file. */
  const SampleSize: nat := 10000

  /** The newlines among the bytes of s. */
  function Newlines(s: seq<byte>): (r: nat)
    ensures r <= |s|
    decreases |s|
  {
    if s == [] then 0 else Newlines(s[..|s| - 1]) + (if s[|s| - 1] == 10 then 1 else 0)
  }

  /** A byte autoMode counts as not ASCII: NUL or above 126. */
  predicate Binary(b: byte)
  {
    b > 126 || b == 0
  }

  /** The bytes of s that are NUL or above 126. */
  function NonAscii(s: seq<byte>): (r: nat)
    ensures r <= |s|
    decreases |s|
  {
    if s == [] then 0 else NonAscii(s[..|s| - 1]) + (if Binary(s[|s| - 1]) then 1 else 0)
  }

  /**
   * The decision of autoMode on its counts, restated in integers: more than
   * 10% non-ASCII bytes give a hex dump, less than 1% newlines unformatted
   * text, and formatted text otherwise.
   */
  function Choice(newline: nat, noascii: nat, num: nat): Mode
  {
    if 10 * noascii > num then HexDump
    else if 100 * newline < num then UnformattedAscii
    else FormattedAscii
  }

  /** The mode autoMode picks as written: the sample of file 1 is counted twice, file 2 not at all. */
  function AutoChoiceAsWritten(f1: seq<byte>, f2: seq<byte>): Mode
  {
    var n1 := Min(SampleSize, |f1|);
    Choice(2 * Newlines(f1[..n1]), 2 * NonAscii(f1[..n1]), 2 * n1)
  }

  /** The mode autoMode evidently means to pick: the samples of both files counted once each. */
  function AutoChoice(f1: seq<byte>, f2: seq<byte>): Mode
  {
    var n1, n2 := Min(SampleSize, |f1|), Min(SampleSize, |f2|);
    Choice(Newlines(f1[..n1]) + Newlines(f2[..n2]), NonAscii(f1[..n1]) + NonAscii(f2[..n2]), n1 + n2)
  }

  /** Counts the newlines and non-ASCII bytes among the first n bytes of s. */
  method Census(s: seq<byte>, n: nat) returns (newline: nat, noascii: nat)
    requires n <= |s|
    ensures newline == Newlines(s[..n]) && noascii == NonAscii(s[..n])
  {
    newline, noascii := 0, 0;
    for i := 0 to n
      invariant newline == Newlines(s[..i]) && noascii == NonAscii(s[..i])
    {
      assert s[..i + 1][..i] == s[..i];
      if s[i] == 10 {
        newline := newline + 1;
      }
      if s[i] > 126 || s[i] == 0 {
        noascii := noascii + 1;
      }
    }
  }

  /** autoMode as written (tdiffoutput.cc:809-845): both counting loops read file 1. */
  method AutoModeAsWritten(f1: seq<byte>, f2: seq<byte>) returns (m: Mode)
    ensures m == AutoChoiceAsWritten(f1, f2)
  {
    var s1 := Min(SampleSize, |f1|);
    var nl, na := Census(f1, s1);
    var nl', na' := Census(f1, s1);
    m := Choice(nl + nl', na + na', s1 + s1);
  }

  /** autoMode with the second loop reading the sample of file 2. */
  method AutoMode(f1: seq<byte>, f2: seq<byte>) returns (m: Mode)
    ensures m == AutoChoice(f1, f2)
  {
    var s1, s2 := Min(SampleSize, |f1|), Min(SampleSize, |f2|);
    var nl1, na1 := Census(f1, s1);
    var nl2, na2 := Census(f2, s2);
    m := Choice(nl1 + nl2, na1 + na2, s1 + s2);
  }

  /** A sample made only of NUL and bytes above 126 counts every byte. */
  lemma {:induction false} AllBinary(s: seq<byte>)
    requires forall i :: 0 <= i < |s| ==> Binary(s[i])
    ensures NonAscii(s) == |s|
    decreases |s|
  {
    if s != [] {
      AllBinary(s[..|s| - 1]);
    }
  }

  /** A sample without NUL or bytes above 126 counts none. */
  lemma {:induction false} NoBinary(s: seq<byte>)
    requires forall i :: 0 <= i < |s| ==> !Binary(s[i])
    ensures NonAscii(s) == 0
    decreases |s|
  {
    if s != [] {
      NoBinary(s[..|s| - 1]);
    }
  }

  /**
   * A second file at least as long as the first and made only of non-ASCII
   * bytes makes the choice a hex dump.
   */
  lemma BinarySecondFile(f1: seq<byte>, f2: seq<byte>)
    requires 1 <= |f2| && |f1| <= |f2| && forall i :: 0 <= i < |f2| ==> Binary(f2[i])
    ensures AutoChoice(f1, f2) == HexDump
  {
    var n2 := Min(SampleSize, |f2|);
    AllBinary(f2[..n2]);
  }

  /** Two files without NUL or bytes above 126 are never shown as a hex dump. */
  lemma TextIsNotHex(f1: seq<byte>, f2: seq<byte>)
    requires forall i :: 0 <= i < |f1| ==> !Binary(f1[i])
    requires forall i :: 0 <= i < |f2| ==> !Binary(f2[i])
    ensures AutoChoice(f1, f2) != HexDump
  {
    NoBinary(f1[..Min(SampleSize, |f1|)]);
    NoBinary(f2[..Min(SampleSize, |f2|)]);
  }

  /** As written, a text file against a binary one is shown as formatted text. */
  lemma AsWrittenMissesSecondFile()
    ensures AutoChoiceAsWritten([97, 10], [0, 0]) == FormattedAscii
    ensures AutoChoice([97, 10], [0, 0]) == HexDump
  {
    var t: seq<byte> := [97, 10];
    var b: seq<byte> := [0, 0];
    assert t[..2] == t && b[..2] == b;
    assert t[..1] == [97] && b[..1] == [0];
    assert [97 as byte][..0] == [] && [0 as byte][..0] == [];
  }
}
