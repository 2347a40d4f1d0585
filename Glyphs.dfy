// The glyphs of TDiffOutput (tdiffoutput.cc): how one byte is drawn in the
// ASCII modes (putChar), how many columns that takes (charLen), the
// three-letter names of the vertical mode (printChar), and the hexadecimal
// and decimal labels of the line prefixes.
module Glyphs {
  import opened MinMax
  import opened Bits
  import opened Chars

  type byte = bv8

  const NUL: char := 0 as char
  const ESC: char := 27 as char

  /** The options that decide how a byte is drawn. */
  datatype Style = Style(
    unprint: char,        // --unprintable-char, NUL when not given
    controlHex: bool,     // --control-hex
    showLfAndTab: bool,   // --show-lf-and-tab (forced on outside formatted mode)
    showSpace: bool,      // --show-space
    tabSize: int)         // --tab-size, at least 1

  predicate StyleOk(st: Style)
  {
    st.tabSize >= 1 && st.unprint != ESC
  }

  /** n blanks. */
  function Spaces(n: nat): (r: seq<char>)
    ensures |r| == n && forall i :: 0 <= i < n ==> r[i] == ' '
  {
    seq(n, _ => ' ')
  }

  /** The columns from pos to the next tab stop. */
  function TabWidth(st: Style, pos: nat): (w: int)
    requires st.tabSize >= 1
    ensures 1 <= w <= st.tabSize && (pos + w) % st.tabSize == 0
  {
    NextStop(pos, st.tabSize);
    st.tabSize - pos % st.tabSize
  }

  /** pos + t - pos % t is the next multiple of t after pos. */
  lemma NextStop(pos: nat, t: int)
    requires t >= 1
    ensures (pos + t - pos % t) % t == 0
    ensures (pos + t - pos % t) / t == pos / t + 1
  {
    var q, r := pos / t, pos % t;
    assert pos + t - r == t * (q + 1) + 0;
    DivModUnique(pos + t - r, t, q + 1, 0);
  }

  /** The next multiple of t after pos is the only one up to pos + t - pos % t. */
  lemma OnlyStop(pos: nat, t: int, p: nat)
    requires t >= 1 && pos < p <= pos + t - pos % t && p % t == 0
    ensures p == pos + t - pos % t
  {
    var q := pos / t;
    NextStop(pos, t);
    var m := p / t;
    assert p == t * m;
    assert pos < t * (q + 1);
    if m <= q {
      MulStrictMonotone(t, m, q + 1);
    } else if m > q + 1 {
      MulStrictMonotone(t, q + 1, m);
    }
  }

  /** charLen (tdiffoutput.cc:367-426): the columns byte c takes at column pos. */
  function CharLen(st: Style, c: byte, pos: nat): (w: int)
    requires st.tabSize >= 1
    ensures 1 <= w <= Max(5, st.tabSize)
    ensures c != 9 || st.showLfAndTab ==> w <= 5
  {
    var four := if st.controlHex then 5 else 4;
    if st.unprint != NUL then
      (if c == 9 && !st.showLfAndTab then TabWidth(st, pos) else 1)
    else if c <= 7 || 16 <= c <= 24 || c == 26 || c == 27 then 5
    else if c == 8 || 11 <= c <= 15 || c == 25 || 28 <= c <= 31 then four
    else if c == 9 then (if st.showLfAndTab then four else TabWidth(st, pos))
    else if c == 10 then (if st.showLfAndTab then four else 1)
    else if c == 32 then (if st.showSpace then 5 else 1)
    else if c >= 127 then 5
    else 1
  }

  /** Only an unshown tab has a width that depends on its column. */
  lemma CharLenPositionFree(st: Style, c: byte, p: nat, q: nat)
    requires st.tabSize >= 1 && (c != 9 || st.showLfAndTab)
    ensures CharLen(st, c, p) == CharLen(st, c, q)
  {
  }

  /** The names printChar gives the control codes 0..31. */
  const ControlNames: seq<string> := [
    "NUL", "SOH", "STX", "ETX", "EOT", "ENQ", "ACK", "BEL",
    "BS ", "HT ", "LF ", "VT ", "FF ", "CR ", "SO ", "SI ",
    "DLE", "DC1", "DC2", "DC3", "DC4", "NAK", "SYN", "ETB",
    "CAN", "EM ", "SUB", "ESC", "FS ", "GS ", "RS ", "US "]

  /** printChar (tdiffoutput.cc:208-256): the three-column name of a byte in vertical mode. */
  function PrintChar(st: Style, c: byte): (r: string)
    ensures |r| == 3
    ensures 33 <= c <= 126 ==> r == ['\'', (c as int) as char, '\'']
    ensures c >= 128 ==> r == "   "
  {
    if c == 32 && st.showSpace then "SPC"
    else if 32 <= c <= 126 then ['\'', (c as int) as char, '\'']
    else if c < 32 then ControlNames[c]
    else if c == 127 then "DEL"
    else "   "
  }

  /**
   * The two-letter names are exactly the control codes charLen draws four
   * columns wide, so putChar's "<XY>" and "<XYZ>" agree with charLen.
   */
  lemma {:induction false} ShortNamesAreFourWide(c: byte)
    requires c < 32
    ensures var st := Style(NUL, false, true, false, 8);
      PrintChar(st, c)[2] == ' ' <==> CharLen(st, c, 0) == 4
  {
    var st := Style(NUL, false, true, false, 8);
    var k: int := c as int;
    assert PrintChar(st, c) == ControlNames[k];
    assert 0 <= k < 32;
    if k < 8 { } else if k < 16 { } else if k < 24 { } else { }
  }

  /** One hexadecimal digit, upper case. */
  function HexDigit(d: int): (r: char)
    requires 0 <= d < 16
    ensures '0' <= r <= '9' || 'A' <= r <= 'F'
  {
    "0123456789ABCDEF"[d]
  }

  /** The "<xHH>" form of a byte. */
  function HexGlyph(c: byte): (r: seq<char>)
    ensures |r| == 5 && r[0] == '<' && r[1] == 'x' && r[4] == '>'
  {
    ['<', 'x', HexDigit(c as int / 16), HexDigit(c as int % 16), '>']
  }

  /** The "%02X" form of a byte. */
  function Hex2(c: byte): (r: seq<char>)
    ensures |r| == 2
  {
    [HexDigit(c as int / 16), HexDigit(c as int % 16)]
  }

  /** The n low hexadecimal digits of v, most significant first ("%0nX"). */
  function HexDigits(v: nat, n: nat): (r: seq<char>)
    ensures |r| == n
  {
    if n == 0 then [] else HexDigits(v / 16, n - 1) + [HexDigit(v % 16)]
  }

  /** The "%08X:" address label. */
  function AddressLabel(off: nat): (r: seq<char>)
    ensures |r| == 9 && r[8] == ':'
  {
    HexDigits(off % 0x1_0000_0000, 8) + [':']
  }

  /** Numbers below 10^k have at most k digits. */
  lemma {:induction false} DigitsLength(n: nat, k: nat)
    requires n < Pow10(k)
    ensures |Digits(n)| <= Max(k, 1)
  {
    if n >= 10 {
      assert Pow10(1) == 10;
      DivPow10(n, k);
      DigitsLength(n / 10, k - 1);
    }
  }

  function Pow10(k: nat): (r: nat)
    ensures r >= 1
  {
    if k == 0 then 1 else 10 * Pow10(k - 1)
  }

  lemma DivPow10(n: nat, k: nat)
    requires k >= 1 && n < Pow10(k)
    ensures n / 10 < Pow10(k - 1)
  {
  }

  /** The "% 8d:" line-number label: a blank sign column, right-aligned in eight columns. */
  function LineLabel(n: nat): (r: seq<char>)
    ensures |r| == Max(8, |Digits(n)| + 1) + 1 && r[|r| - 1] == ':'
  {
    var digits := [' '] + Digits(n);
    Spaces(Max(8, |digits|) - |digits|) + digits + [':']
  }

  /** Line numbers below ten million fill exactly the nine columns of the prefix. */
  lemma LineLabelWidth(n: nat)
    requires n < 10_000_000
    ensures |LineLabel(n)| == 9
  {
    assert Pow10(7) == 10_000_000;
    DigitsLength(n, 7);
  }

  /**
   * What putChar (tdiffoutput.cc:296-358) writes for byte c at column pos:
   * the byte itself when printable, blanks for a space or an unshown tab,
   * nothing for an unshown newline, otherwise the unprintable character,
   * "<xHH>" or the byte's name in angle brackets.
   */
  function Glyph(st: Style, c: byte, pos: nat): seq<char>
    requires st.tabSize >= 1
  {
    if c >= 128 then (if st.unprint != NUL then [st.unprint] else HexGlyph(c))
    else if 33 <= c <= 126 then [(c as int) as char]
    else if c == 32 && !st.showSpace then [' ']
    else if c == 10 && !st.showLfAndTab then []
    else if c == 9 && !st.showLfAndTab then Spaces(TabWidth(st, pos))
    else if st.unprint != NUL then [st.unprint]
    else if st.controlHex then HexGlyph(c)
    else
      var q := PrintChar(st, c);
      ['<', q[0], q[1]] + (if CharLen(st, c, 0) == 5 then [q[2]] else []) + ['>']
  }

  /** Text with no escape and no terminator: every character takes one column. */
  predicate Plain(s: seq<char>)
  {
    forall i :: 0 <= i < |s| ==> s[i] != ESC && s[i] != NUL
  }

  /**
   * putChar: writes Glyph(st, c, pos); a tab is expanded one blank at a time
   * up to the next tab stop.  Every glyph is as wide as charLen says, except
   * an unshown newline, which writes nothing where charLen counts one.
   */
  method PutChar(st: Style, c: byte, pos: nat) returns (s: seq<char>)
    requires StyleOk(st)
    ensures s == Glyph(st, c, pos)
    ensures c != 10 || st.showLfAndTab ==> |s| == CharLen(st, c, pos)
    ensures c == 10 && !st.showLfAndTab ==> s == [] && CharLen(st, c, pos) == 1
    ensures Plain(s)
  {
    if c >= 128 {
      if st.unprint != NUL {
        return [st.unprint];
      }
      return HexGlyph(c);
    }
    if 33 <= c <= 126 {
      return [(c as int) as char];
    }
    if c == 32 && !st.showSpace {
      return [' '];
    }
    if c == 10 && !st.showLfAndTab {
      return [];
    }
    if c == 9 && !st.showLfAndTab {
      s := [];
      var p := pos;
      s := s + [' '];
      p := p + 1;
      while p % st.tabSize != 0
        invariant pos < p <= pos + TabWidth(st, pos)
        invariant s == Spaces(p - pos)
        decreases pos + TabWidth(st, pos) - p
      {
        s := s + [' '];
        p := p + 1;
      }
      OnlyStop(pos, st.tabSize, p);
      return;
    }
    if st.unprint != NUL {
      return [st.unprint];
    }
    if st.controlHex {
      return HexGlyph(c);
    }
    var q := PrintChar(st, c);
    s := ['<', q[0], q[1]];
    if CharLen(st, c, 0) == 5 {
      s := s + [q[2]];
    }
    s := s + ['>'];
    LabelWidth(st, c);
  }

  /** The bracketed name is as wide as charLen says, and holds no escape. */
  lemma LabelWidth(st: Style, c: byte)
    requires st.tabSize >= 1 && st.unprint == NUL && !st.controlHex
    requires c < 128 && !(33 <= c <= 126) && !(c == 32 && !st.showSpace)
    requires c != 10 || st.showLfAndTab
    requires c != 9 || st.showLfAndTab
    ensures var q := PrintChar(st, c);
      |['<', q[0], q[1]] + (if CharLen(st, c, 0) == 5 then [q[2]] else []) + ['>']| == CharLen(st, c, 0)
    ensures Plain(PrintChar(st, c))
  {
    if c < 32 {
      var k: int := c as int;
      assert PrintChar(st, c) == ControlNames[k];
    }
  }

  /** Hexadecimal digits are plain text. */
  lemma {:induction false} HexDigitsPlain(v: nat, n: nat)
    ensures Plain(HexDigits(v, n))
  {
    if n > 0 {
      HexDigitsPlain(v / 16, n - 1);
    }
  }

  /** Decimal digits are plain text. */
  lemma {:induction false} DigitsPlain(n: nat)
    ensures Plain(Digits(n))
  {
    if n >= 10 {
      DigitsPlain(n / 10);
    }
  }

  /** Both kinds of line label are plain text. */
  lemma LabelsPlain(off: nat, line: nat)
    ensures Plain(AddressLabel(off)) && Plain(LineLabel(line))
  {
    HexDigitsPlain(off % 0x1_0000_0000, 8);
    DigitsPlain(line);
  }

  /** Every glyph putChar writes is plain text. */
  lemma GlyphPlain(st: Style, c: byte, pos: nat)
    requires StyleOk(st)
    ensures Plain(Glyph(st, c, pos))
  {
    if c < 128 && !(33 <= c <= 126) && !(c == 32 && !st.showSpace) &&
       !(c == 10 && !st.showLfAndTab) && !(c == 9 && !st.showLfAndTab) &&
       st.unprint == NUL && !st.controlHex {
      LabelWidth(st, c);
    }
  }

  /** putSpace (tdiffoutput.cc:361-364): num blanks. */
  method PutSpace(num: nat) returns (s: seq<char>)
    ensures s == Spaces(num)
  {
    s := [];
    var n := num;
    while n > 0
      invariant 0 <= n <= num && s == Spaces(num - n)
    {
      assert Spaces(num - n) + [' '] == Spaces(num - n + 1);
      s := s + [' '];
      n := n - 1;
    }
  }
}
