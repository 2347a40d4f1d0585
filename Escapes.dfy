// C escape sequences of TString (tstring.cc): expandUnprintable writes the
// escapes of section 6.4.4.4 of ISO/IEC 9899:1999 that the library knows,
// compileCString reads them back, backslashify escapes quotes and
// backslashes.  The central property is the round trip
// Compile(Expand(s)) == s for every byte string.
module Escapes {
  import opened Chars
  import opened TStrings

  /** LONG_MAX of an LP64 platform: where strtol saturates. */
  const LONG_MAX: int := 0x7fff_ffff_ffff_ffff

  /** LONG_MIN of an LP64 platform. */
  const LONG_MIN: int := -0x8000_0000_0000_0000

  /** The control bytes written as \b, \f and \v. */
  const BS: char := 8 as char
  const FF: char := 12 as char
  const VT: char := 11 as char

  // ------------------------------------------------------------------
  // Digits
  // ------------------------------------------------------------------

  /** The octal digit of value d. */
  function OctDigit(d: int): (c: char)
    requires 0 <= d < 8
    ensures IsODigit(c) && IsDigit(c) && c as int - '0' as int == d
  {
    ('0' as int + d) as char
  }

  /** The lower-case hexadecimal digit of value d, as "%x" prints it. */
  function HexDigitLower(d: int): (c: char)
    requires 0 <= d < 16
    ensures IsXDigit(c) && HexValue(c) == d
  {
    "0123456789abcdef"[d]
  }

  /** "%03o" of a value below 512. */
  function Oct3(i: int): (r: seq<char>)
    requires 0 <= i < 512
    ensures |r| == 3
  {
    [OctDigit(i / 64), OctDigit(i / 8 % 8), OctDigit(i % 8)]
  }

  /** The value of an octal digit. */
  function OctValue(c: char): (v: nat)
    requires IsODigit(c)
    ensures v < 8
  {
    c as int - '0' as int
  }

  /** The value of a run of octal digits, most significant first. */
  function OctVal(ds: seq<char>): nat
    requires forall k :: 0 <= k < |ds| ==> IsODigit(ds[k])
  {
    if |ds| == 0 then 0
    else OctVal(ds[..|ds| - 1]) * 8 + OctValue(ds[|ds| - 1])
  }

  /** The value of a run of hexadecimal digits, most significant first. */
  function HexVal(ds: seq<char>): nat
    requires forall k :: 0 <= k < |ds| ==> IsXDigit(ds[k])
  {
    if |ds| == 0 then 0
    else HexVal(ds[..|ds| - 1]) * 16 + HexValue(ds[|ds| - 1])
  }

  /** The number of leading octal digits of s, at most max. */
  function OctRun(s: seq<char>, max: nat): (n: nat)
    ensures n <= max && n <= |s|
    ensures forall k :: 0 <= k < n ==> IsODigit(s[k])
    ensures n < max ==> n == |s| || !IsODigit(s[n])
  {
    if max == 0 || |s| == 0 || !IsODigit(s[0]) then 0
    else 1 + OctRun(s[1..], max - 1)
  }

  /** The number of leading hexadecimal digits of s: what strtol(.., 16) consumes. */
  function HexRun(s: seq<char>): (n: nat)
    ensures n <= |s| && (n == |s| || !IsXDigit(s[n]))
    ensures forall k :: 0 <= k < n ==> IsXDigit(s[k])
  {
    if |s| == 0 || !IsXDigit(s[0]) then 0
    else 1 + HexRun(s[1..])
  }

  // ------------------------------------------------------------------
  // expandUnprintable
  // ------------------------------------------------------------------

  /**
   * The text expandUnprintable writes for byte c when next follows it (NUL
   * at the end): printable bytes as themselves with the backslash doubled,
   * the control bytes with a letter escape by that letter, other bytes below
   * 32 in octal (three digits when a digit follows, else as few as needed),
   * and bytes from 127 up in three octal digits when a hexadecimal digit
   * follows, else as \x and two hexadecimal digits.
   */
  function ExpandByte(c: char, next: char): (r: seq<char>)
    requires IsByte(c)
    ensures 1 <= |r| <= 4
  {
    if IsPrint(c) then (if c == '\\' then "\\\\" else [c])
    else if EscapeLetter(c) != NUL then ['\\', EscapeLetter(c)]
    else NumericEscape(c, next)
  }

  /** The letter of the one-letter escape of c, or NUL when c has none. */
  function EscapeLetter(c: char): (r: char)
    ensures r != NUL ==> r != 'x' && !IsODigit(r) && Unescape(r) == c
  {
    if c == BS then 'b'
    else if c == FF then 'f'
    else if c == '\n' then 'n'
    else if c == '\r' then 'r'
    else if c == '\t' then 't'
    else if c == VT then 'v'
    else NUL
  }

  /** The octal or hexadecimal escape of an unprintable byte without a letter escape. */
  function NumericEscape(c: char, next: char): (r: seq<char>)
    requires IsByte(c)
    ensures 2 <= |r| <= 4 && r[0] == '\\'
  {
    var i := c as int;
    if i < 32 then
      if IsDigit(next) then "\\" + Oct3(i)
      else if i >= 8 then ['\\', OctDigit(i / 8), OctDigit(i % 8)]
      else ['\\', OctDigit(i)]
    else if IsXDigit(next) then "\\" + Oct3(i)
    else ['\\', 'x', HexDigitLower(i / 16), HexDigitLower(i % 16)]
  }

  /** The result of expandUnprintable: at most four output bytes per input byte. */
  function Expand(s: seq<char>): (r: seq<char>)
    requires Bytes(s)
    ensures |s| <= |r| <= 4 * |s|
  {
    if |s| == 0 then []
    else ExpandByte(s[0], CharAt(s, 1)) + Expand(s[1..])
  }

  /** expandUnprintable: the escapes of each byte appended to a new buffer. */
  method ExpandUnprintable(s: seq<char>) returns (r: seq<char>)
    requires Bytes(s)
    ensures r == Expand(s)
  {
    r := [];
    var j := 0;
    while j < |s|
      invariant 0 <= j <= |s|
      invariant r + Expand(s[j..]) == Expand(s)
    {
      assert CharAt(s[j..], 1) == CharAt(s, j + 1);
      assert s[j..][1..] == s[j + 1..];
      r := r + ExpandByte(s[j], CharAt(s, j + 1));
      j := j + 1;
    }
  }

  /** The first byte of an expansion: the byte itself when printable, else a backslash. */
  lemma ExpandHead(t: seq<char>)
    requires Bytes(t) && |t| > 0
    ensures |Expand(t)| > 0
    ensures Expand(t)[0] == if IsPrint(t[0]) then t[0] else '\\'
  {
  }

  // ------------------------------------------------------------------
  // compileCString
  // ------------------------------------------------------------------

  /** The byte a one-letter escape stands for; any other letter stands for itself. */
  function Unescape(c: char): char
  {
    if c == 'b' then BS
    else if c == 'f' then FF
    else if c == 'n' then '\n'
    else if c == 'r' then '\r'
    else if c == 't' then '\t'
    else if c == 'v' then VT
    else c
  }

  /**
   * The long strtol returns for the hexadecimal digits ds after an optional
   * minus: the value, negated after a minus, saturated at LONG_MAX or LONG_MIN.
   */
  function HexLong(neg: bool, ds: seq<char>): (v: int)
    requires forall k :: 0 <= k < |ds| ==> IsXDigit(ds[k])
    ensures LONG_MIN <= v <= LONG_MAX
    ensures v == 0 <==> HexVal(ds) == 0
    ensures neg ==> v <= 0 && (v == 0 - HexVal(ds) || v == LONG_MIN > 0 - HexVal(ds))
    ensures !neg ==> v >= 0 && (v == HexVal(ds) || v == LONG_MAX < HexVal(ds))
  {
    var n: int := HexVal(ds);
    if neg then (if n > -LONG_MIN then LONG_MIN else -n)
    else if n > LONG_MAX then LONG_MAX else n
  }

  /** The length of the sign strtol reads at the head of t. */
  function SignLen(t: seq<char>): (n: nat)
    ensures n <= |t| && (n == 1 <==> |t| > 0 && (t[0] == '+' || t[0] == '-'))
  {
    if |t| > 0 && (t[0] == '+' || t[0] == '-') then 1 else 0
  }

  /**
   * The length of the "0x" or "0X" prefix strtol with base 16 passes over at
   * the head of t.  When no digit follows the prefix, strtol reads the 0 as
   * the number and stops at the x, which a prefix of length 0 gives as well.
   */
  function PrefixLen(t: seq<char>): (n: nat)
    ensures n <= |t| && (n == 2 <==> |t| > 2 && t[0] == '0' && (t[1] == 'x' || t[1] == 'X') && IsXDigit(t[2]))
  {
    if |t| > 2 && t[0] == '0' && (t[1] == 'x' || t[1] == 'X') && IsXDigit(t[2]) then 2 else 0
  }

  /** What strtol(p, &q, 16) does: it reads q - p bytes and returns value. */
  datatype Conversion = Conversion(used: nat, value: int)

  /** A conversion moved k bytes further on; reading nothing stays reading nothing. */
  function After(k: nat, r: Conversion): (r': Conversion)
    ensures r'.value == r.value && (r'.used == 0 <==> r.used == 0)
    ensures r.used > 0 ==> r'.used == k + r.used
  {
    if r.used == 0 then r else Conversion(k + r.used, r.value)
  }

  /**
   * strtol(t, &q, 16): blanks, then a signed number.  Without a digit
   * nothing is read and the value is 0; otherwise the reading stops after the
   * last digit.
   */
  function StrtolHex(t: seq<char>): (r: Conversion)
    ensures r.used <= |t| && LONG_MIN <= r.value <= LONG_MAX
    ensures r.used == 0 ==> r.value == 0
  {
    if |t| > 0 && IsSpace(t[0]) then After(1, StrtolHex(t[1..]))
    else Signed(t)
  }

  /** The signed number strtol reads after the blanks: an optional sign, then the digits. */
  function Signed(u: seq<char>): (r: Conversion)
    ensures r.used <= |u| && LONG_MIN <= r.value <= LONG_MAX
    ensures r.used == 0 ==> r.value == 0
  {
    var b := SignLen(u);
    var r := Unsigned(|u| > 0 && u[0] == '-', u[b..]);
    After(b, r)
  }

  /** The digits strtol reads after the sign: an optional 0x prefix, then the run. */
  function Unsigned(neg: bool, v: seq<char>): (r: Conversion)
    ensures r.used <= |v| && LONG_MIN <= r.value <= LONG_MAX
    ensures r.used == 0 ==> r.value == 0
  {
    var d := PrefixLen(v);
    var n := HexRun(v[d..]);
    if n == 0 then Conversion(0, 0)
    else Conversion(d + n, HexLong(neg, v[d..d + n]))
  }

  /** The result of compileCString: plain bytes as they are, escapes compiled. */
  function Compile(s: seq<char>): (r: seq<char>)
    ensures |r| <= |s|
    decreases |s|, 1
  {
    if |s| == 0 then []
    else if s[0] != '\\' then [s[0]] + Compile(s[1..])
    else CompileEscape(s[1..])
  }

  /**
   * What compileCString makes of the text e after a backslash: nothing when
   * the backslash was the last byte; \x takes what strtol with base 16
   * reads (nothing gives NUL); an octal escape takes up to three digits; the
   * value is cut to a byte; any other byte goes through Unescape.
   */
  function CompileEscape(e: seq<char>): (r: seq<char>)
    ensures |r| <= |e|
    decreases |e|, 0
  {
    if |e| == 0 then []
    else if e[0] == 'x' then
      var v := StrtolHex(e[1..]);
      [ByteOf(v.value)] + Compile(e[1 + v.used..])
    else if IsODigit(e[0]) then
      var n := OctRun(e[1..], 2);
      [ByteOf(OctVal(e[..1 + n]))] + Compile(e[1 + n..])
    else [Unescape(e[0])] + Compile(e[1..])
  }

  /** The state of compileCString: read index i, write index l, and what is still to come. */
  predicate Compiling(s: seq<char>, i: nat, t: seq<char>, l: nat)
  {
    l <= i <= |s| && |t| == |s| && t[i..] == s[i..] &&
    Compile(s) == t[..l] + Compile(s[i..])
  }

  /** The switch of compileCString: read one byte or one escape from u. */
  method ReadToken(u: seq<char>) returns (c: char, k: nat)
    requires |u| > 0 && u != ['\\']
    ensures 0 < k <= |u| && Compile(u) == [c] + Compile(u[k..])
  {
    c := u[0];
    k := 1;
    if c == '\\' {
      var e := u[1..];
      assert Compile(u) == CompileEscape(e);
      c := e[0];
      k := 2;
      if c == 'x' {
        var v := StrtolHex(e[1..]);
        c := ByteOf(v.value);
        k := 2 + v.used;
      } else if IsODigit(c) {
        var n := OctRun(e[1..], 2);
        c := ByteOf(OctVal(e[..1 + n]));
        k := 2 + n;
      } else {
        c := Unescape(c);
      }
      assert e[k - 1..] == u[k..];
    }
  }

  /** Writing the byte of a token at l keeps the state of compileCString. */
  lemma WriteKeeps(s: seq<char>, i: nat, t: seq<char>, l: nat, c: char, k: nat)
    requires Compiling(s, i, t, l) && i + k <= |s| && 0 < k
    requires Compile(s[i..]) == [c] + Compile(s[i + k..])
    ensures Compiling(s, i + k, t[l := c], l + 1)
  {
    var w := t[l := c];
    WriteBefore(t, l, c, i + k);
    SuffixOfEqual(t, s, i, k);
    var a, rest := t[..l], Compile(s[i + k..]);
    assert Compile(s) == a + ([c] + rest);
    assert a + ([c] + rest) == (a + [c]) + rest;
  }

  /** Storing at l extends the prefix before l and leaves everything from j > l alone. */
  lemma WriteBefore(t: seq<char>, l: nat, c: char, j: nat)
    requires l < j <= |t|
    ensures t[l := c][..l + 1] == t[..l] + [c] && t[l := c][j..] == t[j..]
  {
  }

  /** Equal suffixes from i stay equal from i + k. */
  lemma SuffixOfEqual(t: seq<char>, s: seq<char>, i: nat, k: nat)
    requires i + k <= |s| == |t| && t[i..] == s[i..]
    ensures t[i + k..] == s[i + k..]
  {
    assert t[i + k..] == t[i..][k..];
    assert s[i + k..] == s[i..][k..];
  }

  /** The token read at i is the next byte compileCString owes. */
  lemma TokenAt(s: seq<char>, i: nat, u: seq<char>, c: char, k: nat)
    requires i < |s| && u == s[i..] && 0 < k <= |u| && Compile(u) == [c] + Compile(u[k..])
    ensures Compile(s[i..]) == [c] + Compile(s[i + k..])
  {
    assert u[k..] == s[i + k..];
  }

  /** A lone trailing backslash ends compileCString without writing. */
  lemma TrailingBackslash(s: seq<char>, i: nat, t: seq<char>, l: nat)
    requires i < |s| && Compiling(s, i, t, l) && s[i..] == ['\\']
    ensures Compiling(s, |s|, t, l)
  {
    assert Compile(s[i..]) == CompileEscape([]) == [];
    assert s[|s|..] == [];
  }

  /** One iteration of compileCString: read one token, write one byte. */
  method CompileStep(s: seq<char>, i: nat, t: seq<char>, l: nat)
    returns (i': nat, t': seq<char>, l': nat)
    requires i < |s| && Compiling(s, i, t, l)
    ensures Compiling(s, i', t', l') && i < i'
  {
    var u := t[i..];
    if u == ['\\'] {
      TrailingBackslash(s, i, t, l);
      return |s|, t, l;
    }
    var c, k := ReadToken(u);
    TokenAt(s, i, u, c, k);
    WriteKeeps(s, i, t, l, c, k);
    i', t', l' := i + k, t[l := c], l + 1;
  }

  /** compileCString: rewrite in place, reading at i and writing at l <= i. */
  method CompileCString(s: seq<char>) returns (r: seq<char>)
    ensures r == Compile(s)
  {
    var t := s;
    var l: nat := 0;
    var i: nat := 0;
    while i < |s|
      invariant Compiling(s, i, t, l)
      decreases |s| - i
    {
      i, t, l := CompileStep(s, i, t, l);
    }
    r := t[..l];
  }

  // ------------------------------------------------------------------
  // The round trip
  // ------------------------------------------------------------------

  /** An ordinary byte compiles to itself. */
  lemma CompilePlain(c: char, rest: seq<char>)
    requires c != '\\'
    ensures Compile([c] + rest) == [c] + Compile(rest)
  {
    assert ([c] + rest)[1..] == rest;
  }

  /** A backslash and a byte that starts no numeric escape compile to one byte. */
  lemma CompileLetter(c: char, rest: seq<char>)
    requires c != 'x' && !IsODigit(c)
    ensures Compile(['\\', c] + rest) == [Unescape(c)] + Compile(rest)
  {
    assert (['\\', c] + rest)[1..] == [c] + rest;
    assert Compile(['\\', c] + rest) == CompileEscape([c] + rest);
    assert ([c] + rest)[1..] == rest;
  }

  /** An octal escape ends after three digits or before a non-digit. */
  lemma CompileOctal(ds: seq<char>, rest: seq<char>)
    requires 1 <= |ds| <= 3 && forall k :: 0 <= k < |ds| ==> IsODigit(ds[k])
    requires |ds| < 3 && rest != [] ==> !IsODigit(rest[0])
    ensures Compile(['\\'] + ds + rest) == [ByteOf(OctVal(ds))] + Compile(rest)
  {
    var s := ['\\'] + ds + rest;
    var e := ds + rest;
    assert s[1..] == e;
    assert Compile(s) == CompileEscape(e);
    assert e[1..] == ds[1..] + rest;
    OctRunIs(e[1..], |ds| - 1, 2);
    assert e[..|ds|] == ds && e[|ds|..] == rest;
  }

  /** After a backslash, x hands the text after it to strtol. */
  lemma CompileX(t: seq<char>)
    ensures Compile(['\\', 'x'] + t) == [ByteOf(StrtolHex(t).value)] + Compile(t[StrtolHex(t).used..])
  {
    CompileBackslash(['x'] + t);
    assert ['\\', 'x'] + t == ['\\'] + (['x'] + t);
    assert (['x'] + t)[1..] == t;
  }

  /** Blanks before u are skipped. */
  lemma {:induction false} StrtolSpaces(ws: seq<char>, u: seq<char>)
    requires forall k :: 0 <= k < |ws| ==> IsSpace(ws[k])
    requires u == [] || !IsSpace(u[0])
    ensures StrtolHex(ws + u) == After(|ws|, Signed(u))
  {
    if ws == [] {
      assert ws + u == u;
    } else {
      var t := ws + u;
      assert t[0] == ws[0] && t[1..] == ws[1..] + u;
      StrtolSpaces(ws[1..], u);
      assert StrtolHex(t) == After(1, StrtolHex(ws[1..] + u));
    }
  }

  /** A sign before v is read, and a minus negates. */
  lemma SignedSign(sign: seq<char>, v: seq<char>)
    requires sign == [] || sign == ['+'] || sign == ['-']
    requires sign == [] && v != [] ==> v[0] != '+' && v[0] != '-'
    ensures Signed(sign + v) == After(|sign|, Unsigned(sign == ['-'], v))
  {
    assert (sign + v)[|sign|..] == v;
  }

  /**
   * After the prefix pre, the digits ds are read up to the first byte of
   * rest that is no hexadecimal digit.  A lone 0 before an x and a digit is
   * not such a run: strtol reads it as the prefix.
   */
  lemma UnsignedDigits(neg: bool, pre: seq<char>, ds: seq<char>, rest: seq<char>)
    requires pre == [] || pre == ['0', 'x'] || pre == ['0', 'X']
    requires |ds| > 0 && forall k :: 0 <= k < |ds| ==> IsXDigit(ds[k])
    requires rest != [] ==> !IsXDigit(rest[0])
    requires pre == [] && ds == ['0'] && |rest| > 1 && (rest[0] == 'x' || rest[0] == 'X') ==> !IsXDigit(rest[1])
    ensures Unsigned(neg, pre + (ds + rest)) == Conversion(|pre| + |ds|, HexLong(neg, ds))
  {
    var v := pre + (ds + rest);
    PrefixIs(pre, ds, rest);
    assert v[|pre|..] == ds + rest;
    HexRunIs(ds + rest, |ds|);
    assert v[|pre|..|pre| + |ds|] == ds;
  }

  /** The prefix strtol passes over is pre: a lone 0 before x and a digit does not occur. */
  lemma PrefixIs(pre: seq<char>, ds: seq<char>, rest: seq<char>)
    requires pre == [] || pre == ['0', 'x'] || pre == ['0', 'X']
    requires |ds| > 0 && forall k :: 0 <= k < |ds| ==> IsXDigit(ds[k])
    requires rest != [] ==> !IsXDigit(rest[0])
    requires pre == [] && ds == ['0'] && |rest| > 1 && (rest[0] == 'x' || rest[0] == 'X') ==> !IsXDigit(rest[1])
    ensures PrefixLen(pre + (ds + rest)) == |pre|
  {
    var v := pre + (ds + rest);
    if pre == [] {
      assert v == ds + rest;
      if |ds| == 1 {
        assert v == [ds[0]] + rest;
      } else {
        assert v[1] == ds[1];
      }
    } else {
      assert v[..2] == pre && v[2] == ds[0];
    }
  }

  /** strtol reads the blanks ws, the sign, the prefix pre and the digits ds before rest. */
  lemma StrtolDigits(ws: seq<char>, sign: seq<char>, pre: seq<char>, ds: seq<char>, rest: seq<char>)
    requires forall k :: 0 <= k < |ws| ==> IsSpace(ws[k])
    requires sign == [] || sign == ['+'] || sign == ['-']
    requires pre == [] || pre == ['0', 'x'] || pre == ['0', 'X']
    requires |ds| > 0 && forall k :: 0 <= k < |ds| ==> IsXDigit(ds[k])
    requires rest != [] ==> !IsXDigit(rest[0])
    requires pre == [] && ds == ['0'] && |rest| > 1 && (rest[0] == 'x' || rest[0] == 'X') ==> !IsXDigit(rest[1])
    ensures StrtolHex(ws + (sign + (pre + (ds + rest))))
         == Conversion(|ws| + |sign| + |pre| + |ds|, HexLong(sign == ['-'], ds))
  {
    var neg, v := sign == ['-'], pre + (ds + rest);
    var n := |pre| + |ds|;
    UnsignedDigits(neg, pre, ds, rest);
    assert v[0] == if pre == [] then ds[0] else '0';
    SignedSign(sign, v);
    var u := sign + v;
    assert Signed(u) == Conversion(|sign| + n, HexLong(neg, ds));
    assert u[0] == if sign == [] then v[0] else sign[0];
    assert !IsSpace(u[0]);
    StrtolSpaces(ws, u);
  }

  /** \x takes what strtol reads: the blanks, sign, prefix and digits before rest. */
  lemma CompileStrtol(ws: seq<char>, sign: seq<char>, pre: seq<char>, ds: seq<char>, rest: seq<char>)
    requires forall k :: 0 <= k < |ws| ==> IsSpace(ws[k])
    requires sign == [] || sign == ['+'] || sign == ['-']
    requires pre == [] || pre == ['0', 'x'] || pre == ['0', 'X']
    requires |ds| > 0 && forall k :: 0 <= k < |ds| ==> IsXDigit(ds[k])
    requires rest != [] ==> !IsXDigit(rest[0])
    requires pre == [] && ds == ['0'] && |rest| > 1 && (rest[0] == 'x' || rest[0] == 'X') ==> !IsXDigit(rest[1])
    ensures Compile(['\\', 'x'] + (ws + (sign + (pre + (ds + rest))))) == [ByteOf(HexLong(sign == ['-'], ds))] + Compile(rest)
  {
    var t := ws + (sign + (pre + (ds + rest)));
    StrtolDigits(ws, sign, pre, ds, rest);
    CompileX(t);
    DropFour(ws, sign, pre, ds, rest);
  }

  /** Dropping four leading parts leaves the fifth. */
  lemma DropFour<T>(a: seq<T>, b: seq<T>, c: seq<T>, d: seq<T>, e: seq<T>)
    ensures (a + (b + (c + (d + e))))[|a| + |b| + |c| + |d|..] == e
  {
    assert (a + (b + (c + (d + e))))[|a|..] == b + (c + (d + e));
    assert (b + (c + (d + e)))[|b|..] == c + (d + e);
    assert (c + (d + e))[|c|..] == d + e;
    assert (d + e)[|d|..] == e;
  }

  /**
   * \x that no hexadecimal digit follows after strtol's blanks ws and sign
   * writes NUL and reads nothing more.
   */
  lemma CompileNoDigits(ws: seq<char>, sign: seq<char>, rest: seq<char>)
    requires forall k :: 0 <= k < |ws| ==> IsSpace(ws[k])
    requires sign == [] || sign == ['+'] || sign == ['-']
    requires rest != [] ==> !IsXDigit(rest[0]) && !IsSpace(rest[0])
    requires sign == [] && rest != [] ==> rest[0] != '+' && rest[0] != '-'
    ensures Compile(['\\', 'x'] + (ws + (sign + rest))) == [NUL] + Compile(ws + (sign + rest))
  {
    var u := sign + rest;
    assert PrefixLen(rest) == 0 && HexRun(rest) == 0;
    SignedSign(sign, rest);
    assert u == [] || u[0] == if sign == [] then rest[0] else sign[0];
    StrtolSpaces(ws, u);
    CompileX(ws + u);
  }

  /** \x before a run of hexadecimal digits takes the whole run. */
  lemma CompileHex(ds: seq<char>, rest: seq<char>)
    requires |ds| > 0 && forall k :: 0 <= k < |ds| ==> IsXDigit(ds[k])
    requires rest != [] ==> !IsXDigit(rest[0])
    requires ds == ['0'] && |rest| > 1 && (rest[0] == 'x' || rest[0] == 'X') ==> !IsXDigit(rest[1])
    ensures Compile(['\\', 'x'] + (ds + rest)) == [ByteOf(HexLong(false, ds))] + Compile(rest)
  {
    UnsignedDigits(false, [], ds, rest);
    assert [] + (ds + rest) == ds + rest;
    SignedSign([], ds + rest);
    StrtolSpaces([], ds + rest);
    assert [] + (ds + rest) == ds + rest;
    CompileX(ds + rest);
    assert (ds + rest)[|ds|..] == rest;
  }

  /** A backslash hands the rest of the text to the escape switch. */
  lemma CompileBackslash(e: seq<char>)
    ensures Compile(['\\'] + e) == CompileEscape(e)
  {
    assert (['\\'] + e)[1..] == e;
  }

  /** The octal run is the digits before the first non-digit or the bound. */
  lemma OctRunIs(t: seq<char>, m: nat, max: nat)
    requires m <= max && m <= |t| && forall k :: 0 <= k < m ==> IsODigit(t[k])
    requires m < max ==> m == |t| || !IsODigit(t[m])
    ensures OctRun(t, max) == m
  {
    if m > 0 {
      OctRunIs(t[1..], m - 1, max - 1);
    }
  }

  /** The hexadecimal run is the digits before the first non-digit. */
  lemma HexRunIs(t: seq<char>, m: nat)
    requires m <= |t| && forall k :: 0 <= k < m ==> IsXDigit(t[k])
    requires m == |t| || !IsXDigit(t[m])
    ensures HexRun(t) == m
  {
    if m > 0 {
      HexRunIs(t[1..], m - 1);
    }
  }

  /** "%03o" reads back as its value. */
  lemma Oct3Value(i: int)
    requires 0 <= i < 256
    ensures OctVal(Oct3(i)) == i
  {
    var a, b, c := OctDigit(i / 64), OctDigit(i / 8 % 8), OctDigit(i % 8);
    assert OctVal([a]) == i / 64 by {
      assert [a][..0] == [];
    }
    assert OctVal([a, b]) == i / 64 * 8 + i / 8 % 8 by {
      assert [a, b][..1] == [a];
    }
    assert OctVal([a, b, c]) == OctVal([a, b]) * 8 + i % 8 by {
      assert [a, b, c][..2] == [a, b];
    }
    var j := i / 8;
    assert i / 64 == j / 8;
    assert j / 8 * 8 + j % 8 == j;
  }

  /** Two octal digits read back as their value. */
  lemma Oct2Value(i: int)
    requires 0 <= i < 64
    ensures OctVal([OctDigit(i / 8), OctDigit(i % 8)]) == i
  {
    var a, b := OctDigit(i / 8), OctDigit(i % 8);
    assert OctVal([a]) == i / 8 by {
      assert [a][..0] == [];
    }
    assert [a, b][..1] == [a];
  }

  /** One octal digit reads back as its value. */
  lemma Oct1Value(i: int)
    requires 0 <= i < 8
    ensures OctVal([OctDigit(i)]) == i
  {
    assert [OctDigit(i)][..0] == [];
  }

  /** "%02x" reads back as its value. */
  lemma Hex2Value(i: int)
    requires 0 <= i < 256
    ensures HexVal([HexDigitLower(i / 16), HexDigitLower(i % 16)]) == i
  {
    var a, b := HexDigitLower(i / 16), HexDigitLower(i % 16);
    assert HexVal([a]) == i / 16 by {
      assert [a][..0] == [];
    }
    assert [a, b][..1] == [a];
  }

  /** The octal escape of a control byte reads back as that byte. */
  lemma LowEscapeCompiles(c: char, next: char, rest: seq<char>)
    requires IsByte(c) && c as int < 32
    requires rest != [] && IsDigit(rest[0]) ==> IsDigit(next)
    ensures Compile(NumericEscape(c, next) + rest) == [c] + Compile(rest)
  {
    var i := c as int;
    var ds: seq<char>;
    if IsDigit(next) {
      ds := Oct3(i);
      Oct3Value(i);
    } else if i >= 8 {
      ds := [OctDigit(i / 8), OctDigit(i % 8)];
      Oct2Value(i);
    } else {
      ds := [OctDigit(i)];
      Oct1Value(i);
    }
    assert NumericEscape(c, next) == ['\\'] + ds;
    CompileOctal(ds, rest);
    ByteOfCode(c);
  }

  /** The octal or hexadecimal escape of a byte from 32 up reads back as that byte. */
  lemma HighEscapeCompiles(c: char, next: char, rest: seq<char>)
    requires IsByte(c) && c as int >= 32
    requires rest != [] && IsXDigit(rest[0]) ==> IsXDigit(next)
    ensures Compile(NumericEscape(c, next) + rest) == [c] + Compile(rest)
  {
    var i := c as int;
    if IsXDigit(next) {
      Oct3Value(i);
      assert NumericEscape(c, next) == ['\\'] + Oct3(i);
      CompileOctal(Oct3(i), rest);
      ByteOfCode(c);
    } else {
      HexEscapeCompiles(c, rest);
    }
  }

  /** The \x escape of a byte reads back as that byte before a non-hexadecimal byte. */
  lemma HexEscapeCompiles(c: char, rest: seq<char>)
    requires IsByte(c)
    requires rest != [] ==> !IsXDigit(rest[0])
    ensures Compile(['\\', 'x', HexDigitLower(c as int / 16), HexDigitLower(c as int % 16)] + rest)
         == [c] + Compile(rest)
  {
    var i := c as int;
    var ds := [HexDigitLower(i / 16), HexDigitLower(i % 16)];
    Hex2Value(i);
    assert ['\\', 'x', ds[0], ds[1]] + rest == ['\\', 'x'] + (ds + rest);
    CompileHex(ds, rest);
    assert HexLong(false, ds) == i;
    ByteOfCode(c);
  }

  /**
   * The escape of one byte reads back as that byte, provided the text after
   * it starts with a digit (or hexadecimal digit) only when next does.
   */
  lemma ExpandByteCompiles(c: char, next: char, rest: seq<char>)
    requires IsByte(c)
    requires rest != [] && IsXDigit(rest[0]) ==> IsXDigit(next)
    requires rest != [] && IsDigit(rest[0]) ==> IsDigit(next)
    ensures Compile(ExpandByte(c, next) + rest) == [c] + Compile(rest)
  {
    if IsPrint(c) {
      if c == '\\' {
        CompileLetter('\\', rest);
      } else {
        CompilePlain(c, rest);
      }
    } else if EscapeLetter(c) != NUL {
      CompileLetter(EscapeLetter(c), rest);
    } else if c as int < 32 {
      LowEscapeCompiles(c, next, rest);
    } else {
      HighEscapeCompiles(c, next, rest);
    }
  }

  /** compileCString undoes expandUnprintable on every byte string. */
  lemma {:induction false} CompileExpand(s: seq<char>)
    requires Bytes(s)
    ensures Compile(Expand(s)) == s
  {
    if |s| > 0 {
      var rest := Expand(s[1..]);
      if |s| > 1 {
        ExpandHead(s[1..]);
      }
      ExpandByteCompiles(s[0], CharAt(s, 1), rest);
      CompileExpand(s[1..]);
      assert s == [s[0]] + s[1..];
    }
  }

  // ------------------------------------------------------------------
  // backslashify
  // ------------------------------------------------------------------

  /** What backslashify writes for one byte: backslash and quotes escaped. */
  function BackslashByte(c: char): (r: seq<char>)
    ensures 1 <= |r| <= 2
  {
    if c == '\\' || c == '\'' || c == '\"' then ['\\', c] else [c]
  }

  /** The result of backslashify: at most two output bytes per input byte. */
  function Backslashed(s: seq<char>): (r: seq<char>)
    ensures |s| <= |r| <= 2 * |s|
  {
    if |s| == 0 then [] else BackslashByte(s[0]) + Backslashed(s[1..])
  }

  /** backslashify: the escapes of each byte appended to a new buffer. */
  method Backslashify(s: seq<char>) returns (r: seq<char>)
    ensures r == Backslashed(s)
  {
    r := [];
    var i := 0;
    while i < |s|
      invariant 0 <= i <= |s|
      invariant r + Backslashed(s[i..]) == Backslashed(s)
    {
      assert s[i..][1..] == s[i + 1..];
      r := r + BackslashByte(s[i]);
      i := i + 1;
    }
  }

  /** compileCString undoes backslashify. */
  lemma {:induction false} CompileBackslashed(s: seq<char>)
    ensures Compile(Backslashed(s)) == s
  {
    if |s| > 0 {
      var rest := Backslashed(s[1..]);
      if s[0] == '\\' || s[0] == '\'' || s[0] == '\"' {
        CompileLetter(s[0], rest);
      } else {
        CompilePlain(s[0], rest);
      }
      CompileBackslashed(s[1..]);
      assert s == [s[0]] + s[1..];
    }
  }
}
