// One option of the option framework (TAppConfigItem, tappconfig.cc): the
// components a configuration line sets, the checks validate makes, and how
// setValue and setValueFromApp change the current value.  strtol, which
// toInt uses, is outside the model: the conversion is a parameter toInt.
module AppItems {
  import opened Outcomes
  import opened Chars
  import opened TStrings
  import opened MinMax
  import Words
  import Unquote

  const INT_MIN: int := -0x8000_0000
  const INT_MAX: int := 0x7fff_ffff

  /** TACO_TYPE without TACO_TYPE_NONE, which no validated option has. */
  datatype Kind = String | Int | Double | Bool | Switch

  /** TACO_STRING_MODE. */
  datatype StringMode = Override | Append | Once

  /** TACO_SET_IN: where the current value of an option came from. */
  datatype Source = Never | Default | CommandLine | RcFile | Environment | Application

  /** The enumerator value of a TACO_SET_IN, in declaration order. */
  function Ordinal(s: Source): (n: nat)
    ensures n < 6
    ensures n == 0 <==> s == Never
    ensures n == 2 <==> s == CommandLine
  {
    match s
    case Never => 0
    case Default => 1
    case CommandLine => 2
    case RcFile => 3
    case Environment => 4
    case Application => 5
  }

  /** The components of a configuration line, as setComp collects them for validate. */
  datatype Draft = Draft(
    name: seq<char>, help: seq<char>, headline: seq<char>, par: seq<char>,
    charName: seq<char>, alias: seq<seq<char>>, typeStr: seq<char>,
    def: seq<char>, upper: seq<char>, lower: seq<char>,
    mustHave: bool, shouldHave: bool, mode: StringMode, sep: seq<char>,
    configOpt: bool, save: bool, optionalParam: bool, hide: bool,
    onlyCl: bool, onlyApp: bool)

  /** What the item constructor starts from. */
  const Blank: Draft := Draft([], [], [], [], [], [], [], [], [], [],
    false, false, Override, [], false, false, false, false, false, false)

  /** A validated option: its components, its type, and the limits and defaults validate derived. */
  datatype Desc = Desc(src: Draft, kind: Kind, lower: int, upper: int,
                       intDefault: int, boolDefault: bool)

  /** The current value of an option: set_in, int_value, bool_value and string_value. */
  datatype Value = Value(setIn: Source, intValue: int, boolValue: bool, stringValue: seq<char>)

  /** A TAppConfigItem after validate. */
  datatype Item = Item(d: Desc, v: Value)

  /** consistsOfSpace. */
  predicate AllSpace(s: seq<char>)
  {
    forall i :: 0 <= i < |s| ==> IsSpace(s[i])
  }

  // ------------------------------------------------------------------
  // setComp and the item constructor
  // ------------------------------------------------------------------

  /** The component names setComp accepts; configopt and onlyapp only in the private list. */
  predicate Component(comp: seq<char>, privat: bool)
  {
    comp in {"name", "help", "headline", "param", "char", "alias", "type", "default",
             "upper", "lower", "musthave", "shouldhave", "string-mode-append",
             "string-mode-once", "string-append-separator", "save", "optional_param",
             "hide", "hidden", "onlycl"}
    || (privat && comp in {"configopt", "onlyapp"})
  }

  /**
   * setComp: one "comp" or "comp=param" component, already split at '='.
   * A blank component is skipped; the parameter is unquoted.
   */
  function SetComp(d: Draft, a: seq<seq<char>>, privat: bool): (r: Result<Draft>)
    ensures |a| == 2 ==> (r.Ok? <==> Component(a[0], privat))
    ensures |a| == 1 && !AllSpace(a[0]) ==> (r.Ok? <==> Component(a[0], privat))
    ensures |a| > 2 ==> r == Err(FatalError)
    ensures r.Ok? && |a| == 2 && a[0] == "name" ==> r.value.name == Unquote.UnquoteFixed(a[1], true, true)
    ensures r.Ok? && |a| >= 1 && a[0] != "name" ==> r.value.name == d.name
  {
    if |a| == 1 && AllSpace(a[0]) then Ok(d)
    else if |a| == 0 then Err(IndexOutOfRange)
    else if |a| > 2 then Err(FatalError)
    else
      var comp := a[0];
      var p := if |a| > 1 then Unquote.UnquoteFixed(a[1], true, true) else [];
      if comp == "name" then Ok(d.(name := p))
      else if comp == "help" then Ok(d.(help := p))
      else if comp == "headline" then Ok(d.(headline := p))
      else if comp == "param" then Ok(d.(par := p))
      else if comp == "char" then Ok(d.(charName := p))
      else if comp == "alias" then Ok(d.(alias := Words.SplitOf(p, "; ,", true, true)))
      else if comp == "type" then Ok(d.(typeStr := p))
      else if comp == "default" then Ok(d.(def := p))
      else if comp == "upper" then Ok(d.(upper := p))
      else if comp == "lower" then Ok(d.(lower := p))
      else if comp == "musthave" then Ok(d.(mustHave := true))
      else if comp == "shouldhave" then Ok(d.(shouldHave := true))
      else if comp == "string-mode-append" then Ok(d.(mode := Append))
      else if comp == "string-mode-once" then Ok(d.(mode := Once))
      else if comp == "string-append-separator" then Ok(d.(sep := p))
      else if privat && comp == "configopt" then Ok(d.(configOpt := true))
      else if comp == "save" then Ok(d.(save := true))
      else if comp == "optional_param" then Ok(d.(optionalParam := true))
      else if comp == "hide" then Ok(d.(hide := true))
      else if comp == "hidden" then Ok(d.(hide := true))
      else if comp == "onlycl" then Ok(d.(onlyCl := true))
      else if privat && comp == "onlyapp" then Ok(d.(onlyApp := true))
      else Err(FatalError)
  }

  /** The constructor's loop: setComp on each ','-separated component, split at '='. */
  function ApplyComps(d: Draft, comps: seq<seq<char>>, privat: bool): (r: Result<Draft>)
    decreases |comps|
  {
    if comps == [] then Ok(d)
    else
      match SetComp(d, Words.SplitOf(comps[0], "=", true, true), privat)
      case Err(e) => Err(e)
      case Ok(d') => ApplyComps(d', comps[1..], privat)
  }

  /** The item constructor: the components of the line, then validate. */
  function ItemOf(line: seq<char>, privat: bool, toInt: seq<char> -> Option<int>): (r: Result<Item>)
    ensures r.Ok? ==> WellFormed(r.value)
  {
    match ApplyComps(Blank, Words.SplitOf(line, ",", true, false), privat)
    case Err(e) => Err(e)
    case Ok(d) => Validate(d, toInt)
  }

  // ------------------------------------------------------------------
  // validate
  // ------------------------------------------------------------------

  /** The type names validate knows. */
  function KindOf(t: seq<char>): (r: Option<Kind>)
    ensures r.Some? <==> t in {"bool", "int", "switch", "double", "string"}
    ensures r == Some(Int) <==> t == "int"
    ensures r == Some(Switch) <==> t == "switch"
    ensures r == Some(String) <==> t == "string"
  {
    if t == "bool" then Some(Bool)
    else if t == "int" then Some(Int)
    else if t == "switch" then Some(Switch)
    else if t == "double" then Some(Double)
    else if t == "string" then Some(String)
    else None
  }

  /** isalphaorul. */
  predicate AlphaOrUnderscore(c: char)
  {
    IsAlpha(c) || c == '_'
  }

  /** The current value of an int option lies within its bounds. */
  predicate InRange(d: Desc, v: Value)
  {
    d.kind == Int ==> d.lower <= v.intValue <= d.upper
  }

  /** What validate establishes about an option and its initial value. */
  predicate WellFormed(it: Item)
  {
    var s := it.d.src;
    |s.name| >= 2 && AlphaOrUnderscore(s.name[0]) && |s.charName| <= 1 &&
    [] !in s.alias && !(s.onlyApp && s.onlyCl) && !(s.mustHave && s.shouldHave) &&
    (s.mode != Override || s.sep != [] ==> it.d.kind == String) &&
    (s.sep != [] ==> s.mode == Append) &&
    (it.d.kind == Switch ==> !s.mustHave && !s.shouldHave && s.def == [] && s.upper == [] && s.lower == []) &&
    (it.d.kind == Bool ==> s.upper == [] && s.lower == []) &&
    InRange(it.d, it.v)
  }

  /** validate: the checks on the name, the flags and the type, each a fatal error. */
  function Validate(d: Draft, toInt: seq<char> -> Option<int>): (r: Result<Item>)
    ensures r.Ok? ==> WellFormed(r.value) && r.value.d.src == d && r.value.v.setIn == Default
    ensures r.Ok? ==> KindOf(d.typeStr) == Some(r.value.d.kind)
    ensures |d.name| < 2 || KindOf(d.typeStr).None? || [] in d.alias ==> r.Err?
    ensures d.help == [] && !d.onlyApp && !d.hide ==> r.Err?
  {
    if |d.name| < 2 then Err(FatalError)
    else if !AlphaOrUnderscore(d.name[0]) then Err(FatalError)
    else if |d.charName| > 1 then Err(FatalError)
    else if d.help == [] && !d.onlyApp && !d.hide then Err(FatalError)
    else if [] in d.alias then Err(FatalError)
    else if d.onlyApp && d.onlyCl then Err(FatalError)
    else if d.shouldHave && d.mustHave then Err(FatalError)
    else if d.def != [] && d.mustHave && d.onlyCl then Err(FatalError)
    else
      match KindOf(d.typeStr)
      case None => Err(FatalError)
      case Some(k) =>
        if d.mode != Override && k != String then Err(FatalError)
        else if d.sep != [] && k != String then Err(FatalError)
        else if d.sep != [] && d.mode != Append then Err(FatalError)
        else Typed(d, k, toInt)
  }

  /** The type-specific part of validate: defaults, bounds and the initial value. */
  function Typed(d: Draft, k: Kind, toInt: seq<char> -> Option<int>): (r: Result<Item>)
    ensures r.Ok? ==> r.value.d.src == d && r.value.d.kind == k && r.value.v.setIn == Default
    ensures r.Ok? ==> InRange(r.value.d, r.value.v)
    ensures r.Ok? && k == Switch ==> !d.mustHave && !d.shouldHave && d.def == [] && d.upper == [] && d.lower == []
    ensures r.Ok? && k == Bool ==> d.upper == [] && d.lower == []
  {
    match k
    case Switch =>
      if d.mustHave || d.shouldHave || d.def != [] || d.upper != [] || d.lower != [] then Err(FatalError)
      else Ok(Item(Desc(d, k, 0, 0, 0, false), Value(Default, 0, false, [])))
    case Bool =>
      var b := if d.def == [] then Some(false) else BoolValue(Word(d.def));
      if b.None? || d.upper != [] || d.lower != [] then Err(FatalError)
      else Ok(Item(Desc(d, k, 0, 0, 0, b.value), Value(Default, 0, b.value, [])))
    case Int =>
      var def := if d.def == [] then Some(0) else toInt(d.def);
      var up := if d.upper == [] then Some(INT_MAX) else toInt(d.upper);
      var lo := if d.lower == [] then Some(INT_MIN) else toInt(d.lower);
      if def.None? || up.None? || lo.None? then Err(FatalError)
      else if OutOfRange(def.value, lo.value, up.value) then Err(FatalError)
      else Ok(Item(Desc(d, k, lo.value, up.value, def.value, false), Value(Default, def.value, false, [])))
    case Double =>
      Ok(Item(Desc(d, k, 0, 0, 0, false), Value(Default, 0, false, [])))
    case String =>
      Ok(Item(Desc(d, k, 0, 0, 0, false), Value(Default, 0, false, d.def)))
  }

  /** An int default outside its bounds is refused; inside, it is the initial value. */
  lemma IntDefault(d: Draft, toInt: seq<char> -> Option<int>, def: int, lo: int, up: int)
    requires d.typeStr == "int" && d.mode == Override && d.sep == []
    requires toInt(d.def) == Some(def) && toInt(d.lower) == Some(lo) && toInt(d.upper) == Some(up)
    requires d.def != [] && d.lower != [] && d.upper != []
    ensures Validate(d, toInt).Ok? ==> Validate(d, toInt).value.v.intValue == def
    ensures OutOfRange(def, lo, up) ==> Validate(d, toInt).Err?
  {
  }

  // ------------------------------------------------------------------
  // setValue
  // ------------------------------------------------------------------

  /**
   * The onlycl guard of setValue as written: !setin is a bool, promoted to 0
   * or 1 before it is compared with COMMAND_LINE, which is 2.
   */
  predicate OnlyClRejectsAsWritten(setin: Source)
  {
    (if Ordinal(setin) == 0 then 1 else 0) == Ordinal(CommandLine)
  }

  /** The guard as written never fires, so an rc file could set an onlycl option through setValue. */
  lemma OnlyClGuardNeverFires(setin: Source)
    ensures !OnlyClRejectsAsWritten(setin)
    ensures !OnlyClRejectsAsWritten(RcFile) && RcFile != CommandLine
  {
  }

  /** The guard as evidently intended: only the command line may set an onlycl option. */
  predicate OnlyClRejects(setin: Source)
  {
    setin != CommandLine
  }

  /** Whether a new value is taken at all: a later source loses unless it appends to or sets a string once. */
  predicate Takes(d: Desc, v: Value)
  {
    v.setIn == Default || (d.kind == String && d.src.mode != Override)
  }

  /**
   * setValue: the value par from source setin.  The first source to set an
   * option wins; a non-string keeps par verbatim in string_value even then.
   */
  function SetValue(d: Desc, v: Value, par: seq<char>, setin: Source,
                    toInt: seq<char> -> Option<int>): (r: Result<Value>)
    ensures d.src.onlyApp ==> r.Err?
    ensures d.src.onlyCl && setin != CommandLine ==> r.Err?
    ensures r.Ok? && InRange(d, v) ==> InRange(d, r.value)
    ensures r.Ok? ==> r.value.setIn == (if Takes(d, v) then setin else v.setIn)
    ensures r.Ok? && d.kind != String ==> r.value.stringValue == par
  {
    if d.src.onlyApp then Err(UserError)
    else if d.src.onlyCl && OnlyClRejects(setin) then Err(UserError)
    else
      var v := if d.kind != String then v.(stringValue := par) else v;
      if !Takes(d, v) then Ok(v)
      else
        match d.kind
        case Switch =>
          if par != [] then Err(UserError) else Ok(v.(boolValue := true, setIn := setin))
        case Bool =>
          (match BoolValue(Word(par))
           case None => Err(UserError)
           case Some(b) => Ok(v.(boolValue := b, setIn := setin)))
        case Int =>
          (match toInt(par)
           case None => Err(UserError)
           case Some(i) =>
             if OutOfRange(i, d.lower, d.upper) then Err(UserError)
             else Ok(v.(intValue := i, setIn := setin)))
        case Double => Ok(v.(setIn := setin))
        case String =>
          match d.src.mode
          case Once =>
            if v.setIn != Default then Err(UserError) else Ok(v.(stringValue := par, setIn := setin))
          case Append =>
            var before := if v.setIn != Default || v.stringValue != [] then v.stringValue + d.src.sep else v.stringValue;
            Ok(v.(stringValue := before + par, setIn := setin))
          case Override => Ok(v.(stringValue := par, setIn := setin))
  }

  /**
   * First source wins: once an option holds a value from a source other than
   * its default, a later setValue changes nothing but the verbatim copy,
   * unless the option is a string in append or once mode.
   */
  lemma FirstSourceWins(d: Desc, v: Value, par: seq<char>, setin: Source, toInt: seq<char> -> Option<int>)
    requires v.setIn != Default && !(d.kind == String && d.src.mode != Override)
    ensures SetValue(d, v, par, setin, toInt).Ok? ==>
      SetValue(d, v, par, setin, toInt).value == v.(stringValue := if d.kind == String then v.stringValue else par)
  {
  }

  /** A command-line value survives a later rc file or environment value. */
  lemma CommandLineFirst(d: Desc, v: Value, a: seq<char>, b: seq<char>, later: Source,
                         toInt: seq<char> -> Option<int>)
    requires v.setIn == Default && d.kind != String
    requires SetValue(d, v, a, CommandLine, toInt).Ok?
    ensures var w := SetValue(d, v, a, CommandLine, toInt).value;
      w.setIn == CommandLine &&
      (SetValue(d, w, b, later, toInt).Ok? ==>
        SetValue(d, w, b, later, toInt).value.(stringValue := a) == w)
  {
  }

  /** The three string modes: override replaces, append joins with the separator, once refuses a second value. */
  lemma StringModes(d: Desc, v: Value, par: seq<char>, setin: Source, toInt: seq<char> -> Option<int>)
    requires d.kind == String && !d.src.onlyApp && !(d.src.onlyCl && setin != CommandLine)
    ensures d.src.mode == Override && v.setIn == Default ==>
      SetValue(d, v, par, setin, toInt) == Ok(v.(stringValue := par, setIn := setin))
    ensures d.src.mode == Once ==> (SetValue(d, v, par, setin, toInt).Err? <==> v.setIn != Default)
    ensures d.src.mode == Append ==> (SetValue(d, v, par, setin, toInt).Ok? &&
      SetValue(d, v, par, setin, toInt).value.stringValue ==
        (if v.setIn == Default && v.stringValue == [] then par else v.stringValue + d.src.sep + par))
  {
  }

  /** An int is taken exactly when it converts and lies within the bounds. */
  lemma IntValue(d: Desc, v: Value, par: seq<char>, setin: Source, toInt: seq<char> -> Option<int>)
    requires d.kind == Int && v.setIn == Default && !d.src.onlyApp && !(d.src.onlyCl && setin != CommandLine)
    ensures SetValue(d, v, par, setin, toInt).Ok? <==> toInt(par).Some? && d.lower <= toInt(par).value <= d.upper
    ensures SetValue(d, v, par, setin, toInt).Ok? ==> SetValue(d, v, par, setin, toInt).value.intValue == toInt(par).value
  {
  }

  /** A switch takes no parameter and becomes true. */
  lemma SwitchValue(d: Desc, v: Value, par: seq<char>, setin: Source, toInt: seq<char> -> Option<int>)
    requires d.kind == Switch && v.setIn == Default && !d.src.onlyApp && !(d.src.onlyCl && setin != CommandLine)
    ensures SetValue(d, v, par, setin, toInt).Ok? <==> par == []
    ensures SetValue(d, v, par, setin, toInt).Ok? ==> SetValue(d, v, par, setin, toInt).value.boolValue
  {
  }

  // ------------------------------------------------------------------
  // setValueFromApp(int)
  // ------------------------------------------------------------------

  /**
   * setValueFromApp(int): the application sets an int option, clamped to its
   * bounds; the flag says whether i was within them.
   */
  function SetValueFromApp(d: Desc, v: Value, i: int): (r: Result<(Value, bool)>)
    ensures r.Err? <==> d.src.onlyApp || d.src.onlyCl || d.kind != Int
    ensures r.Ok? ==> r.value.0.setIn == Application
    ensures r.Ok? ==> (r.value.1 <==> d.lower <= i <= d.upper)
    ensures r.Ok? && r.value.1 ==> r.value.0.intValue == i
    ensures r.Ok? && i > d.upper ==> r.value.0.intValue == d.upper
    ensures r.Ok? && d.lower <= d.upper ==> d.lower <= r.value.0.intValue <= d.upper
  {
    if d.src.onlyApp || d.src.onlyCl then Err(FatalError)
    else if d.kind != Int then Err(FatalError)
    else if i > d.upper then Ok((v.(setIn := Application, intValue := d.upper), false))
    else if i < d.lower then Ok((v.(setIn := Application, intValue := d.lower), false))
    else Ok((v.(setIn := Application, intValue := i), true))
  }

  /** The value the application sets keeps a well-formed option well-formed. */
  lemma FromAppKeepsRange(it: Item, i: int)
    requires WellFormed(it) && SetValueFromApp(it.d, it.v, i).Ok?
    ensures WellFormed(Item(it.d, SetValueFromApp(it.d, it.v, i).value.0))
  {
  }

  // ------------------------------------------------------------------
  // getOptLen
  // ------------------------------------------------------------------

  /** getParamStr: the parameter name, or a placeholder by type. */
  function ParamStr(d: Desc): (r: seq<char>)
    ensures d.kind != Switch ==> r != []
    ensures d.kind == Switch ==> r == d.src.par
  {
    if d.src.par != [] then d.src.par
    else
      match d.kind
      case Bool => "<bool>"
      case Int => "<int>"
      case Double => "<double>"
      case String => "<string>"
      case Switch => []
  }

  /** The option text printHelp puts after "--": name, then "[=PARAM]", "=PARAM" or nothing. */
  function HelpColumn(d: Desc): seq<char>
  {
    d.src.name + (if d.src.optionalParam then "[" else "") +
    (if d.kind == Switch then "" else "=" + ParamStr(d)) +
    (if d.src.optionalParam then "]" else "")
  }

  /** getOptLen. */
  function OptLen(d: Desc): (n: nat)
    ensures n >= |d.src.name|
  {
    var l := |ParamStr(d)|;
    |d.src.name| + (if l > 0 then l + 1 + (if d.src.optionalParam then 2 else 0) else 0)
  }

  /** getOptLen is the width of the help column for every option but a switch with a parameter name or an optional parameter. */
  lemma OptLenIsColumn(d: Desc)
    requires d.kind != Switch || (d.src.par == [] && !d.src.optionalParam)
    ensures OptLen(d) == |HelpColumn(d)|
  {
  }

  // ------------------------------------------------------------------
  // Range2Str(int)
  // ------------------------------------------------------------------

  /** TString(int): the "%d" text of i. */
  function Decimal(i: int): (r: seq<char>)
    ensures r != [] && '.' !in r && ']' !in r
  {
    if i < 0 then "-" + Digits(-i) else Digits(i)
  }

  /** Reads back a "%d" text. */
  function DecimalValue(s: seq<char>): Option<int>
  {
    if s != [] && s[0] == '-' && |s| > 1 && (forall k :: 1 <= k < |s| ==> IsDigit(s[k])) then
      var n: int := DigitsValue(s[1..]);
      Some(-n)
    else if s != [] && (forall k :: 0 <= k < |s| ==> IsDigit(s[k])) then Some(DigitsValue(s))
    else None
  }

  /** The "%d" text of i reads back as i. */
  lemma DecimalRoundTrip(i: int)
    ensures DecimalValue(Decimal(i)) == Some(i)
  {
    if i < 0 {
      var d := Digits(-i);
      var s := "-" + d;
      assert s[1..] == d;
      forall k | 1 <= k < |s|
        ensures IsDigit(s[k])
      {
        assert s[k] == d[k - 1];
      }
      DigitsRoundTrip(-i);
    } else {
      assert IsDigit(Digits(i)[0]);
      DigitsRoundTrip(i);
    }
  }

  /** Range2Str(int, int): "[lower..upper]" with an unbounded end left empty, or nothing when both are. */
  function Range2Str(lower: int, upper: int): (r: seq<char>)
    ensures r == [] <==> lower == INT_MIN && upper == INT_MAX
  {
    if lower != INT_MIN || upper != INT_MAX then
      "[" + (if lower != INT_MIN then Decimal(lower) else []) + ".." +
      (if upper != INT_MAX then Decimal(upper) else []) + "]"
    else []
  }

  /** Reads the bounds back from a Range2Str text; an empty end is unbounded. */
  function ReadRange(r: seq<char>): (Option<int>, Option<int>)
  {
    if |r| < 4 || r[0] != '[' || r[|r| - 1] != ']' then (None, None)
    else
      var body := r[1..|r| - 1];
      var dot := FirstOccurence(body, '.');
      if dot == -1 || dot + 1 >= |body| then (None, None)
      else
        var lo := body[..dot];
        var up := body[dot + 2..];
        (if lo == [] then None else DecimalValue(lo), if up == [] then None else DecimalValue(up))
  }

  /** The first '.' of l + ".." + u when l has none. */
  lemma FirstDot(l: seq<char>, u: seq<char>)
    requires '.' !in l
    ensures FirstOccurence(l + ".." + u, '.') == |l|
  {
    var body := l + ".." + u;
    assert body[|l|] == '.';
    assert body[..|l|] == l;
  }

  /** ReadRange takes a bracketed text apart at its first "..". */
  lemma ReadRangeOf(l: seq<char>, u: seq<char>)
    requires '.' !in l
    ensures ReadRange("[" + l + ".." + u + "]") ==
      (if l == [] then None else DecimalValue(l), if u == [] then None else DecimalValue(u))
  {
    var r := "[" + l + ".." + u + "]";
    var body := l + ".." + u;
    assert r[1..|r| - 1] == body;
    FirstDot(l, u);
    assert body[..|l|] == l;
    assert body[|l| + 2..] == u;
  }

  /** The bounds Range2Str prints can be read back, an unbounded end as absent. */
  lemma RangeRoundTrip(lower: int, upper: int)
    requires lower != INT_MIN || upper != INT_MAX
    ensures ReadRange(Range2Str(lower, upper)) ==
      (if lower == INT_MIN then None else Some(lower), if upper == INT_MAX then None else Some(upper))
  {
    var l := if lower != INT_MIN then Decimal(lower) else [];
    var u := if upper != INT_MAX then Decimal(upper) else [];
    assert Range2Str(lower, upper) == "[" + l + ".." + u + "]";
    ReadRangeOf(l, u);
    if lower != INT_MIN {
      DecimalRoundTrip(lower);
    }
    if upper != INT_MAX {
      DecimalRoundTrip(upper);
    }
  }
}
