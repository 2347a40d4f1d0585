// The option registry and command-line parser of TAppConfig (tappconfig.cc):
// addConfigItems registers each option by name, char name and alias, getName
// resolves what the user typed, and doCommandLine walks argv, setting values
// and collecting the plain parameters.  The option array opt is kept as two
// parallel sequences: the fixed description of each option and its value.
module AppConfig {
  import opened Outcomes
  import opened TStrings
  import opened AppItems
  import Words
  import Unquote

  /** The state of a TAppConfig that the registry and the parser touch. */
  datatype Config = Config(
    descs: seq<Desc>, vals: seq<Value>,
    names: map<seq<char>, nat>, aliases: map<seq<char>, nat>, chars: map<char, nat>,
    params: seq<seq<char>>,
    onlyCl: bool, stopAtDd: bool, removeDd: bool, ignoreNegnum: bool,
    usage: seq<char>, commonHead: seq<char>, trailer: seq<char>)

  /** A fresh TAppConfig: no options, every char2index entry -1, every flag off. */
  const Empty: Config := Config([], [], map[], map[], map[], [], false, false, false, false, [], [], [])

  /**
   * The registry invariant: name maps every option name to its own index and
   * nothing else; aliases and char names lead to existing options.
   */
  predicate Consistent(c: Config)
  {
    |c.vals| == |c.descs| &&
    (forall n :: n in c.names ==> c.names[n] < |c.descs| && c.descs[c.names[n]].src.name == n) &&
    (forall k :: 0 <= k < |c.descs| ==> c.descs[k].src.name in c.names && c.names[c.descs[k].src.name] == k) &&
    (forall n :: n in c.aliases ==> c.aliases[n] < |c.descs|) &&
    (forall ch :: ch in c.chars ==> c.chars[ch] < |c.descs|)
  }

  /** Every int option holds a value within its bounds. */
  predicate AllInRange(c: Config)
  {
    forall k :: 0 <= k < |c.descs| && k < |c.vals| ==> InRange(c.descs[k], c.vals[k])
  }

  /** Everything but the values and the parameters. */
  function Fixed(c: Config): Config
  {
    c.(vals := [], params := [])
  }

  /** A change of values and parameters alone keeps the registry invariant. */
  lemma FixedConsistent(c: Config, c': Config)
    requires Consistent(c) && Fixed(c') == Fixed(c) && |c'.vals| == |c.vals|
    ensures Consistent(c')
  {
    assert c'.descs == c.descs && c'.names == c.names;
    assert c'.aliases == c.aliases && c'.chars == c.chars;
  }

  // ------------------------------------------------------------------
  // Meta components: "#usage=...", "#onlycl", ...
  // ------------------------------------------------------------------

  /** TAppConfig::setComp: one component of a "#..." line of the list. */
  function MetaComp(c: Config, a: seq<seq<char>>): (r: Result<Config>)
    ensures r.Ok? ==> (r.value.descs == c.descs && r.value.vals == c.vals && r.value.names == c.names &&
      r.value.aliases == c.aliases && r.value.chars == c.chars && r.value.params == c.params)
    ensures |a| > 2 ==> r == Err(FatalError)
  {
    if |a| == 1 && AllSpace(a[0]) then Ok(c)
    else if |a| == 0 then Err(IndexOutOfRange)
    else if |a| > 2 then Err(FatalError)
    else
      var comp := a[0];
      var p := if |a| > 1 then Unquote.UnquoteFixed(a[1], true, true) else [];
      MetaSet(c, comp, p)
  }

  /** The known meta components: the three texts take the parameter, the four flags are switched on. */
  function MetaSet(c: Config, comp: seq<char>, p: seq<char>): (r: Result<Config>)
    ensures r.Ok? ==> (r.value.descs == c.descs && r.value.vals == c.vals && r.value.names == c.names &&
      r.value.aliases == c.aliases && r.value.chars == c.chars && r.value.params == c.params)
    ensures comp == "usage" ==> r == Ok(c.(usage := p))
    ensures comp == "onlycl" ==> r == Ok(c.(onlyCl := true))
  {
      if comp == "usage" then Ok(c.(usage := p))
      else if comp == "commonheadline" then Ok(c.(commonHead := p))
      else if comp == "trailer" then Ok(c.(trailer := p))
      else if comp == "onlycl" then Ok(c.(onlyCl := true))
      else if comp == "stopat--" then Ok(c.(stopAtDd := true))
      else if comp == "remove--" then Ok(c.(removeDd := true))
      else if comp == "ignore_negnum" then Ok(c.(ignoreNegnum := true))
      else Err(FatalError)
  }

  /** doMetaChar: setComp on each ','-separated component, split at '='. */
  function Metas(c: Config, comps: seq<seq<char>>): (r: Result<Config>)
    ensures r.Ok? ==> (r.value.descs == c.descs && r.value.vals == c.vals && r.value.names == c.names &&
      r.value.aliases == c.aliases && r.value.chars == c.chars && r.value.params == c.params)
    decreases |comps|
  {
    if comps == [] then Ok(c)
    else
      match MetaComp(c, Words.SplitOf(comps[0], "=", true, true))
      case Err(e) => Err(e)
      case Ok(c') => Metas(c', comps[1..])
  }

  // ------------------------------------------------------------------
  // addConfigItems
  // ------------------------------------------------------------------

  /** The alias loop of addConfigItems: "-x" is one more char name, anything else an alias. */
  function Aliases(c: Config, al: seq<seq<char>>, n: nat): (r: Result<Config>)
    ensures r.Ok? ==> r.value == c.(aliases := r.value.aliases, chars := r.value.chars)
    ensures r.Ok? ==> forall x :: x in r.value.aliases ==>
      (x in c.aliases && r.value.aliases[x] == c.aliases[x]) || r.value.aliases[x] == n
    ensures r.Ok? ==> forall x :: x in r.value.chars ==>
      (x in c.chars && r.value.chars[x] == c.chars[x]) || r.value.chars[x] == n
    decreases |al|
  {
    if al == [] then Ok(c)
    else
      var a := al[0];
      if |a| == 2 && a[0] == '-' then
        if a[1] in c.chars then Err(FatalError)
        else Aliases(c.(chars := c.chars[a[1] := n]), al[1..], n)
      else
        if a in c.aliases then Err(FatalError)
        else Aliases(c.(aliases := c.aliases[a := n]), al[1..], n)
  }

  /** The help option shows the common headline of the application. */
  function Headline(c: Config, d: Desc): (r: Desc)
    ensures r.kind == d.kind && r.lower == d.lower && r.upper == d.upper && r.src.name == d.src.name
    ensures r.src.name == "help" ==> r.src.headline == c.commonHead
    ensures r.src.name != "help" ==> r == d
  {
    if d.src.name == "help" then d.(src := d.src.(headline := c.commonHead)) else d
  }

  /** The name and the char name of a new option n: neither may be taken. */
  function Claim(c: Config, s: Draft, n: nat): (r: Result<Config>)
    ensures s.name in c.names ==> r.Err?
    ensures s.charName != [] && s.charName[0] in c.chars ==> r.Err?
    ensures r.Ok? ==> r.value == c.(names := c.names[s.name := n], chars := r.value.chars)
    ensures r.Ok? ==> forall x :: x in r.value.chars ==>
      (x in c.chars && r.value.chars[x] == c.chars[x]) || r.value.chars[x] == n
  {
    if s.name in c.names then Err(FatalError)
    else if s.charName != [] && s.charName[0] in c.chars then Err(FatalError)
    else Ok(c.(names := c.names[s.name := n],
               chars := if s.charName != [] then c.chars[s.charName[0] := n] else c.chars))
  }

  /** The registration of one option: name, char name, aliases, then the option itself. */
  function Register(c: Config, it: Item): (r: Result<Config>)
    requires Consistent(c)
    ensures it.d.src.name in c.names ==> r.Err?
    ensures r.Ok? ==> Consistent(r.value)
    ensures r.Ok? ==> r.value.names == c.names[it.d.src.name := |c.descs|]
    ensures r.Ok? ==> r.value.vals == c.vals + [it.v] && r.value.descs == c.descs + [Headline(c, it.d)]
    ensures r.Ok? ==> r.value.params == c.params
  {
    match Claim(c, it.d.src, |c.descs|)
    case Err(e) => Err(e)
    case Ok(c2) =>
      match Aliases(c2, it.d.src.alias, |c.descs|)
      case Err(e) => Err(e)
      case Ok(c3) =>
        Appended(c, c3, Headline(c, it.d), it.v);
        Ok(c3.(descs := c3.descs + [Headline(c, it.d)], vals := c3.vals + [it.v]))
  }

  /** The last step of a registration keeps the registry invariant. */
  lemma Appended(c: Config, c3: Config, d: Desc, v: Value)
    requires Consistent(c) && d.src.name !in c.names
    requires c3 == c.(names := c.names[d.src.name := |c.descs|], aliases := c3.aliases, chars := c3.chars)
    requires forall x :: x in c3.aliases ==> (x in c.aliases && c3.aliases[x] == c.aliases[x]) || c3.aliases[x] == |c.descs|
    requires forall x :: x in c3.chars ==> (x in c.chars && c3.chars[x] == c.chars[x]) || c3.chars[x] == |c.descs|
    ensures Consistent(c3.(descs := c3.descs + [d], vals := c3.vals + [v]))
  {
  }

  /** An option added by Register keeps every value in range when its own value is. */
  lemma RegisterInRange(c: Config, it: Item)
    requires Consistent(c) && AllInRange(c) && InRange(it.d, it.v) && Register(c, it).Ok?
    ensures AllInRange(Register(c, it).value)
  {
    var c' := Register(c, it).value;
    forall j | 0 <= j < |c'.descs| && j < |c'.vals|
      ensures InRange(c'.descs[j], c'.vals[j])
    {
      if j < |c.descs| {
        assert c'.descs[j] == c.descs[j] && c'.vals[j] == c.vals[j];
      } else {
        assert c'.vals[j] == it.v && c'.descs[j] == Headline(c, it.d);
      }
    }
  }

  /** One line of the list other than its terminator: a meta line or an option. */
  function AddLine(c: Config, l: seq<char>, privat: bool, toInt: seq<char> -> Option<int>): (r: Result<Config>)
    requires Consistent(c)
    ensures r.Ok? ==> Consistent(r.value) && r.value.params == c.params
    ensures r.Ok? && AllInRange(c) ==> AllInRange(r.value)
    ensures |l| < 7 ==> r == Err(FatalError)
  {
    if |l| < 7 then Err(FatalError)
    else if l[0] == '#' then
      var m := Metas(c, Words.SplitOf(l[1..], ",", true, false));
      if m.Err? then m
      else
        FixedMetas(c, m.value, Words.SplitOf(l[1..], ",", true, false));
        m
    else
      match ItemOf(l, privat, toInt)
      case Err(e) => Err(e)
      case Ok(it) =>
        if c.onlyCl && it.d.src.configOpt then Ok(c)
        else
          var g := Register(c, it);
          if g.Ok? && AllInRange(c) then
            RegisterInRange(c, it);
            g
          else g
  }

  /**
   * addConfigItems from line k of the list on: a list must end in "EOL",
   * "#EOL" or ""; running off its end is the missing terminator.
   */
  function AddItems(c: Config, list: seq<seq<char>>, k: nat, privat: bool,
                    toInt: seq<char> -> Option<int>): (r: Result<Config>)
    requires Consistent(c)
    ensures r.Ok? ==> Consistent(r.value) && r.value.params == c.params
    ensures r.Ok? && AllInRange(c) ==> AllInRange(r.value)
    decreases |list| - k
  {
    if k >= |list| then Err(FatalError)
    else
      var l := CStr(list[k]);
      if l == "EOL" || l == "#EOL" || l == [] then Ok(c)
      else
        match AddLine(c, l, privat, toInt)
        case Err(e) => Err(e)
        case Ok(c') => AddItems(c', list, k + 1, privat, toInt)
  }

  /** A second option of an already registered name is refused. */
  lemma DuplicateName(c: Config, list: seq<seq<char>>, k: nat, privat: bool,
                      toInt: seq<char> -> Option<int>, it: Item)
    requires Consistent(c) && k < |list|
    requires CStr(list[k]) != "EOL" && CStr(list[k]) != "#EOL" && |CStr(list[k])| >= 7 && CStr(list[k])[0] != '#'
    requires ItemOf(CStr(list[k]), privat, toInt) == Ok(it) && !(c.onlyCl && it.d.src.configOpt)
    requires it.d.src.name in c.names
    ensures AddItems(c, list, k, privat, toInt).Err?
  {
    var l := CStr(list[k]);
    assert Register(c, it).Err?;
    assert AddLine(c, l, privat, toInt).Err?;
  }

  // ------------------------------------------------------------------
  // getName
  // ------------------------------------------------------------------

  /** An option the prefix search of getName may find: str starts its name, and it is not private. */
  predicate Selected(d: Desc, str: seq<char>)
  {
    HasPrefix(d.src.name, str) && !d.src.onlyApp
  }

  /** The names of the selected options, in list order. */
  function Found(ds: seq<Desc>, str: seq<char>): (r: seq<seq<char>>)
    ensures forall x :: x in r ==> exists k :: 0 <= k < |ds| && ds[k].src.name == x && Selected(ds[k], str)
    ensures |r| <= |ds|
  {
    if ds == [] then []
    else
      var last := ds[|ds| - 1];
      var front := Found(ds[..|ds| - 1], str);
      assert forall k :: 0 <= k < |ds| - 1 ==> ds[..|ds| - 1][k] == ds[k];
      front + (if Selected(last, str) then [last.src.name] else [])
  }

  /** Every name Found lists is a registered option name. */
  lemma FoundInNames(c: Config, str: seq<char>)
    requires Consistent(c)
    ensures forall x :: x in Found(c.descs, str) ==> x in c.names
  {
    forall x | x in Found(c.descs, str)
      ensures x in c.names
    {
      var k :| 0 <= k < |c.descs| && c.descs[k].src.name == x && Selected(c.descs[k], str);
    }
  }

  /**
   * getName: an alias, then a single char name (not after "--"), then the
   * exact name, then a unique prefix of a non-private name.
   */
  function NameOf(c: Config, str: seq<char>, prefix: seq<char>): (r: Result<seq<char>>)
    requires Consistent(c)
    ensures r.Ok? ==> r.value in c.names
    ensures str == [] ==> r == Err(FatalError)
  {
    if str == [] then Err(FatalError)
    else if str in c.aliases then Ok(c.descs[c.aliases[str]].src.name)
    else if |str| == 1 && prefix != "--" then
      if str[0] !in c.chars then Err(UserError) else Ok(c.descs[c.chars[str[0]]].src.name)
    else if str in c.names then Ok(str)
    else
      var found := Found(c.descs, str);
      if |found| == 0 then Err(UserError)
      else if |found| == 1 then
        FoundInNames(c, str);
        assert found[0] in found;
        Ok(found[0])
      else Err(UserError)
  }

  /** The names resolved by prefix: neither an alias, a char name nor an exact name. */
  predicate ByPrefix(c: Config, str: seq<char>, prefix: seq<char>)
  {
    str != [] && str !in c.aliases && !(|str| == 1 && prefix != "--") && str !in c.names
  }

  /** A name that starts no option is refused. */
  lemma NoPrefix(c: Config, str: seq<char>, prefix: seq<char>)
    requires Consistent(c) && ByPrefix(c, str, prefix)
    requires forall k :: 0 <= k < |c.descs| ==> !Selected(c.descs[k], str)
    ensures NameOf(c, str, prefix) == Err(UserError)
  {
    FoundNone(c.descs, str);
  }

  /** A name that starts exactly one option resolves to it. */
  lemma UniquePrefix(c: Config, str: seq<char>, prefix: seq<char>, k: nat)
    requires Consistent(c) && ByPrefix(c, str, prefix)
    requires k < |c.descs| && Selected(c.descs[k], str)
    requires forall j :: 0 <= j < |c.descs| && Selected(c.descs[j], str) ==> j == k
    ensures NameOf(c, str, prefix) == Ok(c.descs[k].src.name)
  {
    FoundOnly(c.descs, str, k);
  }

  /** A name that starts two options is refused as ambiguous. */
  lemma AmbiguousPrefix(c: Config, str: seq<char>, prefix: seq<char>, k: nat, j: nat)
    requires Consistent(c) && ByPrefix(c, str, prefix)
    requires k < j < |c.descs| && Selected(c.descs[k], str) && Selected(c.descs[j], str)
    ensures NameOf(c, str, prefix) == Err(UserError)
  {
    FoundTwo(c.descs, str, k, j);
  }

  /** Found is empty when no option is selected. */
  lemma {:induction false} FoundNone(ds: seq<Desc>, str: seq<char>)
    requires forall k :: 0 <= k < |ds| ==> !Selected(ds[k], str)
    ensures Found(ds, str) == []
  {
    if ds != [] {
      FoundNone(ds[..|ds| - 1], str);
    }
  }

  /** Found lists at least the one selected option. */
  lemma {:induction false} FoundSome(ds: seq<Desc>, str: seq<char>, k: nat)
    requires k < |ds| && Selected(ds[k], str)
    ensures |Found(ds, str)| >= 1
  {
    if k < |ds| - 1 {
      FoundSome(ds[..|ds| - 1], str, k);
    }
  }

  /** Found is exactly the name of the only selected option. */
  lemma {:induction false} FoundOnly(ds: seq<Desc>, str: seq<char>, k: nat)
    requires k < |ds| && Selected(ds[k], str)
    requires forall j :: 0 <= j < |ds| && Selected(ds[j], str) ==> j == k
    ensures Found(ds, str) == [ds[k].src.name]
  {
    if k == |ds| - 1 {
      FoundNone(ds[..|ds| - 1], str);
    } else {
      FoundOnly(ds[..|ds| - 1], str, k);
    }
  }

  /** Found lists two selected options at least twice. */
  lemma {:induction false} FoundTwo(ds: seq<Desc>, str: seq<char>, k: nat, j: nat)
    requires k < j < |ds| && Selected(ds[k], str) && Selected(ds[j], str)
    ensures |Found(ds, str)| >= 2
  {
    if j == |ds| - 1 {
      FoundSome(ds[..|ds| - 1], str, k);
    } else {
      FoundTwo(ds[..|ds| - 1], str, k, j);
    }
  }

  // ------------------------------------------------------------------
  // doCommandLine
  // ------------------------------------------------------------------

  /** The bytes after a single '-' that make a negative number of it under ignore_negnum; strchr also finds the NUL. */
  predicate NegnumStart(ch: char)
  {
    ch in "0123456789." || ch == NUL
  }

  /** Whether argument a is scanned as an option. */
  predicate IsOption(ignoreNegnum: bool, a: seq<char>, nomore: bool)
  {
    CharAt(a, 0) == '-' && !nomore && (!ignoreNegnum || !NegnumStart(CharAt(a, 1)))
  }

  /** The C strings of args[i..]. */
  function Rest(args: seq<seq<char>>, i: nat): (r: seq<seq<char>>)
    requires i <= |args|
    ensures |r| == |args| - i
    ensures forall k :: 0 <= k < |r| ==> r[k] == CStr(args[i + k])
    decreases |args| - i
  {
    if i == |args| then [] else [CStr(args[i])] + Rest(args, i + 1)
  }

  /** setValue on option k from the command line, answering the index of the last argument used. */
  function Take(c: Config, k: nat, par: seq<char>, j: nat, toInt: seq<char> -> Option<int>): (r: Result<(Config, nat)>)
    requires k < |c.descs| && |c.vals| == |c.descs|
    ensures r.Ok? ==> r.value.1 == j && Fixed(r.value.0) == Fixed(c) && |r.value.0.vals| == |c.vals|
    ensures r.Ok? ==> r.value.0.params == c.params
    ensures r.Ok? && AllInRange(c) ==> AllInRange(r.value.0)
  {
    match SetValue(c.descs[k], c.vals[k], par, CommandLine, toInt)
    case Err(e) => Err(e)
    case Ok(v) => Ok((c.(vals := c.vals[k := v]), j))
  }

  /**
   * A long option "--name" or "--name=value": the value follows '=', or is
   * the default of an optional parameter, or is the next argument.
   */
  function LongOption(c: Config, args: seq<seq<char>>, i: nat, toInt: seq<char> -> Option<int>): (r: Result<(Config, nat)>)
    requires Consistent(c) && i < |args|
    requires CharAt(CStr(args[i]), 0) == '-' && CharAt(CStr(args[i]), 1) == '-'
    ensures r.Ok? ==> i <= r.value.1 < |args| && r.value.1 <= i + 1
    ensures r.Ok? ==> Fixed(r.value.0) == Fixed(c) && |r.value.0.vals| == |c.vals| && r.value.0.params == c.params
    ensures r.Ok? && AllInRange(c) ==> AllInRange(r.value.0)
  {
    var a := CStr(args[i]);
    var eq := FirstOccurence(a, '=');
    var n := if eq == -1 then a[2..] else a[2..eq];
    if n == [] then Err(UserError)
    else
      match NameOf(c, n, "--")
      case Err(e) => Err(e)
      case Ok(name) =>
        var k := c.names[name];
        var d := c.descs[k];
        if d.kind == Switch then Take(c, k, if eq != -1 then "t" else [], i, toInt)
        else if eq != -1 then Take(c, k, a[eq + 1..], i, toInt)
        else if d.src.optionalParam then Take(c, k, d.src.def, i, toInt)
        else if i + 1 < |args| then Take(c, k, CStr(args[i + 1]), i + 1, toInt)
        else Err(UserError)
  }

  /**
   * A cluster of short options "-abc" from byte p on: switches are set one
   * after the other; the first other option takes the rest of the cluster or
   * the next argument and ends the cluster.
   */
  function Cluster(c: Config, args: seq<seq<char>>, i: nat, p: nat, toInt: seq<char> -> Option<int>): (r: Result<(Config, nat)>)
    requires Consistent(c) && i < |args| && 1 <= p <= |CStr(args[i])|
    ensures r.Ok? ==> i <= r.value.1 < |args| && r.value.1 <= i + 1
    ensures r.Ok? ==> Fixed(r.value.0) == Fixed(c) && |r.value.0.vals| == |c.vals| && r.value.0.params == c.params
    ensures r.Ok? && AllInRange(c) ==> AllInRange(r.value.0)
    decreases |CStr(args[i])| - p
  {
    var a := CStr(args[i]);
    if p == |a| then Ok((c, i))
    else if a[p] !in c.chars then Err(UserError)
    else
      var k := c.chars[a[p]];
      if c.descs[k].kind != Switch then
        if p + 1 < |a| then Take(c, k, a[p + 1..], i, toInt)
        else if i + 1 < |args| then Take(c, k, CStr(args[i + 1]), i + 1, toInt)
        else Err(UserError)
      else
        match Take(c, k, [], i, toInt)
        case Err(e) => Err(e)
        case Ok((c', _)) =>
          FixedConsistent(c, c');
          Cluster(c', args, i, p + 1, toInt)
  }

  /**
   * "--name=value": the option the name resolves to receives the text after
   * the first '=' ("t" for a switch), and no further argument is used.
   */
  lemma LongWithValue(c: Config, args: seq<seq<char>>, i: nat, n: seq<char>, v: seq<char>, toInt: seq<char> -> Option<int>)
    requires Consistent(c) && i < |args|
    requires CStr(args[i]) == "--" + n + "=" + v && n != [] && '=' !in n
    ensures NameOf(c, n, "--").Err? ==> LongOption(c, args, i, toInt) == Err(NameOf(c, n, "--").error)
    ensures NameOf(c, n, "--").Ok? ==>
      var k := c.names[NameOf(c, n, "--").value];
      LongOption(c, args, i, toInt) == Take(c, k, if c.descs[k].kind == Switch then "t" else v, i, toInt)
  {
    var a := CStr(args[i]);
    var e := 2 + |n|;
    assert a[e] == '=' && a[2..e] == n && a[e + 1..] == v;
    assert '=' !in a[..e] by {
      assert a[..e] == "--" + n;
    }
    FirstAt(a, '=', e);
  }

  /** The first occurrence of ch is at e when a[e] is ch and no earlier byte is. */
  lemma FirstAt(a: seq<char>, ch: char, e: nat)
    requires e < |a| && a[e] == ch && ch !in a[..e]
    ensures FirstOccurence(a, ch) == e
  {
  }

  /**
   * "--name" without '=': a switch is set, an optional parameter takes its
   * default, and any other option takes the next argument, whose absence is
   * a user error.
   */
  lemma LongWithoutValue(c: Config, args: seq<seq<char>>, i: nat, n: seq<char>, toInt: seq<char> -> Option<int>)
    requires Consistent(c) && i < |args|
    requires CStr(args[i]) == "--" + n && n != [] && '=' !in n
    ensures NameOf(c, n, "--").Err? ==> LongOption(c, args, i, toInt) == Err(NameOf(c, n, "--").error)
    ensures NameOf(c, n, "--").Ok? ==>
      var k := c.names[NameOf(c, n, "--").value];
      var d := c.descs[k];
      LongOption(c, args, i, toInt) ==
        if d.kind == Switch then Take(c, k, [], i, toInt)
        else if d.src.optionalParam then Take(c, k, d.src.def, i, toInt)
        else if i + 1 < |args| then Take(c, k, CStr(args[i + 1]), i + 1, toInt)
        else Err(UserError)
  {
    var a := CStr(args[i]);
    assert a[2..] == n;
    assert '=' !in a by {
      forall j | 0 <= j < |a| ensures a[j] != '=' {
        if j >= 2 {
          assert a[j] == n[j - 2];
        }
      }
    }
  }

  /** Setting the switches named by the bytes of cs, one after the other, as a cluster does. */
  function Switched(c: Config, cs: seq<char>, toInt: seq<char> -> Option<int>): (r: Result<Config>)
    requires Consistent(c) && forall j :: 0 <= j < |cs| ==> cs[j] in c.chars
    ensures r.Ok? ==> Fixed(r.value) == Fixed(c) && |r.value.vals| == |c.vals|
    ensures r.Ok? ==> r.value.descs == c.descs && r.value.chars == c.chars
    decreases |cs|
  {
    if cs == [] then Ok(c)
    else
      match Take(c, c.chars[cs[0]], [], 0, toInt)
      case Err(e) => Err(e)
      case Ok((c', _)) =>
        FixedConsistent(c, c');
        Switched(c', cs[1..], toInt)
  }

  /**
   * A cluster whose bytes p..s-1 name switches: those switches are set in
   * order; then the cluster ends at its end, refuses an unknown byte, or
   * gives the option of byte s the rest of the cluster or else the next
   * argument.
   */
  lemma ClusterMeaning(c: Config, args: seq<seq<char>>, i: nat, p: nat, s: nat, toInt: seq<char> -> Option<int>)
    requires Consistent(c) && i < |args| && 1 <= p <= s <= |CStr(args[i])|
    requires forall q :: p <= q < s ==> CStr(args[i])[q] in c.chars && c.descs[c.chars[CStr(args[i])[q]]].kind == Switch
    ensures var a := CStr(args[i]);
      var sw := Switched(c, a[p..s], toInt);
      (sw.Err? ==> Cluster(c, args, i, p, toInt) == Err(sw.error)) &&
      (sw.Ok? && s == |a| ==> Cluster(c, args, i, p, toInt) == Ok((sw.value, i))) &&
      (sw.Ok? && s < |a| && a[s] !in c.chars ==> Cluster(c, args, i, p, toInt) == Err(UserError)) &&
      (sw.Ok? && s < |a| && a[s] in c.chars && c.descs[c.chars[a[s]]].kind != Switch ==>
        var k := c.chars[a[s]];
        Cluster(c, args, i, p, toInt) ==
          if s + 1 < |a| then Take(sw.value, k, a[s + 1..], i, toInt)
          else if i + 1 < |args| then Take(sw.value, k, CStr(args[i + 1]), i + 1, toInt)
          else Err(UserError))
  {
    var a := CStr(args[i]);
    var sw := Switched(c, a[p..s], toInt);
    ClusterSkips(c, args, i, p, s, toInt);
    if sw.Ok? {
      FixedConsistent(c, sw.value);
    }
  }

  /** Setting the switches of bytes p..s-1 of a cluster is Switched, after which the cluster goes on at s. */
  lemma {:induction false} ClusterSkips(c: Config, args: seq<seq<char>>, i: nat, p: nat, s: nat, toInt: seq<char> -> Option<int>)
    requires Consistent(c) && i < |args| && 1 <= p <= s <= |CStr(args[i])|
    requires forall q :: p <= q < s ==> CStr(args[i])[q] in c.chars && c.descs[c.chars[CStr(args[i])[q]]].kind == Switch
    ensures var sw := Switched(c, CStr(args[i])[p..s], toInt);
      (sw.Err? ==> Cluster(c, args, i, p, toInt) == Err(sw.error)) &&
      (sw.Ok? ==> Consistent(sw.value) && Cluster(c, args, i, p, toInt) == Cluster(sw.value, args, i, s, toInt))
    decreases s - p
  {
    var a := CStr(args[i]);
    if p < s {
      var k := c.chars[a[p]];
      SwitchStep(c, args, i, p, toInt);
      SwitchedStep(c, a[p..s], toInt);
      var t := Take(c, k, [], i, toInt);
      if t.Ok? {
        var c' := t.value.0;
        FixedConsistent(c, c');
        assert a[p..s][1..] == a[p + 1..s];
        ClusterSkips(c', args, i, p + 1, s, toInt);
      }
    } else {
      assert a[p..s] == [];
    }
  }

  /** A switch at byte p of a cluster is set, and the cluster goes on at p + 1. */
  lemma SwitchStep(c: Config, args: seq<seq<char>>, i: nat, p: nat, toInt: seq<char> -> Option<int>)
    requires Consistent(c) && i < |args| && 1 <= p < |CStr(args[i])|
    requires CStr(args[i])[p] in c.chars && c.descs[c.chars[CStr(args[i])[p]]].kind == Switch
    ensures var t := Take(c, c.chars[CStr(args[i])[p]], [], i, toInt);
      (t.Err? ==> Cluster(c, args, i, p, toInt) == Err(t.error)) &&
      (t.Ok? ==> Consistent(t.value.0) && t.value.0.descs == c.descs && t.value.0.chars == c.chars &&
                 Cluster(c, args, i, p, toInt) == Cluster(t.value.0, args, i, p + 1, toInt))
  {
    var t := Take(c, c.chars[CStr(args[i])[p]], [], i, toInt);
    if t.Ok? {
      FixedConsistent(c, t.value.0);
      assert Fixed(t.value.0).descs == Fixed(c).descs && Fixed(t.value.0).chars == Fixed(c).chars;
    }
  }

  /** Switched sets the first switch of cs, then the rest. */
  lemma SwitchedStep(c: Config, cs: seq<char>, toInt: seq<char> -> Option<int>)
    requires Consistent(c) && cs != [] && forall j :: 0 <= j < |cs| ==> cs[j] in c.chars
    ensures var t := Take(c, c.chars[cs[0]], [], 0, toInt);
      (t.Err? ==> Switched(c, cs, toInt) == Err(t.error)) &&
      (t.Ok? ==> Consistent(t.value.0) && Switched(c, cs, toInt) == Switched(t.value.0, cs[1..], toInt))
  {
    var t := Take(c, c.chars[cs[0]], [], 0, toInt);
    if t.Ok? {
      FixedConsistent(c, t.value.0);
    }
  }

  /** The state after one argument: the configuration, the index of the last argument used, and whether options still count. */
  datatype Step = Step(c: Config, last: nat, nomore: bool)

  /** argv[i] appended to the parameters. */
  function AddParam(c: Config, a: seq<char>): Config
  {
    c.(params := c.params + [a])
  }

  /**
   * One pass of the argument loop of doCommandLine on argv[i]: "-" and
   * non-options are parameters, "--" ends option scanning under stopat--
   * (and is dropped otherwise), "--name" is a long option and "-abc" a cluster.
   */
  function Arg(c: Config, args: seq<seq<char>>, i: nat, nomore: bool, toInt: seq<char> -> Option<int>): (r: Result<Step>)
    requires Consistent(c) && i < |args|
    ensures r.Ok? ==> i <= r.value.last < |args| && r.value.last <= i + 1
    ensures r.Ok? ==> Fixed(r.value.c) == Fixed(c) && |r.value.c.vals| == |c.vals|
    ensures r.Ok? && AllInRange(c) ==> AllInRange(r.value.c)
    ensures !IsOption(c.ignoreNegnum, CStr(args[i]), nomore) ==> r == Ok(Step(AddParam(c, CStr(args[i])), i, nomore))
    ensures CStr(args[i]) == "-" && !nomore ==> r == Ok(Step(AddParam(c, "-"), i, nomore))
    ensures CStr(args[i]) == "--" && !nomore ==>
      r == Ok(if c.stopAtDd then Step(if c.removeDd then c else AddParam(c, "--"), i, true) else Step(c, i, false))
  {
    var a := CStr(args[i]);
    if IsOption(c.ignoreNegnum, a, nomore) then
      if CharAt(a, 1) == NUL then Ok(Step(AddParam(c, a), i, nomore))
      else if a[1] == '-' then
        if CharAt(a, 2) == NUL then
          if c.stopAtDd then Ok(Step(if c.removeDd then c else AddParam(c, a), i, true))
          else Ok(Step(c, i, nomore))
        else
          match LongOption(c, args, i, toInt)
          case Err(e) => Err(e)
          case Ok((c', j)) => Ok(Step(c', j, nomore))
      else
        match Cluster(c, args, i, 1, toInt)
        case Err(e) => Err(e)
        case Ok((c', j)) => Ok(Step(c', j, nomore))
    else Ok(Step(AddParam(c, a), i, nomore))
  }

  /** The argument loop of doCommandLine from argv[i] on. */
  function Scan(c: Config, args: seq<seq<char>>, i: nat, nomore: bool, toInt: seq<char> -> Option<int>): (r: Result<Config>)
    requires Consistent(c)
    ensures r.Ok? ==> Fixed(r.value) == Fixed(c) && |r.value.vals| == |c.vals|
    ensures r.Ok? && AllInRange(c) ==> AllInRange(r.value)
    decreases |args| - i
  {
    if i >= |args| then Ok(c)
    else
      match Arg(c, args, i, nomore, toInt)
      case Err(e) => Err(e)
      case Ok(s) =>
        FixedConsistent(c, s.c);
        Scan(s.c, args, s.last + 1, s.nomore, toInt)
  }

  /** doCommandLine fails where its start fails, and scans argv[1..] otherwise. */
  lemma ParseStart(c: Config, args: seq<seq<char>>, version: seq<char>, toInt: seq<char> -> Option<int>)
    requires Consistent(c) && |args| >= 1
    ensures Named(c, args, version).Err? ==> ParseCommandLine(c, args, version, toInt).Err?
    ensures Named(c, args, version).Ok? ==>
      var c2 := Named(c, args, version).value;
      Consistent(c2) && ParseCommandLine(c, args, version, toInt) == Scan(c2, args, 1, false, toInt)
  {
    if Named(c, args, version).Ok? {
      FixedConsistent(c, Named(c, args, version).value);
    }
  }

  /** The argument loop continues after the arguments one pass used. */
  lemma ScanStep(c: Config, args: seq<seq<char>>, i: nat, nomore: bool, toInt: seq<char> -> Option<int>)
    requires Consistent(c) && i < |args|
    ensures Arg(c, args, i, nomore, toInt).Err? ==> Scan(c, args, i, nomore, toInt).Err?
    ensures Arg(c, args, i, nomore, toInt).Ok? ==>
      var s := Arg(c, args, i, nomore, toInt).value;
      Consistent(s.c) && Scan(c, args, i, nomore, toInt) == Scan(s.c, args, s.last + 1, s.nomore, toInt)
  {
    if Arg(c, args, i, nomore, toInt).Ok? {
      FixedConsistent(c, Arg(c, args, i, nomore, toInt).value.c);
    }
  }

  /** doCommandLine: the application name and version, then the argument loop from argv[1]. */
  function ParseCommandLine(c: Config, args: seq<seq<char>>, version: seq<char>,
                       toInt: seq<char> -> Option<int>): (r: Result<Config>)
    requires Consistent(c) && |args| >= 1
    ensures r.Ok? ==> Fixed(r.value) == Fixed(c) && |r.value.vals| == |c.vals|
  {
    match Named(c, args, version)
    case Err(e) => Err(e)
    case Ok(c2) =>
      FixedConsistent(c, c2);
      Scan(c2, args, 1, false, toInt)
  }

  /** The start of doCommandLine: the file name part of argv[0] and the version become option values. */
  function Named(c: Config, args: seq<seq<char>>, version: seq<char>): (r: Result<Config>)
    requires Consistent(c) && |args| >= 1
    ensures r.Ok? <==> "application-name" in c.names && "application-version" in c.names
    ensures r.Ok? ==> Fixed(r.value) == Fixed(c) && |r.value.vals| == |c.vals|
    ensures r.Ok? ==> r.value.vals[c.names["application-version"]].stringValue == version
  {
    if "application-name" !in c.names || "application-version" !in c.names then Err(IndexOutOfRange)
    else
      var kn := c.names["application-name"];
      var kv := c.names["application-version"];
      var c1 := c.(vals := c.vals[kn := c.vals[kn].(stringValue := ExtractFilename(CStr(args[0])))]);
      Ok(c1.(vals := c1.vals[kv := c1.vals[kv].(stringValue := version)]))
  }

  /** Parameters collected one at a time add up to Rest. */
  lemma RestStep(c: Config, args: seq<seq<char>>, i: nat)
    requires i < |args|
    ensures AddParam(c, CStr(args[i])).params + Rest(args, i + 1) == c.params + Rest(args, i)
  {
    assert c.params + [CStr(args[i])] + Rest(args, i + 1) == c.params + ([CStr(args[i])] + Rest(args, i + 1));
  }

  /** An argument that is not scanned as an option is the next parameter. */
  lemma ScanParam(c: Config, args: seq<seq<char>>, i: nat, nomore: bool, toInt: seq<char> -> Option<int>)
    requires Consistent(c) && i < |args| && !IsOption(c.ignoreNegnum, CStr(args[i]), nomore)
    ensures Scan(c, args, i, nomore, toInt) == Scan(AddParam(c, CStr(args[i])), args, i + 1, nomore, toInt)
  {
    assert Arg(c, args, i, nomore, toInt) == Ok(Step(AddParam(c, CStr(args[i])), i, nomore));
  }

  /** Arguments that do not start with '-' are the parameters, in order, and set nothing. */
  lemma {:induction false} PlainArguments(c: Config, args: seq<seq<char>>, i: nat, nomore: bool,
                                          toInt: seq<char> -> Option<int>)
    requires Consistent(c) && i <= |args|
    requires forall k :: i <= k < |args| ==> CharAt(CStr(args[k]), 0) != '-'
    ensures Scan(c, args, i, nomore, toInt) == Ok(c.(params := c.params + Rest(args, i)))
    decreases |args| - i
  {
    if i < |args| {
      var c' := AddParam(c, CStr(args[i]));
      ScanParam(c, args, i, nomore, toInt);
      PlainArguments(c', args, i + 1, nomore, toInt);
      RestStep(c, args, i);
    } else {
      assert c.params + Rest(args, i) == c.params;
    }
  }

  /** After "--" under stopat--, every argument is a parameter. */
  lemma {:induction false} NoMoreOptions(c: Config, args: seq<seq<char>>, i: nat, toInt: seq<char> -> Option<int>)
    requires Consistent(c) && i <= |args|
    ensures Scan(c, args, i, true, toInt) == Ok(c.(params := c.params + Rest(args, i)))
    decreases |args| - i
  {
    if i < |args| {
      var c' := AddParam(c, CStr(args[i]));
      ScanParam(c, args, i, true, toInt);
      NoMoreOptions(c', args, i + 1, toInt);
      RestStep(c, args, i);
    } else {
      assert c.params + Rest(args, i) == c.params;
    }
  }

  /**
   * "--" ends option scanning only with stopat--: then the rest are
   * parameters (with "--" itself unless remove--); otherwise it is dropped.
   */
  lemma DoubleDash(c: Config, args: seq<seq<char>>, i: nat, toInt: seq<char> -> Option<int>)
    requires Consistent(c) && i < |args| && CStr(args[i]) == "--"
    ensures c.stopAtDd ==> (Scan(c, args, i, false, toInt) ==
      Ok(c.(params := c.params + (if c.removeDd then [] else ["--"]) + Rest(args, i + 1))))
    ensures !c.stopAtDd ==> Scan(c, args, i, false, toInt) == Scan(c, args, i + 1, false, toInt)
  {
    if c.stopAtDd {
      var c' := if c.removeDd then c else AddParam(c, "--");
      assert Arg(c, args, i, false, toInt) == Ok(Step(c', i, true));
      NoMoreOptions(c', args, i + 1, toInt);
      if !c.removeDd {
        assert c.params + ["--"] + Rest(args, i + 1) == c'.params + Rest(args, i + 1);
      } else {
        assert c.params + [] == c.params;
      }
    } else {
      assert Arg(c, args, i, false, toInt) == Ok(Step(c, i, false));
    }
  }

  // ------------------------------------------------------------------
  // The TAppConfig object
  // ------------------------------------------------------------------

  /** The item constructor: setComp on every component, then validate. */
  method MakeItem(line: seq<char>, privat: bool, toInt: seq<char> -> Option<int>) returns (r: Result<Item>)
    ensures r == ItemOf(line, privat, toInt)
  {
    var comps := Words.Split(line, ",", true, false);
    var d := Blank;
    for i := 0 to |comps|
      invariant ApplyComps(Blank, comps, privat) == ApplyComps(d, comps[i..], privat)
    {
      var a := Words.Split(comps[i], "=", true, true);
      assert comps[i..][0] == comps[i] && comps[i..][1..] == comps[i + 1..];
      var s := SetComp(d, a, privat);
      if s.Err? {
        return Err(s.error);
      }
      d := s.value;
    }
    assert comps[|comps|..] == [];
    r := Validate(d, toInt);
  }

  class App {
    var descs: seq<Desc>
    var vals: seq<Value>
    var names: map<seq<char>, nat>
    var aliases: map<seq<char>, nat>
    var chars: map<char, nat>
    var params: seq<seq<char>>
    var onlyCl: bool
    var stopAtDd: bool
    var removeDd: bool
    var ignoreNegnum: bool
    var usage: seq<char>
    var commonHead: seq<char>
    var trailer: seq<char>

    /** The fields as a Config. */
    function State(): Config
      reads this
    {
      Config(descs, vals, names, aliases, chars, params, onlyCl, stopAtDd, removeDd,
             ignoreNegnum, usage, commonHead, trailer)
    }

    /** The part of the constructor before the lists: empty registries, flags off. */
    constructor ()
      ensures State() == Empty
    {
      descs, vals, params := [], [], [];
      names, aliases, chars := map[], map[], map[];
      onlyCl, stopAtDd, removeDd, ignoreNegnum := false, false, false, false;
      usage, commonHead, trailer := [], [], [];
    }

    /** TAppConfig::setComp: one component of a meta line. */
    method SetComp(a: seq<seq<char>>) returns (r: Result<()>)
      modifies this
      ensures r.Ok? <==> MetaComp(old(State()), a).Ok?
      ensures r.Ok? ==> State() == MetaComp(old(State()), a).value
    {
      if |a| == 1 && AllSpace(a[0]) {
        return Ok(());
      }
      if |a| == 0 {
        return Err(IndexOutOfRange);
      }
      var comp := a[0];
      var p := if |a| > 1 then Unquote.UnquoteFixed(a[1], true, true) else [];
      if |a| > 2 {
        return Err(FatalError);
      }
      r := SetMeta(comp, p);
    }

    /** The assignment part of setComp. */
    method SetMeta(comp: seq<char>, p: seq<char>) returns (r: Result<()>)
      modifies this
      ensures r.Ok? <==> MetaSet(old(State()), comp, p).Ok?
      ensures r.Ok? ==> State() == MetaSet(old(State()), comp, p).value
    {
      r := Ok(());
      if comp == "usage" {
        usage := p;
      } else if comp == "commonheadline" {
        commonHead := p;
      } else if comp == "trailer" {
        trailer := p;
      } else if comp == "onlycl" {
        onlyCl := true;
      } else if comp == "stopat--" {
        stopAtDd := true;
      } else if comp == "remove--" {
        removeDd := true;
      } else if comp == "ignore_negnum" {
        ignoreNegnum := true;
      } else {
        r := Err(FatalError);
      }
    }

    /** doMetaChar: setComp on each ','-separated component, split at '='. */
    method DoMetaChar(str: seq<char>) returns (r: Result<()>)
      modifies this
      ensures r.Ok? <==> Metas(old(State()), Words.SplitOf(str, ",", true, false)).Ok?
      ensures r.Ok? ==> State() == Metas(old(State()), Words.SplitOf(str, ",", true, false)).value
    {
      var comps := Words.Split(str, ",", true, false);
      for i := 0 to |comps|
        invariant Metas(old(State()), comps) == Metas(State(), comps[i..])
      {
        var a := Words.Split(comps[i], "=", true, true);
        assert comps[i..][0] == comps[i] && comps[i..][1..] == comps[i + 1..];
        r := SetComp(a);
        if r.Err? {
          return;
        }
      }
      assert comps[|comps|..] == [];
      return Ok(());
    }

    /** The alias loop of addConfigItems. */
    method RegisterAliases(al: seq<seq<char>>, n: nat) returns (r: Result<()>)
      modifies this
      ensures r.Ok? <==> Aliases(old(State()), al, n).Ok?
      ensures r.Ok? ==> State() == Aliases(old(State()), al, n).value
    {
      for i := 0 to |al|
        invariant Aliases(old(State()), al, n) == Aliases(State(), al[i..], n)
      {
        assert al[i..][0] == al[i] && al[i..][1..] == al[i + 1..];
        var a := al[i];
        if |a| == 2 && a[0] == '-' {
          if a[1] in chars {
            return Err(FatalError);
          }
          chars := chars[a[1] := n];
        } else {
          if a in aliases {
            return Err(FatalError);
          }
          aliases := aliases[a := n];
        }
      }
      assert al[|al|..] == [];
      return Ok(());
    }

    /** The name and char name registration of addConfigItems. */
    method ClaimNames(s: Draft, n: nat) returns (r: Result<()>)
      modifies this
      ensures r.Ok? <==> Claim(old(State()), s, n).Ok?
      ensures r.Ok? ==> State() == Claim(old(State()), s, n).value
    {
      if s.name in names {
        return Err(FatalError);
      }
      names := names[s.name := n];
      if s.charName != [] {
        if s.charName[0] in chars {
          return Err(FatalError);
        }
        chars := chars[s.charName[0] := n];
      }
      return Ok(());
    }

    /** The registration part of the addConfigItems loop for one option. */
    method RegisterItem(it: Item) returns (r: Result<()>)
      requires Consistent(State())
      modifies this
      ensures r.Ok? <==> Register(old(State()), it).Ok?
      ensures r.Ok? ==> State() == Register(old(State()), it).value
    {
      var n := |descs|;
      r := ClaimNames(it.d.src, n);
      if r.Err? {
        return;
      }
      r := RegisterAliases(it.d.src.alias, n);
      if r.Err? {
        return;
      }
      descs := descs + [Headline(State(), it.d)];
      vals := vals + [it.v];
    }

    /** The body of the addConfigItems loop for a line other than a terminator. */
    method AddConfigLine(l: seq<char>, privat: bool, toInt: seq<char> -> Option<int>) returns (r: Result<()>)
      requires Consistent(State())
      modifies this
      ensures r.Ok? <==> AddLine(old(State()), l, privat, toInt).Ok?
      ensures r.Ok? ==> State() == AddLine(old(State()), l, privat, toInt).value
    {
      if |l| < 7 {
        return Err(FatalError);
      }
      if l[0] == '#' {
        r := DoMetaChar(l[1..]);
        return;
      }
      var it := MakeItem(l, privat, toInt);
      if it.Err? {
        return Err(it.error);
      }
      if onlyCl && it.value.d.src.configOpt {
        return Ok(());
      }
      r := RegisterItem(it.value);
    }

    /** One pass of the addConfigItems loop as progress of AddItems: done at the terminator. */
    method NextLine(list: seq<seq<char>>, k: nat, privat: bool, toInt: seq<char> -> Option<int>) returns (r: Result<()>, done: bool)
      requires Consistent(State())
      modifies this
      ensures r.Err? ==> AddItems(old(State()), list, k, privat, toInt).Err?
      ensures r.Ok? && done ==> AddItems(old(State()), list, k, privat, toInt) == Ok(State())
      ensures r.Ok? && !done ==> (k < |list| && Consistent(State()) &&
        AddItems(old(State()), list, k, privat, toInt) == AddItems(State(), list, k + 1, privat, toInt))
    {
      if k >= |list| {
        return Err(FatalError), true;
      }
      var l := CStr(list[k]);
      if l == "EOL" || l == "#EOL" || l == [] {
        return Ok(()), true;
      }
      r := AddConfigLine(l, privat, toInt);
      done := false;
    }

    /** addConfigItems: the list up to its terminator, each line a meta line or an option. */
    method AddConfigItems(list: seq<seq<char>>, privat: bool, toInt: seq<char> -> Option<int>) returns (r: Result<()>)
      requires Consistent(State())
      modifies this
      ensures r.Ok? <==> AddItems(old(State()), list, 0, privat, toInt).Ok?
      ensures r.Ok? ==> State() == AddItems(old(State()), list, 0, privat, toInt).value
    {
      var k := 0;
      while true
        invariant Consistent(State())
        invariant AddItems(old(State()), list, 0, privat, toInt) == AddItems(State(), list, k, privat, toInt)
        decreases |list| - k
      {
        var done;
        r, done := NextLine(list, k, privat, toInt);
        if r.Err? || done {
          return;
        }
        k := k + 1;
      }
    }

    /** getName. */
    method GetName(str: seq<char>, prefix: seq<char>) returns (r: Result<seq<char>>)
      requires Consistent(State())
      ensures r == NameOf(State(), str, prefix)
    {
      if |str| == 0 {
        return Err(FatalError);
      }
      if str in aliases {
        return Ok(descs[aliases[str]].src.name);
      }
      if |str| == 1 && prefix != "--" {
        if str[0] !in chars {
          return Err(UserError);
        }
        return Ok(descs[chars[str[0]]].src.name);
      }
      if str in names {
        return Ok(str);
      }
      var found: seq<seq<char>> := [];
      for i := 0 to |descs|
        invariant found == Found(descs[..i], str)
      {
        assert descs[..i + 1][..i] == descs[..i];
        if HasPrefix(descs[i].src.name, str) && !descs[i].src.onlyApp {
          found := found + [descs[i].src.name];
        }
      }
      assert descs[..|descs|] == descs;
      if |found| == 0 {
        return Err(UserError);
      }
      if |found| == 1 {
        return Ok(found[0]);
      }
      return Err(UserError);
    }

    /** setValue on option k from the command line. */
    method TakeValue(k: nat, par: seq<char>, j: nat, toInt: seq<char> -> Option<int>) returns (r: Result<nat>)
      requires k < |descs| && |vals| == |descs|
      modifies this
      ensures r.Ok? <==> Take(old(State()), k, par, j, toInt).Ok?
      ensures r.Ok? ==> State() == Take(old(State()), k, par, j, toInt).value.0 && r.value == j
    {
      var s := SetValue(descs[k], vals[k], par, CommandLine, toInt);
      if s.Err? {
        return Err(s.error);
      }
      vals := vals[k := s.value];
      return Ok(j);
    }

    /** The long-option branch of doCommandLine; answers the index of the last argument used. */
    method LongOpt(args: seq<seq<char>>, i: nat, toInt: seq<char> -> Option<int>) returns (r: Result<nat>)
      requires Consistent(State()) && i < |args|
      requires CharAt(CStr(args[i]), 0) == '-' && CharAt(CStr(args[i]), 1) == '-'
      modifies this
      ensures r.Ok? <==> LongOption(old(State()), args, i, toInt).Ok?
      ensures r.Ok? ==> (State(), r.value) == LongOption(old(State()), args, i, toInt).value
    {
      var a := CStr(args[i]);
      var eq := FirstOccurence(a, '=');
      var n := if eq == -1 then a[2..] else a[2..eq];
      if n == [] {
        return Err(UserError);
      }
      var name := GetName(n, "--");
      if name.Err? {
        return Err(name.error);
      }
      var k := names[name.value];
      var d := descs[k];
      if d.kind == Switch {
        r := TakeValue(k, if eq != -1 then "t" else [], i, toInt);
      } else if eq != -1 {
        r := TakeValue(k, a[eq + 1..], i, toInt);
      } else if d.src.optionalParam {
        r := TakeValue(k, d.src.def, i, toInt);
      } else if i + 1 < |args| {
        r := TakeValue(k, CStr(args[i + 1]), i + 1, toInt);
      } else {
        r := Err(UserError);
      }
    }

    /** The short-option branch of doCommandLine; answers the index of the last argument used. */
    method ShortOpts(args: seq<seq<char>>, i: nat, toInt: seq<char> -> Option<int>) returns (r: Result<nat>)
      requires Consistent(State()) && i < |args| && 1 <= |CStr(args[i])|
      modifies this
      ensures r.Ok? <==> Cluster(old(State()), args, i, 1, toInt).Ok?
      ensures r.Ok? ==> (State(), r.value) == Cluster(old(State()), args, i, 1, toInt).value
    {
      var a := CStr(args[i]);
      var p := 1;
      while p < |a|
        invariant 1 <= p <= |a| && Consistent(State())
        invariant Cluster(old(State()), args, i, 1, toInt) == Cluster(State(), args, i, p, toInt)
        decreases |a| - p
      {
        if a[p] !in chars {
          return Err(UserError);
        }
        var k := chars[a[p]];
        if descs[k].kind != Switch {
          if p + 1 < |a| {
            r := TakeValue(k, a[p + 1..], i, toInt);
          } else if i + 1 < |args| {
            r := TakeValue(k, CStr(args[i + 1]), i + 1, toInt);
          } else {
            r := Err(UserError);
          }
          return;
        }
        ghost var before := State();
        r := TakeValue(k, [], i, toInt);
        if r.Err? {
          return;
        }
        FixedConsistent(before, State());
        p := p + 1;
      }
      return Ok(i);
    }

    /** One pass of the argument loop of doCommandLine; answers the index of the last argument used and the new nomoreoptions. */
    method Argument(args: seq<seq<char>>, i: nat, nomore: bool, toInt: seq<char> -> Option<int>)
      returns (r: Result<()>, last: nat, nomore': bool)
      requires Consistent(State()) && i < |args|
      modifies this
      ensures r.Ok? <==> Arg(old(State()), args, i, nomore, toInt).Ok?
      ensures r.Ok? ==> Step(State(), last, nomore') == Arg(old(State()), args, i, nomore, toInt).value
    {
      var a := CStr(args[i]);
      r, last, nomore' := Ok(()), i, nomore;
      if IsOption(ignoreNegnum, a, nomore) {
        if CharAt(a, 1) == NUL {
          params := params + [a];
        } else if a[1] == '-' {
          if CharAt(a, 2) == NUL {
            if stopAtDd {
              nomore' := true;
              if !removeDd {
                params := params + [a];
              }
            }
          } else {
            var j := LongOpt(args, i, toInt);
            if j.Err? {
              return Err(j.error), i, nomore;
            }
            last := j.value;
          }
        } else {
          var j := ShortOpts(args, i, toInt);
          if j.Err? {
            return Err(j.error), i, nomore;
          }
          last := j.value;
        }
      } else {
        params := params + [a];
      }
    }

    /** One pass of the argument loop as progress of Scan: the index of the next argument and the new nomoreoptions. */
    method NextArgument(args: seq<seq<char>>, i: nat, nomore: bool, toInt: seq<char> -> Option<int>)
      returns (r: Result<()>, next: nat, nomore': bool)
      requires Consistent(State()) && i < |args|
      modifies this
      ensures r.Err? ==> Scan(old(State()), args, i, nomore, toInt).Err?
      ensures r.Ok? ==> (Consistent(State()) && i < next &&
        Scan(old(State()), args, i, nomore, toInt) == Scan(State(), args, next, nomore', toInt))
    {
      ScanStep(State(), args, i, nomore, toInt);
      var last;
      r, last, nomore' := Argument(args, i, nomore, toInt);
      next := last + 1;
    }

    /** The start of doCommandLine: application name and version. */
    method SetNames(args: seq<seq<char>>, version: seq<char>) returns (r: Result<()>)
      requires Consistent(State()) && |args| >= 1
      modifies this
      ensures r.Ok? <==> Named(old(State()), args, version).Ok?
      ensures r.Ok? ==> State() == Named(old(State()), args, version).value
    {
      if "application-name" !in names || "application-version" !in names {
        return Err(IndexOutOfRange);
      }
      var kn := names["application-name"];
      vals := vals[kn := vals[kn].(stringValue := ExtractFilename(CStr(args[0])))];
      var kv := names["application-version"];
      vals := vals[kv := vals[kv].(stringValue := version)];
      return Ok(());
    }

    /** doCommandLine: the application name and version, then every argument from argv[1] on. */
    method DoCommandLine(args: seq<seq<char>>, version: seq<char>, toInt: seq<char> -> Option<int>) returns (r: Result<()>)
      requires Consistent(State()) && |args| >= 1
      modifies this
      ensures r.Ok? <==> ParseCommandLine(old(State()), args, version, toInt).Ok?
      ensures r.Ok? ==> State() == ParseCommandLine(old(State()), args, version, toInt).value
    {
      ParseStart(State(), args, version, toInt);
      r := SetNames(args, version);
      if r.Err? {
        return;
      }
      var i: nat := 1;
      var nomore := false;
      while i < |args|
        invariant Consistent(State())
        invariant ParseCommandLine(old(State()), args, version, toInt) == Scan(State(), args, i, nomore, toInt)
        decreases |args| - i
      {
        r, i, nomore := NextArgument(args, i, nomore, toInt);
        if r.Err? {
          return;
        }
      }
      return Ok(());
    }

    /** TAppConfig::setValue(name, int): setValueFromApp on the named option. */
    method SetInt(n: seq<char>, i: int) returns (r: Result<bool>)
      requires Consistent(State())
      modifies this
      ensures n !in old(names) ==> r == Err(FatalError)
      ensures n in old(names) ==>
        var k := old(names)[n];
        var s := SetValueFromApp(old(descs)[k], old(vals)[k], i);
        (r.Ok? <==> s.Ok?) && (r.Ok? ==> r.value == s.value.1 && vals == old(vals)[k := s.value.0])
      ensures Fixed(State()) == Fixed(old(State())) && params == old(params)
    {
      if n !in names {
        return Err(FatalError);
      }
      var k := names[n];
      var s := SetValueFromApp(descs[k], vals[k], i);
      if s.Err? {
        return Err(s.error);
      }
      vals := vals[k := s.value.0];
      return Ok(s.value.1);
    }
  }

  /** The meta components change no registry. */
  lemma FixedMetas(c: Config, c': Config, comps: seq<seq<char>>)
    requires Consistent(c) && Metas(c, comps) == Ok(c')
    ensures Consistent(c')
  {
    assert c'.descs == c.descs && c'.vals == c.vals && c'.names == c.names;
    assert c'.aliases == c.aliases && c'.chars == c.chars;
  }
}
