/** The command line of SearchIndex.java: the flag parser and validator of main, the
    rule that sends each line of a query file to the one-word or the many-word search,
    and extractFileName. */
module CommandLine {
  import opened Wrappers
  import opened Text

  const MinInt: int := -0x8000_0000
  const MaxInt: int := 0x7FFF_FFFF

  /** The variables of -SEARCH: hasSearch, search, isWord, isWords and fileInput. */
  datatype SearchFlags = SearchFlags(has: bool, target: string, isWord: bool, isWords: bool, fileInput: bool)

  /** The variables of -PRINT_INDEX: hasPrint, print and printWord. */
  datatype PrintFlags = PrintFlags(has: bool, target: string, printWord: bool)

  /** The variables of -dir, -output and -printOutput. */
  datatype Paths = Paths(dir: string, output: string, printOutput: string)

  /** The local variables main sets while it reads its flags, grouped by flag. */
  datatype Settings = Settings(length: int, graphic: int, paths: Paths,
                               search: SearchFlags, printIndex: PrintFlags, help: bool, stemmed: bool)

  /** The values before the first flag is read (SearchIndex.java:23-40). */
  const Defaults: Settings := Settings(5, 0, Paths("./Corpus", "./output.txt", "./printOutput.txt"),
    SearchFlags(false, "", true, false, false), PrintFlags(false, "", false), false, false)

  /** How the parsing loop ends: it runs out of flags; or a flag sets error and breaks;
      or a -SEARCH or -PRINT_INDEX flag reads the argument after the last one, which
      throws ArrayIndexOutOfBoundsException. */
  datatype Parsed = Done(settings: Settings) | Error(settings: Settings) | OutOfBounds

  // ---------------------------------------------------------------------------------
  // Integer.parseInt
  // ---------------------------------------------------------------------------------

  /** The value of s read as decimal digits, most significant first, or None when s has
      a character that is not a digit. */
  function Digits(s: string): Option<nat> {
    if s == [] then Some(0)
    else if !IsDigit(s[|s| - 1]) then None
    else
      match Digits(s[..|s| - 1])
      case None => None
      case Some(v) => Some(v * 10 + (s[|s| - 1] as int - '0' as int))
  }

  /** Integer.parseInt on ASCII decimal strings: an optional '-' or '+', then one or more
      digits, with a value that fits 32 bits; anything else is a NumberFormatException
      (None). */
  function ParseInt(s: string): (r: Option<int>)
    ensures r.Some? ==> MinInt <= r.value <= MaxInt
    ensures r.Some? ==> s != [] && (r.value < 0 ==> s[0] == '-')
  {
    if s == [] then None
    else
      var digits := if s[0] == '-' || s[0] == '+' then s[1..] else s;
      if digits == [] then None
      else
        match Digits(digits)
        case None => None
        case Some(d) =>
          var v: int := if s[0] == '-' then -(d as int) else d;
          if MinInt <= v <= MaxInt then Some(v) else None
  }

  /** The decimal digits of n, most significant first, without leading zeros. */
  function Decimal(n: nat): (r: string)
    ensures r != [] && IsDigit(r[0])
  {
    var last := ['0' + (n % 10) as char];
    if n < 10 then last else Decimal(n / 10) + last
  }

  /** Reading the decimal digits of n gives back n. */
  lemma {:induction false} DigitsOfDecimal(n: nat)
    ensures Digits(Decimal(n)) == Some(n)
  {
    var s := Decimal(n);
    if n >= 10 {
      assert s[..|s| - 1] == Decimal(n / 10);
      DigitsOfDecimal(n / 10);
    }
  }

  /** parseInt reads back every 32-bit value written in decimal, with a '-' when negative. */
  lemma ParseIntOfDecimal(n: int)
    requires MinInt <= n <= MaxInt
    ensures ParseInt(if n < 0 then "-" + Decimal(-n) else Decimal(n)) == Some(n)
  {
    if n < 0 {
      DigitsOfDecimal(-n);
      assert ("-" + Decimal(-n))[1..] == Decimal(-n);
    } else {
      DigitsOfDecimal(n);
    }
  }

  /** A number past the largest int is refused. */
  lemma ParseIntOverflow(n: nat)
    requires n > MaxInt
    ensures ParseInt(Decimal(n)) == None
  {
    DigitsOfDecimal(n);
  }

  /** A number below the smallest int is refused. */
  lemma ParseIntUnderflow(n: nat)
    requires n > -MinInt
    ensures ParseInt("-" + Decimal(n)) == None
  {
    DigitsOfDecimal(n);
    assert ("-" + Decimal(n))[1..] == Decimal(n);
  }

  /** The first '=' of key + "=" + value, when key has none, is the one after key. */
  lemma IndexOfSeparator(key: string, value: string)
    requires '=' !in key
    ensures IndexOf(key + "=" + value, '=') == |key|
    ensures (key + "=" + value)[..|key|] == key && (key + "=" + value)[|key| + 1..] == value
  {
    var s := key + "=" + value;
    var r := IndexOf(s, '=');
    assert s[|key|] == '=';
  }

  // ---------------------------------------------------------------------------------
  // The parsing loop of main
  // ---------------------------------------------------------------------------------

  /** How one flag leaves the loop: it continues with the new settings, having used
      `used` arguments, or it sets error and breaks, or it reads past the end. */
  datatype Step = Next(settings: Settings, used: nat) | Break(settings: Settings) | PastEnd

  /** The search variables after -SEARCH=kind, before its target is read
      (SearchIndex.java:60-73), or None for an unknown kind. */
  function SearchKind(f: SearchFlags, kind: string): Option<SearchFlags> {
    if kind == "WORD" then Some(f.(isWord := true))
    else if kind == "DOC" then Some(f.(isWord := false))
    else if kind == "WORDS" then Some(f.(isWord := false, isWords := true))
    else if kind == "FILE" then Some(f.(fileInput := true, isWord := false))
    else None
  }

  /** The print variables after -PRINT_INDEX=kind, before its target is read
      (SearchIndex.java:81-88), or None for an unknown kind. */
  function PrintKind(f: PrintFlags, kind: string): Option<PrintFlags> {
    if kind == "WORD" then Some(f.(printWord := true))
    else if kind == "DOC" then Some(f.(printWord := false))
    else None
  }

  /** The flag key=value applied to st, where next is the argument after it, if any
      (SearchIndex.java:58-121). */
  function ApplyKeyed(st: Settings, key: string, value: string, next: Option<string>): (r: Step)
    ensures r.Next? ==> 1 <= r.used <= 2 && (r.used == 2 ==> next.Some?)
  {
    if key == "-SEARCH" then
      // hasSearch is set before the kind is checked.
      var f := st.search.(has := true);
      match SearchKind(f, value)
      case None => Break(st.(search := f))
      case Some(f') => if next.Some? then Next(st.(search := f'.(target := next.value)), 2) else PastEnd
    else if key == "-dir" then Next(st.(paths := st.paths.(dir := value)), 1)
    else if key == "-output" then Next(st.(paths := st.paths.(output := value)), 1)
    else if key == "-PRINT_INDEX" then
      var f := st.printIndex.(has := true);
      match PrintKind(f, value)
      case None => Break(st.(printIndex := f))
      case Some(f') => if next.Some? then Next(st.(printIndex := f'.(target := next.value)), 2) else PastEnd
    else if key == "-printOutput" then Next(st.(paths := st.paths.(printOutput := value)), 1)
    else if key == "-len" then SetLength(st, ParseInt(value))
    else if key == "-graphic" then SetGraphic(st, ParseInt(value))
    else Break(st)
  }

  /** -len=n: n must be a number >= 0 (SearchIndex.java:92-104). */
  function SetLength(st: Settings, n: Option<int>): Step {
    match n
    case None => Break(st)
    case Some(n) => if n < 0 then Break(st.(length := n)) else Next(st.(length := n), 1)
  }

  /** -graphic=n: n must be a number in 0..2 (SearchIndex.java:105-116). */
  function SetGraphic(st: Settings, n: Option<int>): Step {
    match n
    case None => Break(st)
    case Some(n) => if n > 2 || n < 0 then Break(st.(graphic := n)) else Next(st.(graphic := n), 1)
  }

  /** The flag args[i] applied to st (the body of the loop, SearchIndex.java:45-122). */
  function ApplyFlag(args: seq<string>, i: nat, st: Settings): (r: Step)
    requires i < |args|
    ensures r.Next? ==> 1 <= r.used <= |args| - i
  {
    var flag := args[i];
    if flag == "-h" then Next(st.(help := true), 1)
    else if flag == "-s" then Next(st.(stemmed := true), 1)
    else
      var eq := IndexOf(flag, '=');
      if eq < 0 then Break(st)
      else ApplyKeyed(st, flag[..eq], flag[eq + 1..], if i + 1 < |args| then Some(args[i + 1]) else None)
  }

  /** The loop from argument i with settings st: it reads flags while the next argument
      starts with "-". */
  function ParseFrom(args: seq<string>, i: nat, st: Settings): Parsed
    requires i <= |args|
    decreases |args| - i
  {
    if i == |args| || !StartsWith(args[i], "-") then Done(st)
    else
      match ApplyFlag(args, i, st)
      case Next(st', used) => ParseFrom(args, i + used, st')
      case Break(st') => Error(st')
      case PastEnd => OutOfBounds
  }

  function Parse(args: seq<string>): Parsed {
    ParseFrom(args, 0, Defaults)
  }

  /** The branches of the loop body for a flag key=value (SearchIndex.java:58-121), where
      args[i] is the argument after the flag: -SEARCH and -PRINT_INDEX read it as their
      target. */
  method ApplyKeyedFlag(args: seq<string>, i: nat, st: Settings, key: string, value: string) returns (step: Step)
    requires i <= |args|
    ensures step == ApplyKeyed(st, key, value, if i < |args| then Some(args[i]) else None)
  {
    if key == "-SEARCH" {
      var f := st.search.(has := true);
      if value == "WORD" {
        f := f.(isWord := true);
      } else if value == "DOC" {
        f := f.(isWord := false);
      } else if value == "WORDS" {
        f := f.(isWord := false, isWords := true);
      } else if value == "FILE" {
        f := f.(fileInput := true, isWord := false);
      } else {
        return Break(st.(search := f));
      }
      if i == |args| {
        return PastEnd;
      }
      return Next(st.(search := f.(target := args[i])), 2);
    } else if key == "-dir" {
      return Next(st.(paths := st.paths.(dir := value)), 1);
    } else if key == "-output" {
      return Next(st.(paths := st.paths.(output := value)), 1);
    } else if key == "-PRINT_INDEX" {
      var f := st.printIndex.(has := true);
      if value == "WORD" {
        f := f.(printWord := true);
      } else if value == "DOC" {
        f := f.(printWord := false);
      } else {
        return Break(st.(printIndex := f));
      }
      if i == |args| {
        return PastEnd;
      }
      return Next(st.(printIndex := f.(target := args[i])), 2);
    } else if key == "-printOutput" {
      return Next(st.(paths := st.paths.(printOutput := value)), 1);
    } else if key == "-len" {
      var n := ParseInt(value);
      if n.None? {
        return Break(st);
      }
      if n.value < 0 {
        return Break(st.(length := n.value));
      }
      return Next(st.(length := n.value), 1);
    } else if key == "-graphic" {
      var n := ParseInt(value);
      if n.None? {
        return Break(st);
      }
      if n.value > 2 || n.value < 0 {
        return Break(st.(graphic := n.value));
      }
      return Next(st.(graphic := n.value), 1);
    } else {
      return Break(st);
    }
  }

  /** One turn of the loop body for the flag args[i] (SearchIndex.java:45-122). */
  method ApplyFlagStep(args: seq<string>, i: nat, st: Settings) returns (step: Step)
    requires i < |args|
    ensures step == ApplyFlag(args, i, st)
  {
    var flag := args[i];
    if flag == "-h" {
      return Next(st.(help := true), 1);
    } else if flag == "-s" {
      return Next(st.(stemmed := true), 1);
    }
    var equalIndex := IndexOf(flag, '=');
    if equalIndex < 0 {
      return Break(st);
    }
    step := ApplyKeyedFlag(args, i + 1, st, flag[..equalIndex], flag[equalIndex + 1..]);
  }

  /** The while loop of main over args (SearchIndex.java:43-124); st holds main's flag
      variables. */
  method ParseArgs(args: seq<string>) returns (r: Parsed)
    ensures r == Parse(args)
  {
    r := ParseArgsFrom(args, 0, Defaults);
  }

  /** The same loop entered at argument i0 with the variables st0. */
  method ParseArgsFrom(args: seq<string>, i0: nat, st0: Settings) returns (r: Parsed)
    requires i0 <= |args|
    ensures r == ParseFrom(args, i0, st0)
  {
    var i := i0;
    var st := st0;
    while i < |args| && StartsWith(args[i], "-")
      invariant i <= |args|
      invariant ParseFrom(args, i, st) == ParseFrom(args, i0, st0)
      decreases |args| - i
    {
      var step := ApplyFlagStep(args, i, st);
      if step.PastEnd? {
        return OutOfBounds;
      } else if step.Break? {
        // error = true; break; and then the usage text after the loop
        return Error(step.settings);
      }
      st, i := step.settings, i + step.used;
    }
    return Done(st);
  }

  // ---------------------------------------------------------------------------------
  // Validation after the loop
  // ---------------------------------------------------------------------------------

  /** A search or print target main refuses: empty, or starting with "-". */
  predicate BadTarget(target: string) {
    target == "" || StartsWith(target, "-")
  }

  /** main returns right after printing the usage text (SearchIndex.java:126-135). */
  predicate Refused(error: bool, st: Settings) {
    error || (st.search.has && BadTarget(st.search.target)) || (st.printIndex.has && BadTarget(st.printIndex.target))
  }

  /** What main does once the arguments are read: it stops with the exception, or
      refuses the command line, or goes on to build the index with these settings. */
  datatype Outcome = Crash | Usage | Proceed(settings: Settings)

  function Validate(p: Parsed): (r: Outcome)
    ensures r.Crash? <==> p.OutOfBounds?
    ensures r.Usage? <==> p.Error? || (p.Done? && Refused(false, p.settings))
    ensures r.Proceed? ==> p == Done(r.settings)
  {
    match p
    case OutOfBounds => Crash
    case Error(_) => Usage
    case Done(st) => if Refused(false, st) then Usage else Proceed(st)
  }

  // ---------------------------------------------------------------------------------
  // Properties of the command line
  // ---------------------------------------------------------------------------------

  /** The numeric settings main can go on with: a radius of at least 0 and a graphic
      mode in 0..2. */
  predicate Sane(st: Settings) {
    st.length >= 0 && 0 <= st.graphic <= 2
  }

  /** A key=value flag sets error exactly for an unknown key, a kind -SEARCH or
      -PRINT_INDEX does not know, or a radius or graphic mode that is not a number in
      range; it reads past the end exactly for a known kind with no argument after it. */
  lemma ApplyKeyedOutcome(st: Settings, key: string, value: string, next: Option<string>)
    ensures var r := ApplyKeyed(st, key, value, next);
      r.Break? <==>
        || key !in {"-SEARCH", "-dir", "-output", "-PRINT_INDEX", "-printOutput", "-len", "-graphic"}
        || (key == "-SEARCH" && value !in {"WORD", "DOC", "WORDS", "FILE"})
        || (key == "-PRINT_INDEX" && value !in {"WORD", "DOC"})
        || (key == "-len" && (ParseInt(value).None? || ParseInt(value).value < 0))
        || (key == "-graphic" && (ParseInt(value).None? || ParseInt(value).value < 0 || ParseInt(value).value > 2))
    ensures var r := ApplyKeyed(st, key, value, next);
      r.PastEnd? <==>
        && next.None?
        && ((key == "-SEARCH" && value in {"WORD", "DOC", "WORDS", "FILE"}) || (key == "-PRINT_INDEX" && value in {"WORD", "DOC"}))
    ensures var r := ApplyKeyed(st, key, value, next);
      r.Next? ==> r.used == (if key in {"-SEARCH", "-PRINT_INDEX"} then 2 else 1)
  {
  }

  lemma ApplyKeyedKeepsSane(st: Settings, key: string, value: string, next: Option<string>)
    requires Sane(st)
    ensures ApplyKeyed(st, key, value, next).Next? ==> Sane(ApplyKeyed(st, key, value, next).settings)
  {
  }

  lemma ApplyFlagKeepsSane(args: seq<string>, i: nat, st: Settings)
    requires i < |args| && Sane(st)
    ensures ApplyFlag(args, i, st).Next? ==> Sane(ApplyFlag(args, i, st).settings)
  {
    var flag := args[i];
    var eq := IndexOf(flag, '=');
    if flag != "-h" && flag != "-s" && eq >= 0 {
      ApplyKeyedKeepsSane(st, flag[..eq], flag[eq + 1..], if i + 1 < |args| then Some(args[i + 1]) else None);
    }
  }

  lemma {:induction false} ParseFromKeepsSane(args: seq<string>, i: nat, st: Settings)
    requires i <= |args| && Sane(st)
    ensures ParseFrom(args, i, st).Done? ==> Sane(ParseFrom(args, i, st).settings)
    decreases |args| - i
  {
    if i < |args| && StartsWith(args[i], "-") {
      var step := ApplyFlag(args, i, st);
      if step.Next? {
        assert ParseFrom(args, i, st) == ParseFrom(args, i + step.used, step.settings);
        ApplyFlagKeepsSane(args, i, st);
        ParseFromKeepsSane(args, i + step.used, step.settings);
      } else {
        assert !ParseFrom(args, i, st).Done?;
      }
    }
  }

  /** Whatever the arguments, main builds the index only with a radius >= 0, a graphic
      mode in 0..2, and a search and print target that is non-empty and not a flag
      whenever there is one. */
  lemma ProceedIsSane(args: seq<string>)
    ensures var o := Validate(Parse(args));
      o.Proceed? ==>
        && Sane(o.settings)
        && (o.settings.search.has ==> o.settings.search.target != "" && o.settings.search.target[0] != '-')
        && (o.settings.printIndex.has ==> o.settings.printIndex.target != "" && o.settings.printIndex.target[0] != '-')
  {
    ParseFromKeepsSane(args, 0, Defaults);
  }

  /** Appending arguments does not change how a flag reads, unless the flag takes the
      next argument and args has none. */
  lemma ApplyFlagExtended(args: seq<string>, rest: seq<string>, i: nat, st: Settings)
    requires i < |args|
    requires !ApplyFlag(args, i, st).PastEnd?
    ensures ApplyFlag(args + rest, i, st) == ApplyFlag(args, i, st)
  {
    var all := args + rest;
    assert all[i] == args[i];
    if i + 1 < |args| {
      assert all[i + 1] == args[i + 1];
    }
  }

  /** Parsing stops at the first argument that does not start with "-": when args is read
      without reading past its end, arguments appended after it, from an operand on, have
      no effect. */
  lemma {:induction false} ParseStopsAtOperand(args: seq<string>, rest: seq<string>, i: nat, st: Settings)
    requires i <= |args|
    requires rest != [] && !StartsWith(rest[0], "-")
    requires !ParseFrom(args, i, st).OutOfBounds?
    ensures ParseFrom(args + rest, i, st) == ParseFrom(args, i, st)
    decreases |args| - i
  {
    var all := args + rest;
    if i == |args| {
      assert all[i] == rest[0];
      assert ParseFrom(all, i, st) == Done(st);
    } else if !StartsWith(args[i], "-") {
      assert all[i] == args[i];
      assert ParseFrom(all, i, st) == Done(st);
    } else {
      assert all[i] == args[i];
      var step := ApplyFlag(args, i, st);
      ApplyFlagExtended(args, rest, i, st);
      if step.Next? {
        assert ParseFrom(args, i, st) == ParseFrom(args, i + step.used, step.settings);
        ParseStopsAtOperand(args, rest, i + step.used, step.settings);
        assert ParseFrom(all, i, st) == ParseFrom(all, i + step.used, step.settings);
      } else {
        assert step.Break?;
        assert ParseFrom(all, i, st) == Error(step.settings);
      }
    }
  }

  /** Without arguments main runs with the defaults. */
  lemma ParseEmpty()
    ensures Validate(Parse([])) == Proceed(Defaults)
  {
  }

  /** "-h" alone prints the usage text but does not stop main. */
  lemma HelpAloneProceeds()
    ensures Validate(Parse(["-h"])) == Proceed(Defaults.(help := true))
  {
  }

  /** A search flag as the last argument reads past the end of args. */
  lemma SearchWithoutTarget(kind: string)
    requires kind in {"WORD", "DOC", "WORDS", "FILE"}
    ensures Validate(Parse(["-SEARCH=" + kind])) == Crash
  {
    IndexOfSeparator("-SEARCH", kind);
    assert "-SEARCH=" + kind == "-SEARCH" + "=" + kind;
  }

  /** A radius past the largest int is refused, not wrapped around. */
  lemma LengthOverflowRefused(n: nat)
    requires n > MaxInt
    ensures Validate(Parse(["-len=" + Decimal(n)])) == Usage
  {
    IndexOfSeparator("-len", Decimal(n));
    assert "-len=" + Decimal(n) == "-len" + "=" + Decimal(n);
    ParseIntOverflow(n);
  }

  // ---------------------------------------------------------------------------------
  // Query files and output names
  // ---------------------------------------------------------------------------------

  /** extractFileName(name): the part of name before its last '.'; substring(0, -1)
      throws when name has no '.' (SearchIndex.java:260-263). */
  function ExtractFileName(name: string): (r: Option<string>)
    ensures r.None? <==> '.' !in name
    ensures r.Some? ==> |r.value| < |name| && name[|r.value|] == '.' && r.value == name[..|r.value|]
    ensures r.Some? ==> '.' !in name[|r.value| + 1..]
  {
    var k := LastIndexOf(name, '.');
    if k < 0 then None else Some(name[..k])
  }

  /** Stripping the extension of a name with one gives back its name part. */
  lemma ExtractFileNameOfExtension(base: string, ext: string)
    requires '.' !in ext
    ensures ExtractFileName(base + "." + ext) == Some(base)
  {
    var name := base + "." + ext;
    var k := LastIndexOf(name, '.');
    assert name[|base|] == '.';
    assert name[|base| + 1..] == ext;
    assert name[..|base|] == base;
  }

  /** The default output name loses its extension; a name without one in a relative
      directory loses everything after the './' instead. */
  lemma ExtractFileNameExamples()
    ensures ExtractFileName("./output.txt") == Some("./output")
    ensures ExtractFileName("./output") == Some("")
    ensures ExtractFileName("output") == None
  {
    ExtractFileNameOfExtension("./output", "txt");
    assert "./output.txt" == "./output" + "." + "txt";
    ExtractFileNameOfExtension("", "/output");
    assert "./output" == "" + "." + "/output";
  }

  /** Where a line of a query file goes (SearchIndex.java:152-158). */
  datatype LineSearch = ManyWords | OneWord | NoSearch

  function DispatchLine(line: string): (r: LineSearch)
  {
    var n := |JavaSplit(line)|;
    if n > 1 then ManyWords else if n == 1 then OneWord else NoSearch
  }

  /** Some space of the line is followed, later, by a character that is not a space. */
  predicate SpaceThenWord(s: string) {
    exists i, j | 0 <= i < j < |s| :: s[i] == ' ' && s[j] != ' '
  }

  predicate AllSpaces(s: string) {
    forall k | 0 <= k < |s| :: s[k] == ' '
  }

  /** Every piece is empty exactly when the string is all spaces. */
  lemma {:induction false} SplitPiecesEmpty(s: string)
    ensures var r := SplitOnSpace(s);
      (forall k | 0 <= k < |r| :: r[k] == []) <==> AllSpaces(s)
  {
    if s != [] {
      var rest := SplitOnSpace(s[1..]);
      var r := SplitOnSpace(s);
      SplitPiecesEmpty(s[1..]);
      assert AllSpaces(s) <==> s[0] == ' ' && AllSpaces(s[1..]) by {
        assert forall k | 1 <= k < |s| :: s[k] == s[1..][k - 1];
      }
      if s[0] == ' ' {
        assert r == [[]] + rest;
        if forall k | 0 <= k < |r| :: r[k] == [] {
          forall k | 0 <= k < |rest| ensures rest[k] == [] {
            assert rest[k] == r[k + 1];
          }
        }
        if forall k | 0 <= k < |rest| :: rest[k] == [] {
          forall k | 0 <= k < |r| ensures r[k] == [] {
            if k > 0 {
              assert r[k] == rest[k - 1];
            }
          }
        }
      } else {
        assert r[0] != [];
      }
    }
  }

  /** A space followed by a word, in terms of the first character and the rest. */
  lemma SpaceThenWordCons(s: string)
    requires s != []
    ensures SpaceThenWord(s) <==> if s[0] == ' ' then !AllSpaces(s[1..]) else SpaceThenWord(s[1..])
  {
    if SpaceThenWord(s) {
      var i, j :| 0 <= i < j < |s| && s[i] == ' ' && s[j] != ' ';
      assert s[1..][j - 1] != ' ';
      if i > 0 {
        assert s[1..][i - 1] == ' ';
      }
    }
    if s[0] == ' ' && !AllSpaces(s[1..]) {
      var j :| 0 <= j < |s| - 1 && s[1..][j] != ' ';
      assert s[0] == ' ' && s[j + 1] != ' ';
    }
    if s[0] != ' ' && SpaceThenWord(s[1..]) {
      var i, j :| 0 <= i < j < |s| - 1 && s[1..][i] == ' ' && s[1..][j] != ' ';
      assert s[i + 1] == ' ' && s[j + 1] != ' ';
    }
  }

  /** A piece after the first is non-empty exactly when a space is followed by a word. */
  lemma {:induction false} SplitPiecesLater(s: string)
    ensures var r := SplitOnSpace(s);
      (exists k | 1 <= k < |r| :: r[k] != []) <==> SpaceThenWord(s)
  {
    if s != [] {
      var rest := SplitOnSpace(s[1..]);
      var r := SplitOnSpace(s);
      SpaceThenWordCons(s);
      if s[0] == ' ' {
        SplitPiecesEmpty(s[1..]);
        assert r == [[]] + rest;
        if exists k | 1 <= k < |r| :: r[k] != [] {
          var k :| 1 <= k < |r| && r[k] != [];
          assert rest[k - 1] == r[k];
        }
        if exists k | 0 <= k < |rest| :: rest[k] != [] {
          var k :| 0 <= k < |rest| && rest[k] != [];
          assert r[k + 1] == rest[k];
        }
      } else {
        SplitPiecesLater(s[1..]);
        assert forall k | 1 <= k < |r| :: r[k] == rest[k];
      }
    }
  }

  /** A query-file line goes to the many-word search exactly when some space is followed
      by a word, and to no search exactly when it is a non-empty run of spaces; every
      other line, the empty one included, goes to the one-word search. */
  lemma DispatchLineMeaning(line: string)
    ensures DispatchLine(line) == ManyWords <==> SpaceThenWord(line)
    ensures DispatchLine(line) == NoSearch <==> line != [] && AllSpaces(line)
  {
    if ' ' in line {
      var pieces := SplitOnSpace(line);
      var r := DropTrailingEmpty(pieces);
      SplitPiecesEmpty(line);
      SplitPiecesLater(line);
      if r == [] {
        assert forall k | 0 <= k < |pieces| :: pieces[k] == [];
      }
      if |r| >= 2 {
        assert r[|r| - 1] == pieces[|r| - 1];
      }
      if exists k | 1 <= k < |pieces| :: pieces[k] != [] {
        var k :| 1 <= k < |pieces| && pieces[k] != [];
        assert k < |r|;
      }
    }
  }
}
