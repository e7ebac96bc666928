/**
 * `ArgParser`: a table of registered options (each with one or more names,
 * with or without a value), a tokenizer over `argv`, and a usage formatter;
 * plus `to_int` and the benchmark's `load_cli_settings`.
 *
 * The callbacks that `parse` fires are modelled as the recorded events they
 * receive: the option's index and its value (for options that take one).
 */
module ArgParser {
  import opened Wrappers
  import opened Text

  /** `ArgParser::Option` without its callback. */
  datatype OptionSpec = OptionSpec(names: seq<string>, takesValue: bool, valueName: string, help: string)

  /** One callback fired by `parse`: `on_value(value)` or `on_flag()`. */
  datatype Event = Event(option: nat, value: Option<string>)

  /** One token's worth of `parse`: the end marker, an exception, or a callback and the next token's index. */
  datatype TokenStep = EndOfOptions | Raised(message: string) | Fired(e: Event, next: nat)

  /** What `parse` does: the callbacks it fires, in order, then the error it throws, if any. */
  datatype ParseResult = ParseResult(events: seq<Event>, error: Option<string>)

  /** Every name in the index points at a registered option. */
  ghost predicate IndexValid(options: seq<OptionSpec>, index: map<string, nat>) {
    forall n :: n in index ==> index[n] < |options|
  }

  /** `index_` after `for (auto& n : names) index_[n] = idx;`. */
  function Registered(index: map<string, nat>, names: seq<string>, idx: nat): map<string, nat>
    decreases |names|
  {
    if |names| == 0 then index else Registered(index, names[..|names| - 1], idx)[names[|names| - 1] := idx]
  }

  // ---------------------------------------------------------------------------
  // Parsing.

  function Fail(message: string): ParseResult {
    ParseResult([], Some(message))
  }

  /** The callback `e`, then whatever parsing the rest does. */
  function Fire(e: Event, rest: ParseResult): ParseResult {
    ParseResult([e] + rest.events, rest.error)
  }

  /** `parse` from `argv[i]` on. */
  function ParseFrom(options: seq<OptionSpec>, index: map<string, nat>, argv: seq<string>, i: nat): ParseResult
    requires IndexValid(options, index)
    decreases |argv| - i
  {
    if i >= |argv| then ParseResult([], None)
    else
      var tok := argv[i];
      if tok == "--" then ParseResult([], None)
      else if StartsWith(tok, "--") then
        var eq := IndexOf(tok, '=');
        var name := if eq.None? then tok else tok[..eq.value];
        if name !in index then Fail("Unknown argument: " + name)
        else
          var o := index[name];
          if options[o].takesValue then
            if eq.Some? then
              var val := tok[eq.value + 1..];
              if val == [] then Fail("Missing value for " + name)
              else Fire(Event(o, Some(val)), ParseFrom(options, index, argv, i + 1))
            else if i + 1 >= |argv| then Fail("Missing value for " + name)
            else Fire(Event(o, Some(argv[i + 1])), ParseFrom(options, index, argv, i + 2))
          else if eq.Some? then Fail("Flag " + name + " does not take a value")
          else Fire(Event(o, None), ParseFrom(options, index, argv, i + 1))
      else if StartsWith(tok, "-") then
        if tok !in index then Fail("Unknown argument: " + tok)
        else
          var o := index[tok];
          if options[o].takesValue then
            if i + 1 >= |argv| then Fail("Missing value for " + tok)
            else Fire(Event(o, Some(argv[i + 1])), ParseFrom(options, index, argv, i + 2))
          else Fire(Event(o, None), ParseFrom(options, index, argv, i + 1))
      else Fail("Unknown positional: " + tok)
  }

  // ---------------------------------------------------------------------------
  // The usage text.

  /** The names joined by ", ". */
  function JoinNames(v: seq<string>): string
    decreases |v|
  {
    if |v| == 0 then "" else JoinNames(v[..|v| - 1]) + (if |v| > 1 then ", " else "") + v[|v| - 1]
  }

  /** The left column of an option's usage line: its names, then " VALUE_NAME" for a valued option. */
  function Label(o: OptionSpec): string {
    JoinNames(o.names) + if o.takesValue then " " + o.valueName else ""
  }

  /** `pad`: the widest label. */
  function Width(options: seq<OptionSpec>): nat
    decreases |options|
  {
    if |options| == 0 then 0
    else
      var w := Width(options[..|options| - 1]);
      var n := |Label(options[|options| - 1])|;
      if w < n then n else w
  }

  /** `std::string(n, ' ')`. */
  function Spaces(n: nat): (s: string)
    ensures |s| == n && forall i :: 0 <= i < n ==> s[i] == ' '
  {
    seq(n, _ => ' ')
  }

  /** Everything on an option's usage line before its help text. */
  function Column(o: OptionSpec, pad: nat): string {
    var lbl := Label(o);
    "  " + lbl + (if |lbl| < pad then Spaces(pad - |lbl|) else "") + "  "
  }

  /** The usage lines of `options`, each padded to `pad`. */
  function UsageLines(options: seq<OptionSpec>, pad: nat): string
    decreases |options|
  {
    if |options| == 0 then ""
    else
      var o := options[|options| - 1];
      UsageLines(options[..|options| - 1], pad) + Column(o, pad) + o.help + "\n"
  }

  function UsageText(prog: string, options: seq<OptionSpec>): string {
    "Usage: " + prog + " [options]\n\nOptions:\n" + UsageLines(options, Width(options))
  }

  /** `join_names`. */
  method Join(v: seq<string>) returns (s: string)
    ensures s == JoinNames(v)
  {
    s := "";
    var i := 0;
    while i < |v|
      invariant i <= |v| && s == JoinNames(v[..i])
    {
      assert v[..i + 1][..i] == v[..i];
      if i > 0 {
        s := s + ", ";
      }
      s := s + v[i];
      i := i + 1;
    }
    assert v[..i] == v;
  }

  /** The first loop of `usage()`: every option's label, and the widest of them. */
  method Labels(options: seq<OptionSpec>) returns (lines: seq<string>, pad: nat)
    ensures |lines| == |options| && pad == Width(options)
    ensures forall j :: 0 <= j < |options| ==> lines[j] == Label(options[j])
  {
    pad := 0;
    lines := [];
    var k := 0;
    while k < |options|
      invariant k <= |options| && |lines| == k
      invariant forall j :: 0 <= j < k ==> lines[j] == Label(options[j])
      invariant pad == Width(options[..k])
    {
      var o := options[k];
      var names := Join(o.names);
      if o.takesValue {
        names := names + " " + o.valueName;
      }
      assert options[..k + 1][..k] == options[..k];
      pad := if pad < |names| then |names| else pad;
      lines := lines + [names];
      k := k + 1;
    }
    assert options[..k] == options;
  }

  /** The second loop of `usage()`: one line per option, its help text starting at column `pad + 4`. */
  method RenderLines(options: seq<OptionSpec>, lines: seq<string>, pad: nat) returns (text: string)
    requires |lines| == |options|
    requires forall j :: 0 <= j < |options| ==> lines[j] == Label(options[j])
    ensures text == UsageLines(options, pad)
  {
    text := "";
    var i := 0;
    while i < |options|
      invariant i <= |options|
      invariant text == UsageLines(options[..i], pad)
    {
      var column := "  " + lines[i];
      if |lines[i]| < pad {
        column := column + Spaces(pad - |lines[i]|);
      }
      column := column + "  ";
      assert column == Column(options[i], pad);
      UsageLinesStep(options, i, pad);
      text := text + column + options[i].help + "\n";
      i := i + 1;
    }
    assert options[..i] == options;
  }

  lemma UsageLinesStep(options: seq<OptionSpec>, i: nat, pad: nat)
    requires i < |options|
    ensures UsageLines(options[..i + 1], pad)
         == UsageLines(options[..i], pad) + Column(options[i], pad) + options[i].help + "\n"
  {
    assert options[..i + 1][..i] == options[..i];
  }

  class Parser {
    var prog: string
    var options: seq<OptionSpec>
    var index: map<string, nat>

    ghost predicate Valid()
      reads this
    {
      IndexValid(options, index)
    }

    constructor (prog: string)
      ensures this.prog == prog && options == [] && index == map[]
      ensures Valid()
    {
      this.prog := prog;
      options := [];
      index := map[];
    }

    /** Append `opt` and point each of its names at it. */
    method Register(opt: OptionSpec)
      requires Valid()
      modifies this
      ensures options == old(options) + [opt]
      ensures index == Registered(old(index), opt.names, |old(options)|)
      ensures prog == old(prog) && Valid()
    {
      var idx := |options|;
      options := options + [opt];
      var k := 0;
      while k < |opt.names|
        invariant k <= |opt.names| && options == old(options) + [opt] && prog == old(prog)
        invariant index == Registered(old(index), opt.names[..k], idx)
        invariant Valid()
      {
        assert opt.names[..k + 1][..k] == opt.names[..k];
        index := index[opt.names[k] := idx];
        k := k + 1;
      }
      assert opt.names[..k] == opt.names;
    }

    /** `add_option`: an option that takes a value. */
    method AddOption(names: seq<string>, valueName: string, help: string)
      requires Valid()
      modifies this
      ensures options == old(options) + [OptionSpec(names, true, valueName, help)]
      ensures index == Registered(old(index), names, |old(options)|)
      ensures prog == old(prog) && Valid()
    {
      Register(OptionSpec(names, true, valueName, help));
    }

    /** `add_flag`: an option without a value. */
    method AddFlag(names: seq<string>, help: string)
      requires Valid()
      modifies this
      ensures options == old(options) + [OptionSpec(names, false, "", help)]
      ensures index == Registered(old(index), names, |old(options)|)
      ensures prog == old(prog) && Valid()
    {
      Register(OptionSpec(names, false, "", help));
    }

    /**
     * The body of `parse`'s loop for the token `argv[i]`: it ends the
     * parse (`--`), throws, or fires one callback and names the next token.
     */
    method ParseToken(argv: seq<string>, i: nat) returns (step: TokenStep)
      requires Valid() && i < |argv|
      ensures step.EndOfOptions? ==> ParseFrom(options, index, argv, i) == ParseResult([], None)
      ensures step.Raised? ==> ParseFrom(options, index, argv, i) == Fail(step.message)
      ensures step.Fired? ==>
        i < step.next &&
        ParseFrom(options, index, argv, i) == Fire(step.e, ParseFrom(options, index, argv, step.next))
    {
      var tok := argv[i];
      if tok == "--" {
        return EndOfOptions;
      }
      if StartsWith(tok, "--") {
        var eq := IndexOf(tok, '=');
        var name := if eq.None? then tok else tok[..eq.value];
        if name !in index {
          return Raised("Unknown argument: " + name);
        }
        var o := index[name];
        if options[o].takesValue {
          if eq.Some? {
            var val := tok[eq.value + 1..];
            if val == [] {
              return Raised("Missing value for " + name);
            }
            return Fired(Event(o, Some(val)), i + 1);
          }
          if i + 1 >= |argv| {
            return Raised("Missing value for " + name);
          }
          return Fired(Event(o, Some(argv[i + 1])), i + 2);
        }
        if eq.Some? {
          return Raised("Flag " + name + " does not take a value");
        }
        return Fired(Event(o, None), i + 1);
      }
      if StartsWith(tok, "-") {
        if tok !in index {
          return Raised("Unknown argument: " + tok);
        }
        var o := index[tok];
        if options[o].takesValue {
          if i + 1 >= |argv| {
            return Raised("Missing value for " + tok);
          }
          return Fired(Event(o, Some(argv[i + 1])), i + 2);
        }
        return Fired(Event(o, None), i + 1);
      }
      return Raised("Unknown positional: " + tok);
    }

    /** `parse(argc, argv)`; `argv[0]` is the program name. */
    method Parse(argv: seq<string>) returns (r: ParseResult)
      requires Valid()
      ensures r == ParseFrom(options, index, argv, 1)
    {
      var events: seq<Event> := [];
      var i := 1;
      while i < |argv|
        invariant ParseFrom(options, index, argv, 1)
               == ParseResult(events + ParseFrom(options, index, argv, i).events, ParseFrom(options, index, argv, i).error)
        decreases |argv| - i
      {
        var step := ParseToken(argv, i);
        match step
        case EndOfOptions =>
          assert events + [] == events;
          return ParseResult(events, None);
        case Raised(m) =>
          assert events + [] == events;
          return ParseResult(events, Some(m));
        case Fired(e, next) =>
          var rest := ParseFrom(options, index, argv, next);
          assert events + ([e] + rest.events) == (events + [e]) + rest.events;
          events := events + [e];
          i := next;
      }
      r := ParseResult(events, None);
      assert events + [] == events;
    }

    /** `usage()`. */
    method Usage() returns (text: string)
      ensures text == UsageText(prog, options)
    {
      var lines, pad := Labels(options);
      var body := RenderLines(options, lines, pad);
      text := "Usage: " + prog + " [options]\n\nOptions:\n" + body;
    }
  }

  // ---------------------------------------------------------------------------
  // Properties of registration and parsing.

  /** Registering maps each of the option's names to its index, overriding earlier registrations, and leaves other names alone. */
  lemma {:induction false} RegisteredNames(index: map<string, nat>, names: seq<string>, idx: nat, n: string)
    ensures n in names ==> n in Registered(index, names, idx) && Registered(index, names, idx)[n] == idx
    ensures n !in names ==> (n in Registered(index, names, idx) <==> n in index)
    ensures n !in names && n in index ==> Registered(index, names, idx)[n] == index[n]
    decreases |names|
  {
    if |names| > 0 {
      var init := names[..|names| - 1];
      RegisteredNames(index, init, idx, n);
      assert n in names <==> n in init || n == names[|names| - 1];
    }
  }

  /**
   * `--name=value`: the name is the text before the first '=', the value the
   * text after it. A valued option fires with that value, or fails when it is
   * empty; a flag given a value fails.
   */
  lemma LongOptionWithValue(options: seq<OptionSpec>, index: map<string, nat>, argv: seq<string>, i: nat, name: string, val: string)
    requires IndexValid(options, index)
    requires i < |argv| && argv[i] == name + "=" + val
    requires StartsWith(name, "--") && '=' !in name && name in index
    ensures var o := index[name];
      ParseFrom(options, index, argv, i)
      == if !options[o].takesValue then Fail("Flag " + name + " does not take a value")
         else if val == [] then Fail("Missing value for " + name)
         else Fire(Event(o, Some(val)), ParseFrom(options, index, argv, i + 1))
  {
    var tok := argv[i];
    assert tok[..|name|] == name && tok[|name|] == '=';
    assert StartsWith(tok, "--") by {
      assert tok[..2] == name[..2];
    }
    FirstIndex(tok, '=', |name|);
    var eq := IndexOf(tok, '=');
    assert tok[eq.value + 1..] == val;
  }

  /** `find` gives the first occurrence. */
  lemma FirstIndex(s: string, c: char, k: nat)
    requires k < |s| && s[k] == c && c !in s[..k]
    ensures IndexOf(s, c) == Some(k)
  {
    var r := IndexOf(s, c);
    assert c in s;
    assert forall j :: 0 <= j < k ==> s[..k][j] != c;
    assert forall j :: 0 <= j < r.value ==> s[..r.value][j] != c;
  }

  /** A valued option given without '=' takes the next argument, and fails when there is none. */
  lemma OptionTakesNextArgument(options: seq<OptionSpec>, index: map<string, nat>, argv: seq<string>, i: nat)
    requires IndexValid(options, index)
    requires i < |argv| && argv[i] != "--" && StartsWith(argv[i], "-") && '=' !in argv[i] && argv[i] in index
    requires options[index[argv[i]]].takesValue
    ensures ParseFrom(options, index, argv, i)
      == if i + 1 < |argv| then Fire(Event(index[argv[i]], Some(argv[i + 1])), ParseFrom(options, index, argv, i + 2))
         else Fail("Missing value for " + argv[i])
  {
  }

  /** `--` ends parsing: nothing after it is looked at. */
  lemma DoubleDashEndsParsing(options: seq<OptionSpec>, index: map<string, nat>, argv: seq<string>, i: nat, rest: seq<string>)
    requires IndexValid(options, index)
    requires i < |argv| && argv[i] == "--"
    ensures ParseFrom(options, index, argv, i) == ParseFrom(options, index, argv[..i + 1] + rest, i)
    ensures ParseFrom(options, index, argv, i) == ParseResult([], None)
  {
  }

  /**
   * A token with a single dash is looked up whole, '=' and all; an unknown one
   * fails. A token without a leading dash fails as a positional argument.
   */
  lemma ShortAndPositionalTokens(options: seq<OptionSpec>, index: map<string, nat>, argv: seq<string>, i: nat)
    requires IndexValid(options, index)
    requires i < |argv| && argv[i] != "--"
    ensures !StartsWith(argv[i], "-") ==> ParseFrom(options, index, argv, i) == Fail("Unknown positional: " + argv[i])
    ensures StartsWith(argv[i], "-") && !StartsWith(argv[i], "--") && argv[i] !in index
      ==> ParseFrom(options, index, argv, i) == Fail("Unknown argument: " + argv[i])
    ensures StartsWith(argv[i], "-") && !StartsWith(argv[i], "--") && argv[i] in index && !options[index[argv[i]]].takesValue
      ==> ParseFrom(options, index, argv, i) == Fire(Event(index[argv[i]], None), ParseFrom(options, index, argv, i + 1))
  {
  }

  /** Every callback fired belongs to a registered option, and only valued options receive a value. */
  lemma {:induction false} EventsAreRegistered(options: seq<OptionSpec>, index: map<string, nat>, argv: seq<string>, i: nat)
    requires IndexValid(options, index)
    ensures forall e :: e in ParseFrom(options, index, argv, i).events ==>
      e.option < |options| && (e.value.Some? <==> options[e.option].takesValue)
    decreases |argv| - i
  {
    if i < |argv| {
      EventsAreRegistered(options, index, argv, i + 1);
      EventsAreRegistered(options, index, argv, i + 2);
    }
  }

  // ---------------------------------------------------------------------------
  // Properties of the usage text.

  /** `pad` is the widest label: no label is wider, and some label is that wide. */
  lemma {:induction false} WidthIsWidest(options: seq<OptionSpec>)
    ensures forall j :: 0 <= j < |options| ==> |Label(options[j])| <= Width(options)
    ensures |options| > 0 ==> exists j :: 0 <= j < |options| && |Label(options[j])| == Width(options)
    decreases |options|
  {
    if |options| > 0 {
      var init := options[..|options| - 1];
      WidthIsWidest(init);
      assert forall j :: 0 <= j < |init| ==> options[j] == init[j];
      if |init| > 0 && Width(options) == Width(init) {
        var j :| 0 <= j < |init| && |Label(init[j])| == Width(init);
        assert options[j] == init[j];
      }
    }
  }

  /** The help texts line up: on every usage line the help starts after `pad + 4` characters. */
  lemma HelpColumnsAlign(options: seq<OptionSpec>, j: nat)
    requires j < |options|
    ensures |Column(options[j], Width(options))| == Width(options) + 4
    ensures Column(options[j], Width(options))[2..2 + |Label(options[j])|] == Label(options[j])
  {
    WidthIsWidest(options);
    ColumnShape(options[j], Width(options));
  }

  /** A label no wider than `pad` sits after two spaces and is padded to `pad + 4` characters. */
  lemma ColumnShape(o: OptionSpec, pad: nat)
    requires |Label(o)| <= pad
    ensures |Column(o, pad)| == pad + 4
    ensures Column(o, pad)[2..2 + |Label(o)|] == Label(o)
  {
    var lbl := Label(o);
    var fill := if |lbl| < pad then Spaces(pad - |lbl|) else "";
    assert |fill| == pad - |lbl|;
    var col := "  " + lbl + fill + "  ";
    assert Column(o, pad) == col;
    assert col == "  " + (lbl + (fill + "  "));
    assert col[2..2 + |lbl|] == lbl;
  }

  // ---------------------------------------------------------------------------
  // `strip_dashes`.

  /** `strip_dashes`: the string after its leading run of '-'. */
  method StripDashes(s: string) returns (r: string)
    ensures |r| <= |s| && r == s[|s| - |r|..]
    ensures forall j :: 0 <= j < |s| - |r| ==> s[j] == '-'
    ensures r == [] || r[0] != '-'
  {
    var i := 0;
    while i < |s| && s[i] == '-'
      invariant i <= |s|
      invariant forall j :: 0 <= j < i ==> s[j] == '-'
    {
      i := i + 1;
    }
    r := s[i..];
  }

  // ---------------------------------------------------------------------------
  // `to_int`.

  function InvalidInteger(flag: string, s: string): string {
    "Invalid integer for " + flag + ": " + s
  }

  /**
   * `to_int(s, flag)`: `std::stol` must read the whole of `s` and the value
   * must fit in `int`; any failure becomes "Invalid integer for <flag>: <s>".
   */
  function ToInt(s: string, flag: string): (r: Result<int, string>)
    ensures r.Ok? ==> INT_MIN <= r.value <= INT_MAX
    ensures r.Err? ==> r.error == InvalidInteger(flag, s)
  {
    match ScanLong(s)
    case None => Err(InvalidInteger(flag, s))
    case Some(sc) =>
      if sc.end != |s| then Err(InvalidInteger(flag, s))
      else if sc.value < INT_MIN || sc.value > INT_MAX then Err(InvalidInteger(flag, s))
      else Ok(sc.value)
  }

  /**
   * `to_int` reads back what `std::to_string` prints, after any leading white
   * space, exactly when the number fits in `int` and nothing follows it; a
   * trailing character that is not a digit is always rejected.
   */
  lemma ToIntOfDecimal(w: string, n: int, rest: string, flag: string)
    requires AllSpace(w)
    requires rest == [] || !IsDigit(rest[0])
    ensures ToInt(w + IntToDecimal(n) + rest, flag)
         == if rest == [] && INT_MIN <= n <= INT_MAX then Ok(n)
            else Err(InvalidInteger(flag, w + IntToDecimal(n) + rest))
  {
    ScanIntegerOfDecimal(n, rest);
    ToIntOfNumeral(w, IntToDecimal(n), n, rest, flag);
  }

  lemma ToIntOfNumeral(w: string, num: string, n: int, rest: string, flag: string)
    requires AllSpace(w)
    requires ScanInteger(num + rest) == Some(Scan(n, |num|))
    ensures ToInt(w + num + rest, flag)
         == if rest == [] && INT_MIN <= n <= INT_MAX then Ok(n) else Err(InvalidInteger(flag, w + num + rest))
  {
    var d := num + rest;
    ScanIntegerSkipsSpace(w, d);
    ToIntOfScan(w + d, flag, Scan(n, |w| + |num|));
    assert w + num + rest == w + d;
  }

  /** `to_int` decided from what `std::stol`'s scan read. */
  lemma ToIntOfScan(s: string, flag: string, sc: Scan)
    requires ScanInteger(s) == Some(sc)
    ensures ToInt(s, flag) == if sc.end == |s| && INT_MIN <= sc.value <= INT_MAX then Ok(sc.value)
                              else Err(InvalidInteger(flag, s))
  {
  }

  /** A string of white space only is never an integer. */
  lemma ToIntOfBlank(s: string, flag: string)
    requires AllSpace(s)
    ensures ToInt(s, flag) == Err(InvalidInteger(flag, s))
  {
    assert SkipSpaces(s, 0) == |s| by { SkipSpacesOver(s, [], 0); assert s + [] == s; }
  }

  // ---------------------------------------------------------------------------
  // `load_cli_settings`.

  /** `Settings`. */
  datatype Settings = Settings(numRequests: int, maxPosts: int, readsPerWrite: int, maxThreads: int, numShards: int)

  const DEFAULT_SETTINGS := Settings(100000000, 10000000, 50, 1, 128)

  /** How `load_cli_settings` ends. */
  datatype CliOutcome =
    | Loaded(settings: Settings)   // returns normally with the updated settings
    | ShowHelp(usage: string)      // prints the usage to stdout and exits with status 0
    | Exit(message: string)        // prints the message to stderr and exits with status 1

  /** The six options `load_cli_settings` registers, in order, with their help texts. */
  function CliTable(help: seq<string>): (options: seq<OptionSpec>)
    requires |help| == 6
  {
    [ OptionSpec(["-h", "--help"], false, "", help[0]),
      OptionSpec(["--num-requests"], true, "INT", help[1]),
      OptionSpec(["-t", "--threads", "--max-threads"], true, "INT", help[2]),
      OptionSpec(["--posts"], true, "INT", help[3]),
      OptionSpec(["--reads-per-write"], true, "INT", help[4]),
      OptionSpec(["--shards"], true, "INT", help[5]) ]
  }

  /** The help texts, which show the incoming settings as the defaults. */
  function CliHelp(s: Settings): (help: seq<string>)
    ensures |help| == 6
  {
    [ "Show this help message",
      "Total number of requests (default: " + IntToDecimal(s.numRequests) + ")",
      "Number of worker threads (default: " + IntToDecimal(s.maxThreads) + ")",
      "Max distinct post IDs (default: " + IntToDecimal(s.maxPosts) + ")",
      "Read ops per write op (>=1) (default: " + IntToDecimal(s.readsPerWrite) + ")",
      "Number of shards (>=1) (default: " + IntToDecimal(s.numShards) + ")" ]
  }

  function CliOptions(s: Settings): (options: seq<OptionSpec>)
    ensures |options| == 6
  {
    CliTable(CliHelp(s))
  }

  /** `index_` after the six registrations: each of the nine names points at its option. */
  function CliIndex(): (index: map<string, nat>)
    ensures forall n :: n in index ==> index[n] < 6
  {
    map["-h" := 0, "--help" := 0, "--num-requests" := 1, "-t" := 2, "--threads" := 2,
        "--max-threads" := 2, "--posts" := 3, "--reads-per-write" := 4, "--shards" := 5]
  }

  /** `index_` as the six registrations leave it. */
  function CliRegistered(): map<string, nat> {
    var i0 := Registered(map[], ["-h", "--help"], 0);
    var i1 := Registered(i0, ["--num-requests"], 1);
    var i2 := Registered(i1, ["-t", "--threads", "--max-threads"], 2);
    var i3 := Registered(i2, ["--posts"], 3);
    var i4 := Registered(i3, ["--reads-per-write"], 4);
    Registered(i4, ["--shards"], 5)
  }

  /** The six registrations build exactly the table. */
  lemma CliIndexIsRegistered()
    ensures CliRegistered() == CliIndex()
  {
    RegisteredOne(map[], "-h", 0);
    RegisteredTwo(map[], "-h", "--help", 0);
    var i0 := map["-h" := 0, "--help" := 0];
    RegisteredOne(i0, "--num-requests", 1);
    var i1 := i0["--num-requests" := 1];
    RegisteredTwo(i1, "-t", "--threads", 2);
    assert ["-t", "--threads", "--max-threads"][..2] == ["-t", "--threads"];
    var i2 := i1["-t" := 2]["--threads" := 2]["--max-threads" := 2];
    RegisteredOne(i2, "--posts", 3);
    var i3 := i2["--posts" := 3];
    RegisteredOne(i3, "--reads-per-write", 4);
    var i4 := i3["--reads-per-write" := 4];
    RegisteredOne(i4, "--shards", 5);
  }

  lemma RegisteredOne(index: map<string, nat>, a: string, idx: nat)
    ensures Registered(index, [a], idx) == index[a := idx]
  {
    assert [a][..0] == [];
  }

  lemma RegisteredTwo(index: map<string, nat>, a: string, b: string, idx: nat)
    ensures Registered(index, [a, b], idx) == index[a := idx][b := idx]
  {
    assert [a, b][..1] == [a];
    RegisteredOne(index, a, idx);
  }

  lemma CliIndexValid(s: Settings)
    ensures IndexValid(CliOptions(s), CliIndex())
  {
  }

  /** What a callback does. */
  datatype CallbackResult = Updated(settings: Settings) | HelpExit | Thrown(message: string)

  /** The flag name each valued option's callback passes to `to_int`. */
  function CliFlag(option: nat): string {
    if option == 1 then "--num-requests"
    else if option == 2 then "--threads"
    else if option == 3 then "--posts"
    else if option == 4 then "--reads-per-write"
    else "--shards"
  }

  /**
   * What the callback of valued option `option` does with the integer `n`
   * that `to_int` returned. With `fixed`, `--shards` validates the shard
   * count; as written it validates `reads_per_write` instead.
   */
  function Store(s: Settings, option: nat, n: int, fixed: bool): CallbackResult {
    if option == 1 then Updated(s.(numRequests := n))
    else if option == 2 then Updated(s.(maxThreads := n))
    else if option == 3 then Updated(s.(maxPosts := n))
    else if option == 4 then
      if n < 1 then Thrown("--reads-per-write must be >= 1") else Updated(s.(readsPerWrite := n))
    else
      var t := s.(numShards := n);
      if (if fixed then t.numShards < 1 else t.readsPerWrite < 1) then Thrown("--shards >= 1") else Updated(t)
  }

  /** The callback of option `e.option`: `--help` exits; the others convert their value and store it. */
  function Callback(s: Settings, e: Event, fixed: bool): CallbackResult {
    if e.option == 0 then HelpExit
    else
      match ToInt(e.value.GetOr(""), CliFlag(e.option))
      case Ok(n) => Store(s, e.option, n, fixed)
      case Err(m) => Thrown(m)
  }

  /** An exception out of `parse`: its message, a blank line and the usage go to stderr, and the program exits with status 1. */
  function Failure(message: string, usage: string): CliOutcome {
    Exit(message + "\n\n" + usage)
  }

  /** The callbacks fired in order, each on the settings the previous ones left; then the parse error, if any. */
  function Interpret(s: Settings, events: seq<Event>, error: Option<string>, usage: string, fixed: bool): CliOutcome
    decreases |events|
  {
    if |events| == 0 then
      if error.Some? then Failure(error.value, usage) else Loaded(s)
    else
      match Callback(s, events[0], fixed)
      case HelpExit => ShowHelp(usage)
      case Thrown(m) => Failure(m, usage)
      case Updated(t) => Interpret(t, events[1..], error, usage, fixed)
  }

  /** The usage text `load_cli_settings` prints. */
  function CliUsage(s: Settings, prog: string): string {
    UsageText(prog, CliOptions(s))
  }

  function LoadWith(s: Settings, argv: seq<string>, fixed: bool): CliOutcome
    requires |argv| >= 1
  {
    var options := CliOptions(s);
    CliIndexValid(s);
    var r := ParseFrom(options, CliIndex(), argv, 1);
    Interpret(s, r.events, r.error, CliUsage(s, argv[0]), fixed)
  }

  /** `load_cli_settings(settings, argc, argv)` as written. */
  function LoadCliSettingsSpec(s: Settings, argv: seq<string>): CliOutcome
    requires |argv| >= 1
  {
    LoadWith(s, argv, false)
  }

  /** The registrations at the start of `load_cli_settings`. */
  method RegisterCliOptions(p: Parser, help: seq<string>)
    requires p.Valid() && p.options == [] && p.index == map[]
    requires |help| == 6
    modifies p
    ensures p.Valid() && p.prog == old(p.prog)
    ensures p.options == CliTable(help) && p.index == CliRegistered()
  {
    ghost var table := CliTable(help);
    p.AddFlag(["-h", "--help"], help[0]);
    assert p.options == table[..1];
    p.AddOption(["--num-requests"], "INT", help[1]);
    assert p.options == table[..2];
    p.AddOption(["-t", "--threads", "--max-threads"], "INT", help[2]);
    assert p.options == table[..3];
    p.AddOption(["--posts"], "INT", help[3]);
    assert p.options == table[..4];
    p.AddOption(["--reads-per-write"], "INT", help[4]);
    assert p.options == table[..5];
    p.AddOption(["--shards"], "INT", help[5]);
    assert p.options == table[..6] == table;
  }

  /** The callbacks `parse` fires, applied in order; then the parse error, if any, reported with the usage. */
  method ApplyCallbacks(settings: Settings, r: ParseResult, usage: string) returns (outcome: CliOutcome)
    ensures outcome == Interpret(settings, r.events, r.error, usage, false)
  {
    var s := settings;
    var k := 0;
    while k < |r.events|
      invariant k <= |r.events|
      invariant Interpret(s, r.events[k..], r.error, usage, false) == Interpret(settings, r.events, r.error, usage, false)
    {
      assert r.events[k..][1..] == r.events[k + 1..];
      match Callback(s, r.events[k], false)
      case HelpExit =>
        return ShowHelp(usage);
      case Thrown(m) =>
        return Failure(m, usage);
      case Updated(t) =>
        s := t;
      k := k + 1;
    }
    if r.error.Some? {
      return Failure(r.error.value, usage);
    }
    return Loaded(s);
  }

  /** `load_cli_settings`: register the options, parse, and apply the callbacks. */
  method LoadCliSettings(settings: Settings, argv: seq<string>) returns (outcome: CliOutcome)
    requires |argv| >= 1
    ensures outcome == LoadCliSettingsSpec(settings, argv)
  {
    var p := new Parser(argv[0]);
    RegisterCliOptions(p, CliHelp(settings));
    CliIndexIsRegistered();
    var r := p.Parse(argv);
    var usage := p.Usage();
    outcome := ApplyCallbacks(settings, r, usage);
  }

  // ---------------------------------------------------------------------------
  // Properties of `load_cli_settings`.

  /** With no arguments the settings come back unchanged. */
  lemma NoArgumentsKeepSettings(s: Settings, prog: string)
    ensures LoadCliSettingsSpec(s, [prog]) == Loaded(s)
  {
  }

  /** A long flag written without `=` fires its callback with no value. */
  lemma LongFlag(options: seq<OptionSpec>, index: map<string, nat>, argv: seq<string>, i: nat)
    requires IndexValid(options, index)
    requires i < |argv| && argv[i] != "--" && StartsWith(argv[i], "--") && '=' !in argv[i]
    requires argv[i] in index && !options[index[argv[i]]].takesValue
    ensures ParseFrom(options, index, argv, i) == Fire(Event(index[argv[i]], None), ParseFrom(options, index, argv, i + 1))
  {
  }

  /** `parse` fires the `--help` callback first when `argv[1]` is `-h` or `--help`. */
  lemma HelpFiresFirst(s: Settings, argv: seq<string>)
    requires |argv| >= 2 && (argv[1] == "-h" || argv[1] == "--help")
    ensures var r := ParseFrom(CliOptions(s), CliIndex(), argv, 1); |r.events| > 0 && r.events[0] == Event(0, None)
  {
    CliIndexValid(s);
    if argv[1] == "-h" {
      assert !StartsWith(argv[1], "--") && StartsWith(argv[1], "-");
      ShortAndPositionalTokens(CliOptions(s), CliIndex(), argv, 1);
    } else {
      assert StartsWith(argv[1], "--") && '=' !in argv[1];
      LongFlag(CliOptions(s), CliIndex(), argv, 1);
    }
  }

  /** `-h` or `--help` shows the usage and exits before anything after it is looked at. */
  lemma HelpComesFirst(s: Settings, argv: seq<string>, fixed: bool)
    requires |argv| >= 2 && (argv[1] == "-h" || argv[1] == "--help")
    ensures LoadWith(s, argv, fixed) == ShowHelp(CliUsage(s, argv[0]))
  {
    HelpFiresFirst(s, argv);
  }

  /** One valued option followed by its value: `parse` fires that option's callback once. */
  lemma OneValuedOption(s: Settings, prog: string, name: string, v: string)
    requires name in CliIndex() && CliIndex()[name] != 0
    requires StartsWith(name, "-") && name != "--" && '=' !in name
    ensures CliIndex()[name] < 6
    ensures ParseFrom(CliOptions(s), CliIndex(), [prog, name, v], 1) == ParseResult([Event(CliIndex()[name], Some(v))], None)
  {
    CliIndexValid(s);
    CliValuedOption(s, name);
    var argv := [prog, name, v];
    OptionTakesNextArgument(CliOptions(s), CliIndex(), argv, 1);
    assert ParseFrom(CliOptions(s), CliIndex(), argv, 3) == ParseResult([], None);
  }

  /** Every registered name other than the help names belongs to an option that takes a value. */
  lemma CliValuedOption(s: Settings, name: string)
    requires name in CliIndex() && CliIndex()[name] != 0
    ensures 1 <= CliIndex()[name] < 6 && CliOptions(s)[CliIndex()[name]].takesValue
  {
  }

  /** What `load_cli_settings` does once `parse` has fired the single callback `e`. */
  function AfterCallback(c: CallbackResult, usage: string): CliOutcome {
    match c
    case HelpExit => ShowHelp(usage)
    case Thrown(m) => Failure(m, usage)
    case Updated(t) => Loaded(t)
  }

  lemma LoadOneEvent(s: Settings, argv: seq<string>, e: Event, fixed: bool)
    requires |argv| >= 1
    requires ParseFrom(CliOptions(s), CliIndex(), argv, 1) == ParseResult([e], None)
    ensures LoadWith(s, argv, fixed) == AfterCallback(Callback(s, e, fixed), CliUsage(s, argv[0]))
  {
    InterpretOne(s, e, CliUsage(s, argv[0]), fixed);
  }

  lemma InterpretOne(s: Settings, e: Event, usage: string, fixed: bool)
    ensures Interpret(s, [e], None, usage, fixed) == AfterCallback(Callback(s, e, fixed), usage)
  {
    assert [e][1..] == [];
  }

  /** A valued option's callback given an `int` in decimal stores it. */
  lemma CallbackOfDecimal(s: Settings, option: nat, n: int, fixed: bool)
    requires 1 <= option <= 5 && INT_MIN <= n <= INT_MAX
    ensures Callback(s, Event(option, Some(IntToDecimal(n))), fixed) == Store(s, option, n, fixed)
  {
    var v := IntToDecimal(n);
    ToIntOfDecimal([], n, [], CliFlag(option));
    assert [] + v + [] == v;
    assert ToInt(v, CliFlag(option)) == Ok(n);
    assert Event(option, Some(v)).value.GetOr("") == v;
  }

  /** `load_cli_settings` given one valued option and an `int` for it. */
  lemma LoadOneDecimal(s: Settings, prog: string, name: string, n: int, fixed: bool)
    requires name in CliIndex() && 1 <= CliIndex()[name]
    requires StartsWith(name, "-") && name != "--" && '=' !in name
    requires INT_MIN <= n <= INT_MAX
    ensures LoadWith(s, [prog, name, IntToDecimal(n)], fixed)
         == AfterCallback(Store(s, CliIndex()[name], n, fixed), CliUsage(s, prog))
  {
    var o := CliIndex()[name];
    OneValuedOption(s, prog, name, IntToDecimal(n));
    LoadOneEvent(s, [prog, name, IntToDecimal(n)], Event(o, Some(IntToDecimal(n))), fixed);
    CallbackOfDecimal(s, o, n, fixed);
  }

  /** `--threads N` sets the thread count. */
  lemma ThreadsOption(s: Settings, prog: string, n: int)
    requires INT_MIN <= n <= INT_MAX
    ensures LoadCliSettingsSpec(s, [prog, "--threads", IntToDecimal(n)]) == Loaded(s.(maxThreads := n))
  {
    LoadOneDecimal(s, prog, "--threads", n, false);
  }

  /** A value `to_int` rejects ends the program with "Invalid integer for <flag>: <value>". */
  lemma InvalidValueRejected(s: Settings, prog: string, name: string, v: string, fixed: bool)
    requires name in CliIndex() && 1 <= CliIndex()[name]
    requires StartsWith(name, "-") && name != "--" && '=' !in name
    requires ToInt(v, CliFlag(CliIndex()[name])).Err?
    ensures LoadWith(s, [prog, name, v], fixed) == Failure(InvalidInteger(CliFlag(CliIndex()[name]), v), CliUsage(s, prog))
  {
    OneValuedOption(s, prog, name, v);
    LoadOneEvent(s, [prog, name, v], Event(CliIndex()[name], Some(v)), fixed);
  }

  /** `--reads-per-write N` is accepted exactly when N is at least 1. */
  lemma ReadsPerWriteOption(s: Settings, prog: string, n: int)
    requires INT_MIN <= n <= INT_MAX
    ensures LoadCliSettingsSpec(s, [prog, "--reads-per-write", IntToDecimal(n)])
         == if n >= 1 then Loaded(s.(readsPerWrite := n))
            else Failure("--reads-per-write must be >= 1", CliUsage(s, prog))
  {
    LoadOneDecimal(s, prog, "--reads-per-write", n, false);
  }

  /**
   * As written, `--shards N` accepts every `int`, zero and negative counts
   * included, because its check looks at `reads_per_write`.
   */
  lemma ShardsOptionAsWritten(s: Settings, prog: string, n: int)
    requires INT_MIN <= n <= INT_MAX && s.readsPerWrite >= 1
    ensures LoadCliSettingsSpec(s, [prog, "--shards", IntToDecimal(n)]) == Loaded(s.(numShards := n))
  {
    LoadOneDecimal(s, prog, "--shards", n, false);
  }

  /** The check `--shards` evidently means: N is accepted exactly when it is at least 1. */
  lemma ShardsOptionIntended(s: Settings, prog: string, n: int)
    requires INT_MIN <= n <= INT_MAX
    ensures LoadWith(s, [prog, "--shards", IntToDecimal(n)], true)
         == if n >= 1 then Loaded(s.(numShards := n)) else Failure("--shards >= 1", CliUsage(s, prog))
  {
    LoadOneDecimal(s, prog, "--shards", n, true);
  }

  /** The settings the benchmark needs: at least one read per write and at least one shard. */
  predicate ValidSettings(s: Settings) {
    s.readsPerWrite >= 1 && s.numShards >= 1
  }

  /** Whatever the arguments, loading keeps `reads_per_write` at least 1. */
  lemma {:induction false} InterpretKeepsReadsPerWrite(s: Settings, events: seq<Event>, error: Option<string>, usage: string, fixed: bool)
    requires s.readsPerWrite >= 1
    ensures Interpret(s, events, error, usage, fixed).Loaded? ==> Interpret(s, events, error, usage, fixed).settings.readsPerWrite >= 1
    decreases |events|
  {
    if |events| > 0 {
      match Callback(s, events[0], fixed)
      case Updated(t) => InterpretKeepsReadsPerWrite(t, events[1..], error, usage, fixed);
      case _ =>
    }
  }

  /** With the intended `--shards` check, loading keeps valid settings valid. */
  lemma {:induction false} InterpretIntendedKeepsValid(s: Settings, events: seq<Event>, error: Option<string>, usage: string)
    requires ValidSettings(s)
    ensures Interpret(s, events, error, usage, true).Loaded? ==> ValidSettings(Interpret(s, events, error, usage, true).settings)
    decreases |events|
  {
    if |events| > 0 {
      match Callback(s, events[0], true)
      case Updated(t) => InterpretIntendedKeepsValid(t, events[1..], error, usage);
      case _ =>
    }
  }

  lemma LoadKeepsReadsPerWrite(s: Settings, argv: seq<string>)
    requires |argv| >= 1 && s.readsPerWrite >= 1
    ensures LoadCliSettingsSpec(s, argv).Loaded? ==> LoadCliSettingsSpec(s, argv).settings.readsPerWrite >= 1
  {
    CliIndexValid(s);
    var r := ParseFrom(CliOptions(s), CliIndex(), argv, 1);
    InterpretKeepsReadsPerWrite(s, r.events, r.error, CliUsage(s, argv[0]), false);
  }

  lemma LoadIntendedKeepsValid(s: Settings, argv: seq<string>)
    requires |argv| >= 1 && ValidSettings(s)
    ensures LoadWith(s, argv, true).Loaded? ==> ValidSettings(LoadWith(s, argv, true).settings)
  {
    CliIndexValid(s);
    var r := ParseFrom(CliOptions(s), CliIndex(), argv, 1);
    InterpretIntendedKeepsValid(s, r.events, r.error, CliUsage(s, argv[0]));
  }

  /** As written, the shard count is not kept valid: `--shards 0` is loaded from the defaults. */
  lemma ZeroShardsAccepted(prog: string)
    ensures ValidSettings(DEFAULT_SETTINGS)
    ensures LoadCliSettingsSpec(DEFAULT_SETTINGS, [prog, "--shards", "0"]) == Loaded(DEFAULT_SETTINGS.(numShards := 0))
    ensures !ValidSettings(DEFAULT_SETTINGS.(numShards := 0))
  {
    assert IntToDecimal(0) == "0";
    ShardsOptionAsWritten(DEFAULT_SETTINGS, prog, 0);
  }
}
