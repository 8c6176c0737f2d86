/** The command-line parser of main: the arguments after the program name are read
    left to right. Switches set a flag, -A/-B/-C take the next argument as a number,
    the first other argument is the pattern and every later one a path. */
module Args {
  import opened Decimal

  /** Which context option consumed a value. */
  datatype ContextFlag = After | Before | Both

  /** Why parsing stopped without a configuration: an unknown option (exit code 1),
      a missing or malformed value of a context option (a panic in `expect`), or no
      pattern at all (exit code 1). */
  datatype ArgError = UnknownOption(arg: string) | MissingValue(flag: ContextFlag) | InvalidNumber(flag: ContextFlag) | NoPattern

  /** What the search runs with. `pattern` is the text handed to `Regex::new`. */
  datatype Config = Config(before: nat, after: nat, useColor: bool, includeHidden: bool,
                           ignoreCase: bool, withHeading: bool, pattern: string, paths: seq<string>)

  datatype Outcome = Run(config: Config) | Help | Failure(error: ArgError)

  /** The mutable locals of the parsing loop (lines 206-214). */
  datatype State = State(before: nat, after: nat, useColor: bool, includeHidden: bool,
                         ignoreCase: bool, withHeading: bool, pattern: Option<string>, paths: seq<string>)

  const Initial: State := State(0, 0, false, false, false, true, None, [])

  /** The loop either runs out of arguments with a state, or stops with an outcome. */
  datatype Step = Continue(state: State) | Stop(outcome: Outcome)

  predicate StartsWithDash(arg: string) {
    |arg| > 0 && arg[0] == '-'
  }

  /** The switches, which take no value. */
  datatype Switch = Color | IgnoreCase | Hidden | NoHeading

  /** The arms of the match at lines 217-255. */
  datatype ArgKind = HelpArg | SwitchArg(switch: Switch) | ContextArg(flag: ContextFlag) | Positional

  /** Which arm of the match at lines 217-255 an argument takes; only the exact
      spellings listed are options, and each of them starts with '-'. */
  function Classify(arg: string): ArgKind {
    if |arg| < 2 || arg[0] != '-' then Positional
    else if |arg| == 2 then ShortOption(arg[1])
    else LongOption(arg)
  }

  /** `-c`, `-i`, `-h`, `-A`, `-B`, `-C`. */
  function ShortOption(c: char): ArgKind {
    match c
    case 'c' => SwitchArg(Color)
    case 'i' => SwitchArg(IgnoreCase)
    case 'h' => SwitchArg(Hidden)
    case 'A' => ContextArg(After)
    case 'B' => ContextArg(Before)
    case 'C' => ContextArg(Both)
    case _ => Positional
  }

  /** The long spellings; no two of them have the same length. */
  function LongOption(arg: string): ArgKind {
    if arg == "--help" then HelpArg
    else if arg == "--color" then SwitchArg(Color)
    else if arg == "--ignore-case" then SwitchArg(IgnoreCase)
    else if arg == "--hidden" then SwitchArg(Hidden)
    else if arg == "--no-heading" then SwitchArg(NoHeading)
    else if arg == "--after-context" then ContextArg(After)
    else if arg == "--before-context" then ContextArg(Before)
    else if arg == "--context" then ContextArg(Both)
    else Positional
  }

  function ApplySwitch(st: State, s: Switch): State {
    match s
    case Color => st.(useColor := true)
    case IgnoreCase => st.(ignoreCase := true)
    case Hidden => st.(includeHidden := true)
    case NoHeading => st.(withHeading := false)
  }

  function SetContext(st: State, flag: ContextFlag, n: nat): State {
    match flag
    case After => st.(after := n)
    case Before => st.(before := n)
    case Both => st.(before := n, after := n)
  }

  /** What one arm of the match does: stop with an outcome, or go on with a new state
      after consuming `used` arguments. */
  datatype Action = Halt(outcome: Outcome) | Next(state: State, used: nat)

  /** Lines 217-255: the match on the next argument `args[0]`; a context option takes
      `args[1]` as its value. */
  function Handle(st: State, args: seq<string>): (a: Action)
    requires args != []
    ensures a.Next? ==> 1 <= a.used <= |args|
  {
    var arg := args[0];
    match Classify(arg)
    case HelpArg => Halt(Help)
    case SwitchArg(s) => Next(ApplySwitch(st, s), 1)
    case ContextArg(flag) =>
      if |args| < 2 then Halt(Failure(MissingValue(flag)))
      else
        (match ParseUsize(args[1])
         case None => Halt(Failure(InvalidNumber(flag)))
         case Some(n) => Next(SetContext(st, flag, n), 2))
    case Positional =>
      if StartsWithDash(arg) && st.pattern.None? then Halt(Failure(UnknownOption(arg)))
      else if st.pattern.None? then Next(st.(pattern := Some(arg)), 1)
      else Next(st.(paths := st.paths + [arg]), 1)
  }

  /** Lines 216-256: the loop over the remaining arguments. */
  function ParseLoop(st: State, args: seq<string>): Step
    decreases |args|
  {
    if args == [] then Continue(st)
    else
      match Handle(st, args)
      case Halt(o) => Stop(o)
      case Next(st1, n) => ParseLoop(st1, args[n..])
  }

  /** Lines 258-273: a pattern is required, the paths default to ".", and -i turns
      into an inline `(?i)` flag in front of the pattern. */
  function Finish(st: State): (o: Outcome)
    ensures o.Run? <==> st.pattern.Some?
    ensures o.Run? ==> |o.config.paths| >= 1
    ensures o.Run? ==> o.config.paths == (if st.paths == [] then ["."] else st.paths)
    ensures o.Run? ==> o.config.pattern == (if st.ignoreCase then "(?i)" else "") + st.pattern.value
  {
    match st.pattern
    case None => Failure(NoPattern)
    case Some(p) =>
      Run(Config(st.before, st.after, st.useColor, st.includeHidden, st.ignoreCase, st.withHeading,
                 if st.ignoreCase then "(?i)" + p else p,
                 if st.paths == [] then ["."] else st.paths))
  }

  /** The outcome of parsing the arguments after the program name. */
  function ParseArgs(args: seq<string>): Outcome {
    match ParseLoop(Initial, args)
    case Stop(o) => o
    case Continue(st) => Finish(st)
  }

  // ---------------------------------------------------------------------------
  // Properties

  /** Every option is spelled with a leading '-', and no option is a number. */
  lemma OptionsAreDashed(arg: string)
    requires Classify(arg) != Positional
    ensures StartsWithDash(arg)
    ensures ParseUsize(arg) == None
  {
    assert arg == "-" + arg[1..];
    ParseRejectsSigns(arg[1..]);
  }

  lemma ContextSpellings()
    ensures Classify("-A") == ContextArg(After) && Classify("-B") == ContextArg(Before)
    ensures Classify("-C") == ContextArg(Both) && Classify("--help") == HelpArg
  {
  }

  /** `-C n` sets both counts: it does what `-A n -B n` does. */
  lemma ContextIsAfterAndBefore(st: State, v: string, rest: seq<string>)
    requires ParseUsize(v).Some?
    ensures ParseLoop(st, ["-C", v] + rest) == ParseLoop(st, ["-A", v, "-B", v] + rest)
    ensures ParseLoop(st, ["-C", v] + rest)
         == ParseLoop(st.(before := ParseUsize(v).value, after := ParseUsize(v).value), rest)
  {
    ContextSpellings();
    var n := ParseUsize(v).value;
    assert (["-C", v] + rest)[2..] == rest;
    assert (["-A", v, "-B", v] + rest)[2..] == ["-B", v] + rest;
    assert (["-B", v] + rest)[2..] == rest;
  }

  /** The loop read over two parts: when the first part runs to its end, the second
      part starts from the state the first left. */
  lemma {:induction false} LoopAppend(st: State, a: seq<string>, b: seq<string>)
    ensures ParseLoop(st, a).Continue? ==> ParseLoop(st, a + b) == ParseLoop(ParseLoop(st, a).state, b)
    decreases |a|
  {
    if a == [] {
      assert a + b == b;
    } else if Handle(st, a).Next? {
      var st1, n := Handle(st, a).state, Handle(st, a).used;
      HandleAppend(st, a, b);
      assert (a + b)[n..] == a[n..] + b;
      LoopAppend(st1, a[n..], b);
    }
  }

  /** A turn that goes on does not look past what it consumes. */
  lemma HandleAppend(st: State, a: seq<string>, b: seq<string>)
    requires a != [] && Handle(st, a).Next?
    ensures Handle(st, a + b) == Handle(st, a)
  {
    assert (a + b)[0] == a[0];
    if |a| >= 2 {
      assert (a + b)[1] == a[1];
    }
  }

  /** A later `-A` sets the after count, whatever came before it (an earlier `-C`
      included), and changes nothing else. */
  lemma LaterAfterOverrides(st: State, pre: seq<string>, w: string, rest: seq<string>)
    requires ParseLoop(st, pre).Continue? && ParseUsize(w).Some?
    ensures ParseLoop(st, pre + ["-A", w] + rest)
         == ParseLoop(ParseLoop(st, pre).state.(after := ParseUsize(w).value), rest)
  {
    ContextSpellings();
    LoopAppend(st, pre, ["-A", w] + rest);
    assert pre + ["-A", w] + rest == pre + (["-A", w] + rest);
    assert (["-A", w] + rest)[2..] == rest;
  }

  /** Likewise a later `-B` sets the before count and changes nothing else. */
  lemma LaterBeforeOverrides(st: State, pre: seq<string>, w: string, rest: seq<string>)
    requires ParseLoop(st, pre).Continue? && ParseUsize(w).Some?
    ensures ParseLoop(st, pre + ["-B", w] + rest)
         == ParseLoop(ParseLoop(st, pre).state.(before := ParseUsize(w).value), rest)
  {
    ContextSpellings();
    LoopAppend(st, pre, ["-B", w] + rest);
    assert pre + ["-B", w] + rest == pre + (["-B", w] + rest);
    assert (["-B", w] + rest)[2..] == rest;
  }

  /** `pat -C 3 file -A 1`: the later `-A` wins for the after count, the `-C` value
      stays for the before count, and an argument after a path is still an option. */
  lemma ContextThenAfter()
    ensures ParseArgs(["pat", "-C", "3", "file", "-A", "1"])
         == Run(Config(3, 1, false, false, false, true, "pat", ["file"]))
  {
    ContextSpellings();
    assert ParseUsize("3") == Some(3) && ParseUsize("1") == Some(1);
    var args := ["pat", "-C", "3", "file", "-A", "1"];
    assert args[1..] == ["-C", "3", "file", "-A", "1"];
    assert args[1..][2..] == ["file", "-A", "1"];
    assert args[1..][2..][1..] == ["-A", "1"];
    assert args[1..][2..][1..][2..] == [];
  }

  /** A context option needs a value that is a number: at the end it is a missing
      value, and any value that does not parse (even `--help`, which is consumed as the
      value) stops the loop with an invalid number, whatever follows. */
  lemma ContextValueRequired(st: State, flag: string, v: string, rest: seq<string>)
    requires Classify(flag).ContextArg?
    ensures ParseLoop(st, [flag]) == Stop(Failure(MissingValue(Classify(flag).flag)))
    ensures ParseUsize(v).None?
        ==> ParseLoop(st, [flag, v] + rest) == Stop(Failure(InvalidNumber(Classify(flag).flag)))
    ensures ParseLoop(st, [flag, "--help"] + rest) == Stop(Failure(InvalidNumber(Classify(flag).flag)))
  {
    assert ([flag, v] + rest)[1] == v;
    assert Classify("--help") == HelpArg;
    OptionsAreDashed("--help");
    assert ([flag, "--help"] + rest)[1] == "--help";
  }

  /** The whole parse fails with an invalid number at the first context value that does
      not parse, whatever options came before it (as long as they let the loop go on)
      and whatever comes after: `pat -A x -A 1` is an error, not after = 1. */
  lemma InvalidContextValue(pre: seq<string>, flag: string, v: string, rest: seq<string>)
    requires ParseLoop(Initial, pre).Continue?
    requires Classify(flag).ContextArg? && ParseUsize(v).None?
    ensures ParseArgs(pre + [flag, v] + rest) == Failure(InvalidNumber(Classify(flag).flag))
  {
    LoopAppend(Initial, pre, [flag, v] + rest);
    assert pre + [flag, v] + rest == pre + ([flag, v] + rest);
    ContextValueRequired(ParseLoop(Initial, pre).state, flag, v, rest);
  }

  /** `pat -A x -A 1`: the bad first value is an error even though a good one follows. */
  lemma BadValueBeforeGood()
    ensures ParseArgs(["pat", "-A", "x", "-A", "1"]) == Failure(InvalidNumber(After))
  {
    ContextSpellings();
    assert ParseUsize("x") == None;
    assert ParseLoop(Initial, ["pat"]).Continue?;
    InvalidContextValue(["pat"], "-A", "x", ["-A", "1"]);
  }

  /** Once the pattern is known, arguments that are not options are paths in the order
      given, even when they start with '-'. */
  lemma {:induction false} PathsAccumulate(st: State, rest: seq<string>)
    requires st.pattern.Some?
    requires forall k :: 0 <= k < |rest| ==> Classify(rest[k]) == Positional
    ensures ParseLoop(st, rest) == Continue(st.(paths := st.paths + rest))
    decreases |rest|
  {
    if rest != [] {
      PathsAccumulate(st.(paths := st.paths + [rest[0]]), rest[1..]);
      assert st.paths + [rest[0]] + rest[1..] == st.paths + rest;
    }
  }

  /** With no option at all, the first argument is the pattern and the others are the
      paths, "." when there are none. */
  lemma PlainArguments(args: seq<string>)
    requires args != []
    requires forall k :: 0 <= k < |args| ==> !StartsWithDash(args[k])
    ensures ParseArgs(args) == Run(Config(0, 0, false, false, false, true, args[0],
                                          if |args| == 1 then ["."] else args[1..]))
  {
    forall k | 0 <= k < |args| ensures Classify(args[k]) == Positional {
      if Classify(args[k]) != Positional { OptionsAreDashed(args[k]); }
    }
    PathsAccumulate(Initial.(pattern := Some(args[0])), args[1..]);
  }

  predicate AllSwitches(sw: seq<string>) {
    forall k :: 0 <= k < |sw| ==> Classify(sw[k]).SwitchArg?
  }

  /** Switch `s` occurs among `args`, in either of its spellings. */
  predicate Given(args: seq<string>, s: Switch) {
    exists k :: 0 <= k < |args| && Classify(args[k]) == SwitchArg(s)
  }

  lemma GivenSplit(a: seq<string>, b: seq<string>, s: Switch)
    ensures Given(a + b, s) <==> Given(a, s) || Given(b, s)
  {
    if Given(a + b, s) {
      var k :| 0 <= k < |a + b| && Classify((a + b)[k]) == SwitchArg(s);
      if k < |a| {
        assert (a + b)[k] == a[k];
      } else {
        assert (a + b)[k] == b[k - |a|];
      }
    }
    if Given(a, s) {
      var k :| 0 <= k < |a| && Classify(a[k]) == SwitchArg(s);
      assert (a + b)[k] == a[k];
    }
    if Given(b, s) {
      var k :| 0 <= k < |b| && Classify(b[k]) == SwitchArg(s);
      assert (a + b)[|a| + k] == b[k];
    }
  }

  /** The two spellings of a switch. */
  lemma SwitchSpelled(a: string)
    ensures Classify(a) == SwitchArg(Color) <==> a == "-c" || a == "--color"
    ensures Classify(a) == SwitchArg(IgnoreCase) <==> a == "-i" || a == "--ignore-case"
    ensures Classify(a) == SwitchArg(Hidden) <==> a == "-h" || a == "--hidden"
    ensures Classify(a) == SwitchArg(NoHeading) <==> a == "--no-heading"
  {
  }

  /** So a switch is given exactly when one of its spellings occurs. */
  lemma GivenSpelled(args: seq<string>)
    ensures Given(args, Color) <==> "-c" in args || "--color" in args
    ensures Given(args, IgnoreCase) <==> "-i" in args || "--ignore-case" in args
    ensures Given(args, Hidden) <==> "-h" in args || "--hidden" in args
    ensures Given(args, NoHeading) <==> "--no-heading" in args
  {
    forall k | 0 <= k < |args| { SwitchSpelled(args[k]); }
  }

  /** What a run of switches does, stated independently of the loop: each flag is set
      when its switch occurs at least once. */
  function Switched(st: State, sw: seq<string>): State {
    st.(useColor := st.useColor || Given(sw, Color),
        ignoreCase := st.ignoreCase || Given(sw, IgnoreCase),
        includeHidden := st.includeHidden || Given(sw, Hidden),
        withHeading := st.withHeading && !Given(sw, NoHeading))
  }

  /** The flags of two states agree. */
  predicate SameFlags(a: State, b: State) {
    a.useColor == b.useColor && a.ignoreCase == b.ignoreCase
    && a.includeHidden == b.includeHidden && a.withHeading == b.withHeading
  }

  /** One step sets exactly the flags of the switches among the arguments it consumes. */
  lemma HandleFlags(st: State, args: seq<string>)
    requires args != [] && Handle(st, args).Next?
    ensures SameFlags(Handle(st, args).state, Switched(st, args[..Handle(st, args).used]))
  {
    var n := Handle(st, args).used;
    var used := args[..n];
    var kind := Classify(args[0]);
    assert used[0] == args[0];
    match kind
    case SwitchArg(s0) =>
      assert used == [args[0]];
      assert Handle(st, args).state == ApplySwitch(st, s0);
      forall s ensures Given(used, s) <==> s == s0 { }
    case ContextArg(flag) =>
      assert used == [args[0], args[1]];
      if Classify(args[1]) != Positional { OptionsAreDashed(args[1]); }
      assert Handle(st, args).state == SetContext(st, flag, ParseUsize(args[1]).value);
      forall s ensures !Given(used, s) { }
    case Positional =>
      assert used == [args[0]];
      var st1 := Handle(st, args).state;
      assert st1 == st.(pattern := Some(args[0])) || st1 == st.(paths := st.paths + [args[0]]);
      forall s ensures !Given(used, s) { }
  }

  /** Switching in two runs is switching once over both. */
  lemma SwitchedTwice(st: State, a: seq<string>, b: seq<string>)
    ensures SameFlags(Switched(Switched(st, a), b), Switched(st, a + b))
  {
    GivenSplit(a, b, Color);
    GivenSplit(a, b, IgnoreCase);
    GivenSplit(a, b, Hidden);
    GivenSplit(a, b, NoHeading);
  }

  /** When the loop runs to the end, each switch's flag is set exactly when the switch
      was given (a value consumed by -A/-B/-C is never a switch, since it is a number). */
  lemma {:induction false} LoopFlags(st: State, args: seq<string>)
    ensures ParseLoop(st, args).Continue? ==> SameFlags(ParseLoop(st, args).state, Switched(st, args))
    decreases |args|
  {
    if args == [] {
      assert !Given(args, Color) && !Given(args, IgnoreCase) && !Given(args, Hidden) && !Given(args, NoHeading);
    } else if Handle(st, args).Next? {
      var st1, n := Handle(st, args).state, Handle(st, args).used;
      LoopFlags(st1, args[n..]);
      HandleFlags(st, args);
      SwitchedTwice(st, args[..n], args[n..]);
      assert args[..n] + args[n..] == args;
    }
  }

  /** Switches may come in any number and order. */
  lemma {:induction false} SwitchesLoop(st: State, sw: seq<string>, rest: seq<string>)
    requires AllSwitches(sw)
    ensures ParseLoop(st, sw + rest) == ParseLoop(Switched(st, sw), rest)
    decreases |sw|
  {
    if sw == [] {
      assert sw + rest == rest;
      assert Switched(st, sw) == st;
    } else {
      var args := sw + rest;
      assert args[0] == sw[0] && args[1..] == sw[1..] + rest;
      var st1 := ApplySwitch(st, Classify(sw[0]).switch);
      assert Handle(st, args) == Next(st1, 1);
      LoopStep(st, args);
      SwitchesLoop(st1, sw[1..], rest);
      SwitchedCons(st, sw);
    }
  }

  lemma SwitchedCons(st: State, sw: seq<string>)
    requires sw != [] && Classify(sw[0]).SwitchArg?
    ensures Switched(ApplySwitch(st, Classify(sw[0]).switch), sw[1..]) == Switched(st, sw)
  {
    var s0 := Classify(sw[0]).switch;
    assert sw == [sw[0]] + sw[1..];
    forall s ensures Given(sw, s) <==> s == s0 || Given(sw[1..], s) {
      GivenSplit([sw[0]], sw[1..], s);
      assert [sw[0]][0] == sw[0];
    }
    var a := Switched(ApplySwitch(st, s0), sw[1..]);
    var b := Switched(st, sw);
    assert a.useColor == b.useColor && a.ignoreCase == b.ignoreCase;
    assert a.includeHidden == b.includeHidden && a.withHeading == b.withHeading;
    assert a.before == b.before && a.after == b.after && a.pattern == b.pattern && a.paths == b.paths;
  }

  /** Switches alone are an error: there is no pattern. */
  lemma SwitchesOnly(sw: seq<string>)
    requires AllSwitches(sw)
    ensures ParseArgs(sw) == Failure(NoPattern)
  {
    SwitchesLoop(Initial, sw, []);
    assert sw + [] == sw;
  }

  /** After any arguments that leave the loop going: while there is no pattern yet, an
      unknown option is an error whatever follows it; and `--help` stops the parse with
      the help text, pattern or not. */
  lemma StopsBeforePattern(pre: seq<string>, arg: string, rest: seq<string>)
    requires ParseLoop(Initial, pre).Continue?
    ensures ParseLoop(Initial, pre).state.pattern.None? && StartsWithDash(arg) && Classify(arg) == Positional
            ==> ParseArgs(pre + [arg] + rest) == Failure(UnknownOption(arg))
    ensures ParseArgs(pre + ["--help"] + rest) == Help
  {
    LoopAppend(Initial, pre, [arg] + rest);
    LoopAppend(Initial, pre, ["--help"] + rest);
    assert pre + [arg] + rest == pre + ([arg] + rest);
    assert pre + ["--help"] + rest == pre + (["--help"] + rest);
    assert Classify("--help") == HelpArg;
  }

  /** The loop stops only with the help text or an error, never with a configuration. */
  lemma {:induction false} StopIsNotRun(st: State, args: seq<string>)
    ensures ParseLoop(st, args).Stop? ==> !ParseLoop(st, args).outcome.Run?
    decreases |args|
  {
    if args != [] && Handle(st, args).Next? {
      StopIsNotRun(Handle(st, args).state, args[Handle(st, args).used..]);
    }
  }

  /** When the loop runs to the end, both counts fit a usize. */
  lemma {:induction false} LoopBounds(st: State, args: seq<string>)
    requires st.before <= USIZE_MAX && st.after <= USIZE_MAX
    ensures ParseLoop(st, args).Continue? ==>
              ParseLoop(st, args).state.before <= USIZE_MAX && ParseLoop(st, args).state.after <= USIZE_MAX
    decreases |args|
  {
    if args != [] && Handle(st, args).Next? {
      LoopBounds(Handle(st, args).state, args[Handle(st, args).used..]);
    }
  }

  /** One turn of the loop. */
  lemma LoopStep(st: State, args: seq<string>)
    requires args != [] && Handle(st, args).Next?
    ensures ParseLoop(st, args) == ParseLoop(Handle(st, args).state, args[Handle(st, args).used..])
  {
  }

  /** The operand `args[0]` contributes, if any, and how many arguments it takes with it:
      an option contributes nothing, and a context option also takes its value. */
  function Take(args: seq<string>): (r: (seq<string>, nat))
    requires args != []
    ensures 1 <= r.1 <= |args|
  {
    match Classify(args[0])
    case ContextArg(_) => ([], if |args| < 2 then 1 else 2)
    case Positional => ([args[0]], 1)
    case _ => ([], 1)
  }

  /** The operands: the arguments that are neither options nor the values of -A/-B/-C,
      in order. */
  function Operands(args: seq<string>): seq<string>
    decreases |args|
  {
    if args == [] then [] else Take(args).0 + Operands(args[Take(args).1..])
  }

  /** What the loop makes of the pattern and the paths, given the operands it meets. */
  predicate OperandsPlaced(st: State, t: State, ops: seq<string>) {
    if st.pattern.Some? then t.pattern == st.pattern && t.paths == st.paths + ops
    else if ops == [] then t.pattern == None && t.paths == st.paths
    else t.pattern == Some(ops[0]) && t.paths == st.paths + ops[1..]
  }

  /** One step places the operand it meets, and consumes what Take says. */
  lemma HandleOperands(st: State, args: seq<string>)
    requires args != [] && Handle(st, args).Next?
    ensures Handle(st, args).used == Take(args).1
    ensures OperandsPlaced(st, Handle(st, args).state, Take(args).0)
  {
    assert st.paths + [] == st.paths;
  }

  lemma PlacedTwice(st: State, st1: State, t: State, a: seq<string>, b: seq<string>)
    requires |a| <= 1
    requires OperandsPlaced(st, st1, a) && OperandsPlaced(st1, t, b)
    ensures OperandsPlaced(st, t, a + b)
  {
    if a == [] {
      assert a + b == b;
      assert st.paths + [] == st.paths;
    } else {
      assert (a + b)[0] == a[0] && (a + b)[1..] == b;
      assert st.paths + a + b == st.paths + (a + b);
    }
  }

  /** When the loop runs to the end, the first operand is the pattern and the others
      are the paths, in order. */
  lemma {:induction false} LoopOperands(st: State, args: seq<string>)
    ensures ParseLoop(st, args).Continue? ==> OperandsPlaced(st, ParseLoop(st, args).state, Operands(args))
    decreases |args|
  {
    if args == [] {
      assert st.paths + [] == st.paths;
    } else if Handle(st, args).Next? {
      var st1, n := Handle(st, args).state, Handle(st, args).used;
      LoopStep(st, args);
      LoopOperands(st1, args[n..]);
      HandleOperands(st, args);
      if ParseLoop(st, args).Continue? {
        PlacedTwice(st, st1, ParseLoop(st, args).state, Take(args).0, Operands(args[n..]));
      }
    }
  }

  /** The two counts a context option can set. */
  datatype Count = BeforeCount | AfterCount

  /** `-A` sets the after count, `-B` the before count, `-C` both. */
  predicate Sets(flag: ContextFlag, c: Count) {
    match flag
    case After => c == AfterCount
    case Before => c == BeforeCount
    case Both => true
  }

  function CountOf(st: State, c: Count): nat {
    match c
    case AfterCount => st.after
    case BeforeCount => st.before
  }

  /** The value given with the last option that sets count `c`, read at option
      positions only (an argument consumed as a value is never an option itself). */
  function CountValue(args: seq<string>, c: Count): Option<string>
    decreases |args|
  {
    if args == [] then None
    else
      var later := CountValue(args[Take(args).1..], c);
      if later.Some? then later
      else if |args| >= 2 && Classify(args[0]).ContextArg? && Sets(Classify(args[0]).flag, c) then Some(args[1])
      else None
  }

  /** When the loop runs to the end, each count is the value of the last option that
      sets it, or what it was before when there is none. */
  lemma {:induction false} LoopCounts(st: State, args: seq<string>, c: Count)
    ensures ParseLoop(st, args).Continue? ==>
              (CountValue(args, c).None? ==> CountOf(ParseLoop(st, args).state, c) == CountOf(st, c))
              && (CountValue(args, c).Some? ==>
                    ParseUsize(CountValue(args, c).value) == Some(CountOf(ParseLoop(st, args).state, c)))
    decreases |args|
  {
    if args != [] && Handle(st, args).Next? {
      var st1, n := Handle(st, args).state, Handle(st, args).used;
      HandleOperands(st, args);
      HandleCounts(st, args, c);
      LoopStep(st, args);
      LoopCounts(st1, args[n..], c);
    }
  }

  /** One step sets count `c` exactly when it meets an option that sets it, to the
      value that follows. */
  lemma HandleCounts(st: State, args: seq<string>, c: Count)
    requires args != [] && Handle(st, args).Next?
    ensures var sets := Classify(args[0]).ContextArg? && Sets(Classify(args[0]).flag, c);
            (sets ==> |args| >= 2 && ParseUsize(args[1]) == Some(CountOf(Handle(st, args).state, c)))
            && (!sets ==> CountOf(Handle(st, args).state, c) == CountOf(st, c))
  {
  }

  /** A configuration the search runs with: each switch is on exactly when it is
      given, each count is the value of the last option that sets it (0 without one)
      and fits a usize, the first operand is the pattern (preceded by
      `(?i)` exactly when -i was given), and the other operands are the paths, "."
      when there are none. */
  lemma RunFacts(args: seq<string>)
    ensures ParseArgs(args).Run? ==>
              var c := ParseArgs(args).config;
              var ops := Operands(args);
              && c.useColor == ("-c" in args || "--color" in args)
              && c.ignoreCase == ("-i" in args || "--ignore-case" in args)
              && c.includeHidden == ("-h" in args || "--hidden" in args)
              && c.withHeading == ("--no-heading" !in args)
              && c.before <= USIZE_MAX && c.after <= USIZE_MAX
              && (CountValue(args, AfterCount).None? ==> c.after == 0)
              && (CountValue(args, AfterCount).Some? ==> ParseUsize(CountValue(args, AfterCount).value) == Some(c.after))
              && (CountValue(args, BeforeCount).None? ==> c.before == 0)
              && (CountValue(args, BeforeCount).Some? ==> ParseUsize(CountValue(args, BeforeCount).value) == Some(c.before))
              && |ops| >= 1
              && c.pattern == (if c.ignoreCase then "(?i)" + ops[0] else ops[0])
              && c.paths == (if |ops| == 1 then ["."] else ops[1..])
  {
    StopIsNotRun(Initial, args);
    if ParseArgs(args).Run? {
      LoopFlags(Initial, args);
      LoopBounds(Initial, args);
      LoopCounts(Initial, args, AfterCount);
      LoopCounts(Initial, args, BeforeCount);
      LoopOperands(Initial, args);
      assert OperandsPlaced(Initial, ParseLoop(Initial, args).state, Operands(args));
      GivenSpelled(args);
    }
  }

  /** Without an operand there is no pattern, so the parse never yields a configuration. */
  lemma NoOperandNoRun(args: seq<string>)
    requires Operands(args) == []
    ensures !ParseArgs(args).Run?
  {
    RunFacts(args);
  }

  /** Lines 204-273 as the loop they are. */
  method ParseArguments(args: seq<string>) returns (o: Outcome)
    ensures o == ParseArgs(args)
  {
    var before: nat, after: nat := 0, 0;
    var useColor, includeHidden, ignoreCase, withHeading := false, false, false, true;
    var pattern: Option<string> := None;
    var paths: seq<string> := [];
    var i := 0;
    while i < |args|
      invariant 0 <= i <= |args|
      invariant ParseLoop(Initial, args)
             == ParseLoop(State(before, after, useColor, includeHidden, ignoreCase, withHeading, pattern, paths), args[i..])
    {
      var arg := args[i];
      assert args[i..][0] == arg && args[i..][1..] == args[i + 1..];
      i := i + 1;
      match Classify(arg)
      case HelpArg =>
        return Help;
      case SwitchArg(s) =>
        match s {
          case Color => useColor := true;
          case IgnoreCase => ignoreCase := true;
          case Hidden => includeHidden := true;
          case NoHeading => withHeading := false;
        }
      case ContextArg(flag) =>
        if i == |args| {
          return Failure(MissingValue(flag));
        }
        var n := ParseUsize(args[i]);
        if n.None? {
          return Failure(InvalidNumber(flag));
        }
        assert args[i - 1..][1] == args[i] && args[i - 1..][2..] == args[i + 1..];
        match flag {
          case After => after := n.value;
          case Before => before := n.value;
          case Both => before, after := n.value, n.value;
        }
        i := i + 1;
      case Positional =>
        if |arg| > 0 && arg[0] == '-' && pattern.None? {
          return Failure(UnknownOption(arg));
        }
        if pattern.None? {
          pattern := Some(arg);
        } else {
          paths := paths + [arg];
        }
    }
    assert args[i..] == [];
    if pattern.None? {
      return Failure(NoPattern);
    }
    if |paths| == 0 {
      paths := ["."];
    }
    var pat := pattern.value;
    if ignoreCase {
      pat := "(?i)" + pat;
    }
    o := Run(Config(before, after, useColor, includeHidden, ignoreCase, withHeading, pat, paths));
  }
}
