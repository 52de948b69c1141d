/** The command-line parser (src/util/parse_options.cpp). */
module Options {
  import opened Wrappers
  import opened CStrings

  datatype Kind = Num | Str | Flag | Double

  datatype Value = Unset | NumValue(n: nat) | StrValue(s: string) | FlagValue | DoubleValue(r: real)

  /** An entry of the option table; val is what its target holds. */
  datatype Entry = Entry(val: Value, kind: Kind, name: char, required: bool, isSet: bool)

  /** How a call ends: with a code, in exit(0) after the usage, in a read of argv[argc], or never. */
  datatype Outcome = Returns(code: nat) | ExitsForHelp | ReadsNull | LoopsForever

  type Atof = string -> real

  /** A dash and one more character. */
  predicate IsOption(s: string) { |s| == 2 && s[0] == '-' && s[1] != '\0' }

  predicate IsDigit(c: char) { '0' <= c <= '9' }

  /** atoi on a string of digits: the value of its longest prefix of digits. */
  function Atoi(s: string, sofar: nat): nat
    decreases |s|
  {
    if s == [] || !IsDigit(s[0]) then sofar else Atoi(s[1..], 10 * sofar + (s[0] - '0') as nat)
  }

  /** The first entry with this name, |opts| when there is none. */
  function Find(opts: seq<Entry>, name: char): (k: nat)
    ensures k <= |opts| && (k < |opts| ==> opts[k].name == name)
    ensures forall i :: 0 <= i < k ==> opts[i].name != name
  {
    if opts == [] || opts[0].name == name then 0
    else
      var k := Find(opts[1..], name);
      assert forall i :: 1 <= i < k + 1 ==> opts[i] == opts[1..][i - 1];
      k + 1
  }

  function ValueOf(atof: Atof, kind: Kind, token: string): Value {
    match kind
    case Num => NumValue(Atoi(token, 0))
    case Str => StrValue(token)
    case Flag => FlagValue
    case Double => DoubleValue(atof(token))
  }

  /** What the target of an entry holds once its option was read, with this argument or without one. */
  function Target(atof: Atof, entry: Entry, token: Option<string>): Value {
    match token
    case Some(t) => ValueOf(atof, entry.kind, t)
    case None => if entry.kind.Flag? then FlagValue else entry.val
  }

  /** The table after reading option number k. */
  function Mark(atof: Atof, opts: seq<Entry>, k: nat, token: Option<string>): seq<Entry>
    requires k < |opts|
  {
    opts[k := opts[k].(val := Target(atof, opts[k], token), isSet := true)]
  }

  predicate RequiredSet(opts: seq<Entry>) {
    forall i :: 0 <= i < |opts| ==> opts[i].required ==> opts[i].isSet
  }

  /** Whether an option of this kind takes the argument behind it. */
  predicate TakesArgument(kind: Kind, args: seq<string>) {
    match kind
    case Num => |args| > 1 && IsDigit(CharAt(args[1], 0))
    case Flag => false
    case _ => true
  }

  /* ---- One pass of the outer loop ---- */

  /** The state of the loop: the arguments left, the table, and the options counted; or the end. */
  datatype Scan = Running(args: seq<string>, opts: seq<Entry>, result: nat) | Ended(outcome: Outcome, opts: seq<Entry>)

  predicate AsksForHelp(args: seq<string>, opts: seq<Entry>) {
    args != [] && IsOption(args[0]) && opts != [] && args[0][1] == 'h'
  }

  /** The first argument is an option that is not in the table. */
  predicate Unknown(args: seq<string>, opts: seq<Entry>) {
    && args != [] && IsOption(args[0]) && !AsksForHelp(args, opts)
    && Find(opts, args[0][1]) == |opts|
  }

  /** The first argument is an option of the table. */
  predicate Known(args: seq<string>, opts: seq<Entry>) {
    && args != [] && IsOption(args[0]) && !AsksForHelp(args, opts)
    && Find(opts, args[0][1]) < |opts|
  }

  /** It needs to look behind the last argument. */
  predicate NeedsMore(args: seq<string>, opts: seq<Entry>)
    requires Known(args, opts)
  {
    !opts[Find(opts, args[0][1])].kind.Flag? && |args| == 1
  }

  /** The first argument is an option that can be read. */
  predicate CanRead(args: seq<string>, opts: seq<Entry>) {
    Known(args, opts) && !NeedsMore(args, opts)
  }

  /** An option of the table as it stands on the command line, with the argument it takes, if any. */
  datatype Setting = Setting(index: nat, token: Option<string>)

  function First(args: seq<string>, opts: seq<Entry>): Setting
    requires CanRead(args, opts)
  {
    var k := Find(opts, args[0][1]);
    Setting(k, if TakesArgument(opts[k].kind, args) then Some(args[1]) else None)
  }

  function Size(s: Setting): nat { if s.token.Some? then 2 else 1 }

  /**
   * The test of the outer loop and one pass through it. With an option that is not in the table the
   * inner loop finds nothing to do, so neither argv, nor the table, nor the count changes.
   */
  function Pass(atof: Atof, scan: Scan): Scan {
    match scan
    case Ended(_, _) => scan
    case Running(args, opts, result) =>
      if args == [] then Ended(Returns(if RequiredSet(opts) then 1 else 0), opts)
      else if !IsOption(args[0]) then Ended(Returns(result), opts)
      else if AsksForHelp(args, opts) then Ended(ExitsForHelp, opts)
      else if Find(opts, args[0][1]) == |opts| then scan
      else if NeedsMore(args, opts) then Ended(ReadsNull, opts)
      else Reads(atof, args, opts, result, First(args, opts))
  }

  /** The state after this setting was read. */
  function Reads(atof: Atof, args: seq<string>, opts: seq<Entry>, result: nat, s: Setting): Scan
    requires s.index < |opts| && Size(s) <= |args|
  {
    Running(args[Size(s)..], Mark(atof, opts, s.index, s.token), result + 1)
  }

  /** A pass changes nothing exactly at an option outside the table; otherwise it ends or shortens argv. */
  lemma PassMoves(atof: Atof, args: seq<string>, opts: seq<Entry>, result: nat)
    ensures var scan := Running(args, opts, result);
      && (Pass(atof, scan) == scan <==> Unknown(args, opts))
      && (Pass(atof, scan).Running? <==> Unknown(args, opts) || CanRead(args, opts))
      && (CanRead(args, opts) ==> |Pass(atof, scan).args| < |args|)
  {
  }

  /** The state after n passes. */
  function Passes(atof: Atof, scan: Scan, n: nat): Scan
    decreases n
  {
    if n == 0 then scan else Passes(atof, Pass(atof, scan), n - 1)
  }

  /* ---- The whole loop ---- */

  datatype Parsed = Parsed(outcome: Outcome, opts: seq<Entry>)

  /** Passes until the loop ends, or until one changes nothing. */
  function Parse(atof: Atof, args: seq<string>, opts: seq<Entry>, result: nat): Parsed
    decreases |args|
  {
    match Pass(atof, Running(args, opts, result))
    case Ended(outcome, end) => Parsed(outcome, end)
    case Running(rest, next, count) =>
      if |rest| < |args| then Parse(atof, rest, next, count) else Parsed(LoopsForever, opts)
  }

  function Arguments(argv: seq<string>): seq<string> { if |argv| < 2 then [] else argv[1..] }

  /** The whole call: with no arguments at all it returns 0. */
  function ParseCall(atof: Atof, argv: seq<string>, opts: seq<Entry>): Parsed {
    if |argv| < 2 then Parsed(Returns(0), opts) else Parse(atof, argv[1..], opts, 0)
  }

  /** Whether the outer loop ever ends from here. */
  ghost predicate Ends(atof: Atof, scan: Scan) { exists n: nat :: Passes(atof, scan, n).Ended? }

  lemma {:induction false} StaysThere(atof: Atof, scan: Scan, n: nat)
    requires Pass(atof, scan) == scan
    ensures Passes(atof, scan, n) == scan
  {
    if n == 0 {
    } else {
      StaysThere(atof, scan, n - 1);
    }
  }

  /** The passes come to the end that Parse gives, or never come to one. */
  lemma {:induction false} ParseIsTheLoop(atof: Atof, args: seq<string>, opts: seq<Entry>, result: nat)
    ensures var scan, parsed := Running(args, opts, result), Parse(atof, args, opts, result);
      if parsed.outcome.LoopsForever? then !Ends(atof, scan)
      else exists n: nat :: Passes(atof, scan, n) == Ended(parsed.outcome, parsed.opts)
    decreases |args|
  {
    var scan := Running(args, opts, result);
    var next := Pass(atof, scan);
    PassMoves(atof, args, opts, result);
    if next.Ended? {
      assert Passes(atof, scan, 1) == Passes(atof, next, 0) == next;
    } else if CanRead(args, opts) {
      ParseIsTheLoop(atof, next.args, next.opts, next.result);
      var parsed := Parse(atof, args, opts, result);
      if parsed.outcome.LoopsForever? {
        forall n: nat ensures Passes(atof, scan, n).Running? {
          assert n > 0 ==> !Passes(atof, next, n - 1).Ended?;
        }
      } else {
        var n: nat :| Passes(atof, next, n) == Ended(parsed.outcome, parsed.opts);
        assert Passes(atof, scan, n + 1) == Passes(atof, next, n);
      }
    } else {
      forall n: nat ensures Passes(atof, scan, n).Running? {
        StaysThere(atof, scan, n);
      }
    }
  }

  lemma EndsUnlessLoops(atof: Atof, args: seq<string>, opts: seq<Entry>, result: nat)
    ensures Ends(atof, Running(args, opts, result)) <==> !Parse(atof, args, opts, result).outcome.LoopsForever?
  {
    ParseIsTheLoop(atof, args, opts, result);
  }

  /* ---- The methods ---- */

  /** What the switch does with option number k. */
  method TakeOption(atof: Atof, argv: seq<string>, at: nat, options: array<Entry>, k: nat) returns (ok: bool, next: nat)
    requires at + 1 < |argv| && k < options.Length
    modifies options
    ensures ok <==> !(old(options[k]).kind != Flag && at + 2 == |argv|)
    ensures !ok ==> options[..] == old(options[..]) && next == at
    ensures ok ==> var args := argv[at + 1..];
      var token := if TakesArgument(old(options[k]).kind, args) then Some(args[1]) else None;
      && next == at + (if token.Some? then 2 else 1) && next < |argv|
      && options[..] == Mark(atof, old(options[..]), k, token)
  {
    next := at;
    var entry := options[k];
    match entry.kind {
      case Num =>
        if at + 2 == |argv| { return false, next; }
        if IsDigit(CharAt(argv[next + 2], 0)) {
          next := next + 1;
          options[k] := options[k].(val := NumValue(Atoi(argv[next + 1], 0)));
        }
      case Double =>
        if at + 2 == |argv| { return false, next; }
        next := next + 1;
        options[k] := options[k].(val := DoubleValue(atof(argv[next + 1])));
      case Str =>
        if at + 2 == |argv| { return false, next; }
        next := next + 1;
        options[k] := options[k].(val := StrValue(argv[next + 1]));
      case Flag =>
        options[k] := options[k].(val := FlagValue);
    }
    next := next + 1;
    options[k] := options[k].(isSet := true);
    ok := true;
  }

  /** The inner loop: the first entry with this name. */
  method FindOption(options: array<Entry>, name: char) returns (k: nat)
    ensures k == Find(options[..], name)
  {
    k := 0;
    while k < options.Length && options[k].name != name
      invariant k <= options.Length
      invariant Find(options[..], name) >= k
    {
      k := k + 1;
    }
  }

  lemma TailOfTail(argv: seq<string>, at: nat, d: nat)
    requires at + d <= |argv|
    ensures argv[at..][d..] == argv[at + d..]
  {
  }

  /** A pass that reads option number k. */
  lemma PassReads(atof: Atof, args: seq<string>, opts: seq<Entry>, result: nat, k: nat, token: Option<string>,
                  rest: seq<string>)
    requires args != [] && IsOption(args[0]) && !AsksForHelp(args, opts)
    requires k == Find(opts, args[0][1]) < |opts| && (opts[k].kind.Flag? || |args| > 1)
    requires token == if TakesArgument(opts[k].kind, args) then Some(args[1]) else None
    requires rest == args[if token.Some? then 2 else 1..]
    ensures Pass(atof, Running(args, opts, result)) == Running(rest, Mark(atof, opts, k, token), result + 1)
  {
    FirstIs(args, opts, k, token);
    PassIsReads(atof, args, opts, result);
  }

  lemma FirstIs(args: seq<string>, opts: seq<Entry>, k: nat, token: Option<string>)
    requires args != [] && IsOption(args[0]) && !AsksForHelp(args, opts)
    requires k == Find(opts, args[0][1]) < |opts| && (opts[k].kind.Flag? || |args| > 1)
    requires token == if TakesArgument(opts[k].kind, args) then Some(args[1]) else None
    ensures CanRead(args, opts) && First(args, opts) == Setting(k, token)
  {
  }

  lemma PassIsReads(atof: Atof, args: seq<string>, opts: seq<Entry>, result: nat)
    requires CanRead(args, opts)
    ensures Pass(atof, Running(args, opts, result)) == Reads(atof, args, opts, result, First(args, opts))
  {
  }

  /** The body of the outer loop. at is how far *argvp has moved, so *argcp is |argv| - at. */
  method OnePass(atof: Atof, argv: seq<string>, at: nat, options: array<Entry>, result: nat)
      returns (ended: bool, outcome: Outcome, next: nat, count: nat)
    requires at + 1 < |argv|
    modifies options
    ensures var scan := Pass(atof, Running(argv[at + 1..], old(options[..]), result));
      if ended then scan == Ended(outcome, options[..])
      else next < |argv| && scan == Running(argv[next + 1..], options[..], count)
  {
    ghost var args, was := argv[at + 1..], options[..];
    var arg := argv[at + 1];
    assert args[0] == arg && |args| == |argv| - at - 1;
    next, count, outcome := at, result, Returns(result);
    if !IsOption(arg) {
      return true, Returns(result), next, count;
    }
    if options.Length > 0 && arg[1] == 'h' {
      return true, ExitsForHelp, next, count;
    }
    ended := false;
    var k := FindOption(options, arg[1]);
    if k < options.Length {
      var ok;
      ok, next := TakeOption(atof, argv, at, options, k);
      if !ok {
        return true, ReadsNull, next, count;
      }
      ghost var token := if TakesArgument(was[k].kind, args) then Some(args[1]) else None;
      TailOfTail(argv, at + 1, next - at);
      PassReads(atof, args, was, result, k, token, argv[next + 1..]);
      count := result + 1;
    }
  }

  /**
   * parse_options. Where a pass changes nothing the source repeats it for ever; the method ends
   * there with LoopsForever.
   */
  method ParseOptions(atof: Atof, argv: seq<string>, options: array<Entry>) returns (outcome: Outcome)
    modifies options
    ensures Parsed(outcome, options[..]) == ParseCall(atof, argv, old(options[..]))
  {
    var result, at := 0, 0;
    if |argv| < 2 {
      return Returns(0);
    }
    while |argv| - at > 1
      invariant at < |argv|
      invariant ParseCall(atof, argv, old(options[..])) == Parse(atof, argv[at + 1..], options[..], result)
    {
      PassMoves(atof, argv[at + 1..], options[..], result);
      var ended, next, count;
      ended, outcome, next, count := OnePass(atof, argv, at, options, result);
      if ended {
        return outcome;
      }
      if next == at {
        return LoopsForever;
      }
      assert |argv[next + 1..]| < |argv[at + 1..]|;
      result, at := count, next;
    }
    assert argv[at + 1..] == [];
    var i := 0;
    while i < options.Length
      invariant i <= options.Length
      invariant forall j :: 0 <= j < i ==> options[j].required ==> options[j].isSet
    {
      if options[i].required && !options[i].isSet {
        return Returns(0);
      }
      i := i + 1;
    }
    outcome := Returns(1);
  }

  /* ---- The settings on a command line, and what is behind them ---- */

  /** The options that are read, from the left. It depends on names and kinds only. */
  function Settings(args: seq<string>, opts: seq<Entry>): seq<Setting>
    decreases |args|
  {
    if !CanRead(args, opts) then []
    else
      var s := First(args, opts);
      [s] + Settings(args[Size(s)..], opts)
  }

  /** The arguments at which reading stops. */
  function Rest(args: seq<string>, opts: seq<Entry>): (rest: seq<string>)
    ensures !CanRead(rest, opts)
    decreases |args|
  {
    if !CanRead(args, opts) then args else Rest(args[Size(First(args, opts))..], opts)
  }

  function Words(opts: seq<Entry>, s: Setting): seq<string>
    requires s.index < |opts|
  {
    [['-', opts[s.index].name]] + if s.token.Some? then [s.token.value] else []
  }

  /** A number option without its number. */
  predicate Bare(opts: seq<Entry>, s: Setting) {
    s.index < |opts| && opts[s.index].kind.Num? && s.token.None?
  }

  /** The entry is the one that its name finds, and the argument is one that its kind takes. */
  predicate Readable(opts: seq<Entry>, s: Setting) {
    && s.index < |opts| && Find(opts, opts[s.index].name) == s.index
    && opts[s.index].name != 'h' && opts[s.index].name != '\0'
    && match opts[s.index].kind
       case Num => s.token.Some? ==> IsDigit(CharAt(s.token.value, 0))
       case Flag => s.token.None?
       case _ => s.token.Some?
  }

  /** These words do not give a bare number option its number. */
  predicate NoNumber(words: seq<string>) { words != [] && !IsDigit(CharAt(words[0], 0)) }

  predicate WellFormed(opts: seq<Entry>, settings: seq<Setting>, tail: seq<string>) {
    && (forall s :: s in settings ==> Readable(opts, s))
    && (settings != [] && Bare(opts, settings[|settings| - 1]) ==> NoNumber(tail))
  }

  function Render(opts: seq<Entry>, settings: seq<Setting>): seq<string>
    requires forall s :: s in settings ==> s.index < |opts|
  {
    if settings == [] then [] else Words(opts, settings[0]) + Render(opts, settings[1..])
  }

  /** The table after the settings, one after the other. */
  function Applied(atof: Atof, opts: seq<Entry>, settings: seq<Setting>): (r: seq<Entry>)
    requires forall s :: s in settings ==> s.index < |opts|
    ensures |r| == |opts|
    decreases |settings|
  {
    if settings == [] then opts
    else
      var s := settings[0];
      Applied(atof, Mark(atof, opts, s.index, s.token), settings[1..])
  }

  lemma FirstWords(args: seq<string>, opts: seq<Entry>)
    requires CanRead(args, opts)
    ensures var s := First(args, opts);
      && Readable(opts, s) && args == Words(opts, s) + args[Size(s)..]
      && (Bare(opts, s) ==> NoNumber(args[Size(s)..]))
  {
    assert args[0] == ['-', args[0][1]];
    assert args == [args[0]] + args[1..];
    if First(args, opts).token.Some? {
      assert args == [args[0], args[1]] + args[2..];
    }
  }

  /** Every command line is a well-formed list of settings, written out, and a rest that is not read. */
  lemma {:induction false} EveryCommandLineIsRendered(args: seq<string>, opts: seq<Entry>)
    ensures WellFormed(opts, Settings(args, opts), Rest(args, opts))
    ensures args == Render(opts, Settings(args, opts)) + Rest(args, opts)
    decreases |args|
  {
    if !CanRead(args, opts) {
    } else {
      var s := First(args, opts);
      var more := args[Size(s)..];
      FirstWords(args, opts);
      EveryCommandLineIsRendered(more, opts);
      SettingsJoin(opts, s, Settings(more, opts), Rest(more, opts));
    }
  }

  lemma SettingsJoin(opts: seq<Entry>, s: Setting, settings: seq<Setting>, tail: seq<string>)
    requires Readable(opts, s) && WellFormed(opts, settings, tail)
    requires Bare(opts, s) ==> NoNumber(Render(opts, settings) + tail)
    ensures WellFormed(opts, [s] + settings, tail)
    ensures Render(opts, [s] + settings) + tail == Words(opts, s) + (Render(opts, settings) + tail)
  {
    var all := [s] + settings;
    assert all[1..] == settings;
    if settings == [] {
      assert Render(opts, settings) + tail == tail;
    } else {
      assert all[|all| - 1] == settings[|settings| - 1];
    }
  }

  /* ---- Reading depends on names and kinds only ---- */

  ghost predicate SameTable(a: seq<Entry>, b: seq<Entry>) {
    |a| == |b| && forall i :: 0 <= i < |a| ==>
      a[i].name == b[i].name && a[i].kind == b[i].kind && a[i].required == b[i].required
  }

  lemma SameTableFind(a: seq<Entry>, b: seq<Entry>, name: char)
    requires SameTable(a, b)
    ensures Find(a, name) == Find(b, name)
  {
    var i, j := Find(a, name), Find(b, name);
    assert i < |a| ==> b[i].name == name;
    assert j < |b| ==> a[j].name == name;
  }

  lemma SameTableReads(a: seq<Entry>, b: seq<Entry>, args: seq<string>)
    requires SameTable(a, b)
    ensures Unknown(args, a) <==> Unknown(args, b)
    ensures AsksForHelp(args, a) <==> AsksForHelp(args, b)
    ensures CanRead(args, a) <==> CanRead(args, b)
    ensures CanRead(args, a) ==> First(args, a) == First(args, b)
  {
    if args != [] && IsOption(args[0]) {
      SameTableFind(a, b, args[0][1]);
    }
  }

  lemma {:induction false} SameTableSettings(a: seq<Entry>, b: seq<Entry>, args: seq<string>)
    requires SameTable(a, b)
    ensures Settings(args, a) == Settings(args, b) && Rest(args, a) == Rest(args, b)
    decreases |args|
  {
    SameTableReads(a, b, args);
    if !CanRead(args, a) {
    } else {
      SameTableSettings(a, b, args[Size(First(args, a))..]);
    }
  }

  lemma MarkSameTable(atof: Atof, opts: seq<Entry>, k: nat, token: Option<string>)
    requires k < |opts|
    ensures SameTable(opts, Mark(atof, opts, k, token))
  {
  }

  /* ---- What the loop computes, on every command line ---- */

  /** How the call ends when reading stops at rest with this table and this count. */
  function Stop(rest: seq<string>, opts: seq<Entry>, count: nat): Outcome {
    if rest == [] then Returns(if RequiredSet(opts) then 1 else 0)
    else if !IsOption(rest[0]) then Returns(count)
    else if AsksForHelp(rest, opts) then ExitsForHelp
    else if Unknown(rest, opts) then LoopsForever
    else ReadsNull
  }

  lemma IndicesInTable(args: seq<string>, opts: seq<Entry>)
    ensures forall s :: s in Settings(args, opts) ==> s.index < |opts|
  {
    EveryCommandLineIsRendered(args, opts);
  }

  lemma ReadsOne(atof: Atof, args: seq<string>, opts: seq<Entry>, result: nat)
    requires CanRead(args, opts)
    ensures var s := First(args, opts);
      Parse(atof, args, opts, result) == Parse(atof, args[Size(s)..], Mark(atof, opts, s.index, s.token), result + 1)
  {
  }

  lemma ReadsNone(atof: Atof, args: seq<string>, opts: seq<Entry>, result: nat)
    requires !CanRead(args, opts)
    ensures Parse(atof, args, opts, result) == Parsed(Stop(args, opts, result), opts)
  {
  }

  /** The settings applied one after the other, and the outcome that the rest decides. */
  function Result(atof: Atof, args: seq<string>, opts: seq<Entry>, result: nat): Parsed {
    IndicesInTable(args, opts);
    Concluded(atof, opts, Settings(args, opts), Rest(args, opts), result + |Settings(args, opts)|)
  }

  function Concluded(atof: Atof, opts: seq<Entry>, settings: seq<Setting>, rest: seq<string>, count: nat): Parsed
    requires forall s :: s in settings ==> s.index < |opts|
  {
    var end := Applied(atof, opts, settings);
    Parsed(Stop(rest, end, count), end)
  }

  lemma ResultOfOne(atof: Atof, args: seq<string>, opts: seq<Entry>, result: nat)
    requires CanRead(args, opts)
    ensures var s := First(args, opts);
      Result(atof, args, opts, result) == Result(atof, args[Size(s)..], Mark(atof, opts, s.index, s.token), result + 1)
  {
    var s := First(args, opts);
    var more, next := args[Size(s)..], Mark(atof, opts, s.index, s.token);
    var settings, rest := Settings(more, opts), Rest(more, opts);
    var count := result + 1 + |settings|;
    ResultIs(atof, args, opts, result, [s] + settings, rest, count);
    MarkSameTable(atof, opts, s.index, s.token);
    SameTableSettings(opts, next, more);
    ResultIs(atof, more, next, result + 1, settings, rest, count);
    AppliedFirst(atof, opts, s, settings);
  }

  lemma ResultIs(atof: Atof, args: seq<string>, opts: seq<Entry>, result: nat,
                 settings: seq<Setting>, rest: seq<string>, count: nat)
    requires Settings(args, opts) == settings && Rest(args, opts) == rest && count == result + |settings|
    ensures forall s :: s in settings ==> s.index < |opts|
    ensures Result(atof, args, opts, result) == Concluded(atof, opts, settings, rest, count)
  {
    IndicesInTable(args, opts);
  }

  /** The loop computes this result for every command line, table and count. */
  lemma {:induction false} ParseIsApplied(atof: Atof, args: seq<string>, opts: seq<Entry>, result: nat)
    ensures Parse(atof, args, opts, result) == Result(atof, args, opts, result)
    decreases |args|
  {
    if !CanRead(args, opts) {
      ReadsNone(atof, args, opts, result);
    } else {
      var s := First(args, opts);
      ReadsOne(atof, args, opts, result);
      ParseIsApplied(atof, args[Size(s)..], Mark(atof, opts, s.index, s.token), result + 1);
      ResultOfOne(atof, args, opts, result);
    }
  }

  lemma AppliedFirst(atof: Atof, opts: seq<Entry>, s: Setting, settings: seq<Setting>)
    requires s.index < |opts| && forall r :: r in settings ==> r.index < |opts|
    ensures Applied(atof, opts, [s] + settings) == Applied(atof, Mark(atof, opts, s.index, s.token), settings)
  {
    assert ([s] + settings)[1..] == settings;
  }

  predicate Given(settings: seq<Setting>, i: nat) { exists s :: s in settings && s.index == i }

  /** The last argument that the settings give entry i. */
  function LastToken(settings: seq<Setting>, i: nat): Option<string> {
    if settings == [] then None
    else
      var later := LastToken(settings[1..], i);
      if later.Some? then later else if settings[0].index == i then settings[0].token else None
  }

  lemma {:induction false} LastTokenMeans(settings: seq<Setting>, i: nat)
    ensures LastToken(settings, i).None? <==> forall s :: s in settings && s.index == i ==> s.token.None?
  {
    if settings == [] {
    } else {
      LastTokenMeans(settings[1..], i);
      assert settings == [settings[0]] + settings[1..];
    }
  }

  /** Entry i after the settings: the last argument given for it, and marked when it was read at all. */
  lemma {:induction false} AppliedMeans(atof: Atof, opts: seq<Entry>, settings: seq<Setting>, i: nat)
    requires (forall s :: s in settings ==> s.index < |opts|) && i < |opts|
    ensures var e, last := Applied(atof, opts, settings)[i], LastToken(settings, i);
      && e.name == opts[i].name && e.kind == opts[i].kind && e.required == opts[i].required
      && (e.isSet <==> opts[i].isSet || Given(settings, i))
      && e.val == (if last.Some? then ValueOf(atof, opts[i].kind, last.value)
                   else if opts[i].kind.Flag? && Given(settings, i) then FlagValue
                   else opts[i].val)
    decreases |settings|
  {
    if settings == [] {
    } else {
      var s := settings[0];
      GivenFirst(settings, i);
      AppliedMeans(atof, Mark(atof, opts, s.index, s.token), settings[1..], i);
    }
  }

  lemma GivenFirst(settings: seq<Setting>, i: nat)
    requires settings != []
    ensures Given(settings, i) <==> settings[0].index == i || Given(settings[1..], i)
  {
    assert settings == [settings[0]] + settings[1..];
  }

  /** The last argument is that of the last of these settings that has one. */
  lemma {:induction false} LastTokenIsLast(settings: seq<Setting>, i: nat) returns (k: nat)
    requires LastToken(settings, i).Some?
    ensures k < |settings| && settings[k] == Setting(i, LastToken(settings, i))
    ensures forall j :: k < j < |settings| && settings[j].index == i ==> settings[j].token.None?
  {
    if LastToken(settings[1..], i).Some? {
      k := LastTokenIsLast(settings[1..], i);
      assert settings[1..][k] == settings[k + 1];
      forall j | k + 1 < j < |settings| && settings[j].index == i ensures settings[j].token.None? {
        assert settings[1..][j - 1] == settings[j];
      }
      k := k + 1;
    } else {
      k := 0;
      LastTokenMeans(settings[1..], i);
      forall j | 0 < j < |settings| && settings[j].index == i ensures settings[j].token.None? {
        assert settings[1..][j - 1] == settings[j] && settings[j] in settings[1..];
      }
    }
  }

  /* ---- Numbers ---- */

  lemma {:induction false} AtoiDigits(s: string, t: string, sofar: nat)
    requires AllDigits(s)
    ensures Atoi(s + t, sofar) == Atoi(t, Atoi(s, sofar))
    decreases |s|
  {
    if s == "" {
      assert s + t == t;
    } else {
      assert (s + t)[0] == s[0] && (s + t)[1..] == s[1..] + t;
      AtoiDigits(s[1..], t, 10 * sofar + (s[0] - '0') as nat);
    }
  }

  lemma AtoiOne(d: nat, sofar: nat)
    requires d < 10
    ensures Atoi(["0123456789"[d]], sofar) == 10 * sofar + d
  {
    DecimalDigit(d);
    assert ["0123456789"[d]][1..] == "";
  }

  /** atoi reads the decimal digits of a number as the number. */
  lemma {:induction false} AtoiDecimal(n: nat)
    ensures Atoi(Decimal(n), 0) == n
  {
    if n < 10 {
      AtoiOne(n, 0);
    } else {
      DecimalIsDigits(n / 10);
      AtoiDecimal(n / 10);
      AtoiDigits(Decimal(n / 10), ["0123456789"[n % 10]], 0);
      AtoiOne(n % 10, n / 10);
    }
  }

  /** What follows the digits does not matter. */
  lemma AtoiPrefix(n: nat, rest: string)
    requires !IsDigit(CharAt(rest, 0))
    ensures Atoi(Decimal(n) + rest, 0) == n
  {
    DecimalIsDigits(n);
    AtoiDecimal(n);
    AtoiDigits(Decimal(n), rest, 0);
  }

  lemma AppliedSameTable(atof: Atof, opts: seq<Entry>, settings: seq<Setting>)
    requires forall s :: s in settings ==> s.index < |opts|
    ensures SameTable(opts, Applied(atof, opts, settings))
  {
    forall i | 0 <= i < |opts|
      ensures var e := Applied(atof, opts, settings)[i];
        e.name == opts[i].name && e.kind == opts[i].kind && e.required == opts[i].required
    {
      AppliedMeans(atof, opts, settings, i);
    }
  }

  /** Every required option was marked before or is read; a caller can tell from the command line. */
  predicate RequiredGiven(opts: seq<Entry>, settings: seq<Setting>) {
    forall i :: 0 <= i < |opts| ==> opts[i].required ==> opts[i].isSet || Given(settings, i)
  }

  lemma MarkedAtTheEnd(atof: Atof, opts: seq<Entry>, settings: seq<Setting>)
    requires forall s :: s in settings ==> s.index < |opts|
    ensures RequiredSet(Applied(atof, opts, settings)) <==> RequiredGiven(opts, settings)
  {
    var end := Applied(atof, opts, settings);
    forall i | 0 <= i < |opts|
      ensures (end[i].required ==> end[i].isSet) <==> (opts[i].required ==> opts[i].isSet || Given(settings, i))
    {
      AppliedMeans(atof, opts, settings, i);
    }
  }

  lemma StopSame(atof: Atof, opts: seq<Entry>, settings: seq<Setting>, rest: seq<string>)
    requires forall s :: s in settings ==> s.index < |opts|
    ensures Unknown(rest, Applied(atof, opts, settings)) <==> Unknown(rest, opts)
    ensures AsksForHelp(rest, Applied(atof, opts, settings)) <==> AsksForHelp(rest, opts)
  {
    AppliedSameTable(atof, opts, settings);
    SameTableReads(opts, Applied(atof, opts, settings), rest);
  }

  /** What a call does, read off the command line; nothing is assumed of either. */
  lemma EveryCall(atof: Atof, argv: seq<string>, opts: seq<Entry>)
    requires |argv| >= 2
    ensures var args, parsed := Arguments(argv), ParseCall(atof, argv, opts);
      var settings, rest := Settings(args, opts), Rest(args, opts);
      && (forall s :: s in settings ==> s.index < |opts|)
      && parsed.opts == Applied(atof, opts, settings)
      && parsed.outcome ==
         if rest == [] then
           Returns(if forall i :: 0 <= i < |opts| && opts[i].required ==> opts[i].isSet || Given(settings, i)
                   then 1 else 0)
         else if |rest[0]| != 2 || rest[0][0] != '-' || rest[0][1] == '\0' then Returns(|settings|)
         else if rest[0] == "-h" && opts != [] then ExitsForHelp
         else if forall k :: 0 <= k < |opts| ==> opts[k].name != rest[0][1] then LoopsForever
         else ReadsNull
  {
    var args := argv[1..];
    ParseIsApplied(atof, args, opts, 0);
    IndicesInTable(args, opts);
    MarkedAtTheEnd(atof, opts, Settings(args, opts));
    StopSame(atof, opts, Settings(args, opts), Rest(args, opts));
  }

  /**
   * The targets after any call: a string is the last argument given for it, a double what atof makes
   * of that, a number the one whose decimal digits it begins with; a flag that was read is true; and
   * what was not read, or only as a bare number option, is as before.
   */
  lemma TargetsHold(atof: Atof, argv: seq<string>, opts: seq<Entry>, i: nat)
    requires i < |opts|
    ensures |ParseCall(atof, argv, opts).opts| == |opts|
    ensures var val, settings := ParseCall(atof, argv, opts).opts[i].val, Settings(Arguments(argv), opts);
      match LastToken(settings, i)
      case Some(token) =>
        && (opts[i].kind.Str? ==> val == StrValue(token))
        && (opts[i].kind.Double? ==> val == DoubleValue(atof(token)))
        && (forall n: nat, rest :: opts[i].kind.Num? && token == Decimal(n) + rest && !IsDigit(CharAt(rest, 0)) ==>
              val == NumValue(n))
      case None => val == (if opts[i].kind.Flag? && Given(settings, i) then FlagValue else opts[i].val)
  {
    var settings := Settings(Arguments(argv), opts);
    IndicesInTable(Arguments(argv), opts);
    if |argv| >= 2 {
      EveryCall(atof, argv, opts);
      AppliedMeans(atof, opts, settings, i);
    } else {
      assert settings == [];
    }
    forall n: nat, rest | !IsDigit(CharAt(rest, 0)) ensures Atoi(Decimal(n) + rest, 0) == n {
      AtoiPrefix(n, rest);
    }
  }

  /** The loop never ends exactly when reading stops at an option that is not in the table. */
  lemma UnknownOptionLoops(atof: Atof, args: seq<string>, opts: seq<Entry>, result: nat)
    ensures Ends(atof, Running(args, opts, result)) <==> !Unknown(Rest(args, opts), opts)
    ensures Parse(atof, args, opts, result).outcome == LoopsForever <==> Unknown(Rest(args, opts), opts)
  {
    ParseIsApplied(atof, args, opts, result);
    IndicesInTable(args, opts);
    StopSame(atof, opts, Settings(args, opts), Rest(args, opts));
    EndsUnlessLoops(atof, args, opts, result);
  }

  /** The call reports success although the table has an unmarked required option. */
  predicate SucceedsUnmarked(parsed: Parsed) {
    parsed.outcome.Returns? && parsed.outcome.code > 0 && !RequiredSet(parsed.opts)
  }

  /**
   * A positive result leaves a required option unmarked exactly when reading stops at an operand,
   * after at least one option, and some required option was neither marked before nor read.
   */
  lemma OperandSkipsTheCheck(atof: Atof, argv: seq<string>, opts: seq<Entry>)
    ensures var settings, rest := Settings(Arguments(argv), opts), Rest(Arguments(argv), opts);
      SucceedsUnmarked(ParseCall(atof, argv, opts)) <==>
      rest != [] && !IsOption(rest[0]) && settings != [] && !RequiredGiven(opts, settings)
  {
    if |argv| < 2 {
    } else {
      EveryCall(atof, argv, opts);
      MarkedAtTheEnd(atof, opts, Settings(Arguments(argv), opts));
    }
  }

  /** prog -x with an empty table never ends. */
  lemma EmptyTableLoops(atof: Atof)
    ensures !Ends(atof, Running(["-x"], [], 0))
    ensures ParseCall(atof, ["prog", "-x"], []).outcome == LoopsForever
  {
    assert ["prog", "-x"][1..] == ["-x"];
    UnknownOptionLoops(atof, ["-x"], [], 0);
  }

  /** prog -t x returns 1 although the required number r was not given. */
  lemma OperandPasses(atof: Atof)
    ensures var r, t := Entry(Unset, Num, 'r', true, false), Entry(Unset, Flag, 't', false, false);
      var parsed := ParseCall(atof, ["prog", "-t", "x"], [r, t]);
      parsed == Parsed(Returns(1), [r, t.(val := FlagValue, isSet := true)]) && SucceedsUnmarked(parsed)
  {
    var r, t := Entry(Unset, Num, 'r', true, false), Entry(Unset, Flag, 't', false, false);
    var opts := [r, t];
    assert opts[1..] == [t] && opts[1..][0].name == 't';
    assert Find(opts[1..], 't') == 0 && Find(opts, 't') == 1;
    assert ["prog", "-t", "x"][1..] == ["-t", "x"] && ["-t", "x"][1..] == ["x"];
    var opts1 := [r, t.(val := FlagValue, isSet := true)];
    assert Pass(atof, Running(["-t", "x"], opts, 0)) == Running(["x"], opts1, 1);
    assert Pass(atof, Running(["x"], opts1, 1)) == Ended(Returns(1), opts1);
    assert opts1[0] == r;
  }

  /* ---- Marked, but not given a value ---- */

  /** The target of entry i is written by the settings. */
  predicate Written(opts: seq<Entry>, settings: seq<Setting>, i: nat)
    requires i < |opts|
  {
    if opts[i].kind.Flag? then Given(settings, i) else LastToken(settings, i).Some?
  }

  /** Entry i is read, but only ever as a number option that no number follows. */
  predicate OnlyBare(opts: seq<Entry>, settings: seq<Setting>, i: nat)
    requires i < |opts|
  {
    && opts[i].kind.Num? && Given(settings, i)
    && forall s :: s in settings && s.index == i ==> s.token.None?
  }

  /** A target is written exactly when its option is read and not only as a bare number option. */
  lemma ReadAndWritten(opts: seq<Entry>, settings: seq<Setting>, i: nat)
    requires (forall s :: s in settings ==> Readable(opts, s)) && i < |opts|
    ensures Written(opts, settings, i) <==> Given(settings, i) && !OnlyBare(opts, settings, i)
  {
    LastTokenMeans(settings, i);
  }

  /** Every required option has a value: its target was written, or it was marked before. */
  predicate RequiredWritten(opts: seq<Entry>, settings: seq<Setting>) {
    forall i :: 0 <= i < |opts| ==> opts[i].required ==> opts[i].isSet || Written(opts, settings, i)
  }

  predicate SomeRequiredBare(opts: seq<Entry>, settings: seq<Setting>) {
    exists i :: 0 <= i < |opts| && opts[i].required && !opts[i].isSet && OnlyBare(opts, settings, i)
  }

  lemma WrittenIffGiven(opts: seq<Entry>, settings: seq<Setting>)
    requires forall s :: s in settings ==> Readable(opts, s)
    ensures RequiredWritten(opts, settings) <==> RequiredGiven(opts, settings) && !SomeRequiredBare(opts, settings)
  {
    forall i | 0 <= i < |opts|
      ensures Written(opts, settings, i) <==> Given(settings, i) && !OnlyBare(opts, settings, i)
    {
      ReadAndWritten(opts, settings, i);
    }
  }

  /**
   * On a command line that is read to its end the result is 1 exactly when every required option
   * was read or marked before; and then each of them has a value exactly when none stands there
   * only as a number option that no number follows.
   */
  lemma WellFormedCommandLine(atof: Atof, argv: seq<string>, opts: seq<Entry>)
    requires |argv| >= 2 && Rest(Arguments(argv), opts) == []
    ensures var settings, parsed := Settings(Arguments(argv), opts), ParseCall(atof, argv, opts);
      && (parsed.outcome == Returns(1) <==> RequiredGiven(opts, settings))
      && (parsed.outcome != Returns(1) ==> parsed.outcome == Returns(0))
      && (parsed.outcome == Returns(1) ==>
            (RequiredWritten(opts, settings) <==> !SomeRequiredBare(opts, settings)))
  {
    EveryCall(atof, argv, opts);
    EveryCommandLineIsRendered(Arguments(argv), opts);
    WrittenIffGiven(opts, Settings(Arguments(argv), opts));
  }

  /** prog -r -t returns 1, and the required number r was never written. */
  lemma BareNumberPasses(atof: Atof)
    ensures var r, t := Entry(Unset, Num, 'r', true, false), Entry(Unset, Flag, 't', false, false);
      var parsed := ParseCall(atof, ["prog", "-r", "-t"], [r, t]);
      parsed.outcome == Returns(1) && parsed.opts == [r.(isSet := true), t.(val := FlagValue, isSet := true)]
  {
    var r, t := Entry(Unset, Num, 'r', true, false), Entry(Unset, Flag, 't', false, false);
    var opts := [r, t];
    assert opts[1..] == [t];
    var opts1 := [r.(isSet := true), t];
    assert opts1[1..] == [t] && opts1[1..][0].name == 't';
    assert Find(opts1[1..], 't') == 0 && Find(opts1, 't') == 1;
    assert ["prog", "-r", "-t"][1..] == ["-r", "-t"];
    assert ["-r", "-t"][1..] == ["-t"] && ["-t"][1..] == [];
    assert Pass(atof, Running(["-r", "-t"], opts, 0)) == Running(["-t"], opts1, 1);
    var opts2 := [r.(isSet := true), t.(val := FlagValue, isSet := true)];
    assert Pass(atof, Running(["-t"], opts1, 1)) == Running([], opts2, 2);
  }

  /* ---- Parsing undoes writing ---- */

  lemma FirstOfWords(opts: seq<Entry>, s: Setting, tail: seq<string>)
    requires Readable(opts, s) && (Bare(opts, s) ==> NoNumber(tail))
    ensures var args := Words(opts, s) + tail;
      CanRead(args, opts) && First(args, opts) == s && args[Size(s)..] == tail
  {
    var args := Words(opts, s) + tail;
    assert args[0] == ['-', opts[s.index].name];
    if s.token.Some? {
      assert args[1] == s.token.value;
    }
  }

  lemma NextIsNoNumber(opts: seq<Entry>, settings: seq<Setting>, tail: seq<string>)
    requires settings != [] && forall s :: s in settings ==> s.index < |opts|
    ensures NoNumber(Render(opts, settings) + tail)
  {
    var args := Render(opts, settings) + tail;
    assert args[0] == ['-', opts[settings[0].index].name];
  }

  lemma RestWellFormed(opts: seq<Entry>, settings: seq<Setting>, tail: seq<string>)
    requires WellFormed(opts, settings, tail) && settings != []
    ensures WellFormed(opts, settings[1..], tail)
    ensures Readable(opts, settings[0])
    ensures Bare(opts, settings[0]) ==> NoNumber(Render(opts, settings[1..]) + tail)
  {
    assert settings[0] in settings;
    assert forall r :: r in settings[1..] ==> r in settings;
    if settings[1..] == [] {
      assert Render(opts, settings[1..]) + tail == tail;
    } else {
      NextIsNoNumber(opts, settings[1..], tail);
    }
  }

  /** The first setting is read, and reading goes on behind it. */
  lemma FirstIsRead(opts: seq<Entry>, settings: seq<Setting>, tail: seq<string>)
    requires WellFormed(opts, settings, tail) && settings != []
    ensures WellFormed(opts, settings[1..], tail)
    ensures var args, more := Render(opts, settings) + tail, Render(opts, settings[1..]) + tail;
      Settings(args, opts) == [settings[0]] + Settings(more, opts) && Rest(args, opts) == Rest(more, opts)
  {
    RestWellFormed(opts, settings, tail);
    var s, more := settings[0], Render(opts, settings[1..]) + tail;
    assert Render(opts, settings) + tail == Words(opts, s) + more;
    FirstOfWords(opts, s, more);
  }

  lemma ConsJoin(settings: seq<Setting>, more: seq<Setting>)
    requires settings != []
    ensures [settings[0]] + (settings[1..] + more) == settings + more
  {
  }

  /** Settings that are written out are read back, whatever follows on the command line. */
  lemma {:induction false} RenderedIsRead(opts: seq<Entry>, settings: seq<Setting>, tail: seq<string>)
    requires WellFormed(opts, settings, tail)
    ensures Settings(Render(opts, settings) + tail, opts) == settings + Settings(tail, opts)
    ensures Rest(Render(opts, settings) + tail, opts) == Rest(tail, opts)
    decreases |settings|
  {
    if settings == [] {
      assert Render(opts, settings) + tail == tail;
    } else {
      FirstIsRead(opts, settings, tail);
      RenderedIsRead(opts, settings[1..], tail);
      ConsJoin(settings, Settings(tail, opts));
    }
  }

  lemma SameTableWellFormed(a: seq<Entry>, b: seq<Entry>, settings: seq<Setting>, tail: seq<string>)
    requires SameTable(a, b) && WellFormed(a, settings, tail)
    ensures WellFormed(b, settings, tail)
  {
    forall s | s in settings ensures Readable(b, s) {
      SameTableFind(a, b, a[s.index].name);
    }
  }

  lemma {:induction false} SameTableRender(a: seq<Entry>, b: seq<Entry>, settings: seq<Setting>)
    requires SameTable(a, b) && forall s :: s in settings ==> s.index < |a|
    ensures Render(a, settings) == Render(b, settings)
  {
    if settings == [] {
    } else {
      SameTableRender(a, b, settings[1..]);
    }
  }

  lemma ReadsFirst(atof: Atof, opts: seq<Entry>, settings: seq<Setting>, tail: seq<string>, result: nat)
    requires WellFormed(opts, settings, tail) && settings != []
    ensures settings[0].index < |opts|
    ensures var next := Mark(atof, opts, settings[0].index, settings[0].token);
      && WellFormed(next, settings[1..], tail)
      && Parse(atof, Render(opts, settings) + tail, opts, result)
         == Parse(atof, Render(next, settings[1..]) + tail, next, result + 1)
  {
    RestWellFormed(opts, settings, tail);
    var s, more := settings[0], Render(opts, settings[1..]) + tail;
    assert Render(opts, settings) + tail == Words(opts, s) + more;
    FirstOfWords(opts, s, more);
    ReadsOne(atof, Words(opts, s) + more, opts, result);
    MarkSameTable(atof, opts, s.index, s.token);
    SameTableWellFormed(opts, Mark(atof, opts, s.index, s.token), settings[1..], tail);
    SameTableRender(opts, Mark(atof, opts, s.index, s.token), settings[1..]);
  }

  lemma NoSettings(atof: Atof, opts: seq<Entry>, tail: seq<string>)
    ensures Render(opts, []) + tail == tail && Applied(atof, opts, []) == opts
  {
  }

  /** Parsing undoes writing: the settings are applied and parsing goes on with what follows. */
  lemma {:induction false} ParseRendered(atof: Atof, opts: seq<Entry>, settings: seq<Setting>, tail: seq<string>,
                                         result: nat, count: nat)
    requires WellFormed(opts, settings, tail) && count == result + |settings|
    ensures Parse(atof, Render(opts, settings) + tail, opts, result)
         == Parse(atof, tail, Applied(atof, opts, settings), count)
    decreases |settings|
  {
    if settings == [] {
      NoSettings(atof, opts, tail);
    } else {
      ReadsFirst(atof, opts, settings, tail, result);
      var next := Mark(atof, opts, settings[0].index, settings[0].token);
      ParseRendered(atof, next, settings[1..], tail, result + 1, count);
      AppliedStep(atof, opts, settings);
    }
  }

  lemma AppliedStep(atof: Atof, opts: seq<Entry>, settings: seq<Setting>)
    requires (forall s :: s in settings ==> s.index < |opts|) && settings != []
    ensures settings[0] in settings && forall s :: s in settings[1..] ==> s.index < |opts|
    ensures Applied(atof, opts, settings)
         == Applied(atof, Mark(atof, opts, settings[0].index, settings[0].token), settings[1..])
  {
    assert settings[0] in settings;
  }
}
