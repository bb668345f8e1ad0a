/** main.c: decode_switches, the loop that drains the scanner into pgify's options. */
module PgifyMain {
  import opened Wrappers
  import opened GetoptSpec
  import opened GetoptStep
  import opened GetoptScanner
  import opened GetoptRefinement
  import opened GetoptLaws
  import opened GetoptRun
  import opened OptionBits

  const PGIFY_DEBUG: bv32 := 1
  const PGIFY_ESCAPE: bv32 := 2
  const PGIFY_LOWERID: bv32 := 4

  const LONG_OPTIONS: seq<LongOption> := [
    LongOption("help", NoArgument, None, 'h' as int),
    LongOption("version", NoArgument, None, 'V' as int),
    LongOption("debug", NoArgument, None, 'd' as int),
    LongOption("escape", NoArgument, None, 'e' as int),
    LongOption("lowercase", NoArgument, None, 'c' as int)
  ]

  function PgifyConfig(posixlyCorrect: bool): (cfg: Config)
    ensures cfg.Valid() && cfg.Stripped() == cfg.optstring
  {
    Config("f:hdecV", LONG_OPTIONS, posixlyCorrect)
  }

  /** How decode_switches ends: it returns, or it leaves the process. */
  datatype Outcome = Options(options: bv32, file: Option<string>) | PrintVersion | Usage(status: int)

  datatype Switches = Switches(debug: bool, escape: bool, lowercase: bool, file: Option<string>)

  function Word(st: Switches, options: bv32): bv32 {
    WithSwitches(options, st.debug, st.escape, st.lowercase)
  }

  /** The codes that leave the process; every other known code is a flag or the file. */
  function Exit(code: int): (exit: Option<Outcome>)
    ensures exit.Some? ==> !exit.value.Options?
  {
    if code == 'V' as int then Some(PrintVersion)
    else if code == 'h' as int then Some(Usage(0))
    else if code in {'f' as int, 'd' as int, 'e' as int, 'c' as int} then None
    else Some(Usage(1))
  }

  function Apply(st: Switches, code: int, arg: Option<string>): Switches {
    if code == 'f' as int then st.(file := arg)
    else if code == 'd' as int then st.(debug := true)
    else if code == 'e' as int then st.(escape := false)
    else if code == 'c' as int then st.(lowercase := false)
    else st
  }

  /** The meaning of a whole run of reports. */
  function Interpret(events: seq<Event>, st: Switches, options: bv32): Outcome {
    if events == [] then Options(Word(st, options), st.file)
    else if Exit(events[0].code).Some? then Exit(events[0].code).value
    else Interpret(events[1..], Apply(st, events[0].code, events[0].arg), options)
  }

  /** After `done` the switches stand at `st`: the answer is the meaning of the reports still to come. */
  ghost predicate Reached(events: seq<Event>, st0: Switches, options: bv32, done: seq<Event>, st: Switches) {
    done <= events && Interpret(events, st0, options) == Interpret(events[|done|..], st, options)
  }

  lemma ReachedStep(events: seq<Event>, st0: Switches, options: bv32, done: seq<Event>, st: Switches, ev: Event,
      rest: seq<Event>)
    requires Reached(events, st0, options, done, st) && events == done + [ev] + rest
    ensures Exit(ev.code).Some? ==> Interpret(events, st0, options) == Exit(ev.code).value
    ensures Exit(ev.code).None? ==> Reached(events, st0, options, done + [ev], Apply(st, ev.code, ev.arg))
  {
    assert events[|done|..] == [ev] + rest;
    assert events[|done + [ev]|..] == rest;
  }

  /** The switch statement: leave the process, or update the flags. */
  method Switch(c: int, optarg: Option<string>, st: Switches) returns (exit: Option<Outcome>, next: Switches)
    ensures exit == Exit(c)
    ensures exit.None? ==> next == Apply(st, c, optarg)
  {
    exit, next := None, st;
    if c == 'V' as int {
      exit := Some(PrintVersion);
    } else if c == 'h' as int {
      exit := Some(Usage(0));
    } else if c == 'f' as int {
      next := st.(file := optarg);
    } else if c == 'd' as int {
      next := st.(debug := true);
    } else if c == 'e' as int {
      next := st.(escape := false);
    } else if c == 'c' as int {
      next := st.(lowercase := false);
    } else {
      exit := Some(Usage(1));
    }
  }

  method Compose(st: Switches, options: bv32) returns (o: bv32)
    ensures o == Word(st, options)
  {
    o := options;
    if st.debug {
      o := o | PGIFY_DEBUG;
    }
    if st.escape {
      o := o | PGIFY_ESCAPE;
    }
    if st.lowercase {
      o := o | PGIFY_LOWERID;
    }
  }

  lemma DeliveredStep(sc: Scanner, original: seq<string>, k: nat, done: seq<Event>, c: int, ev: Event,
      states: seq<Scan>, events: seq<Event>, st0: Switches, st: Switches, options: bv32)
    requires c != END && Delivered(sc, original, k, done, c, ev, states) && k <= |original|
    requires events == Parse(sc.config, sc.config.Stripped(), original[k..], "").events
             && Reached(events, st0, options, done, st)
    ensures Exit(c).Some? ==> Interpret(events, st0, options) == Exit(c).value && !Exit(c).value.Options?
    ensures Exit(c).None? ==> Reached(events, st0, options, done + [ev], Apply(st, c, sc.optarg))
  {
    RunRefinesParse(sc.config, original, k, done + [ev], states);
    ReachedStep(events, st0, options, done, st, ev, Total(sc.config, Last(states)).events);
  }

  /** The loop of decode_switches: its answer is the meaning of the reference parse of the original command line. */
  method DrainSwitches(sc: Scanner, options: bv32, fName: Option<string>) returns (r: Outcome)
    requires sc.config.Valid() && !sc.initialized && sc.optind == 1 <= sc.argv.Length
    modifies sc, sc.argv
    ensures var p := Parse(sc.config, sc.config.Stripped(), old(sc.argv[..])[1..], "");
            && r == Interpret(p.events, Switches(false, true, true, fName), options)
            && (r.Options?
              ==> sc.argv[..] == old(sc.argv[..])[..1] + p.opts + p.nons + p.tail && sc.optind == 1 + |p.opts|)
  {
    ghost var original := sc.argv[..];
    ghost var states := Begin(sc);
    ghost var events := Parse(sc.config, sc.config.Stripped(), original[1..], "").events;
    ghost var done: seq<Event>, ev := [], NonOptionEvent("");
    ghost var st0 := Switches(false, true, true, fName);
    var st := Switches(false, true, true, fName);
    var c;
    c, ev, states := Advance(sc, original, 1, done, states);
    while c != END
      invariant Delivered(sc, original, 1, done, c, ev, states)
      invariant Reached(events, st0, options, done, st)
      decreases c != END, |Last(states).lay.rest|, Left(Last(states))
    {
      DeliveredStep(sc, original, 1, done, c, ev, states, events, st0, st, options);
      var exit;
      exit, st := Switch(c, sc.optarg, st);
      if exit.Some? {
        return exit.value;
      }
      done := done + [ev];
      c, ev, states := Advance(sc, original, 1, done, states);
    }
    var o := Compose(st, options);
    return Options(o, st.file);
  }

  /** decode_switches on a command line: the meaning of its reference parse, and argv with the options in front. */
  method DecodeSwitches(argv: array<string>, posixlyCorrect: bool, options: bv32, fName: Option<string>)
    returns (r: Outcome, optind: int)
    requires 1 <= argv.Length
    modifies argv
    ensures var cfg := PgifyConfig(posixlyCorrect);
            var p := Parse(cfg, cfg.optstring, old(argv[..])[1..], "");
            && r == Interpret(p.events, Switches(false, true, true, fName), options)
            && (r.Options? ==> argv[..] == old(argv[..])[..1] + p.opts + p.nons + p.tail && optind == 1 + |p.opts|)
            && (r.Options? ==> ReturnedFor(p.events, options, fName, r))
  {
    ghost var cfg := PgifyConfig(posixlyCorrect);
    ghost var events := Parse(cfg, cfg.optstring, argv[..][1..], "").events;
    var sc := new Scanner(argv, PgifyConfig(posixlyCorrect), 1);
    r := DrainSwitches(sc, options, fName);
    if r.Options? {
      ReturnsWord(events, options, fName, r);
    }
    optind := sc.optind;
  }

  // ---------- what the answer depends on ----------

  predicate Occurs(events: seq<Event>, code: char) {
    exists i :: 0 <= i < |events| && events[i].code == code as int
  }

  /**
    What decode_switches returns, said by the reports: bit 1 comes from -d, bits 2 and 4 are there unless -e and -c take
    them away, every bit that was given stays; the file is the argument of the last -f.
   */
  ghost predicate ReturnedFor(events: seq<Event>, options: bv32, fName: Option<string>, r: Outcome) {
    && r.Options?
    && HasBits(options, r.options,
         exists i :: 0 <= i < |events| && events[i].code == 'd' as int,
         forall i :: 0 <= i < |events| ==> events[i].code != 'e' as int,
         forall i :: 0 <= i < |events| ==> events[i].code != 'c' as int)
    && (forall i :: LastOf(events, 'f', i) ==> r.file == events[i].arg)
    && ((forall i :: 0 <= i < |events| ==> events[i].code != 'f' as int) ==> r.file == fName)
  }

  /** Report i is the last of this code. */
  ghost predicate LastOf(events: seq<Event>, code: char, i: int) {
    && 0 <= i < |events| && events[i].code == code as int
    && forall j :: i < j < |events| ==> events[j].code != code as int
  }

  predicate NoExit(events: seq<Event>) {
    forall i :: 0 <= i < |events| ==> Exit(events[i].code).None?
  }

  /** The argument of the last -f. */
  function LastFile(events: seq<Event>, file: Option<string>): Option<string> {
    if events == [] then file
    else if events[|events| - 1].code == 'f' as int then events[|events| - 1].arg
    else LastFile(events[..|events| - 1], file)
  }

  function Folded(events: seq<Event>, st: Switches): Switches {
    if events == [] then st else Folded(events[1..], Apply(st, events[0].code, events[0].arg))
  }

  lemma {:induction false} InterpretFolds(events: seq<Event>, st: Switches, options: bv32)
    requires NoExit(events)
    ensures Interpret(events, st, options) == Options(Word(Folded(events, st), options), Folded(events, st).file)
    decreases |events|
  {
    if events != [] {
      InterpretFolds(events[1..], Apply(st, events[0].code, events[0].arg), options);
    }
  }

  lemma {:induction false} FoldedDependsOn(events: seq<Event>, st: Switches)
    ensures Folded(events, st) == Switches(
      st.debug || Occurs(events, 'd'), st.escape && !Occurs(events, 'e'),
      st.lowercase && !Occurs(events, 'c'), LastFile(events, st.file))
    decreases |events|
  {
    if events != [] {
      FoldedDependsOn(events[1..], Apply(st, events[0].code, events[0].arg));
      LastFileCons(events, st.file);
      OccursCons(events, 'd');
      OccursCons(events, 'e');
      OccursCons(events, 'c');
    }
  }

  /** Without an exit the options word depends only on which of d, e and c occur, and the file on the last -f. */
  lemma OptionsDependOn(events: seq<Event>, options: bv32, fName: Option<string>)
    requires NoExit(events)
    ensures Interpret(events, Switches(false, true, true, fName), options) ==
            var st := Switches(Occurs(events, 'd'), !Occurs(events, 'e'), !Occurs(events, 'c'),
              LastFile(events, fName));
            Options(Word(st, options), st.file)
  {
    var st := Switches(false, true, true, fName);
    InterpretFolds(events, st, options);
    FoldedDependsOn(events, st);
  }

  lemma {:induction false} LastFileIs(events: seq<Event>, file: Option<string>)
    ensures forall i :: LastOf(events, 'f', i) ==> LastFile(events, file) == events[i].arg
    ensures (forall i :: 0 <= i < |events| ==> events[i].code != 'f' as int) ==> LastFile(events, file) == file
    decreases |events|
  {
    if events != [] && events[|events| - 1].code != 'f' as int {
      var front := events[..|events| - 1];
      LastFileIs(front, file);
      forall i | LastOf(events, 'f', i) ensures LastFile(events, file) == events[i].arg {
        assert LastOf(front, 'f', i) && front[i] == events[i];
      }
    }
  }

  lemma WordIsReturned(events: seq<Event>, options: bv32, fName: Option<string>, st: Switches, r: Outcome)
    requires st == Switches(Occurs(events, 'd'), !Occurs(events, 'e'), !Occurs(events, 'c'), LastFile(events, fName))
    requires r == Options(Word(st, options), st.file)
    ensures ReturnedFor(events, options, fName, r)
  {
    EachItsBit(options, st.debug, st.escape, st.lowercase);
    LastFileIs(events, fName);
  }

  /** Whenever decode_switches returns, it returns this. */
  lemma ReturnsWord(events: seq<Event>, options: bv32, fName: Option<string>, r: Outcome)
    requires r == Interpret(events, Switches(false, true, true, fName), options) && r.Options?
    ensures ReturnedFor(events, options, fName, r)
  {
    var st := Switches(Occurs(events, 'd'), !Occurs(events, 'e'), !Occurs(events, 'c'), LastFile(events, fName));
    ReturnsIff(events, Switches(false, true, true, fName), options);
    OptionsDependOn(events, options, fName);
    WordIsReturned(events, options, fName, st, r);
  }

  lemma OccursCons(events: seq<Event>, k: char)
    requires events != []
    ensures Occurs(events, k) <==> events[0].code == k as int || Occurs(events[1..], k)
  {
    var rest := events[1..];
    if Occurs(rest, k) {
      var i :| 0 <= i < |rest| && rest[i].code == k as int;
      assert events[i + 1].code == k as int;
    }
    if Occurs(events, k) && events[0].code != k as int {
      var i :| 0 <= i < |events| && events[i].code == k as int;
      assert rest[i - 1].code == k as int;
    }
  }

  lemma {:induction false} LastFileCons(events: seq<Event>, file: Option<string>)
    requires events != []
    ensures LastFile(events, file)
            == LastFile(events[1..], if events[0].code == 'f' as int then events[0].arg else file)
    decreases |events|
  {
    var n := |events| - 1;
    if n > 0 {
      assert events[1..][..n - 1] == events[..n][1..];
      if events[n].code != 'f' as int {
        LastFileCons(events[..n], file);
      }
    }
  }

  /**
    The first report that leaves the process decides, whatever the flags: -V, -h, or anything unknown or incomplete.
   */
  lemma {:induction false} FirstExitDecides(events: seq<Event>, i: nat, st: Switches, options: bv32)
    requires i < |events| && Exit(events[i].code).Some? && NoExit(events[..i])
    ensures Interpret(events, st, options) ==
            if events[i].code == 'V' as int then PrintVersion
            else if events[i].code == 'h' as int then Usage(0) else Usage(1)
    decreases |events|
  {
    if i > 0 {
      assert events[..i][0] == events[0] && events[1..][..i - 1] == events[..i][1..];
      FirstExitDecides(events[1..], i - 1, Apply(st, events[0].code, events[0].arg), options);
    }
  }

  /** The process is left if and only if some report is none of f, d, e and c. */
  lemma ReturnsIff(events: seq<Event>, st: Switches, options: bv32)
    ensures Interpret(events, st, options).Options?
            <==> forall i :: 0 <= i < |events| ==> events[i].code in {'f' as int, 'd' as int, 'e' as int, 'c' as int}
  {
    if NoExit(events) {
      InterpretFolds(events, st, options);
      assert forall i :: 0 <= i < |events| ==> Exit(events[i].code).None?;
    } else {
      var i := FirstExit(events);
      FirstExitDecides(events, i, st, options);
      assert Exit(events[i].code).Some?;
    }
  }

  lemma FirstExit(events: seq<Event>) returns (i: nat)
    requires !NoExit(events)
    ensures i < |events| && Exit(events[i].code).Some? && NoExit(events[..i])
  {
    i := 0;
    while Exit(events[i].code).None?
      invariant i < |events| && !NoExit(events[i..]) && NoExit(events[..i])
      decreases |events| - i
    {
      assert exists k :: i <= k < |events| && Exit(events[k].code).Some? by {
        var k :| 0 <= k < |events[i..]| && Exit(events[i..][k].code).Some?;
        assert events[i + k] == events[i..][k];
      }
      var k :| i <= k < |events| && Exit(events[k].code).Some?;
      assert k != i && events[i + 1..][k - i - 1] == events[k];
      assert events[..i + 1] == events[..i] + [events[i]];
      i := i + 1;
    }
  }

  /** The input: -f without a file waits for one, and takes a name put behind it. */
  lemma MissingFileTakesNonOption(x: string, options: bv32, file: Option<string>)
    requires NonOption(x)
    ensures var cfg := PgifyConfig(false);
            && EndsHungry(cfg, cfg.optstring, ["-f"], "")
            && Parse(cfg, cfg.optstring, ["-f"], "").events != Parse(cfg, cfg.optstring, ["-f"] + [x], "").events
  {
    var cfg := PgifyConfig(false);
    assert Body("-f") == "f" && "f"[1..] == "";
    assert LetterKindOf(cfg.optstring, 'f') == TakesRequired;
    assert WantsNext(cfg, cfg.optstring, "-f", "f");
    HungryTakes(cfg, ["-f"], "", x);
  }

  /** Inserting a non-option between complete option groups never changes what decode_switches answers. */
  lemma NonOptionsAreIgnored(s: seq<string>, x: string, q: seq<string>, st: Switches, options: bv32)
    requires var cfg := PgifyConfig(false);
             NonOption(x) && !EndsHungry(cfg, cfg.optstring, s, "") && !MeetsTerminator(cfg, cfg.optstring, s, "")
    ensures var cfg := PgifyConfig(false);
            Interpret(Parse(cfg, cfg.optstring, s + [x] + q, "").events, st, options)
            == Interpret(Parse(cfg, cfg.optstring, s + q, "").events, st, options)
  {
    InsertNonOption(PgifyConfig(false), s, x, q);
  }
}
