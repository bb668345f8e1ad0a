/** Whole runs: the scanner called until it answers END. */
module GetoptRun {
  import opened Wrappers
  import opened GetoptSpec
  import opened GetoptStep
  import opened GetoptScanner
  import opened GetoptRefinement

  /** What a caller sees of a run: the returned codes with optarg. */
  function Reported(events: seq<Event>): seq<(int, Option<string>)> {
    seq(|events|, i requires 0 <= i < |events| => (events[i].code, events[i].arg))
  }

  /** The scan starts behind the program name, unless the caller set optind further. */
  function StartIndex(optind: int): int {
    if optind == 0 then 1 else optind
  }

  /** The scanner stands at the end of a run that reported `done`, begun at index k of `original`. */
  ghost predicate StandsAt(sc: Scanner, original: seq<string>, k: nat, done: seq<Event>, states: seq<Scan>)
    reads sc, sc.argv
  {
    && k <= |original| && sc.Ready()
    && IsRun(sc.config, done, states) && states[0] == Opening(sc.config, original, k)
    && sc.Current() == states[|done|]
  }

  /** The run is over: the reports are those of the reference parse of `original`, and argv and optind its partition. */
  ghost predicate Over(sc: Scanner, original: seq<string>, k: nat, done: seq<Event>)
    reads sc, sc.argv
  {
    && k <= |original|
    && var p := Parse(sc.config, sc.config.Stripped(), original[k..], "");
    && done == p.events
    && sc.argv[..] == original[..k] + p.opts + p.nons + p.tail
    && sc.optind == k + |p.opts|
    && (sc.config.Ordering() != Permute ==> sc.argv[..] == original)
  }

  /** A run that has delivered `done`: it is over, or (c, optarg) is its next report `ev`. */
  ghost predicate Delivered(sc: Scanner, original: seq<string>, k: nat, done: seq<Event>, c: int, ev: Event,
      states: seq<Scan>)
    reads sc, sc.argv
  {
    if c == END then Over(sc, original, k, done)
    else StandsAt(sc, original, k, done + [ev], states) && ev.code == c && ev.arg == sc.optarg
  }

  ghost function Last(states: seq<Scan>): Scan {
    if states == [] then Scan("", Layout([], [], [], [], []), "") else states[|states| - 1]
  }

  /** The first or next call of the loop. */
  method Advance(sc: Scanner, ghost original: seq<string>, ghost k: nat, ghost done: seq<Event>,
      ghost states: seq<Scan>)
    returns (c: int, ghost ev: Event, ghost after: seq<Scan>)
    requires sc.config.Valid() && StandsAt(sc, original, k, done, states)
    modifies sc, sc.argv
    ensures Delivered(sc, original, k, done, c, ev, after)
    ensures c != END ==> Progress(Last(states), Last(after))
  {
    ghost var step := Foresee(sc, original, k, done, states);
    c := sc.Getopt();
    assert Watch(0);
    if step.Go? {
      ev, after := step.event, states + [Scan(sc.config.optstring, step.lay, step.next)];
    } else {
      ev, after := NonOptionEvent(""), states;
    }
  }

  /** What the coming call will do, and where that leaves the run. */
  lemma Foresee(sc: Scanner, original: seq<string>, k: nat, done: seq<Event>, states: seq<Scan>) returns (step: Step)
    requires sc.config.Valid() && StandsAt(sc, original, k, done, states)
    ensures sc.Current().Valid() && step == StepOf(sc.config, sc.Current())
    ensures match step
            case Stop(argv, optind) =>
              var p := Parse(sc.config, sc.config.Stripped(), original[k..], "");
              && done == p.events && argv == original[..k] + p.opts + p.nons + p.tail && optind == k + |p.opts|
              && (sc.config.Ordering() != Permute ==> argv == original)
            case Go(ev, l, next) =>
              var after := Scan(sc.config.optstring, l, next);
              IsRun(sc.config, done + [ev], states + [after]) && Progress(Last(states), after) && ev.code != END
  {
    var now := states[|done|];
    ReachableIsSound(sc.config, original, k, done, states);
    StepKeepsSound(sc.config, now, original);
    step := StepOf(sc.config, now);
    if step.Stop? {
      RunEnds(sc.config, original, k, done, states);
    } else {
      RunExtends(sc.config, done, states, step.event, Scan(sc.config.optstring, step.lay, step.next));
    }
  }

  lemma RunExtends(cfg: Config, events: seq<Event>, states: seq<Scan>, ev: Event, t: Scan)
    requires IsRun(cfg, events, states) && Calls(cfg, states[|events|], ev, t)
    ensures IsRun(cfg, events + [ev], states + [t])
  {
  }

  lemma ReportedAppend(done: seq<Event>, ev: Event)
    ensures Reported(done + [ev]) == Reported(done) + [(ev.code, ev.arg)]
  {
  }

  /**
    Calling the scanner until END reports exactly what the reference parser reads off the ORIGINAL argv, and
    leaves argv as prefix, options, non-options, unread tail, with optind at the end of the options.
   */
  method Drain(sc: Scanner) returns (reports: seq<(int, Option<string>)>)
    requires sc.config.Valid() && !sc.initialized && 0 <= sc.optind <= sc.argv.Length && 1 <= sc.argv.Length
    modifies sc, sc.argv
    ensures var k := StartIndex(old(sc.optind));
            var p := Parse(sc.config, sc.config.Stripped(), old(sc.argv[..])[k..], "");
            && |reports| == |p.events|
            && (forall i :: 0 <= i < |reports| ==> reports[i] == (p.events[i].code, p.events[i].arg))
            && sc.argv[..] == old(sc.argv[..])[..k] + p.opts + p.nons + p.tail
            && sc.optind == k + |p.opts|
    ensures sc.config.Ordering() != Permute ==> sc.argv[..] == old(sc.argv[..])
  {
    ghost var original, k := sc.argv[..], StartIndex(sc.optind);
    ghost var states := Begin(sc);
    ghost var done: seq<Event>, ev := [], NonOptionEvent("");
    reports := [];
    var c;
    c, ev, states := Advance(sc, original, k, done, states);
    while c != END
      invariant Delivered(sc, original, k, done, c, ev, states) && reports == Reported(done)
      decreases c != END, |Last(states).lay.rest|, Left(Last(states))
    {
      reports := reports + [(c, sc.optarg)];
      ReportedAppend(done, ev);
      done := done + [ev];
      c, ev, states := Advance(sc, original, k, done, states);
    }
  }

  /** The run before its first call. */
  lemma Begin(sc: Scanner) returns (states: seq<Scan>)
    requires !sc.initialized && 0 <= sc.optind <= sc.argv.Length && 1 <= sc.argv.Length
    ensures StandsAt(sc, sc.argv[..], StartIndex(sc.optind), [], states)
  {
    var k := StartIndex(sc.optind);
    states := [sc.Current()];
    assert sc.argv[..k] == sc.argv[..][..k] && sc.argv[k..] == sc.argv[..][k..];
  }
}
