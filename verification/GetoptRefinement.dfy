/** The scanner's steps add up to the reference parser, whatever they rearrange on the way. */
module GetoptRefinement {
  import opened Sequences
  import opened GetoptSpec
  import opened GetoptStep

  /** What the whole command line comes to, seen from s: what is settled, and the parse of what is left. */
  ghost function Total(cfg: Config, s: Scan): Parsed
    requires s.Valid()
  {
    var p := Parse(cfg, s.letters, s.lay.rest, s.next);
    Parsed(p.events, s.lay.front + s.lay.back + p.opts, s.lay.nons + p.nons, p.tail)
  }

  /** Going from s to t reports `events` and loses, adds and reorders nothing. */
  ghost predicate Reports(cfg: Config, s: Scan, events: seq<Event>, t: Scan) {
    && s.Valid() && t.Valid() && s.lay.prefix == t.lay.prefix
    && Total(cfg, s) == Total(cfg, t).(events := events + Total(cfg, t).events)
  }

  /** How a run ends: every argument is in its place and optind is the boundary. */
  ghost predicate Settles(cfg: Config, s: Scan, argv: seq<string>, optind: int) {
    && s.Valid()
    && var t := Total(cfg, s);
    && t.events == []
    && argv == s.lay.prefix + t.opts + t.nons + t.tail
    && optind == |s.lay.prefix| + |t.opts|
  }

  lemma GatheredTotal(cfg: Config, s: Scan)
    requires s.Valid()
    ensures Reports(cfg, s, [], s.(lay := s.lay.Gathered()))
  {
    assert s.lay.front + s.lay.back + [] == s.lay.front + s.lay.back;
  }

  lemma {:induction false} PassedTotal(cfg: Config, s: Scan)
    requires s.Valid() && s.next == "" && s.lay.back == [] && cfg.Ordering() == Permute
    ensures Reports(cfg, s, [], s.(lay := Passed(s.lay)))
    decreases |s.lay.rest|
  {
    var l := s.lay;
    if l.rest != [] && NonOption(l.rest[0]) {
      PassedTotal(cfg, s.(lay := l.Skipped()));
      var p := Parse(cfg, s.letters, l.rest[1..], "");
      assert l.nons + ([l.rest[0]] + p.nons) == l.nons + [l.rest[0]] + p.nons;
    }
  }

  lemma DecodeTotal(cfg: Config, s: Scan)
    requires s.Valid() && s.next != ""
    ensures var d := Decode(cfg, s.letters, s.lay.rest, s.next);
            Reports(cfg, s, [d.event], Scan(cfg.optstring, s.lay.Taken(d.used), d.rest))
  {
    var d, l := Decode(cfg, s.letters, s.lay.rest, s.next), s.lay;
    var p := Parse(cfg, cfg.optstring, l.rest[d.used..], d.rest);
    assert l.front + l.back + (l.rest[..d.used] + p.opts) == l.front + (l.back + l.rest[..d.used]) + p.opts;
  }

  lemma SettleAt(cfg: Config, s: Scan)
    requires s.Valid() && s.next == "" && (s.lay.nons == [] || s.lay.back == [])
             && (s.lay.rest == [] || NonOption(s.lay.rest[0]))
    requires s.lay.rest != [] ==> cfg.Ordering() == RequireOrder
    ensures Settles(cfg, s, s.lay.All(), s.lay.Boundary())
  {
    var l := s.lay;
    GatheredAll(l);
    assert l.prefix + (l.front + l.back) + l.nons + [] + l.rest == l.prefix + (l.front + l.back) + l.nons + l.rest;
    assert l.front + l.back + [] == l.front + l.back && l.nons + [] == l.nons;
  }

  lemma SettleAtTerminator(cfg: Config, s: Scan)
    requires s.Valid() && s.next == "" && s.lay.rest != [] && s.lay.rest[0] == TERMINATOR
    ensures Settles(cfg, s, s.lay.Terminated(), s.lay.Boundary() + 1)
  {
    assert s.lay.nons + [] == s.lay.nons;
  }

  lemma ReturnTotal(cfg: Config, s: Scan)
    requires s.Valid() && s.next == "" && s.lay.rest != [] && NonOption(s.lay.rest[0])
             && cfg.Ordering() == ReturnInOrder
    ensures Reports(cfg, s, [NonOptionEvent(s.lay.rest[0])], Scan(cfg.optstring, s.lay.Taken(1), ""))
  {
    var l := s.lay;
    var p := Parse(cfg, cfg.optstring, l.rest[1..], "");
    assert l.front + l.back + ([l.rest[0]] + p.opts) == l.front + (l.back + [l.rest[0]]) + p.opts;
  }

  lemma EnterTotal(cfg: Config, s: Scan)
    requires s.Valid() && s.next == "" && (s.lay.nons == [] || s.lay.back == [])
    ensures match EnterFrom(cfg, s.lay)
            case Answer(Stop(argv, optind)) => Settles(cfg, s, argv, optind)
            case Answer(Go(ev, l, next)) =>
              cfg.Ordering() == ReturnInOrder ==> Reports(cfg, s, [ev], Scan(cfg.optstring, l, next))
            case Element(l, next) => next != "" && Reports(cfg, s, [], Scan(s.letters, l, next))
  {
    if s.lay.rest == [] {
      SettleAt(cfg, s);
    } else if s.lay.rest[0] == TERMINATOR {
      SettleAtTerminator(cfg, s);
    } else if NonOption(s.lay.rest[0]) {
      if cfg.Ordering() == RequireOrder {
        SettleAt(cfg, s);
      } else if cfg.Ordering() == ReturnInOrder {
        ReturnTotal(cfg, s);
      }
    }
  }

  /** The invariant the scanner keeps: outside PERMUTE nothing is ever skipped. */
  ghost predicate Ordered(cfg: Config, s: Scan) {
    s.Valid() && (cfg.Ordering() != Permute ==> s.lay.nons == [])
  }

  lemma ReportsChain(cfg: Config, s: Scan, t: Scan, events: seq<Event>, u: Scan)
    requires Reports(cfg, s, [], t) && Reports(cfg, t, events, u)
    ensures Reports(cfg, s, events, u)
  {
    assert [] + Total(cfg, t).events == Total(cfg, t).events;
  }

  lemma PreparedTotal(cfg: Config, s: Scan)
    requires Ordered(cfg, s) && s.next == ""
    ensures Reports(cfg, s, [], s.(lay := Prepared(cfg, s.lay)))
  {
    if cfg.Ordering() == Permute {
      var g := s.(lay := s.lay.Gathered());
      GatheredTotal(cfg, s);
      PassedTotal(cfg, g);
      ReportsChain(cfg, s, g, [], s.(lay := Passed(g.lay)));
    }
  }

  /** One call takes exactly the next event off the reference parse, or ends it with argv settled. */
  lemma StepRefinesParse(cfg: Config, s: Scan)
    requires Ordered(cfg, s)
    ensures match StepOf(cfg, s)
            case Stop(argv, optind) => Settles(cfg, s, argv, optind)
            case Go(ev, l, next) => Reports(cfg, s, [ev], Scan(cfg.optstring, l, next))
  {
    if s.next != "" {
      DecodeTotal(cfg, s);
    } else {
      var m := s.(lay := Prepared(cfg, s.lay));
      PreparedTotal(cfg, s);
      EnterTotal(cfg, m);
      match EnterFrom(cfg, m.lay)
      case Answer(Stop(argv, optind)) =>
      case Answer(Go(ev, l, next)) => ReportsChain(cfg, s, m, [ev], Scan(cfg.optstring, l, next));
      case Element(l, next) =>
        var e := Scan(s.letters, l, next);
        DecodeTotal(cfg, e);
        var d := Decode(cfg, s.letters, l.rest, next);
        ReportsChain(cfg, s, m, [], e);
        ReportsChain(cfg, s, e, [d.event], Scan(cfg.optstring, l.Taken(d.used), d.rest));
    }
  }

  // ---------- what every call keeps, and progress ----------

  ghost predicate IsSuffix<T>(w: seq<T>, v: seq<T>) {
    |w| <= |v| && v[|v| - |w|..] == w
  }

  /** The scanner invariant against the argv the run started with. */
  ghost predicate Sound(cfg: Config, s: Scan, original: seq<string>) {
    && Ordered(cfg, s)
    && (forall x :: x in s.lay.nons ==> NonOption(x))
    && multiset(s.lay.All()) == multiset(original)
    && IsSuffix(s.lay.rest, original)
    && (cfg.Ordering() != Permute ==> s.lay.All() == original)
  }

  ghost function Left(s: Scan): nat {
    if s.next != "" then |s.next| else if s.lay.rest != [] then |s.lay.rest[0]| else 0
  }

  /** The drain loop's measure: arguments left, then characters left in the current one. */
  ghost predicate Progress(s: Scan, t: Scan) {
    |t.lay.rest| < |s.lay.rest| || (|t.lay.rest| == |s.lay.rest| && Left(t) < Left(s))
  }

  lemma GatheredSound(cfg: Config, s: Scan, original: seq<string>)
    requires Sound(cfg, s, original)
    ensures Sound(cfg, s.(lay := s.lay.Gathered()), original)
  {
    GatheredAll(s.lay);
    assert multiset(s.lay.Exchanged()) == multiset(s.lay.All());
  }

  lemma {:induction false} PassedSound(cfg: Config, s: Scan, original: seq<string>)
    requires Sound(cfg, s, original) && s.next == "" && s.lay.back == [] && cfg.Ordering() == Permute
    ensures Sound(cfg, s.(lay := Passed(s.lay)), original)
    ensures |Passed(s.lay).rest| <= |s.lay.rest|
    ensures |Passed(s.lay).rest| == |s.lay.rest| ==> Passed(s.lay) == s.lay
    decreases |s.lay.rest|
  {
    if s.lay.rest != [] && NonOption(s.lay.rest[0]) {
      SkippedAll(s.lay);
      PassedSound(cfg, s.(lay := s.lay.Skipped()), original);
    }
  }

  lemma PreparedSound(cfg: Config, s: Scan, original: seq<string>)
    requires Sound(cfg, s, original) && s.next == ""
    ensures Sound(cfg, s.(lay := Prepared(cfg, s.lay)), original)
    ensures !Progress(s.(lay := Prepared(cfg, s.lay)), s)
  {
    if cfg.Ordering() == Permute {
      GatheredSound(cfg, s, original);
      PassedSound(cfg, s.(lay := s.lay.Gathered()), original);
    }
  }

  lemma DecodeSound(cfg: Config, s: Scan, original: seq<string>)
    requires Sound(cfg, s, original) && s.next != ""
    ensures var d := Decode(cfg, s.letters, s.lay.rest, s.next);
            var t := Scan(cfg.optstring, s.lay.Taken(d.used), d.rest);
            Sound(cfg, t, original) && Progress(s, t)
  {
    var d := Decode(cfg, s.letters, s.lay.rest, s.next);
    TakenAll(s.lay, d.used);
  }

  lemma TakenSound(cfg: Config, s: Scan, original: seq<string>)
    requires Sound(cfg, s, original) && s.next == "" && s.lay.rest != []
    ensures Sound(cfg, Scan(cfg.optstring, s.lay.Taken(1), ""), original)
  {
    TakenAll(s.lay, 1);
  }

  /** What the end of a scan, or the report of a non-option, keeps. */
  lemma EnteredSound(cfg: Config, s: Scan, original: seq<string>)
    requires Sound(cfg, s, original) && s.next == ""
    ensures match EnterFrom(cfg, s.lay)
            case Answer(Stop(argv, _)) => cfg.Ordering() != Permute ==> argv == original
            case Answer(Go(ev, l, next)) =>
              var t := Scan(cfg.optstring, l, next);
              l.prefix == s.lay.prefix && Sound(cfg, t, original) && |l.rest| < |s.lay.rest| && ev.code != END
            case Element(l, next) => l == s.lay && next != "" && Sound(cfg, s.(next := next), original)
  {
    TerminatedSound(s.lay);
    if s.lay.rest != [] {
      TakenSound(cfg, s, original);
    }
  }

  /** Every reachable state before the final END is sound, and each call makes progress. */
  lemma StepKeepsSound(cfg: Config, s: Scan, original: seq<string>)
    requires Sound(cfg, s, original)
    ensures match StepOf(cfg, s)
            case Stop(argv, _) => cfg.Ordering() != Permute ==> argv == original
            case Go(ev, l, next) =>
              && l.prefix == s.lay.prefix
              && Sound(cfg, Scan(cfg.optstring, l, next), original) && Progress(s, Scan(cfg.optstring, l, next))
              && (cfg.Valid() ==> ev.code != END)
  {
    if s.next != "" {
      DecodeSound(cfg, s, original);
    } else {
      var m := s.(lay := Prepared(cfg, s.lay));
      PreparedSound(cfg, s, original);
      EnteredSound(cfg, m, original);
      match EnterFrom(cfg, m.lay)
      case Answer(_) =>
      case Element(l, next) => DecodeSound(cfg, m.(next := next), original);
    }
  }

  lemma TerminatedSound(m: Layout)
    ensures m.rest != [] && m.nons == [] ==> m.Terminated() == m.All()
  {
    if m.rest != [] && m.nons == [] {
      TerminatorAll(m);
      TakenAll(m, 1);
    }
  }

  // ---------- runs ----------

  /** One call at s reports ev and leads to t. */
  ghost predicate Calls(cfg: Config, s: Scan, ev: Event, t: Scan) {
    s.Valid() && StepOf(cfg, s) == Go(ev, t.lay, t.next) && t.letters == cfg.optstring
  }

  /** A run so far: the states the calls went through, and what they reported. */
  ghost predicate IsRun(cfg: Config, events: seq<Event>, states: seq<Scan>) {
    && |states| == |events| + 1
    && forall i :: 0 <= i < |events| ==> Calls(cfg, states[i], events[i], states[i + 1])
  }

  /** What the first call of a run finds: argv as given, nothing settled, the scan to begin at k. */
  ghost function Opening(cfg: Config, original: seq<string>, k: nat): Scan
    requires k <= |original|
  {
    Scan(cfg.Stripped(), Layout(original[..k], [], [], [], original[k..]), "")
  }

  lemma OpeningIsSound(cfg: Config, original: seq<string>, k: nat)
    requires k <= |original|
    ensures var s := Opening(cfg, original, k);
            Sound(cfg, s, original) && Total(cfg, s) == Parse(cfg, cfg.Stripped(), original[k..], "")
  {
    var s := Opening(cfg, original, k);
    assert s.lay.All() == original;
    var p := Parse(cfg, cfg.Stripped(), original[k..], "");
    assert [] + [] + p.opts == p.opts && [] + p.nons == p.nons;
  }

  lemma CallKeepsSound(cfg: Config, original: seq<string>, s: Scan, ev: Event, t: Scan)
    requires Sound(cfg, s, original) && Calls(cfg, s, ev, t)
    ensures Sound(cfg, t, original) && t.lay.prefix == s.lay.prefix
  {
    StepKeepsSound(cfg, s, original);
  }

  lemma {:induction false} RunKeepsSound(cfg: Config, original: seq<string>, events: seq<Event>, states: seq<Scan>,
      i: nat)
    requires IsRun(cfg, events, states) && i < |states| && Sound(cfg, states[0], original)
    ensures Sound(cfg, states[i], original) && states[i].lay.prefix == states[0].lay.prefix
    decreases i
  {
    if i > 0 {
      RunKeepsSound(cfg, original, events, states, i - 1);
      CallKeepsSound(cfg, original, states[i - 1], events[i - 1], states[i]);
    }
  }

  /** The scanner invariant holds in every state a run reaches. */
  lemma ReachableIsSound(cfg: Config, original: seq<string>, k: nat, events: seq<Event>, states: seq<Scan>)
    requires k <= |original| && IsRun(cfg, events, states) && states[0] == Opening(cfg, original, k)
    ensures Sound(cfg, states[|events|], original) && states[|events|].lay.prefix == original[..k]
  {
    OpeningIsSound(cfg, original, k);
    RunKeepsSound(cfg, original, events, states, |events|);
  }

  /** `total` is what has been reported, and what the rest of the line comes to. */
  ghost predicate Ahead(cfg: Config, total: Parsed, done: seq<Event>, now: Scan) {
    now.Valid() && total == Total(cfg, now).(events := done + Total(cfg, now).events)
  }

  lemma CallKeepsAhead(cfg: Config, total: Parsed, done: seq<Event>, s: Scan, ev: Event, t: Scan)
    requires Ahead(cfg, total, done, s) && Ordered(cfg, s) && Calls(cfg, s, ev, t)
    ensures Ahead(cfg, total, done + [ev], t)
  {
    StepRefinesParse(cfg, s);
    var rest := Total(cfg, t).events;
    assert done + ([ev] + rest) == done + [ev] + rest;
  }

  lemma CallAt(cfg: Config, events: seq<Event>, states: seq<Scan>, i: nat)
    requires IsRun(cfg, events, states) && i < |events|
    ensures Calls(cfg, states[i], events[i], states[i + 1])
  {
  }

  lemma {:induction false} RunKeepsAhead(cfg: Config, total: Parsed, original: seq<string>, events: seq<Event>,
      states: seq<Scan>, i: nat)
    requires IsRun(cfg, events, states) && i < |states| && Sound(cfg, states[0], original)
             && Ahead(cfg, total, [], states[0])
    ensures Ahead(cfg, total, events[..i], states[i])
    decreases i
  {
    if i == 0 {
      assert events[..0] == [];
    } else {
      var j := i - 1;
      RunKeepsAhead(cfg, total, original, events, states, j);
      assert Ordered(cfg, states[j]) by { RunKeepsSound(cfg, original, events, states, j); }
      CallAt(cfg, events, states, j);
      CallKeepsAhead(cfg, total, events[..j], states[j], events[j], states[i]);
      Snoc(events, j);
    }
  }

  /**
    However many calls were made: the reference parse of the original line is their reports and the parse of the rest.
   */
  lemma RunRefinesParse(cfg: Config, original: seq<string>, k: nat, events: seq<Event>, states: seq<Scan>)
    requires k <= |original| && IsRun(cfg, events, states) && states[0] == Opening(cfg, original, k)
    ensures Ahead(cfg, Parse(cfg, cfg.Stripped(), original[k..], ""), events, states[|events|])
  {
    OpeningIsSound(cfg, original, k);
    var total := Parse(cfg, cfg.Stripped(), original[k..], "");
    assert [] + total.events == total.events;
    RunKeepsAhead(cfg, total, original, events, states, |events|);
    assert events[..|events|] == events;
  }

  /** When a run ends, its reports are all of the reference parse, and argv and optind are its partition. */
  lemma RunEnds(cfg: Config, original: seq<string>, k: nat, events: seq<Event>, states: seq<Scan>)
    requires k <= |original| && IsRun(cfg, events, states) && states[0] == Opening(cfg, original, k)
    requires states[|events|].Valid() && StepOf(cfg, states[|events|]).Stop?
    ensures var p, step := Parse(cfg, cfg.Stripped(), original[k..], ""), StepOf(cfg, states[|events|]);
            && p.events == events
            && step.argv == original[..k] + p.opts + p.nons + p.tail
            && step.optind == k + |p.opts|
            && (cfg.Ordering() != Permute ==> step.argv == original)
  {
    var s := states[|events|];
    RunRefinesParse(cfg, original, k, events, states);
    ReachableIsSound(cfg, original, k, events, states);
    StepRefinesParse(cfg, s);
    StepKeepsSound(cfg, s, original);
    assert events + [] == events;
  }
}
