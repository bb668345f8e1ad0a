/**
  One scanner call as a function: how it rearranges argv and what it reports. The scanner class is
  proved equal to this step; GetoptRefinement proves that the steps add up to the reference parser.
 */
module GetoptStep {
  import opened Wrappers
  import opened GetoptSpec

  /**
    How argv is laid out between two calls: what precedes the scan, the options already in front of the
    skipped non-options, those non-options, the options seen since, and what was not scanned yet.
   */
  datatype Layout = Layout(prefix: seq<string>, front: seq<string>, nons: seq<string>, back: seq<string>,
      rest: seq<string>) {
    ghost function All(): seq<string> {
      prefix + front + nons + back + rest
    }

    ghost function Exchanged(): seq<string> {
      prefix + front + back + nons + rest
    }

    ghost function Gathered(): Layout {
      Layout(prefix, front + back, nons, [], rest)
    }

    ghost function Skipped(): Layout
      requires back == [] && rest != []
    {
      Layout(prefix, front, nons + [rest[0]], [], rest[1..])
    }

    ghost function Taken(k: nat): Layout
      requires k <= |rest|
    {
      Layout(prefix, front, nons, back + rest[..k], rest[k..])
    }

    /** All of argv once the terminator rest[0] stands with the options. */
    ghost function Terminated(): seq<string>
      requires rest != []
    {
      prefix + (front + back + [rest[0]]) + nons + rest[1..]
    }

    ghost function Boundary(): nat {
      |prefix| + |front| + |back|
    }
  }

  /** Pass over the non-options ahead. */
  ghost function Passed(l: Layout): (m: Layout)
    requires l.back == []
    ensures m.back == [] && m.prefix == l.prefix && m.front == l.front
    ensures m.rest != [] ==> !NonOption(m.rest[0])
    decreases |l.rest|
  {
    if l.rest != [] && NonOption(l.rest[0]) then Passed(l.Skipped()) else l
  }

  ghost function Prepared(cfg: Config, l: Layout): (m: Layout)
    ensures m.prefix == l.prefix
    ensures cfg.Ordering() == Permute ==> m.back == [] && (m.rest != [] ==> !NonOption(m.rest[0]))
  {
    if cfg.Ordering() == Permute then Passed(l.Gathered()) else l
  }

  /** What one call does: end the scan with this argv and optind, or report and go on. */
  datatype Step = Stop(argv: seq<string>, optind: nat) | Go(event: Event, lay: Layout, next: string)

  /** What the search for the next element comes to. */
  datatype Entry = Answer(step: Step) | Element(lay: Layout, next: string)

  ghost function EnterFrom(cfg: Config, m: Layout): Entry {
    if m.rest == [] then Answer(Stop(m.All(), m.Boundary()))
    else if m.rest[0] == TERMINATOR then Answer(Stop(m.Terminated(), m.Boundary() + 1))
    else if !NonOption(m.rest[0]) then Element(m, Body(m.rest[0]))
    else if cfg.Ordering() == RequireOrder then Answer(Stop(m.All(), m.Boundary()))
    else Answer(Go(NonOptionEvent(m.rest[0]), m.Taken(1), ""))
  }

  ghost function Enter(cfg: Config, l: Layout): Entry {
    EnterFrom(cfg, Prepared(cfg, l))
  }

  ghost function DecodeAt(cfg: Config, letters: string, l: Layout, next: string): Step
    requires next != "" && InElement(l.rest, next)
  {
    var d := Decode(cfg, letters, l.rest, next);
    Go(d.event, l.Taken(d.used), d.rest)
  }

  /** Where the scan stands: the option letters the coming call sees, the layout, and the open bundle. */
  datatype Scan = Scan(letters: string, lay: Layout, next: string) {
    ghost predicate Valid() {
      InElement(lay.rest, next)
    }
  }

  ghost function StepOf(cfg: Config, s: Scan): Step
    requires s.Valid()
  {
    if s.next != "" then DecodeAt(cfg, s.letters, s.lay, s.next)
    else
      match Enter(cfg, s.lay)
      case Answer(step) => step
      case Element(m, text) => DecodeAt(cfg, s.letters, m, text)
  }

  // ---------- layouts that describe the same argv ----------

  lemma GatheredAll(l: Layout)
    ensures l.Exchanged() == l.Gathered().All()
    ensures l.nons == [] || l.back == [] ==> l.All() == l.Gathered().All()
  {
    assert l.prefix + l.front + l.back == l.prefix + (l.front + l.back);
    assert l.prefix + (l.front + l.back) + l.nons == l.prefix + (l.front + l.back) + l.nons + [];
    if l.back == [] {
      assert l.front + l.back == l.front;
    } else if l.nons == [] {
      assert l.prefix + l.front + l.nons == l.prefix + l.front;
      assert l.prefix + (l.front + l.back) + l.nons == l.prefix + (l.front + l.back);
    }
  }

  lemma SkippedAll(l: Layout)
    requires l.back == [] && l.rest != []
    ensures l.Skipped().All() == l.All()
  {
    assert l.prefix + l.front + (l.nons + [l.rest[0]]) + [] + l.rest[1..] == l.prefix + l.front + l.nons + l.rest;
  }

  lemma TakenAll(l: Layout, k: nat)
    requires k <= |l.rest|
    ensures l.Taken(k).All() == l.All()
  {
    var q := l.prefix + l.front + l.nons;
    assert q + (l.back + l.rest[..k]) + l.rest[k..] == q + l.back + l.rest;
  }

  lemma TerminatorAll(l: Layout)
    requires l.rest != []
    ensures l.Taken(1).Exchanged() == l.Terminated()
    ensures l.nons == [] ==> l.Taken(1).All() == l.Terminated()
  {
    var m := l.Taken(1);
    assert m.back == l.back + [l.rest[0]];
    assert m.prefix + m.front + m.back == l.prefix + (l.front + l.back + [l.rest[0]]);
    if l.nons == [] {
      assert m.prefix + m.front + m.nons == m.prefix + m.front;
      assert m.prefix + m.front + m.back + m.nons == m.prefix + m.front + m.back;
    }
  }

  lemma RestIsSuffix(a: seq<string>, l: Layout)
    requires a == l.All()
    ensures var k := |l.prefix| + |l.front| + |l.nons| + |l.back|;
            && (l.rest != [] <==> k < |a|)
            && (l.rest != [] ==> l.rest[0] == a[k] && After(l.rest) == if k + 1 < |a| then Some(a[k + 1]) else None)
  {
  }
}
