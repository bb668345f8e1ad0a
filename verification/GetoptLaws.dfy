/** Laws of the reference parser itself: what it does with the arguments, and how it composes. */
module GetoptLaws {
  import opened Wrappers
  import opened GetoptSpec

  // ---------- the stable partition ----------

  /** `s` is `a` and `b` interleaved, each in its own order. */
  ghost predicate IsMerge(s: seq<string>, a: seq<string>, b: seq<string>) {
    if s == [] then a == [] && b == []
    else
      || (a != [] && a[0] == s[0] && IsMerge(s[1..], a[1..], b))
      || (b != [] && b[0] == s[0] && IsMerge(s[1..], a, b[1..]))
  }

  lemma {:induction false} TakeMerge(h: seq<string>, s: seq<string>, a: seq<string>, b: seq<string>)
    requires IsMerge(s, a, b)
    ensures IsMerge(h + s, h + a, b)
  {
    if h == [] {
      assert h + s == s && h + a == a;
    } else {
      TakeMerge(h[1..], s, a, b);
      assert (h + s)[1..] == h[1..] + s && (h + a)[1..] == h[1..] + a;
    }
  }

  /** `read` is what the parse looked at: options and non-options, each in their original order. */
  ghost predicate Splits(s: seq<string>, read: seq<string>, p: Parsed) {
    && s == read + p.tail
    && IsMerge(read, p.opts, p.nons)
    && (forall x :: x in p.nons ==> NonOption(x))
  }

  lemma SplitsTake(h: seq<string>, s: seq<string>, read: seq<string>, p: Parsed, events: seq<Event>)
    requires Splits(s, read, p)
    ensures Splits(h + s, h + read, p.(events := events, opts := h + p.opts))
  {
    TakeMerge(h, read, p.opts, p.nons);
  }

  lemma SplitsSkip(x: string, s: seq<string>, read: seq<string>, p: Parsed)
    requires Splits(s, read, p) && NonOption(x)
    ensures Splits([x] + s, [x] + read, p.(nons := [x] + p.nons))
  {
    assert ([x] + read)[1..] == read && ([x] + p.nons)[1..] == p.nons;
  }

  /**
    The parse is a stable partition: a tail it never looked at, and before it options and non-options,
    each in their original order.
   */
  lemma {:induction false} ParseIsStablePartition(cfg: Config, letters: string, s: seq<string>, next: string)
    returns (read: seq<string>)
    requires InElement(s, next)
    ensures Splits(s, read, Parse(cfg, letters, s, next))
    decreases |s|, if next != "" then |next| else if s != [] then |s[0]| else 0
  {
    if next != "" {
      var d := Decode(cfg, letters, s, next);
      read := ParseIsStablePartition(cfg, cfg.optstring, s[d.used..], d.rest);
      SplitsTake(s[..d.used], s[d.used..], read, Parse(cfg, cfg.optstring, s[d.used..], d.rest),
        Parse(cfg, letters, s, next).events);
      assert s == s[..d.used] + s[d.used..];
      read := s[..d.used] + read;
    } else if s == [] {
      read := [];
    } else if s[0] == TERMINATOR {
      read := [TERMINATOR];
      SplitsTake([TERMINATOR], s[1..], [], Parsed([], [], [], s[1..]), []);
    } else if NonOption(s[0]) {
      assert s == [s[0]] + s[1..];
      match cfg.Ordering()
      case Permute =>
        read := ParseIsStablePartition(cfg, letters, s[1..], "");
        SplitsSkip(s[0], s[1..], read, Parse(cfg, letters, s[1..], ""));
        read := [s[0]] + read;
      case RequireOrder =>
        read := [];
      case ReturnInOrder =>
        read := ParseIsStablePartition(cfg, cfg.optstring, s[1..], "");
        SplitsTake([s[0]], s[1..], read, Parse(cfg, cfg.optstring, s[1..], ""), Parse(cfg, letters, s, "").events);
        read := [s[0]] + read;
    } else {
      read := ParseIsStablePartition(cfg, letters, s, Body(s[0]));
    }
  }

  lemma Glue(s: seq<string>, k: nat, a: seq<string>, b: seq<string>)
    requires k <= |s| && a + b == s[k..]
    ensures (s[..k] + a) + b == s
  {
    assert (s[..k] + a) + b == s[..k] + (a + b);
  }

  /** Without permutation nothing is set aside: the options read are the arguments read. */
  lemma {:induction false} NothingSkippedInOrder(cfg: Config, letters: string, s: seq<string>, next: string)
    requires InElement(s, next) && cfg.Ordering() != Permute
    ensures var p := Parse(cfg, letters, s, next); p.nons == [] && p.opts + p.tail == s
    decreases |s|, if next != "" then |next| else if s != [] then |s[0]| else 0
  {
    if next != "" {
      var d := Decode(cfg, letters, s, next);
      NothingSkippedInOrder(cfg, cfg.optstring, s[d.used..], d.rest);
      var p := Parse(cfg, cfg.optstring, s[d.used..], d.rest);
      Glue(s, d.used, p.opts, p.tail);
    } else if s == [] || s[0] == TERMINATOR {
    } else if NonOption(s[0]) {
      if cfg.Ordering() == ReturnInOrder {
        NothingSkippedInOrder(cfg, cfg.optstring, s[1..], "");
        var p := Parse(cfg, cfg.optstring, s[1..], "");
        Glue(s, 1, p.opts, p.tail);
        assert s[..1] == [s[0]];
      }
    } else {
      NothingSkippedInOrder(cfg, letters, s, Body(s[0]));
    }
  }

  /** A report that hands out an argument as that of code 1. */
  predicate IsArgument(e: Event) {
    e.code == 1 && e.longIndex.None? && e.arg.Some?
  }

  /** The arguments of the code-1 reports, in order. */
  function InOrderArguments(events: seq<Event>): seq<string> {
    if events == [] then []
    else (if IsArgument(events[0]) then [events[0].arg.value] else []) + InOrderArguments(events[1..])
  }

  /** The other reports, in order. */
  function OptionReports(events: seq<Event>): seq<Event> {
    if events == [] then []
    else if IsArgument(events[0]) then OptionReports(events[1..])
    else [events[0]] + OptionReports(events[1..])
  }

  /** The non-options met between option groups, up to the terminator. */
  function NonOptionsMet(cfg: Config, letters: string, s: seq<string>, next: string): seq<string>
    requires InElement(s, next)
    decreases |s|, if next != "" then |next| else if s != [] then |s[0]| else 0
  {
    if next != "" then
      var d := Decode(cfg, letters, s, next);
      NonOptionsMet(cfg, cfg.optstring, s[d.used..], d.rest)
    else if s == [] || s[0] == TERMINATOR then []
    else if NonOption(s[0]) then [s[0]] + NonOptionsMet(cfg, cfg.optstring, s[1..], "")
    else NonOptionsMet(cfg, letters, s, Body(s[0]))
  }

  /** The letter with character code 1, if it is one, takes no argument. */
  predicate OneTakesNothing(letters: string) {
    LetterKindOf(letters, 1 as char) in {Invalid, Plain}
  }

  /** In RETURN_IN_ORDER mode the code-1 reports are all the non-options before the terminator. */
  lemma {:induction false} ReturnInOrderReportsAll(cfg: Config, letters: string, s: seq<string>, next: string)
    requires InElement(s, next) && cfg.Ordering() == ReturnInOrder
    requires OneTakesNothing(cfg.optstring) && OneTakesNothing(letters)
    ensures InOrderArguments(Parse(cfg, letters, s, next).events) == NonOptionsMet(cfg, letters, s, next)
    decreases |s|, if next != "" then |next| else if s != [] then |s[0]| else 0
  {
    if next != "" {
      var d := Decode(cfg, letters, s, next);
      OptionsAreNotCodeOne(cfg, letters, s, next);
      ReturnInOrderReportsAll(cfg, cfg.optstring, s[d.used..], d.rest);
      assert Parse(cfg, letters, s, next).events[1..] == Parse(cfg, cfg.optstring, s[d.used..], d.rest).events;
    } else if s == [] || s[0] == TERMINATOR {
    } else if NonOption(s[0]) {
      ReturnInOrderReportsAll(cfg, cfg.optstring, s[1..], "");
      assert Parse(cfg, letters, s, next).events[1..] == Parse(cfg, cfg.optstring, s[1..], "").events;
    } else {
      ReturnInOrderReportsAll(cfg, letters, s, Body(s[0]));
    }
  }

  lemma OptionsAreNotCodeOne(cfg: Config, letters: string, s: seq<string>, next: string)
    requires next != "" && InElement(s, next) && OneTakesNothing(letters)
    ensures !IsArgument(Decode(cfg, letters, s, next).event)
  {
    if s[0][1] != '-' && next[0] as int == 1 {
      assert next[0] == 1 as char;
    }
  }

  /** The letter with code 1 and an argument: reported like a non-option, but none is there. */
  lemma OneMistaken(cfg: Config, letters: string)
    requires !OneTakesNothing(letters)
    ensures var x := ['-', 1 as char, 'x'];
            && InOrderArguments(Parse(cfg, letters, [x], "").events) == ["x"]
            && NonOptionsMet(cfg, letters, [x], "") == []
  {
    var x, body := ['-', 1 as char, 'x'], [1 as char, 'x'];
    var e, none := Event(1, Some("x"), None, None), [x][1..];
    assert Body(x) == body && body[1..] == "x" && none == [];
    assert Parse(cfg, letters, [x], "") == Parse(cfg, letters, [x], body);
    assert Decode(cfg, letters, [x], body) == Decoded(e, "", 1);
    assert Parse(cfg, cfg.optstring, none, "").events == [] && NonOptionsMet(cfg, cfg.optstring, none, "") == [];
    assert Parse(cfg, letters, [x], body).events == [e] + [];
    ReportsCons(e, []);
    assert NonOptionsMet(cfg, letters, [x], "") == NonOptionsMet(cfg, letters, [x], body);
  }

  lemma ArgumentFirst(cfg: Config, letters: string, s: seq<string>)
    requires cfg.Ordering() == ReturnInOrder && s != [] && NonOption(s[0]) && s[0] != TERMINATOR
    ensures InOrderArguments(Parse(cfg, letters, s, "").events)
            == [s[0]] + InOrderArguments(Parse(cfg, cfg.optstring, s[1..], "").events)
    ensures NonOptionsMet(cfg, letters, s, "") == [s[0]] + NonOptionsMet(cfg, cfg.optstring, s[1..], "")
  {
    ReportsCons(NonOptionEvent(s[0]), Parse(cfg, cfg.optstring, s[1..], "").events);
  }

  /** Exactly when code 1 can be told: for every command line if and only if no letter of code 1 takes an argument. */
  lemma ReturnInOrderIff(cfg: Config, letters: string)
    requires cfg.Ordering() == ReturnInOrder
    ensures (forall s :: InOrderArguments(Parse(cfg, letters, s, "").events) == NonOptionsMet(cfg, letters, s, ""))
            <==> OneTakesNothing(letters) && OneTakesNothing(cfg.optstring)
  {
    if !OneTakesNothing(letters) {
      OneMistaken(cfg, letters);
    } else if !OneTakesNothing(cfg.optstring) {
      var x := ['-', 1 as char, 'x'];
      var s := ["a", x];
      OneMistaken(cfg, cfg.optstring);
      assert s[1..] == [x];
      ArgumentFirst(cfg, letters, s);
    } else {
      forall s ensures InOrderArguments(Parse(cfg, letters, s, "").events) == NonOptionsMet(cfg, letters, s, "") {
        ReturnInOrderReportsAll(cfg, letters, s, "");
      }
    }
  }

  lemma ReportsCons(e: Event, events: seq<Event>)
    ensures InOrderArguments([e] + events) == (if IsArgument(e) then [e.arg.value] else []) + InOrderArguments(events)
    ensures OptionReports([e] + events) == (if IsArgument(e) then [] else [e]) + OptionReports(events)
  {
    assert ([e] + events)[1..] == events;
  }

  lemma NothingRead(opts: seq<string>, nons: seq<string>)
    requires IsMerge([], opts, nons)
    ensures opts == []
  {
  }

  /** An option decodes alike when what it does not take is replaced. */
  lemma DecodeAlone(cfg: Config, letters: string, s: seq<string>, next: string, opts: seq<string>)
    requires next != "" && InElement(s, next)
    requires var d := Decode(cfg, letters, s, next);
             && d.used <= |opts| && opts[..d.used] == s[..d.used]
             && opts != [] && opts[0] == s[0] && (|s| == 1 && d.used == 1 ==> |opts| == 1)
    ensures InElement(opts, next) && Decode(cfg, letters, opts, next) == Decode(cfg, letters, s, next)
  {
    var d := Decode(cfg, letters, s, next);
    if d.used == 2 {
      assert opts[1] == opts[..2][1] == s[..2][1] == s[1];
    }
  }

  lemma MergeTake(h: seq<string>, s: seq<string>, read: seq<string>, tail: seq<string>, a: seq<string>, b: seq<string>)
    requires s == read + tail && IsMerge(read, a, b)
    ensures h + s == (h + read) + tail && IsMerge(h + read, h + a, b)
  {
    TakeMerge(h, read, a, b);
  }

  /** The arguments `opts` are those of the options: alone they report everything but the code-1 arguments. */
  ghost predicate Separates(cfg: Config, letters: string, s: seq<string>, next: string, read: seq<string>,
      opts: seq<string>, first: string)
    requires InElement(s, next)
  {
    var p := Parse(cfg, letters, s, next);
    && s == read + p.tail
    && IsMerge(read, opts, InOrderArguments(p.events))
    && (forall x :: x in InOrderArguments(p.events) ==> NonOption(x))
    && (first == letters || first == cfg.optstring)
    && (next != "" ==> first == letters && opts != [] && opts[0] == s[0])
    && InElement(opts, next) && Parse(cfg, first, opts, next).events == OptionReports(p.events)
  }

  /** The option in front of what is left: nothing else decides how it decodes. */
  lemma OptionAlone(cfg: Config, letters: string, s: seq<string>, next: string, read: seq<string>, opts: seq<string>)
    requires next != "" && InElement(s, next)
    requires var d := Decode(cfg, letters, s, next);
             Separates(cfg, cfg.optstring, s[d.used..], d.rest, read, opts, cfg.optstring)
    ensures var d := Decode(cfg, letters, s, next);
            var all := s[..d.used] + opts;
            && all != [] && all[0] == s[0] && InElement(all, next)
            && Decode(cfg, letters, all, next) == d && all[d.used..] == opts
  {
    var d := Decode(cfg, letters, s, next);
    var all := s[..d.used] + opts;
    if s[d.used..] == [] {
      assert read == [];
      NothingRead(opts, InOrderArguments(Parse(cfg, cfg.optstring, s[d.used..], d.rest).events));
    }
    if d.used == 0 {
      assert all == opts && s[0..] == s;
    }
    assert all[..d.used] == s[..d.used];
    DecodeAlone(cfg, letters, s, next, all);
  }

  lemma SeparatesOption(cfg: Config, letters: string, s: seq<string>, next: string, read: seq<string>,
      opts: seq<string>)
    requires next != "" && InElement(s, next) && OneTakesNothing(letters)
    requires var d := Decode(cfg, letters, s, next);
             Separates(cfg, cfg.optstring, s[d.used..], d.rest, read, opts, cfg.optstring)
    ensures var d := Decode(cfg, letters, s, next);
            Separates(cfg, letters, s, next, s[..d.used] + read, s[..d.used] + opts, letters)
  {
    var d := Decode(cfg, letters, s, next);
    var p := Parse(cfg, cfg.optstring, s[d.used..], d.rest);
    assert s == s[..d.used] + s[d.used..];
    MergeTake(s[..d.used], s[d.used..], read, p.tail, opts, InOrderArguments(p.events));
    OptionsAreNotCodeOne(cfg, letters, s, next);
    ReportsCons(d.event, p.events);
    OptionAlone(cfg, letters, s, next, read, opts);
    assert Parse(cfg, letters, s[..d.used] + opts, next).events
           == [d.event] + Parse(cfg, cfg.optstring, opts, d.rest).events;
    assert Parse(cfg, letters, s, next).events == [d.event] + p.events && Parse(cfg, letters, s, next).tail == p.tail;
    assert [] + InOrderArguments(p.events) == InOrderArguments(p.events);
  }

  lemma SeparatesArgument(cfg: Config, letters: string, s: seq<string>, read: seq<string>, opts: seq<string>,
      first: string)
    requires s != [] && NonOption(s[0]) && s[0] != TERMINATOR && cfg.Ordering() == ReturnInOrder
    requires Separates(cfg, cfg.optstring, s[1..], "", read, opts, first)
    ensures Separates(cfg, letters, s, "", [s[0]] + read, opts, first)
  {
    var p := Parse(cfg, cfg.optstring, s[1..], "");
    ReportsCons(NonOptionEvent(s[0]), p.events);
    assert ([s[0]] + read)[1..] == read && ([s[0]] + InOrderArguments(p.events))[1..] == InOrderArguments(p.events);
    assert s == [s[0]] + (read + p.tail);
  }

  lemma SeparatesElement(cfg: Config, letters: string, s: seq<string>, read: seq<string>, opts: seq<string>,
      first: string)
    requires s != [] && !NonOption(s[0]) && s[0] != TERMINATOR
    requires Separates(cfg, letters, s, Body(s[0]), read, opts, first)
    ensures Separates(cfg, letters, s, "", read, opts, first)
  {
    assert Parse(cfg, letters, s, "") == Parse(cfg, letters, s, Body(s[0]));
    assert Parse(cfg, first, opts, "") == Parse(cfg, first, opts, Body(opts[0]));
  }

  /**
    In RETURN_IN_ORDER mode the arguments read are the code-1 arguments, all non-options, merged with others in
    their order; and those others alone report exactly the remaining events, so none of them is left unreported.
   */
  lemma {:induction false} ReturnInOrderSeparates(cfg: Config, letters: string, s: seq<string>, next: string)
    returns (read: seq<string>, opts: seq<string>, first: string)
    requires InElement(s, next) && cfg.Ordering() == ReturnInOrder
    requires OneTakesNothing(cfg.optstring) && OneTakesNothing(letters)
    ensures Separates(cfg, letters, s, next, read, opts, first)
    decreases |s|, if next != "" then |next| else if s != [] then |s[0]| else 0
  {
    if next != "" {
      var d := Decode(cfg, letters, s, next);
      read, opts, first := ReturnInOrderSeparates(cfg, cfg.optstring, s[d.used..], d.rest);
      SeparatesOption(cfg, letters, s, next, read, opts);
      read, opts, first := s[..d.used] + read, s[..d.used] + opts, letters;
    } else if s == [] {
      read, opts, first := [], [], letters;
    } else if s[0] == TERMINATOR {
      read, opts, first := [TERMINATOR], [TERMINATOR], letters;
      assert [TERMINATOR][1..] == [] && s == [TERMINATOR] + s[1..];
    } else if NonOption(s[0]) {
      read, opts, first := ReturnInOrderSeparates(cfg, cfg.optstring, s[1..], "");
      SeparatesArgument(cfg, letters, s, read, opts, first);
      read := [s[0]] + read;
    } else {
      read, opts, first := ReturnInOrderSeparates(cfg, letters, s, Body(s[0]));
      SeparatesElement(cfg, letters, s, read, opts, first);
    }
  }

  // ---------- composition ----------

  /** The option being decoded would take the argument behind it. */
  predicate WantsNext(cfg: Config, letters: string, elem: string, next: string)
    requires next != "" && InElement([elem], next)
  {
    Decode(cfg, letters, [elem, ""], next).used == 2
  }

  /** The parse of `s` ends at an option whose required argument is missing. */
  predicate EndsHungry(cfg: Config, letters: string, s: seq<string>, next: string)
    requires InElement(s, next)
    decreases |s|, if next != "" then |next| else if s != [] then |s[0]| else 0
  {
    if next != "" then
      var d := Decode(cfg, letters, s, next);
      if |s| == 1 && WantsNext(cfg, letters, s[0], next) then true
      else EndsHungry(cfg, cfg.optstring, s[d.used..], d.rest)
    else if s == [] || s[0] == TERMINATOR then false
    else if NonOption(s[0]) then EndsHungry(cfg, letters, s[1..], "")
    else EndsHungry(cfg, letters, s, Body(s[0]))
  }

  /** The parse of `s` meets the terminator. */
  predicate MeetsTerminator(cfg: Config, letters: string, s: seq<string>, next: string)
    requires InElement(s, next)
    decreases |s|, if next != "" then |next| else if s != [] then |s[0]| else 0
  {
    if next != "" then
      var d := Decode(cfg, letters, s, next);
      MeetsTerminator(cfg, cfg.optstring, s[d.used..], d.rest)
    else if s == [] then false
    else if s[0] == TERMINATOR then true
    else if NonOption(s[0]) then MeetsTerminator(cfg, letters, s[1..], "")
    else MeetsTerminator(cfg, letters, s, Body(s[0]))
  }

  function Join(p: Parsed, q: Parsed): Parsed {
    Parsed(p.events + q.events, p.opts + q.opts, p.nons + q.nons, p.tail + q.tail)
  }

  lemma JoinAssociates(ev: Event, h: seq<string>, p: Parsed, r: Parsed)
    ensures Join(Parsed([ev] + p.events, h + p.opts, p.nons, p.tail), r)
            == Parsed([ev] + Join(p, r).events, h + Join(p, r).opts, Join(p, r).nons, Join(p, r).tail)
  {
    assert [ev] + (p.events + r.events) == [ev] + p.events + r.events;
    assert h + (p.opts + r.opts) == h + p.opts + r.opts;
  }

  /** Decoding looks at one argument behind the element, and only to take it. */
  lemma DecodeIsLocal(cfg: Config, letters: string, s: seq<string>, next: string, q: seq<string>)
    requires next != "" && InElement(s, next) && (|s| == 1 ==> !WantsNext(cfg, letters, s[0], next))
    ensures InElement(s + q, next) && Decode(cfg, letters, s + q, next) == Decode(cfg, letters, s, next)
    ensures var d := Decode(cfg, letters, s, next);
            (s + q)[d.used..] == s[d.used..] + q && (s + q)[..d.used] == s[..d.used]
  {
  }

  lemma MissingIsReported(cfg: Config, letters: string, s: seq<string>, next: string, x: string)
    requires next != "" && InElement(s, next) && |s| == 1 && WantsNext(cfg, letters, s[0], next)
    ensures Decode(cfg, letters, s + [x], next).event.arg == Some(x) && Decode(cfg, letters, s, next).event.arg == None
  {
  }

  /** In PERMUTE mode complete groups parse independently of what follows them. */
  lemma {:induction false} ParseConcat(cfg: Config, s: seq<string>, next: string, q: seq<string>)
    requires InElement(s, next) && cfg.Ordering() == Permute
    requires !EndsHungry(cfg, cfg.optstring, s, next) && !MeetsTerminator(cfg, cfg.optstring, s, next)
    ensures Parse(cfg, cfg.optstring, s + q, next)
            == Join(Parse(cfg, cfg.optstring, s, next), Parse(cfg, cfg.optstring, q, ""))
    decreases |s|, if next != "" then |next| else if s != [] then |s[0]| else 0
  {
    var o := cfg.optstring;
    if next != "" {
      var d := Decode(cfg, o, s, next);
      DecodeIsLocal(cfg, o, s, next, q);
      ParseConcat(cfg, s[d.used..], d.rest, q);
      JoinAssociates(d.event, s[..d.used], Parse(cfg, o, s[d.used..], d.rest), Parse(cfg, o, q, ""));
    } else if s == [] {
      assert s + q == q;
      var r := Parse(cfg, o, q, "");
      assert [] + r.events == r.events && [] + r.opts == r.opts && [] + r.nons == r.nons && [] + r.tail == r.tail;
    } else if NonOption(s[0]) {
      assert (s + q)[1..] == s[1..] + q;
      ParseConcat(cfg, s[1..], "", q);
      var p, r := Parse(cfg, o, s[1..], ""), Parse(cfg, o, q, "");
      assert [s[0]] + (p.nons + r.nons) == [s[0]] + p.nons + r.nons;
    } else {
      ParseConcat(cfg, s, Body(s[0]), q);
    }
  }

  /** Inserting a non-option between complete option groups never changes what is reported. */
  lemma InsertNonOption(cfg: Config, s: seq<string>, x: string, q: seq<string>)
    requires cfg.Ordering() == Permute && NonOption(x)
    requires !EndsHungry(cfg, cfg.optstring, s, "") && !MeetsTerminator(cfg, cfg.optstring, s, "")
    ensures Parse(cfg, cfg.optstring, s + [x] + q, "").events == Parse(cfg, cfg.optstring, s + q, "").events
  {
    assert s + [x] + q == s + ([x] + q);
    ParseConcat(cfg, s, "", [x] + q);
    ParseConcat(cfg, s, "", q);
    assert ([x] + q)[1..] == q;
  }

  /** After the terminator nothing more is reported, so there the insertion changes nothing either. */
  lemma {:induction false} AppendAfterTerminator(cfg: Config, s: seq<string>, next: string, q: seq<string>)
    requires InElement(s, next) && cfg.Ordering() == Permute && MeetsTerminator(cfg, cfg.optstring, s, next)
    ensures Parse(cfg, cfg.optstring, s + q, next).events == Parse(cfg, cfg.optstring, s, next).events
    ensures !EndsHungry(cfg, cfg.optstring, s, next)
    decreases |s|, if next != "" then |next| else if s != [] then |s[0]| else 0
  {
    var o := cfg.optstring;
    if next != "" {
      var d := Decode(cfg, o, s, next);
      DecodeIsLocal(cfg, o, s, next, q);
      AppendAfterTerminator(cfg, s[d.used..], d.rest, q);
    } else if s[0] == TERMINATOR {
    } else if NonOption(s[0]) {
      assert (s + q)[1..] == s[1..] + q;
      AppendAfterTerminator(cfg, s[1..], "", q);
    } else {
      AppendAfterTerminator(cfg, s, Body(s[0]), q);
    }
  }

  /** A hungry end takes whatever is appended, and then reports something else. */
  lemma {:induction false} HungryTakes(cfg: Config, s: seq<string>, next: string, x: string)
    requires InElement(s, next) && cfg.Ordering() == Permute && EndsHungry(cfg, cfg.optstring, s, next)
    ensures Parse(cfg, cfg.optstring, s + [x], next).events != Parse(cfg, cfg.optstring, s, next).events
    decreases |s|, if next != "" then |next| else if s != [] then |s[0]| else 0
  {
    var o := cfg.optstring;
    if next != "" {
      var d := Decode(cfg, o, s, next);
      if |s| == 1 && WantsNext(cfg, o, s[0], next) {
        MissingIsReported(cfg, o, s, next, x);
        assert Parse(cfg, o, s + [x], next).events[0] != Parse(cfg, o, s, next).events[0];
      } else {
        DecodeIsLocal(cfg, o, s, next, [x]);
        HungryTakes(cfg, s[d.used..], d.rest, x);
        assert Parse(cfg, o, s + [x], next).events[1..] == Parse(cfg, o, s[d.used..] + [x], d.rest).events;
        assert Parse(cfg, o, s, next).events[1..] == Parse(cfg, o, s[d.used..], d.rest).events;
      }
    } else if NonOption(s[0]) {
      assert (s + [x])[1..] == s[1..] + [x];
      HungryTakes(cfg, s[1..], "", x);
    } else {
      HungryTakes(cfg, s, Body(s[0]), x);
    }
  }

  /** Exactly when appending a non-option leaves the reports alone: unless an option is waiting for its argument. */
  lemma AppendNonOptionIff(cfg: Config, s: seq<string>, x: string)
    requires cfg.Ordering() == Permute && NonOption(x)
    ensures Parse(cfg, cfg.optstring, s + [x], "").events == Parse(cfg, cfg.optstring, s, "").events
            <==> !EndsHungry(cfg, cfg.optstring, s, "")
  {
    if EndsHungry(cfg, cfg.optstring, s, "") {
      HungryTakes(cfg, s, "", x);
    } else if MeetsTerminator(cfg, cfg.optstring, s, "") {
      AppendAfterTerminator(cfg, s, "", [x]);
    } else {
      ParseConcat(cfg, s, "", [x]);
      assert Parse(cfg, cfg.optstring, [x], "").events == Parse(cfg, cfg.optstring, [], "").events;
    }
  }
}
