/**
  The stateful scanner of getopt.c: its file-level variables are the fields, argv is permuted in place.
  Each method is one passage of _getopt_internal, proved equal to the matching part of GetoptStep.
 */
module GetoptScanner {
  import opened Wrappers
  import opened GetoptSpec
  import opened GetoptDecode
  import opened GetoptStep
  import opened ArgvRotation

  ghost function Stored(cfg: Config, flags: map<nat, int>, ev: Event): map<nat, int> {
    match ev.longIndex
    case Some(i) =>
      if i < |cfg.table| && cfg.table[i].flag.Some? then flags[cfg.table[i].flag.value := cfg.table[i].val] else flags
    case None => flags
  }

  /** Only steers the verifier: "for all k with Watch(k)" stays one fact until Watch is mentioned. */
  ghost predicate Watch(k: int) {
    true
  }

  class Scanner {
    const argv: array<string>
    const config: Config
    ghost var lay: Layout
    var optind: int
    var initialized: bool
    var nextchar: Option<string>
    var firstNonopt: int
    var lastNonopt: int
    var ordering: Ordering
    var optarg: Option<string>
    var optopt: int
    var longind: nat
    var flags: map<nat, int>

    /** getopt.c's static initial values; optind may have been set by the caller. */
    constructor (argv: array<string>, config: Config, optind: int)
      ensures this.argv == argv && this.config == config && this.optind == optind && !initialized
      ensures flags == map[]
    {
      this.argv, this.config, this.optind := argv, config, optind;
      initialized, nextchar, firstNonopt, lastNonopt := false, None, 0, 0;
      ordering, optarg, optopt, longind, flags := RequireOrder, None, QUESTION, 0, map[];
      lay := Layout([], [], [], [], []);
    }

    /** The next call is the first one. */
    predicate Starting()
      reads this
    {
      optind == 0 || !initialized
    }

    function Next(): string
      reads this
    {
      match nextchar
      case None => ""
      case Some(text) => text
    }

    /** The scanner invariant. */
    ghost predicate Placed()
      reads this, argv
    {
      Located() && lastNonopt == firstNonopt + |lay.nons|
    }

    /** The invariant while lastNonopt is stale. */
    ghost predicate Located()
      reads this, argv
    {
      && ordering == config.Ordering()
      && argv[..] == lay.All()
      && firstNonopt == |lay.prefix| + |lay.front|
      && optind == firstNonopt + |lay.nons| + |lay.back|
      && (ordering != Permute ==> lay.nons == [])
      && InElement(lay.rest, Next())
    }

    /**
      The report of one call is what the caller finds in the result and the global variables; given: what these held
      before.
     */
    ghost predicate RecordedFrom(ev: Event, c: int, optopt0: int, longind0: nat, flags0: map<nat, int>)
      reads this
    {
      && c == ev.code && optarg == ev.arg
      && optopt == ev.optopt.GetOr(optopt0)
      && longind == ev.longIndex.GetOr(longind0)
      && flags == Stored(config, flags0, ev)
    }

    twostate predicate Recorded(ev: Event, c: int)
      reads this
    {
      RecordedFrom(ev, c, old(optopt), old(longind), old(flags))
    }

    /** The call did what `step` says. */
    ghost predicate DoesFrom(step: Step, c: int, optopt0: int, longind0: nat, flags0: map<nat, int>)
      reads this, argv
    {
      forall k {:trigger Watch(k)} :: Watch(k) ==>
        match step
        case Stop(args, boundary) => c == -1 && argv[..] == args && optind == boundary
        case Go(ev, l, next) => RecordedFrom(ev, c, optopt0, longind0, flags0) && Placed() && lay == l && Next() == next
    }

    twostate predicate Does(step: Step, c: int)
      reads this, argv
    {
      DoesFrom(step, c, old(optopt), old(longind), old(flags))
    }

    /** Moves the options behind the skipped non-options in front of them. */
    method Exchange()
      requires argv[..] == lay.All()
      requires firstNonopt == |lay.prefix| + |lay.front| && lastNonopt == firstNonopt + |lay.nons|
               && optind == lastNonopt + |lay.back|
      modifies argv, this`firstNonopt, this`lastNonopt
      ensures argv[..] == lay.Exchanged()
      ensures firstNonopt == |lay.prefix| + |lay.front| + |lay.back| && lastNonopt == firstNonopt + |lay.nons| == optind
    {
      ExchangeBlocks(argv, firstNonopt, lastNonopt, optind, lay.prefix + lay.front, lay.nons, lay.back, lay.rest);
      firstNonopt := firstNonopt + (optind - lastNonopt);
      lastNonopt := optind;
    }

    method Initialize() returns (letters: string)
      requires 1 <= optind <= argv.Length
      modifies this`firstNonopt, this`lastNonopt, this`lay, this`nextchar, this`ordering
      ensures Placed() && lay == Layout(argv[..optind], [], [], [], argv[optind..])
      ensures Next() == "" && letters == config.Stripped()
    {
      firstNonopt, lastNonopt := optind, optind;
      lay := Layout(argv[..optind], [], [], [], argv[optind..]);
      nextchar := None;
      letters := config.optstring;
      if letters != "" && letters[0] == '-' {
        ordering := ReturnInOrder;
        letters := letters[1..];
      } else if letters != "" && letters[0] == '+' {
        ordering := RequireOrder;
        letters := letters[1..];
      } else if config.posixlyCorrect {
        ordering := RequireOrder;
      } else {
        ordering := Permute;
      }
    }

    /** The PERMUTE branch, first half: bring the skipped non-options behind the options seen since. */
    method Gather()
      requires Placed() && ordering == Permute
      modifies argv, this`firstNonopt, this`lastNonopt, this`lay
      ensures Located() && lay == old(lay).Gathered()
    {
      GatheredAll(lay);
      if firstNonopt != lastNonopt && lastNonopt != optind {
        Exchange();
      } else if lastNonopt != optind {
        firstNonopt := optind;
      }
      lay := lay.Gathered();
    }

    /** The PERMUTE branch, second half: extend the skipped non-options. */
    method Skip()
      requires Located() && ordering == Permute && lay.back == [] && Next() == ""
      modifies this`lastNonopt, this`optind, this`lay
      ensures Placed() && lay == Passed(old(lay))
    {
      while optind < argv.Length && NonOption(argv[optind])
        invariant Located() && lay.back == [] && Next() == "" && Passed(lay) == Passed(old(lay))
        modifies this`optind, this`lay
      {
        RestIsSuffix(argv[..], lay);
        SkippedAll(lay);
        optind := optind + 1;
        lay := lay.Skipped();
      }
      RestIsSuffix(argv[..], lay);
      lastNonopt := optind;
    }

    /** Bring the indices back when the caller moved optind back; in an undisturbed run it changes nothing. */
    method ClampIndices()
      modifies this`firstNonopt, this`lastNonopt
      ensures lastNonopt == if old(lastNonopt) > optind then optind else old(lastNonopt)
      ensures firstNonopt == if old(firstNonopt) > optind then optind else old(firstNonopt)
    {
      if lastNonopt > optind {
        lastNonopt := optind;
      }
      if firstNonopt > optind {
        firstNonopt := optind;
      }
    }

    /** Settle the indices and, when permuting, pass over the non-options ahead. */
    method Prepare()
      requires Placed() && Next() == ""
      modifies argv, this`firstNonopt, this`lastNonopt, this`optind, this`lay
      ensures Placed() && lay == Prepared(config, old(lay)) && (ordering == Permute ==> lay.back == [])
    {
      ClampIndices();
      if ordering == Permute {
        Gather();
        Skip();
      }
    }

    /** "--": skip it like an option, exchange it with the skipped non-options, skip everything behind it. */
    method Terminate()
      requires Placed() && lay.rest != [] && (lay.nons == [] || lay.back == [])
      modifies argv, this`firstNonopt, this`lastNonopt, this`optind, this`lay
      ensures argv[..] == old(lay).Terminated()
      ensures firstNonopt == old(lay).Boundary() + 1 <= lastNonopt == optind == argv.Length
    {
      TerminatorAll(lay);
      TakenAll(lay, 1);
      optind := optind + 1;
      lay := lay.Taken(1);
      if firstNonopt != lastNonopt && lastNonopt != optind {
        Exchange();
      } else if firstNonopt == lastNonopt {
        firstNonopt := optind;
      }
      lastNonopt := argv.Length;
      optind := argv.Length;
    }

    /** The tests for "--" and for the end of the arguments. */
    method AtEnd() returns (done: bool)
      requires Placed() && Next() == "" && (ordering == Permute ==> lay.back == [])
      modifies argv, this`firstNonopt, this`lastNonopt, this`optind, this`lay
      ensures done <==> old(lay).rest == [] || old(lay).rest[0] == TERMINATOR
      ensures done && old(lay).rest == [] ==> argv[..] == old(lay).All() && optind == old(lay).Boundary()
      ensures done && old(lay).rest != [] ==> argv[..] == old(lay).Terminated() && optind == old(lay).Boundary() + 1
      ensures !done ==> Placed() && lay == old(lay)
    {
      RestIsSuffix(argv[..], lay);
      if optind != argv.Length && argv[optind] == TERMINATOR {
        Terminate();
      }
      if optind == argv.Length {
        if firstNonopt != lastNonopt {
          optind := firstNonopt;
        }
        return true;
      }
      return false;
    }

    /** A non-option that was not permuted: stop, or report it as the argument of code 1. */
    method ReturnNonOption() returns (c: int)
      requires Placed() && Next() == "" && optarg == None && ordering != Permute
      requires lay.rest != [] && lay.rest[0] != TERMINATOR && NonOption(lay.rest[0])
      modifies this`optind, this`optarg, this`lay
      ensures Does(EnterFrom(config, old(lay)).step, c)
    {
      if ordering == RequireOrder {
        return END;
      }
      RestIsSuffix(argv[..], lay);
      TakenAll(lay, 1);
      optarg := Some(argv[optind]);
      optind := optind + 1;
      lay := lay.Taken(1);
      return 1;
    }

    /** The element at optind: an answer for the caller, or None with an option element entered. */
    method ClassifyElement() returns (answer: Option<int>)
      requires Placed() && Next() == "" && optarg == None
      requires ordering == Permute ==> lay.back == [] && (lay.rest != [] ==> !NonOption(lay.rest[0]))
      modifies argv, this`firstNonopt, this`lastNonopt, this`optind, this`nextchar, this`optarg, this`lay
      ensures Answers(EnterFrom(config, old(lay)), answer)
    {
      var done := AtEnd();
      if done {
        return Some(END);
      }
      RestIsSuffix(argv[..], lay);
      if NonOption(argv[optind]) {
        var c := ReturnNonOption();
        return Some(c);
      }
      nextchar := Some(Body(argv[optind]));
      return None;
    }

    twostate predicate Answers(entry: Entry, new answer: Option<int>)
      reads this, argv
    {
      match entry
      case Answer(step) => answer.Some? && Does(step, answer.value)
      case Element(l, text) => answer.None? && Placed() && lay == l && Next() == text && text != "" && optarg == None
    }

    /** The search for the next element. */
    method NextElement() returns (answer: Option<int>)
      requires Placed() && Next() == "" && optarg == None
      modifies argv, this`firstNonopt, this`lastNonopt, this`optind, this`nextchar, this`optarg, this`lay
      ensures Answers(Enter(config, old(lay)), answer)
    {
      Prepare();
      answer := ClassifyElement();
    }

    /** The argument behind the current element, if there is one. */
    ghost function NextArgument(): Option<string>
      requires 0 <= optind < argv.Length
      reads this, argv
    {
      if optind + 1 < argv.Length then Some(argv[optind + 1]) else None
    }

    /** What decoding leaves behind: the report in the fields, the position moved by the option's length. */
    twostate predicate Decodes(d: Decoded, c: int)
      reads this
    {
      Recorded(d.event, c) && Next() == d.rest && optind == old(optind) + d.used
    }

    method LongOptionElement(letters: string) returns (c: int)
      requires 0 <= optind < argv.Length && Next() != "" && optarg == None
      modifies this`optind, this`nextchar, this`optarg, this`optopt, this`longind, this`flags
      ensures Decodes(DecodeLong(config.table, letters, old(Next()), old(NextArgument())), c)
    {
      var n := NameEnd(nextchar.value);
      var pfound, exact, ambig := FindLong(config.table, nextchar.value[..n]);
      if ambig && !exact {
        c := LongOptionRefused();
        return;
      }
      if pfound.Some? {
        c := LongOptionFound(letters, pfound.value, n);
        return;
      }
      c := LongOptionRefused();
    }

    /** The end of the ambiguous and of the unknown name. */
    method LongOptionRefused() returns (c: int)
      requires optarg == None
      modifies this`optind, this`nextchar, this`optopt
      ensures Decodes(Decoded(Event(QUESTION, None, None, Some(0)), "", 1), c)
    {
      nextchar := Some("");
      optind := optind + 1;
      optopt := 0;
      return QUESTION;
    }

    method LongOptionFound(letters: string, i: nat, n: nat) returns (c: int)
      requires 0 <= optind < argv.Length && Next() != "" && optarg == None && i < |config.table| && n <= |Next()|
      modifies this`optind, this`nextchar, this`optarg, this`optopt, this`longind, this`flags
      ensures Decodes(DecodeFound(config.table[i], i, letters, old(Next()), n, old(NextArgument())), c)
    {
      var text, o := nextchar.value, config.table[i];
      optind := optind + 1;
      if n < |text| {
        if o.hasArg != NoArgument {
          optarg := Some(text[n + 1..]);
        } else {
          nextchar := Some("");
          optopt := o.val;
          return QUESTION;
        }
      } else if o.hasArg == RequiredArgument {
        if optind < argv.Length {
          optarg := Some(argv[optind]);
          optind := optind + 1;
        } else {
          nextchar := Some("");
          optopt := o.val;
          return if letters != "" && letters[0] == ':' then COLON else QUESTION;
        }
      }
      nextchar := Some("");
      longind := i;
      if o.flag.Some? {
        flags := flags[o.flag.value := o.val];
        return 0;
      }
      return o.val;
    }

    /** An optional argument: the rest of the element, if there is any. */
    method OptionalText(text: string)
      modifies this`optind, this`optarg, this`nextchar
      ensures Next() == "" && (text != "" ==> optarg == Some(text) && optind == old(optind) + 1)
      ensures text == "" ==> optarg == None && optind == old(optind)
    {
      if text != "" {
        optarg := Some(text);
        optind := optind + 1;
      } else {
        optarg := None;
      }
      nextchar := None;
    }

    /** A required argument: the rest of the element, else the next argument, else it is missing. */
    method RequiredText(letters: string, letter: char, text: string) returns (c: int)
      requires 0 <= optind <= argv.Length && optarg == None
      modifies this`optind, this`optarg, this`nextchar, this`optopt
      ensures Next() == ""
      ensures text != "" ==>
                c == letter as int && optarg == Some(text) && optind == old(optind) + 1 && optopt == old(optopt)
      ensures text == "" && old(optind) < argv.Length ==>
                c == letter as int && optarg == Some(argv[old(optind)]) && optind == old(optind) + 1
                  && optopt == old(optopt)
      ensures text == "" && old(optind) == argv.Length ==>
                c == MissingArgument(letters) && optarg == None && optind == old(optind) && optopt == letter as int
    {
      c := letter as int;
      if text != "" {
        optarg := Some(text);
        optind := optind + 1;
      } else if optind == argv.Length {
        optopt := letter as int;
        c := if letters != "" && letters[0] == ':' then COLON else QUESTION;
      } else {
        optarg := Some(argv[optind]);
        optind := optind + 1;
      }
      nextchar := None;
    }

    method ShortOptionLetter(letters: string) returns (c: int)
      requires 0 <= optind < argv.Length && Next() != "" && optarg == None
      modifies this`optind, this`nextchar, this`optarg, this`optopt
      ensures Decodes(DecodeShort(letters, old(Next()), old(NextArgument())), c)
    {
      var letter := nextchar.value[0];
      var text := nextchar.value[1..];
      nextchar := Some(text);
      var temp := MyIndex(letters, letter);
      if text == "" {
        optind := optind + 1;
      }
      if temp.None? || letter == ':' {
        optopt := letter as int;
        return QUESTION;
      }
      var k := temp.value;
      c := letter as int;
      if k + 1 < |letters| && letters[k + 1] == ':' {
        if k + 2 < |letters| && letters[k + 2] == ':' {
          OptionalText(text);
        } else {
          c := RequiredText(letters, letter, text);
        }
      }
    }

    /** Decode the current element: a long option by its second dash, else a letter. */
    method DecodeElement(letters: string, ghost s: seq<string>) returns (c: int)
      requires 0 <= optind < argv.Length && Next() != "" && optarg == None
      requires InElement(s, Next()) && s[0] == argv[optind] && After(s) == NextArgument()
      modifies this`optind, this`nextchar, this`optarg, this`optopt, this`longind, this`flags
      ensures Decodes(Decode(config, letters, s, old(Next())), c)
    {
      if argv[optind][1] == '-' {
        c := LongOptionElement(letters);
      } else {
        c := ShortOptionLetter(letters);
      }
    }

    /** The layout catches up with optind: k more arguments are options. */
    ghost method Take(k: nat)
      requires k <= |lay.rest| && ordering == config.Ordering() && argv[..] == lay.All()
               && (ordering != Permute ==> lay.nons == [])
      requires firstNonopt == |lay.prefix| + |lay.front| && lastNonopt == firstNonopt + |lay.nons|
      requires optind == lastNonopt + |lay.back| + k && InElement(lay.rest[k..], Next())
      modifies this`lay
      ensures Placed() && lay == old(lay).Taken(k)
    {
      TakenAll(lay, k);
      lay := lay.Taken(k);
    }

    /** The same, seen from the layout. */
    method DecodeCurrent(letters: string) returns (c: int)
      requires Placed() && Next() != "" && optarg == None
      modifies this`optind, this`nextchar, this`optarg, this`optopt, this`longind, this`flags, this`lay
      ensures Does(DecodeAt(config, letters, old(lay), old(Next())), c)
    {
      RestIsSuffix(argv[..], lay);
      ghost var d := Decode(config, letters, lay.rest, Next());
      c := DecodeElement(letters, lay.rest);
      Take(d.used);
    }

    /** The call, once initialised. */
    method Continue(letters: string) returns (c: int)
      requires Placed() && optarg == None
      modifies argv, this`firstNonopt, this`lastNonopt, this`optind, this`nextchar, this`lay
      modifies this`optarg, this`optopt, this`longind, this`flags
      ensures Does(StepOf(config, Scan(letters, old(lay), old(Next()))), c)
    {
      if nextchar.None? || nextchar.value == "" {
        var answer := NextElement();
        if answer.Some? {
          return answer.value;
        }
      }
      c := DecodeCurrent(letters);
    }

    /** Where the next call starts from. */
    ghost function Current(): Scan
      requires Ready()
      reads this, argv
    {
      if Starting() then
        var k := if optind == 0 then 1 else optind;
        Scan(config.Stripped(), Layout(argv[..k], [], [], [], argv[k..]), "")
      else Scan(config.optstring, lay, Next())
    }

    /** What a call needs: the invariant, or before the first call an optind within argv. */
    ghost predicate Ready()
      reads this, argv
    {
      if Starting() then 0 <= optind <= argv.Length && 1 <= argv.Length else Placed()
    }

    /** The initialisation test of every call. */
    method Begin() returns (letters: string)
      requires Ready()
      modifies this`optind, this`initialized, this`firstNonopt, this`lastNonopt, this`lay, this`nextchar, this`ordering
      ensures Placed() && initialized && Scan(letters, lay, Next()) == old(Current())
    {
      letters := config.optstring;
      if optind == 0 || !initialized {
        if optind == 0 {
          optind := 1;
        }
        letters := Initialize();
        initialized := true;
      }
    }

    /** One call of _getopt_internal. */
    method Getopt() returns (c: int)
      requires Ready()
      modifies this, argv
      ensures initialized
      ensures Does(StepOf(config, old(Current())), c)
    {
      optarg := None;
      var letters := Begin();
      c := Continue(letters);
    }
  }
}
