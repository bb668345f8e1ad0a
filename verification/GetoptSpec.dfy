/**
  The meaning of a command line, as getopt.c promises it: a pure left-to-right parser that never
  moves an argument. The scanner in GetoptScanner.dfy is proved against it.
 */
module GetoptSpec {
  import opened Wrappers

  // ---------- the interface: orderings, long options, what one call reports ----------

  datatype Ordering = RequireOrder | Permute | ReturnInOrder

  datatype HasArg = NoArgument | RequiredArgument | OptionalArgument

  /** One row of the long-option table. `flag` names the variable to store `val` in, if any. */
  datatype LongOption = LongOption(name: string, hasArg: HasArg, flag: Option<nat>, val: int)

  /** What one call reports: the returned code, optarg, the new *longind and optopt (None: not written). */
  datatype Event = Event(code: int, arg: Option<string>, longIndex: Option<nat>, optopt: Option<int>)

  const QUESTION: int := '?' as int
  const COLON: int := ':' as int
  const END: int := -1

  datatype Config = Config(optstring: string, table: seq<LongOption>, posixlyCorrect: bool) {

    /** The caller's side of the interface: no "W;" and no long option whose value is the end marker. */
    predicate Valid() {
      && (forall k :: 0 <= k < |optstring| && optstring[k] == 'W' ==> !(k + 1 < |optstring| && optstring[k + 1] == ';'))
      && (forall i :: 0 <= i < |table| ==> table[i].val != END)
    }

    function Ordering(): Ordering {
      if optstring != "" && optstring[0] == '-' then ReturnInOrder
      else if optstring != "" && optstring[0] == '+' then RequireOrder
      else if posixlyCorrect then RequireOrder
      else Permute
    }

    /** The option letters the FIRST call sees. Later calls see `optstring` with its prefix still on. */
    function Stripped(): string {
      if optstring != "" && (optstring[0] == '-' || optstring[0] == '+') then optstring[1..] else optstring
    }
  }

  /** An argument without option syntax: it does not start with '-', or is "-" alone. */
  predicate NonOption(s: string) {
    |s| == 0 || s[0] != '-' || |s| == 1
  }

  const TERMINATOR: string := "--"

  /** The text of an option element behind its initial punctuation. */
  function Body(s: string): string
    requires !NonOption(s)
  {
    if s[1] == '-' then s[2..] else s[1..]
  }

  function IndexOf(s: string, c: char): (r: Option<nat>)
    ensures r.Some? ==> r.value < |s| && s[r.value] == c && c !in s[..r.value]
    ensures r.None? ==> c !in s
  {
    if s == "" then None
    else if s[0] == c then Some(0)
    else
      match IndexOf(s[1..], c)
      case None => None
      case Some(k) =>
        assert s[..k + 1] == [s[0]] + s[1..][..k];
        Some(k + 1)
  }

  /** The name typed in "name" or "name=value". */
  function NamePart(text: string): (name: string)
    ensures name <= text && '=' !in name
    ensures |name| < |text| ==> text[|name|] == '='
  {
    match IndexOf(text, '=')
    case None => text
    case Some(k) => text[..k]
  }

  // ---------- long-option resolution ----------

  datatype Resolution = Found(index: nat) | Ambiguous | Unknown

  ghost predicate Exact(table: seq<LongOption>, typed: string, i: nat) {
    i < |table| && table[i].name == typed
  }

  ghost predicate Abbreviates(table: seq<LongOption>, typed: string, i: nat) {
    i < |table| && typed <= table[i].name
  }

  /** The documented meaning: an exact name wins, else a unique abbreviation, else ambiguity, else unknown. */
  ghost predicate Resolves(table: seq<LongOption>, typed: string, r: Resolution) {
    match r
    case Found(i) =>
      if exists j :: Exact(table, typed, j) then
        Exact(table, typed, i) && forall j :: 0 <= j < i ==> !Exact(table, typed, j)
      else
        Abbreviates(table, typed, i) && forall j :: Abbreviates(table, typed, j) ==> j == i
    case Ambiguous =>
      && (forall j :: !Exact(table, typed, j))
      && (exists i, j :: i != j && Abbreviates(table, typed, i) && Abbreviates(table, typed, j))
    case Unknown =>
      forall j :: !Abbreviates(table, typed, j)
  }

  function FirstExact(table: seq<LongOption>, typed: string, from: nat): (r: Option<nat>)
    requires from <= |table|
    ensures r.Some? ==> from <= r.value && Exact(table, typed, r.value)
    ensures r.Some? ==> forall j :: from <= j < r.value ==> !Exact(table, typed, j)
    ensures r.None? ==> forall j :: from <= j ==> !Exact(table, typed, j)
    decreases |table| - from
  {
    if from == |table| then None
    else if table[from].name == typed then Some(from)
    else FirstExact(table, typed, from + 1)
  }

  function FirstMatch(table: seq<LongOption>, typed: string, from: nat): (r: Option<nat>)
    requires from <= |table|
    ensures r.Some? ==> from <= r.value && Abbreviates(table, typed, r.value)
    ensures r.Some? ==> forall j :: from <= j < r.value ==> !Abbreviates(table, typed, j)
    ensures r.None? ==> forall j :: from <= j ==> !Abbreviates(table, typed, j)
    decreases |table| - from
  {
    if from == |table| then None
    else if typed <= table[from].name then Some(from)
    else FirstMatch(table, typed, from + 1)
  }

  function Resolve(table: seq<LongOption>, typed: string): (r: Resolution)
    ensures Resolves(table, typed, r)
    ensures r.Found? ==> r.index < |table|
  {
    match FirstExact(table, typed, 0)
    case Some(i) => Found(i)
    case None =>
      match FirstMatch(table, typed, 0)
      case None => Unknown
      case Some(i) => if FirstMatch(table, typed, i + 1).Some? then Ambiguous else Found(i)
  }

  /** The documented meaning leaves no freedom: it fixes the outcome. */
  lemma ResolutionIsUnique(table: seq<LongOption>, typed: string, r: Resolution, q: Resolution)
    requires Resolves(table, typed, r) && Resolves(table, typed, q)
    ensures r == q
  {
    assert forall j :: Exact(table, typed, j) ==> Abbreviates(table, typed, j);
    if r.Found? && q.Found? && exists j :: Exact(table, typed, j) {
      assert !(r.index < q.index) && !(q.index < r.index);
    }
  }

  predicate DistinctNames(table: seq<LongOption>) {
    forall i, j :: 0 <= i < j < |table| ==> table[i].name != table[j].name
  }

  ghost predicate SameRows(t: seq<LongOption>, u: seq<LongOption>) {
    forall o :: o in t <==> o in u
  }

  /** With distinct names the order of the table does not matter. */
  lemma ResolveIgnoresOrder(t: seq<LongOption>, u: seq<LongOption>, typed: string)
    requires DistinctNames(t) && DistinctNames(u) && SameRows(t, u)
    ensures match (Resolve(t, typed), Resolve(u, typed))
            case (Found(i), Found(j)) => t[i] == u[j]
            case (r, q) => r == q
  {
    RowsCarryOver(t, u, typed);
    RowsCarryOver(u, t, typed);
  }

  lemma AbbreviationCarriesOver(t: seq<LongOption>, u: seq<LongOption>, typed: string, j: nat)
    requires SameRows(t, u) && Abbreviates(t, typed, j)
    ensures exists l: nat :: Abbreviates(u, typed, l)
  {
    assert t[j] in t;
    var l :| 0 <= l < |u| && u[l] == t[j];
    assert Abbreviates(u, typed, l);
  }

  lemma RowsCarryOver(t: seq<LongOption>, u: seq<LongOption>, typed: string)
    requires DistinctNames(t) && DistinctNames(u) && SameRows(t, u)
    ensures match Resolve(t, typed)
            case Found(i) => Resolve(u, typed).Found? && u[Resolve(u, typed).index] == t[i]
            case Ambiguous => Resolve(u, typed) == Ambiguous
            case Unknown => Resolve(u, typed) == Unknown
  {
    match Resolve(t, typed)
    case Found(i) => FoundCarriesOver(t, u, typed, i);
    case Ambiguous =>
      var i: nat, j: nat :| i != j && Abbreviates(t, typed, i) && Abbreviates(t, typed, j);
      AmbiguityCarriesOver(t, u, typed, i, j);
    case Unknown =>
      forall j: nat | Abbreviates(u, typed, j) ensures false {
        AbbreviationCarriesOver(u, t, typed, j);
      }
      ResolutionIsUnique(u, typed, Unknown, Resolve(u, typed));
  }

  lemma ExactCarriesOver(t: seq<LongOption>, u: seq<LongOption>, typed: string)
    requires SameRows(t, u)
    ensures (exists j :: Exact(t, typed, j)) ==> (exists j :: Exact(u, typed, j))
  {
    if j: nat :| Exact(t, typed, j) {
      assert t[j] in t;
      var k :| 0 <= k < |u| && u[k] == t[j];
      assert Exact(u, typed, k);
    }
  }

  lemma AmbiguityCarriesOver(t: seq<LongOption>, u: seq<LongOption>, typed: string, i: nat, j: nat)
    requires DistinctNames(t) && SameRows(t, u) && Resolves(t, typed, Ambiguous)
    requires i != j && Abbreviates(t, typed, i) && Abbreviates(t, typed, j)
    ensures Resolve(u, typed) == Ambiguous
  {
    ExactCarriesOver(u, t, typed);
    assert t[i] in t && t[j] in t && t[i].name != t[j].name;
    var k :| 0 <= k < |u| && u[k] == t[i];
    var l :| 0 <= l < |u| && u[l] == t[j];
    assert Abbreviates(u, typed, k) && Abbreviates(u, typed, l);
    ResolutionIsUnique(u, typed, Ambiguous, Resolve(u, typed));
  }

  lemma FoundCarriesOver(t: seq<LongOption>, u: seq<LongOption>, typed: string, i: nat)
    requires DistinctNames(t) && DistinctNames(u) && SameRows(t, u) && i < |t| && Resolves(t, typed, Found(i))
    ensures Resolve(u, typed).Found? && u[Resolve(u, typed).index] == t[i]
  {
    ExactCarriesOver(u, t, typed);
    assert t[i] in t;
    var k :| 0 <= k < |u| && u[k] == t[i];
    assert Resolves(u, typed, Found(k)) by {
      if Exact(t, typed, i) {
        assert Exact(u, typed, k);
      } else {
        forall j: nat | Abbreviates(u, typed, j) ensures j == k {
          assert u[j] in u;
          var l :| 0 <= l < |t| && t[l] == u[j];
          assert Abbreviates(t, typed, l);
        }
      }
    }
    ResolutionIsUnique(u, typed, Found(k), Resolve(u, typed));
  }

  // ---------- decoding one option ----------

  /**
    One decoded option: its report, the short-option letters left in the element, and how many
    arguments are finished with (0 while letters are left, 2 when the next argument was taken).
   */
  datatype Decoded = Decoded(event: Event, rest: string, used: nat)

  function MissingArgument(letters: string): int {
    if letters != "" && letters[0] == ':' then COLON else QUESTION
  }

  function LongSuccess(o: LongOption, i: nat, arg: Option<string>): Event {
    Event(if o.flag.Some? then 0 else o.val, arg, Some(i), None)
  }

  function DecodeLong(table: seq<LongOption>, letters: string, text: string, after: Option<string>): Decoded {
    var typed := NamePart(text);
    match Resolve(table, typed)
    case Ambiguous => Decoded(Event(QUESTION, None, None, Some(0)), "", 1)
    case Unknown => Decoded(Event(QUESTION, None, None, Some(0)), "", 1)
    case Found(i) => DecodeFound(table[i], i, letters, text, |typed|, after)
  }

  /** The entry is known; its name ends at n in the typed text. */
  function DecodeFound(o: LongOption, i: nat, letters: string, text: string, n: nat, after: Option<string>): Decoded
    requires n <= |text|
  {
    if n < |text| then
      if o.hasArg == NoArgument then Decoded(Event(QUESTION, None, None, Some(o.val)), "", 1)
      else Decoded(LongSuccess(o, i, Some(text[n + 1..])), "", 1)
    else if o.hasArg == RequiredArgument then
      if after.None? then Decoded(Event(MissingArgument(letters), None, None, Some(o.val)), "", 1)
      else Decoded(LongSuccess(o, i, after), "", 2)
    else Decoded(LongSuccess(o, i, None), "", 1)
  }

  datatype LetterKind = Invalid | Plain | TakesOptional | TakesRequired

  /** What the option letters say about `c`: the colons behind its first occurrence. */
  function LetterKindOf(letters: string, c: char): LetterKind {
    match IndexOf(letters, c)
    case None => Invalid
    case Some(k) =>
      if c == ':' then Invalid
      else if !(k + 1 < |letters| && letters[k + 1] == ':') then Plain
      else if k + 2 < |letters| && letters[k + 2] == ':' then TakesOptional
      else TakesRequired
  }

  function DecodeShort(letters: string, text: string, after: Option<string>): Decoded
    requires text != ""
  {
    var c, rest := text[0], text[1..];
    var step := if rest == "" then 1 else 0;
    match LetterKindOf(letters, c)
    case Invalid => Decoded(Event(QUESTION, None, None, Some(c as int)), rest, step)
    case Plain => Decoded(Event(c as int, None, None, None), rest, step)
    case TakesOptional => Decoded(Event(c as int, if rest == "" then None else Some(rest), None, None), "", 1)
    case TakesRequired =>
      if rest != "" then Decoded(Event(c as int, Some(rest), None, None), "", 1)
      else if after.None? then Decoded(Event(MissingArgument(letters), None, None, Some(c as int)), "", 1)
      else Decoded(Event(c as int, after, None, None), "", 2)
  }

  // ---------- the reference parser ----------

  /** A position in the arguments: at the start of `s`, or inside option element s[0] with `next` left. */
  predicate InElement(s: seq<string>, next: string) {
    next != "" ==> s != [] && !NonOption(s[0]) && s[0] != TERMINATOR && |next| < |s[0]|
  }

  function After(s: seq<string>): Option<string> {
    if |s| >= 2 then Some(s[1]) else None
  }

  function Decode(cfg: Config, letters: string, s: seq<string>, next: string): (d: Decoded)
    requires next != "" && InElement(s, next)
    ensures d.used <= |s|
    ensures d.rest == "" <==> d.used > 0
    ensures |d.rest| < |next| && InElement(s, d.rest)
    ensures cfg.Valid() ==> d.event.code != END
  {
    if s[0][1] == '-' then DecodeLong(cfg.table, letters, next, After(s)) else DecodeShort(letters, next, After(s))
  }

  /**
    The result of parsing: the reports in order, the arguments that are options (with the arguments
    they take, and the terminator), the non-options passed over, and what was never looked at.
   */
  datatype Parsed = Parsed(events: seq<Event>, opts: seq<string>, nons: seq<string>, tail: seq<string>)

  function Parse(cfg: Config, letters: string, s: seq<string>, next: string): Parsed
    requires InElement(s, next)
    decreases |s|, if next != "" then |next| else if s != [] then |s[0]| else 0
  {
    if next != "" then
      var d := Decode(cfg, letters, s, next);
      var p := Parse(cfg, cfg.optstring, s[d.used..], d.rest);
      Parsed([d.event] + p.events, s[..d.used] + p.opts, p.nons, p.tail)
    else if s == [] then
      Parsed([], [], [], [])
    else if s[0] == TERMINATOR then
      Parsed([], [TERMINATOR], [], s[1..])
    else if NonOption(s[0]) then
      match cfg.Ordering()
      case Permute =>
        var p := Parse(cfg, letters, s[1..], "");
        p.(nons := [s[0]] + p.nons)
      case RequireOrder =>
        Parsed([], [], [], s)
      case ReturnInOrder =>
        var p := Parse(cfg, cfg.optstring, s[1..], "");
        Parsed([NonOptionEvent(s[0])] + p.events, [s[0]] + p.opts, p.nons, p.tail)
    else
      Parse(cfg, letters, s, Body(s[0]))
  }

  /** In ReturnInOrder mode a non-option is reported as the argument of code 1. */
  function NonOptionEvent(s: string): Event {
    Event(1, Some(s), None, None)
  }
}
