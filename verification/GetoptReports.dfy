/** What each option reports, said by its table row or its letter, and what the ordering makes of a non-option. */
module GetoptReports {
  import opened Wrappers
  import opened GetoptSpec
  import opened GetoptScanner

  // ---------- long options ----------

  /** The text of a long option: its name, and behind a '=' its value, if it has one. */
  function Typed(name: string, value: Option<string>): string {
    match value
    case None => name
    case Some(v) => name + "=" + v
  }

  lemma NamePartIs(text: string, n: nat)
    requires n <= |text| && '=' !in text[..n] && (n < |text| ==> text[n] == '=')
    ensures NamePart(text) == text[..n]
  {
    var m := |NamePart(text)|;
    assert text[..m] == NamePart(text);
    assert forall i :: 0 <= i < n ==> text[..n][i] == text[i];
    assert forall i :: 0 <= i < m ==> text[..m][i] == text[i];
  }

  lemma TypedParts(name: string, value: Option<string>)
    requires '=' !in name
    ensures NamePart(Typed(name, value)) == name
    ensures value.Some? ==> Typed(name, value)[|name| + 1..] == value.value
  {
    var text := Typed(name, value);
    assert text[..|name|] == name;
    NamePartIs(text, |name|);
  }

  /** The name of a row, in full, is that row, whatever other names it begins. */
  lemma ExactNameWins(table: seq<LongOption>, i: nat)
    requires i < |table| && forall j :: 0 <= j < i ==> table[j].name != table[i].name
    ensures Resolve(table, table[i].name) == Found(i)
  {
    assert Exact(table, table[i].name, i);
    assert Resolves(table, table[i].name, Found(i));
    ResolutionIsUnique(table, table[i].name, Found(i), Resolve(table, table[i].name));
  }

  /** So is the beginning of one name only. */
  lemma UniqueBeginningWins(table: seq<LongOption>, typed: string, i: nat)
    requires i < |table| && typed <= table[i].name
    requires forall j :: 0 <= j < |table| && typed <= table[j].name ==> j == i
    ensures Resolve(table, typed) == Found(i)
  {
    assert Abbreviates(table, typed, i);
    if j: nat :| Exact(table, typed, j) {
      assert Abbreviates(table, typed, j);
    }
    assert Resolves(table, typed, Found(i));
    ResolutionIsUnique(table, typed, Found(i), Resolve(table, typed));
  }

  /** The beginning of two names, and none in full, is ambiguous. */
  lemma TwoBeginningsAreAmbiguous(table: seq<LongOption>, typed: string, i: nat, j: nat)
    requires i < j < |table| && typed <= table[i].name && typed <= table[j].name
    requires forall k :: 0 <= k < |table| ==> table[k].name != typed
    ensures Resolve(table, typed) == Ambiguous
  {
    assert Abbreviates(table, typed, i) && Abbreviates(table, typed, j);
    assert forall k :: !Exact(table, typed, k);
    ResolutionIsUnique(table, typed, Ambiguous, Resolve(table, typed));
  }

  /** What begins no name is unknown. */
  lemma NoBeginningIsUnknown(table: seq<LongOption>, typed: string)
    requires forall k :: 0 <= k < |table| ==> !(typed <= table[k].name)
    ensures Resolve(table, typed) == Unknown
  {
    assert forall k :: !Abbreviates(table, typed, k);
    ResolutionIsUnique(table, typed, Unknown, Resolve(table, typed));
  }

  /** The row takes its argument from the next element of the command line. */
  predicate TakesNext(row: LongOption, value: Option<string>, s: seq<string>) {
    value.None? && row.hasArg == RequiredArgument && |s| >= 2
  }

  /** A value for a row that takes none, or none where one is required and the command line ends. */
  predicate Misused(row: LongOption, value: Option<string>, s: seq<string>) {
    (value.Some? && row.hasArg == NoArgument) || (value.None? && row.hasArg == RequiredArgument && |s| < 2)
  }

  /**
    The long option --name or --name=value, where the name means row i: the report has the row's code, or 0 if the row
    names a variable, the number of the row, and as argument the value, the next element or nothing.
   */
  lemma LongReport(cfg: Config, letters: string, s: seq<string>, name: string, value: Option<string>, i: nat)
    requires '=' !in name && Typed(name, value) != "" && InElement(s, Typed(name, value)) && s[0][1] == '-'
    requires i < |cfg.table| && Resolves(cfg.table, name, Found(i)) && !Misused(cfg.table[i], value, s)
    ensures var d, row := Decode(cfg, letters, s, Typed(name, value)), cfg.table[i];
            && d.event.code == (if row.flag.None? then row.val else 0)
            && d.event.longIndex == Some(i) && d.event.optopt == None
            && d.event.arg == (if TakesNext(row, value, s) then Some(s[1]) else value)
            && d.used == (if TakesNext(row, value, s) then 2 else 1) && d.rest == ""
  {
    TypedParts(name, value);
    ResolutionIsUnique(cfg.table, name, Found(i), Resolve(cfg.table, name));
  }

  /** Misused, it is reported as '?', or as ':' if the letters ask for that and the argument is missing. */
  lemma MisusedReport(cfg: Config, letters: string, s: seq<string>, name: string, value: Option<string>, i: nat)
    requires '=' !in name && Typed(name, value) != "" && InElement(s, Typed(name, value)) && s[0][1] == '-'
    requires i < |cfg.table| && Resolves(cfg.table, name, Found(i)) && Misused(cfg.table[i], value, s)
    ensures var d, quiet := Decode(cfg, letters, s, Typed(name, value)), letters != "" && letters[0] == ':';
            && d.event.code == (if value.None? && quiet then ':' as int else '?' as int)
            && d.event.arg == None && d.event.longIndex == None && d.event.optopt == Some(cfg.table[i].val)
            && d.used == 1 && d.rest == ""
  {
    TypedParts(name, value);
    ResolutionIsUnique(cfg.table, name, Found(i), Resolve(cfg.table, name));
  }

  /** A name that means no row, or more than one, is reported as '?'. */
  lemma NoRowReport(cfg: Config, letters: string, s: seq<string>, name: string, value: Option<string>, r: Resolution)
    requires '=' !in name && Typed(name, value) != "" && InElement(s, Typed(name, value)) && s[0][1] == '-'
    requires !r.Found? && Resolves(cfg.table, name, r)
    ensures Decode(cfg, letters, s, Typed(name, value)) == Decoded(Event('?' as int, None, None, Some(0)), "", 1)
  {
    TypedParts(name, value);
    ResolutionIsUnique(cfg.table, name, r, Resolve(cfg.table, name));
  }

  /**
    Only a report with a row number stores, and only if that row names a variable: that variable then holds the row's
    value and every other what it held before.
   */
  lemma StoredIs(cfg: Config, flags: map<nat, int>, ev: Event)
    ensures ev.longIndex.None? ==> Stored(cfg, flags, ev) == flags
    ensures ev.longIndex.Some? && ev.longIndex.value < |cfg.table| ==>
              var row := cfg.table[ev.longIndex.value];
              && (row.flag.None? ==> Stored(cfg, flags, ev) == flags)
              && (row.flag.Some? ==>
                    && row.flag.value in Stored(cfg, flags, ev) && Stored(cfg, flags, ev)[row.flag.value] == row.val
                    && forall f :: f != row.flag.value ==>
                         (f in Stored(cfg, flags, ev) <==> f in flags)
                         && (f in flags ==> Stored(cfg, flags, ev)[f] == flags[f]))
  {
  }

  // ---------- option letters ----------

  lemma FirstPlace(letters: string, k: nat)
    requires k < |letters| && letters[k] !in letters[..k]
    ensures IndexOf(letters, letters[k]) == Some(k)
  {
    var c := letters[k];
    assert c in letters;
    var j := IndexOf(letters, c).value;
    assert forall i :: 0 <= i < k ==> letters[..k][i] == letters[i];
    assert forall i :: 0 <= i < j ==> letters[..j][i] == letters[i];
  }

  /** No colon behind the letter: it is reported as it is, and what follows it in the element comes next. */
  lemma PlainReport(cfg: Config, letters: string, s: seq<string>, c: char, rest: string, k: nat)
    requires InElement(s, [c] + rest) && s[0][1] != '-' && c != ':'
    requires k < |letters| && letters[k] == c && c !in letters[..k]
    requires k + 1 < |letters| ==> letters[k + 1] != ':'
    ensures Decode(cfg, letters, s, [c] + rest)
            == Decoded(Event(c as int, None, None, None), rest, if rest == "" then 1 else 0)
  {
    FirstPlace(letters, k);
    assert ([c] + rest)[1..] == rest;
  }

  /** Two colons: the rest of the element is the argument, if there is any. */
  lemma OptionalReport(cfg: Config, letters: string, s: seq<string>, c: char, rest: string, k: nat)
    requires InElement(s, [c] + rest) && s[0][1] != '-' && c != ':'
    requires k + 2 < |letters| && letters[k] == c && c !in letters[..k] && letters[k + 1] == letters[k + 2] == ':'
    ensures Decode(cfg, letters, s, [c] + rest)
            == Decoded(Event(c as int, if rest == "" then None else Some(rest), None, None), "", 1)
  {
    FirstPlace(letters, k);
    assert ([c] + rest)[1..] == rest;
  }

  /** One colon: the argument is the rest of the element, else the next one, else it is missing. */
  lemma RequiredReport(cfg: Config, letters: string, s: seq<string>, c: char, rest: string, k: nat)
    requires InElement(s, [c] + rest) && s[0][1] != '-' && c != ':'
    requires k + 1 < |letters| && letters[k] == c && c !in letters[..k] && letters[k + 1] == ':'
    requires k + 2 < |letters| ==> letters[k + 2] != ':'
    ensures Decode(cfg, letters, s, [c] + rest)
            == if rest != "" then Decoded(Event(c as int, Some(rest), None, None), "", 1)
               else if |s| >= 2 then Decoded(Event(c as int, Some(s[1]), None, None), "", 2)
               else
                 var missing := if letters[0] == ':' then ':' as int else '?' as int;
                 Decoded(Event(missing, None, None, Some(c as int)), "", 1)
  {
    FirstPlace(letters, k);
    assert ([c] + rest)[1..] == rest;
  }

  /** A character that is no option letter, as ':' never is, is reported as '?' and named in optopt. */
  lemma UnknownReport(cfg: Config, letters: string, s: seq<string>, c: char, rest: string)
    requires InElement(s, [c] + rest) && s[0][1] != '-' && (c == ':' || c !in letters)
    ensures Decode(cfg, letters, s, [c] + rest)
            == Decoded(Event('?' as int, None, None, Some(c as int)), rest, if rest == "" then 1 else 0)
  {
    assert ([c] + rest)[1..] == rest;
  }

  // ---------- the ordering ----------

  /**
    What becomes of a non-option: with the prefix '-' it is reported as the argument of code 1; else with the prefix '+'
    or with POSIXLY_CORRECT it ends the scan; else it is set aside and changes no report.
   */
  lemma OrderingDecides(cfg: Config, letters: string, x: string, q: seq<string>)
    requires x == "" || x == "-" || x[0] != '-'
    ensures var o, p := cfg.optstring, Parse(cfg, letters, [x] + q, "");
            if o != "" && o[0] == '-' then
              var r := Parse(cfg, o, q, "");
              p == Parsed([Event(1, Some(x), None, None)] + r.events, [x] + r.opts, r.nons, r.tail)
            else if (o != "" && o[0] == '+') || cfg.posixlyCorrect then
              p == Parsed([], [], [], [x] + q)
            else
              var r := Parse(cfg, letters, q, "");
              p == Parsed(r.events, r.opts, [x] + r.nons, r.tail)
  {
    assert ([x] + q)[1..] == q;
  }

  /** What was not read is the end of s: behind a terminator, the last of the options, or from a non-option on. */
  ghost predicate EndsWell(cfg: Config, s: seq<string>, p: Parsed) {
    && |p.tail| <= |s| && p.tail == s[|s| - |p.tail|..]
    && (p.tail != [] ==>
          || (cfg.Ordering() == RequireOrder && NonOption(p.tail[0]))
          || (p.opts != [] && p.opts[|p.opts| - 1] == "--" && |p.tail| < |s| && s[|s| - |p.tail| - 1] == "--"))
  }

  lemma OptionsBefore(cfg: Config, s: seq<string>, k: nat, p: Parsed, events: seq<Event>)
    requires k <= |s| && EndsWell(cfg, s[k..], p)
    ensures EndsWell(cfg, s, Parsed(events, s[..k] + p.opts, p.nons, p.tail))
  {
    assert s[k..][|s[k..]| - |p.tail|..] == s[|s| - |p.tail|..];
  }

  lemma NonOptionBefore(cfg: Config, s: seq<string>, p: Parsed)
    requires s != [] && EndsWell(cfg, s[1..], p)
    ensures EndsWell(cfg, s, p.(nons := [s[0]] + p.nons))
  {
    assert s[1..][|s[1..]| - |p.tail|..] == s[|s| - |p.tail|..];
  }

  /** Whatever ends a scan early: the terminator is among the options, and all that is behind it is left unread. */
  lemma {:induction false} TerminatorIsLast(cfg: Config, letters: string, s: seq<string>, next: string)
    requires InElement(s, next)
    ensures EndsWell(cfg, s, Parse(cfg, letters, s, next))
    decreases |s|, if next != "" then |next| else if s != [] then |s[0]| else 0
  {
    if next != "" {
      var d := Decode(cfg, letters, s, next);
      var p := Parse(cfg, cfg.optstring, s[d.used..], d.rest);
      TerminatorIsLast(cfg, cfg.optstring, s[d.used..], d.rest);
      OptionsBefore(cfg, s, d.used, p, [d.event] + p.events);
    } else if s == [] || s[0] == TERMINATOR {
    } else if NonOption(s[0]) {
      match cfg.Ordering()
      case Permute =>
        TerminatorIsLast(cfg, letters, s[1..], "");
        NonOptionBefore(cfg, s, Parse(cfg, letters, s[1..], ""));
      case RequireOrder =>
      case ReturnInOrder =>
        var p := Parse(cfg, cfg.optstring, s[1..], "");
        TerminatorIsLast(cfg, cfg.optstring, s[1..], "");
        OptionsBefore(cfg, s, 1, p, [NonOptionEvent(s[0])] + p.events);
        assert s[..1] == [s[0]];
    } else {
      TerminatorIsLast(cfg, letters, s, Body(s[0]));
    }
  }
}
