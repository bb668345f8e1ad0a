/** What pgify's own switches come to, name by name and letter by letter. */
module SwitchReports {
  import opened Wrappers
  import opened GetoptSpec
  import opened GetoptReports
  import opened PgifyMain

  /** The long names of main.c and the letters they stand for. */
  ghost predicate StandsFor(name: string, i: nat, code: char) {
    || (name == "help" && i == 0 && code == 'h')
    || (name == "version" && i == 1 && code == 'V')
    || (name == "debug" && i == 2 && code == 'd')
    || (name == "escape" && i == 3 && code == 'e')
    || (name == "lowercase" && i == 4 && code == 'c')
  }

  lemma RowIs(name: string, i: nat, code: char)
    requires StandsFor(name, i, code)
    ensures i < |LONG_OPTIONS| && LONG_OPTIONS[i] == LongOption(name, NoArgument, None, code as int) && '=' !in name
  {
  }

  /** The five names begin with five letters. */
  lemma FirstLetters(name: string, i: nat, code: char, j: nat)
    requires StandsFor(name, i, code) && j < |LONG_OPTIONS| && LONG_OPTIONS[j].name[..1] == name[..1]
    ensures j == i
  {
    assert LONG_OPTIONS[j].name[..1][0] == LONG_OPTIONS[j].name[0] && name[..1][0] == name[0];
  }

  lemma BeginningIsRow(name: string, i: nat, code: char, k: nat)
    requires StandsFor(name, i, code) && 0 < k <= |name|
    ensures Resolve(LONG_OPTIONS, name[..k]) == Found(i)
  {
    var typed := name[..k];
    RowIs(name, i, code);
    forall j | 0 <= j < |LONG_OPTIONS| && typed <= LONG_OPTIONS[j].name ensures j == i {
      assert LONG_OPTIONS[j].name[..1] == typed[..1] == name[..1];
      FirstLetters(name, i, code, j);
    }
    UniqueBeginningWins(LONG_OPTIONS, typed, i);
  }

  /** Any beginning of a name, in front of any other arguments, is reported with the letter of its row. */
  lemma LongSwitch(posixlyCorrect: bool, name: string, i: nat, code: char, k: nat, q: seq<string>)
    requires StandsFor(name, i, code) && 0 < k <= |name|
    ensures var cfg := PgifyConfig(posixlyCorrect);
            var events := Parse(cfg, cfg.optstring, ["--" + name[..k]] + q, "").events;
            events != [] && events[0] == Event(code as int, None, Some(i), None)
  {
    var cfg, typed := PgifyConfig(posixlyCorrect), name[..k];
    var s := ["--" + typed] + q;
    RowIs(name, i, code);
    BeginningIsRow(name, i, code, k);
    assert Body(s[0]) == typed && Typed(typed, None) == typed;
    LongReport(cfg, cfg.optstring, s, typed, None, i);
  }

  lemma ExitFirst(events: seq<Event>, st: Switches, options: bv32)
    requires events != [] && events[0].code in {'h' as int, 'V' as int}
    ensures Interpret(events, st, options) == if events[0].code == 'h' as int then Usage(0) else PrintVersion
  {
    assert events[..0] == [];
    FirstExitDecides(events, 0, st, options);
  }

  /** --help, or a beginning of it, prints the usage with status 0. */
  lemma HelpAnswers(posixlyCorrect: bool, k: nat, q: seq<string>, st: Switches, options: bv32)
    requires 0 < k <= 4
    ensures var cfg := PgifyConfig(posixlyCorrect);
            Interpret(Parse(cfg, cfg.optstring, ["--" + "help"[..k]] + q, "").events, st, options) == Usage(0)
  {
    var cfg := PgifyConfig(posixlyCorrect);
    LongSwitch(posixlyCorrect, "help", 0, 'h', k, q);
    ExitFirst(Parse(cfg, cfg.optstring, ["--" + "help"[..k]] + q, "").events, st, options);
  }

  /** --version, or a beginning of it, prints the version. */
  lemma VersionAnswers(posixlyCorrect: bool, k: nat, q: seq<string>, st: Switches, options: bv32)
    requires 0 < k <= 7
    ensures var cfg := PgifyConfig(posixlyCorrect);
            Interpret(Parse(cfg, cfg.optstring, ["--" + "version"[..k]] + q, "").events, st, options) == PrintVersion
  {
    var cfg := PgifyConfig(posixlyCorrect);
    LongSwitch(posixlyCorrect, "version", 1, 'V', k, q);
    ExitFirst(Parse(cfg, cfg.optstring, ["--" + "version"[..k]] + q, "").events, st, options);
  }

  /** Each of the letters h, d, e, c and V is reported as itself, alone or in front of others. */
  lemma LetterSwitch(posixlyCorrect: bool, code: char, rest: string, q: seq<string>)
    requires code in "hdecV"
    ensures var cfg := PgifyConfig(posixlyCorrect);
            var events := Parse(cfg, cfg.optstring, [['-', code] + rest] + q, "").events;
            events != [] && events[0] == Event(code as int, None, None, None)
  {
    var cfg := PgifyConfig(posixlyCorrect);
    var x := ['-', code] + rest;
    var k := match code case 'h' => 2 case 'd' => 3 case 'e' => 4 case 'c' => 5 case _ => 6;
    assert x[0] == '-' && x[1] == code && x[1..] == [code] + rest;
    PlainReport(cfg, cfg.optstring, [x] + q, code, rest, k);
  }

  /** -f takes the rest of its element, else the next one. */
  lemma FileSwitch(posixlyCorrect: bool, rest: string, x: string, q: seq<string>)
    ensures var cfg := PgifyConfig(posixlyCorrect);
            var events := Parse(cfg, cfg.optstring, ["-f" + rest, x] + q, "").events;
            events != [] && events[0] == Event('f' as int, Some(if rest != "" then rest else x), None, None)
  {
    var cfg := PgifyConfig(posixlyCorrect);
    var s := ["-f" + rest, x] + q;
    assert s[0][0] == '-' && s[0][1] == 'f' && s[0][1..] == ['f'] + rest;
    RequiredReport(cfg, cfg.optstring, s, 'f', rest, 0);
  }

  /** A name in front of the switches: passed over, unless POSIXLY_CORRECT makes it end them. */
  lemma NameBeforeSwitches(posixlyCorrect: bool, x: string, q: seq<string>, st: Switches, options: bv32)
    requires x == "" || x == "-" || x[0] != '-'
    ensures var cfg := PgifyConfig(posixlyCorrect);
            Interpret(Parse(cfg, cfg.optstring, [x] + q, "").events, st, options)
            == Interpret(if posixlyCorrect then [] else Parse(cfg, cfg.optstring, q, "").events, st, options)
  {
    var cfg := PgifyConfig(posixlyCorrect);
    OrderingDecides(cfg, cfg.optstring, x, q);
  }
}
