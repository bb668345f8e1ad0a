/**
  The prefix of the option letters only chooses the ordering, so no call should see it. The code strips `+` or `-`
  for the first call of a run and leaves it to the others: exactly when that makes no difference.
 */
module GetoptPrefix {
  import opened Wrappers
  import opened GetoptSpec

  /** The documented parser: the reference parser with the prefix stripped on every call. */
  function Documented(cfg: Config, s: seq<string>, next: string): Parsed
    requires InElement(s, next)
    decreases |s|, if next != "" then |next| else if s != [] then |s[0]| else 0
  {
    if next != "" then
      var d := Decode(cfg, cfg.Stripped(), s, next);
      var p := Documented(cfg, s[d.used..], d.rest);
      Parsed([d.event] + p.events, s[..d.used] + p.opts, p.nons, p.tail)
    else if s == [] then
      Parsed([], [], [], [])
    else if s[0] == TERMINATOR then
      Parsed([], [TERMINATOR], [], s[1..])
    else if NonOption(s[0]) then
      match cfg.Ordering()
      case Permute =>
        var p := Documented(cfg, s[1..], "");
        p.(nons := [s[0]] + p.nons)
      case RequireOrder =>
        Parsed([], [], [], s)
      case ReturnInOrder =>
        var p := Documented(cfg, s[1..], "");
        Parsed([NonOptionEvent(s[0])] + p.events, [s[0]] + p.opts, p.nons, p.tail)
    else
      Documented(cfg, s, Body(s[0]))
  }

  predicate HasPrefix(cfg: Config) {
    cfg.optstring != "" && (cfg.optstring[0] == '-' || cfg.optstring[0] == '+')
  }

  /** Some letter requires an argument; '-' counts, a bundle can reach it. */
  predicate LetterRequires(letters: string) {
    exists k :: 0 <= k < |letters| && LetterKindOf(letters, letters[k]) == TakesRequired
  }

  /** The first k characters of name i can be typed, and stand for a long option that requires an argument. */
  predicate StandsForRequired(table: seq<LongOption>, i: nat, k: nat) {
    && i < |table| && 0 < k <= |table[i].name| && '=' !in table[i].name[..k]
    && table[i].hasArg == RequiredArgument && Resolve(table, table[i].name[..k]) == Found(i)
  }

  ghost predicate NameRequires(table: seq<LongOption>) {
    exists i, k :: StandsForRequired(table, i, k)
  }

  /** What a caller can check: the prefix is no other letter than without it, and hides no ':' that matters. */
  ghost predicate PrefixHarmless(cfg: Config) {
    HasPrefix(cfg) ==>
      var stripped, prefix := cfg.Stripped(), cfg.optstring[0];
      && LetterKindOf(stripped, prefix) == LetterKindOf(cfg.optstring, prefix)
      && (stripped != "" && stripped[0] == ':' ==> !LetterRequires(stripped) && !NameRequires(cfg.table))
  }

  // ---------- a harmless prefix ----------

  lemma KindBehindPrefix(cfg: Config, c: char)
    requires HasPrefix(cfg) && c != cfg.optstring[0]
    ensures LetterKindOf(cfg.optstring, c) == LetterKindOf(cfg.Stripped(), c)
  {
    assert cfg.optstring[1..] == cfg.Stripped();
  }

  lemma LetterIsListed(letters: string, c: char)
    requires LetterKindOf(letters, c) == TakesRequired
    ensures LetterRequires(letters)
  {
    var k := IndexOf(letters, c).value;
    assert letters[k] == c;
  }

  lemma ShortAlike(cfg: Config, text: string, after: Option<string>)
    requires HasPrefix(cfg) && PrefixHarmless(cfg) && text != ""
    ensures DecodeShort(cfg.Stripped(), text, after) == DecodeShort(cfg.optstring, text, after)
  {
    var c := text[0];
    if c != cfg.optstring[0] {
      KindBehindPrefix(cfg, c);
    }
    if LetterKindOf(cfg.Stripped(), c) == TakesRequired {
      LetterIsListed(cfg.Stripped(), c);
    }
  }

  lemma TypedStandsForRequired(table: seq<LongOption>, typed: string, i: nat)
    requires typed != "" && '=' !in typed
    requires i < |table| && Resolve(table, typed) == Found(i) && table[i].hasArg == RequiredArgument
    ensures StandsForRequired(table, i, |typed|) && NameRequires(table)
  {
    assert typed <= table[i].name by {
      if Exact(table, typed, i) {} else { assert Abbreviates(table, typed, i); }
    }
    assert table[i].name[..|typed|] == typed;
    assert StandsForRequired(table, i, |typed|);
  }

  lemma LongAlike(cfg: Config, text: string, after: Option<string>)
    requires HasPrefix(cfg) && PrefixHarmless(cfg) && text != ""
    ensures DecodeLong(cfg.table, cfg.Stripped(), text, after) == DecodeLong(cfg.table, cfg.optstring, text, after)
  {
    var typed := NamePart(text);
    match Resolve(cfg.table, typed)
    case Found(i) =>
      if |typed| == |text| && cfg.table[i].hasArg == RequiredArgument {
        assert typed == text;
        TypedStandsForRequired(cfg.table, typed, i);
      }
    case _ =>
  }

  lemma DecodeAlike(cfg: Config, letters: string, s: seq<string>, next: string)
    requires PrefixHarmless(cfg) && letters in {cfg.Stripped(), cfg.optstring} && next != "" && InElement(s, next)
    ensures Decode(cfg, letters, s, next) == Decode(cfg, cfg.Stripped(), s, next)
  {
    if HasPrefix(cfg) {
      if s[0][1] == '-' {
        LongAlike(cfg, next, After(s));
      } else {
        ShortAlike(cfg, next, After(s));
      }
    }
  }

  /** With a harmless prefix everything comes out as documented, from any position of a run on. */
  lemma {:induction false} HarmlessIsDocumented(cfg: Config, letters: string, s: seq<string>, next: string)
    requires PrefixHarmless(cfg) && letters in {cfg.Stripped(), cfg.optstring} && InElement(s, next)
    ensures Parse(cfg, letters, s, next) == Documented(cfg, s, next)
    decreases |s|, if next != "" then |next| else if s != [] then |s[0]| else 0
  {
    if next != "" {
      var d := Decode(cfg, letters, s, next);
      DecodeAlike(cfg, letters, s, next);
      HarmlessIsDocumented(cfg, cfg.optstring, s[d.used..], d.rest);
    } else if s != [] && s[0] != TERMINATOR {
      if NonOption(s[0]) {
        HarmlessIsDocumented(cfg, if cfg.Ordering() == Permute then letters else cfg.optstring, s[1..], "");
      } else {
        HarmlessIsDocumented(cfg, letters, s, Body(s[0]));
      }
    }
  }

  // ---------- a harmful one: an input ----------

  /** Inside an element the next report is decoded, and the rest follows. */
  lemma ReportsInside(cfg: Config, letters: string, s: seq<string>, next: string)
    requires next != "" && InElement(s, next)
    ensures var d := Decode(cfg, letters, s, next);
            Parse(cfg, letters, s, next).events == [d.event] + Parse(cfg, cfg.optstring, s[d.used..], d.rest).events
    ensures var d := Decode(cfg, cfg.Stripped(), s, next);
            Documented(cfg, s, next).events == [d.event] + Documented(cfg, s[d.used..], d.rest).events
  {
  }

  lemma ReportsOfElement(cfg: Config, letters: string, s: seq<string>)
    requires s != [] && !NonOption(s[0]) && s[0] != TERMINATOR
    ensures Parse(cfg, letters, s, "") == Parse(cfg, letters, s, Body(s[0]))
    ensures Documented(cfg, s, "") == Documented(cfg, s, Body(s[0]))
  {
  }

  lemma Bundle(f: char, text: string)
    requires f != '-'
    ensures var x := ['-', f] + text;
            !NonOption(x) && x != TERMINATOR && Body(x) == [f] + text && InElement([x], [f] + text)
  {
    var x := ['-', f] + text;
    assert x[0] == '-' && x[1] == f && x[1..] == [f] + text;
  }

  /** A letter that takes no argument, and something else behind it: the first call and a later one in one element. */
  lemma SecondInBundle(cfg: Config, f: char, text: string)
    requires f != '-' && text != "" && LetterKindOf(cfg.Stripped(), f) in {Invalid, Plain}
    ensures var x := ['-', f] + text;
            var p, d := Parse(cfg, cfg.Stripped(), [x], "").events, Documented(cfg, [x], "").events;
            && |p| >= 2 && |d| >= 2
            && p[0] == d[0] == DecodeShort(cfg.Stripped(), [f] + text, None).event
            && p[1] == DecodeShort(cfg.optstring, text, None).event
            && d[1] == DecodeShort(cfg.Stripped(), text, None).event
  {
    var x, bundle := ['-', f] + text, [f] + text;
    Bundle(f, text);
    assert bundle[1..] == text && [x][0..] == [x];
    ReportsOfElement(cfg, cfg.Stripped(), [x]);
    assert Decode(cfg, cfg.Stripped(), [x], bundle) == DecodeShort(cfg.Stripped(), bundle, None);
    ReportsInside(cfg, cfg.Stripped(), [x], bundle);
    ReportsInside(cfg, cfg.optstring, [x], text);
  }

  /** The same in two elements. */
  lemma SecondElement(cfg: Config, f: char, y: string)
    requires f != '-' && LetterKindOf(cfg.Stripped(), f) in {Invalid, Plain}
    requires !NonOption(y) && y != TERMINATOR
    ensures var s := [['-', f], y];
            var p, d := Parse(cfg, cfg.Stripped(), s, "").events, Documented(cfg, s, "").events;
            && |p| >= 2 && |d| >= 2
            && p[0] == d[0] == DecodeShort(cfg.Stripped(), [f], Some(y)).event
            && p[1] == Decode(cfg, cfg.optstring, [y], Body(y)).event
            && d[1] == Decode(cfg, cfg.Stripped(), [y], Body(y)).event
  {
    var s, bundle := [['-', f], y], [f];
    assert Body(s[0]) == bundle && bundle[1..] == "" && s[1..] == [y];
    ReportsOfElement(cfg, cfg.Stripped(), s);
    ReportsInside(cfg, cfg.Stripped(), s, bundle);
    ReportsOfElement(cfg, cfg.optstring, [y]);
    ReportsInside(cfg, cfg.optstring, [y], Body(y));
  }

  ghost predicate AsDocumented(cfg: Config, s: seq<string>) {
    Parse(cfg, cfg.Stripped(), s, "").events == Documented(cfg, s, "").events
  }

  /** A letter without its argument: later calls miss the ':' that leads the letters. */
  lemma LetterHarms(cfg: Config, c: char)
    requires HasPrefix(cfg) && cfg.Stripped() != "" && cfg.Stripped()[0] == ':'
    requires LetterKindOf(cfg.Stripped(), c) == LetterKindOf(cfg.optstring, c) == TakesRequired
    ensures !AsDocumented(cfg, [['-', ':'] + [c]])
  {
    SecondInBundle(cfg, ':', [c]);
    assert [c][1..] == "";
  }

  lemma WholeName(text: string)
    requires '=' !in text
    ensures NamePart(text) == text
  {
  }

  lemma NameHarms(cfg: Config, i: nat, k: nat)
    requires HasPrefix(cfg) && cfg.Stripped() != "" && cfg.Stripped()[0] == ':' && StandsForRequired(cfg.table, i, k)
    ensures !AsDocumented(cfg, [['-', ':'], "--" + cfg.table[i].name[..k]])
  {
    var text := cfg.table[i].name[..k];
    var y := "--" + text;
    assert Body(y) == text;
    WholeName(text);
    SecondElement(cfg, ':', y);
  }

  /** The prefix itself as a letter: later calls find it in front of the letters. */
  lemma PrefixHarms(cfg: Config) returns (text: string)
    requires HasPrefix(cfg)
    requires LetterKindOf(cfg.Stripped(), cfg.optstring[0]) != LetterKindOf(cfg.optstring, cfg.optstring[0])
    ensures !AsDocumented(cfg, [['-', ':'] + text])
  {
    var c := cfg.optstring[0];
    var a, b := LetterKindOf(cfg.Stripped(), c), LetterKindOf(cfg.optstring, c);
    text := if a in {TakesOptional, TakesRequired} && b in {TakesOptional, TakesRequired} then [c] else [c, 'x'];
    assert text[1..] == if |text| == 1 then "" else "x";
    SecondInBundle(cfg, ':', text);
  }

  lemma HarmfulIsNot(cfg: Config) returns (s: seq<string>)
    requires !PrefixHarmless(cfg)
    ensures !AsDocumented(cfg, s)
  {
    var stripped, prefix := cfg.Stripped(), cfg.optstring[0];
    if LetterKindOf(stripped, prefix) != LetterKindOf(cfg.optstring, prefix) {
      var text := PrefixHarms(cfg);
      s := [['-', ':'] + text];
    } else if LetterRequires(stripped) {
      var k :| 0 <= k < |stripped| && LetterKindOf(stripped, stripped[k]) == TakesRequired;
      if stripped[k] != prefix {
        KindBehindPrefix(cfg, stripped[k]);
      }
      LetterHarms(cfg, stripped[k]);
      s := [['-', ':'] + [stripped[k]]];
    } else {
      var i: nat, k: nat :| StandsForRequired(cfg.table, i, k);
      NameHarms(cfg, i, k);
      s := [['-', ':'], "--" + cfg.table[i].name[..k]];
    }
  }

  /** Every command line is reported as documented if and only if the prefix is harmless. */
  lemma DocumentedIff(cfg: Config)
    ensures (forall s :: AsDocumented(cfg, s)) <==> PrefixHarmless(cfg)
  {
    if PrefixHarmless(cfg) {
      forall s ensures AsDocumented(cfg, s) {
        HarmlessIsDocumented(cfg, cfg.Stripped(), s, "");
      }
    } else {
      var s := HarmfulIsNot(cfg);
    }
  }

  // ---------- two inputs ----------

  /** With "-ab" the argument "-a-" is reported as 'a' and then '-', which is no option letter. */
  lemma DashInBundle(cfg: Config)
    requires cfg.optstring == "-ab"
    ensures var p, d := Parse(cfg, cfg.Stripped(), ["-a-"], "").events, Documented(cfg, ["-a-"], "").events;
            && |p| >= 2 && |d| >= 2
            && p[0] == d[0] == Event('a' as int, None, None, None)
            && p[1] == Event('-' as int, None, None, None)
            && d[1] == Event(QUESTION, None, None, Some('-' as int))
  {
    var text := "-";
    assert cfg.Stripped() == "ab" && text[1..] == "";
    assert ['-', 'a'] + text == "-a-" && ['a'] + text == "a-";
    SecondInBundle(cfg, 'a', text);
  }

  /** With "-:a:b" the arguments "-b" and "-a" are reported as 'b' and then '?' instead of ':'. */
  lemma ColonMissed(cfg: Config)
    requires cfg.optstring == "-:a:b"
    ensures var p, d := Parse(cfg, cfg.Stripped(), ["-b", "-a"], "").events, Documented(cfg, ["-b", "-a"], "").events;
            && |p| >= 2 && |d| >= 2
            && p[0] == d[0] == Event('b' as int, None, None, None)
            && p[1] == Event(QUESTION, None, None, Some('a' as int))
            && d[1] == Event(COLON, None, None, Some('a' as int))
  {
    var stripped, a, b := cfg.Stripped(), "a", "b";
    assert stripped == ":a:b" && a[1..] == "" && b[1..] == "";
    KindOfSecond(stripped, 'a');
    KindOfLast(stripped, 'b');
    KindBehindPrefix(cfg, 'a');
    assert ['-', 'b'] == "-b" && Body("-a") == a;
    SecondElement(cfg, 'b', "-a");
  }

  lemma KindOfSecond(letters: string, c: char)
    requires |letters| > 3 && letters[1] == c && letters[0] != c && c != ':' && letters[2] == ':' && letters[3] != ':'
    ensures LetterKindOf(letters, c) == TakesRequired
  {
    assert letters[1..][0] == c;
  }

  lemma KindOfLast(letters: string, c: char)
    requires letters != "" && letters[|letters| - 1] == c && c !in letters[..|letters| - 1] && c != ':'
    ensures LetterKindOf(letters, c) == Plain
  {
    var front := letters[..|letters| - 1];
    assert forall j :: 0 <= j < |front| ==> front[j] == letters[j];
    assert c in letters;
  }
}
