/** Rewriting ENUM and SET keeps the parentheses of the printed text balanced, those inside quotes not counted. */
module EnumBalance {
  import opened Sequences
  import opened Trees
  import opened Leaves
  import opened TablePasses

  // ---------- parentheses outside quotes ----------

  /** Where a text stands: outside quotes, in a quoted name, in a string, or behind a backslash in a string. */
  datatype Quote = Outside | InName | InString | Escaped

  datatype State = At(open: nat, quote: Quote) | TooMany

  /** One more character: parentheses count outside quotes; TooMany once one too many was closed. */
  function Move(st: State, c: char): State {
    match st
    case TooMany => st
    case At(open, Outside) =>
      if c == '(' then At(open + 1, Outside)
      else if c == ')' then (if open == 0 then TooMany else At(open - 1, Outside))
      else if c == '"' then At(open, InName)
      else if c == '\'' then At(open, InString)
      else st
    case At(open, InName) => if c == '"' then At(open, Outside) else st
    case At(open, InString) =>
      if c == '\'' then At(open, Outside) else if c == '\\' then At(open, Escaped) else st
    case At(open, Escaped) => if c == '\\' then st else At(open, InString)
  }

  function Open(st: State, s: string): State
    decreases |s|
  {
    if s == [] then st else Open(Move(st, s[0]), s[1..])
  }

  /** Every quote is closed and every parenthesis opened is closed. */
  predicate Balanced(s: string) {
    Open(At(0, Outside), s) == At(0, Outside)
  }

  /** Every quote opened in s is closed in s. */
  ghost predicate Complete(s: string) {
    forall n: nat :: Open(At(n, Outside), s).At? ==> Open(At(n, Outside), s).quote == Outside
  }

  /** Wherever `a` ends outside quotes with m parentheses open, so does `b`. */
  ghost predicate AsOpen(a: string, b: string) {
    forall n: nat ::
      Open(At(n, Outside), a).At? && Open(At(n, Outside), a).quote == Outside ==>
        Open(At(n, Outside), b) == Open(At(n, Outside), a)
  }

  lemma {:induction false} OpenConcat(st: State, a: string, b: string)
    ensures Open(st, a + b) == Open(Open(st, a), b)
    decreases |a|
  {
    if a == [] {
      assert a + b == b;
    } else {
      assert (a + b)[1..] == a[1..] + b;
      OpenConcat(Move(st, a[0]), a[1..], b);
    }
  }

  lemma {:induction false} TooManyStays(s: string)
    ensures Open(TooMany, s) == TooMany
  {
    if s != [] {
      TooManyStays(s[1..]);
    }
  }

  /** What works with n open parentheses works with more. */
  lemma {:induction false} OpenMore(n: nat, quote: Quote, more: nat, s: string)
    ensures var e := Open(At(n, quote), s); e.At? ==> Open(At(n + more, quote), s) == At(e.open + more, e.quote)
    decreases |s|
  {
    if s != [] {
      TooManyStays(s[1..]);
      var next := Move(At(n, quote), s[0]);
      if next.At? {
        OpenMore(next.open, next.quote, more, s[1..]);
      }
    }
  }

  lemma BalancedAnywhere(n: nat, s: string)
    requires Balanced(s)
    ensures Open(At(n, Outside), s) == At(n, Outside)
  {
    OpenMore(0, Outside, n, s);
  }

  lemma AsOpenConcat(a: string, b: string, c: string, d: string)
    requires Complete(a) && AsOpen(a, b) && AsOpen(c, d)
    ensures AsOpen(a + c, b + d)
  {
    forall n: nat | Open(At(n, Outside), a + c).At? && Open(At(n, Outside), a + c).quote == Outside
      ensures Open(At(n, Outside), b + d) == Open(At(n, Outside), a + c)
    {
      OpenConcat(At(n, Outside), a, c);
      OpenConcat(At(n, Outside), b, d);
      TooManyStays(c);
    }
  }

  lemma CompleteConcat(a: string, b: string)
    requires Complete(a) && Complete(b)
    ensures Complete(a + b)
  {
    forall n: nat | Open(At(n, Outside), a + b).At? ensures Open(At(n, Outside), a + b).quote == Outside {
      var mid := Open(At(n, Outside), a);
      OpenConcat(At(n, Outside), a, b);
      match mid
      case TooMany => TooManyStays(b);
      case At(k, _) => assert mid == At(k, Outside);
    }
  }

  /** No character that counts outside quotes. */
  predicate Bare(s: string) {
    '(' !in s && ')' !in s && '"' !in s && '\'' !in s
  }

  lemma {:induction false} BareStays(st: State, s: string)
    requires Bare(s) && (st.At? ==> st.quote == Outside || st.quote == InName)
    ensures Open(st, s) == st
    decreases |s|
  {
    if s != [] {
      BareStays(st, s[1..]);
    }
  }

  // ---------- the names the lexer gives ----------

  /** A bare word, or a name in double quotes without another double quote inside. */
  predicate LexedName(s: string) {
    Bare(s) || (|s| >= 2 && s[0] == '"' && s[|s| - 1] == '"' && '"' !in s[1..|s| - 1])
  }

  lemma {:induction false} InNameStays(n: nat, s: string)
    requires '"' !in s
    ensures Open(At(n, InName), s) == At(n, InName)
    decreases |s|
  {
    if s != [] {
      InNameStays(n, s[1..]);
    }
  }

  lemma NameIsBalanced(s: string)
    requires LexedName(s)
    ensures Balanced(s)
  {
    if Bare(s) {
      BareStays(At(0, Outside), s);
    } else {
      var inner, last := s[1..|s| - 1], s[|s| - 1..];
      assert s[1..] == inner + last && last[1..] == [];
      OpenConcat(At(0, InName), inner, last);
      InNameStays(0, inner);
      assert Open(At(0, InName), last) == Open(At(0, Outside), last[1..]);
    }
  }

  // ---------- one enum node ----------

  lemma CloseOne(n: nat, close: string)
    requires n > 0 && |close| == 1 && close[0] == ')'
    ensures Open(At(n, Outside), close) == At(n - 1, Outside)
  {
    assert close[1..] == [];
  }

  lemma ParenthesisOpens(k: nat, a: string, p: string, b: string, column: string, c: string)
    requires |p| == 1 && p[0] == '(' && Bare(a) && Bare(b)
    ensures Open(At(k, Outside), a + p + b + column + c) == Open(Open(At(k + 1, Outside), column), c)
  {
    OpenConcat(At(k, Outside), a + p + b + column, c);
    OpenConcat(At(k, Outside), a + p + b, column);
    OpenConcat(At(k, Outside), a + p, b);
    OpenConcat(At(k, Outside), a, p);
    BareStays(At(k, Outside), a);
    assert p[1..] == [] && Open(At(k, Outside), p) == Open(At(k + 1, Outside), p[1..]);
    BareStays(At(k + 1, Outside), b);
  }

  const IN_WORD: string := " IN "

  lemma CheckOpens(k: nat, column: string)
    ensures Open(At(k, Outside), CheckText(column)) == Open(Open(At(k + 1, Outside), column), IN_WORD)
  {
    var a, p, b := "text CHECK ", "(", " ";
    assert CheckText(column) == a + p + b + column + IN_WORD;
    ParenthesisOpens(k, a, p, b, column, IN_WORD);
  }

  lemma CheckOpensOne(k: nat, column: string)
    requires Balanced(column)
    ensures Open(At(k, Outside), CheckText(column)) == At(k + 1, Outside)
  {
    CheckOpens(k, column);
    BalancedAnywhere(k + 1, column);
    BareStays(At(k + 1, Outside), IN_WORD);
  }

  lemma CheckOpensOneTo(n: nat, k: nat, m: nat, pre: string, word: string, column: string, post: string)
    requires Open(At(n, Outside), pre) == At(k, Outside) && Open(At(k, Outside), post) == At(m, Outside)
    requires Balanced(column)
    ensures Open(At(n, Outside), pre + CheckText(column) + post + ")") == At(m, Outside)
  {
    var close := ")";
    OpenConcat(At(n, Outside), pre + CheckText(column) + post, close);
    OpenConcat(At(n, Outside), pre + CheckText(column), post);
    OpenConcat(At(n, Outside), pre, CheckText(column));
    CheckOpensOne(k, column);
    OpenMore(k, Outside, 1, post);
    CloseOne(m + 1, close);
  }

  /** The text of a rewritten enum node: `pre` before the word, `post` behind it. */
  lemma CheckKeepsBalance(pre: string, word: string, column: string, post: string)
    requires Complete(pre) && Balanced(word) && Balanced(column)
    ensures AsOpen(pre + word + post, pre + CheckText(column) + post + ")")
  {
    var before, after := pre + word + post, pre + CheckText(column) + post + ")";
    forall n: nat | Open(At(n, Outside), before).At? && Open(At(n, Outside), before).quote == Outside
      ensures Open(At(n, Outside), after) == Open(At(n, Outside), before)
    {
      OpenConcat(At(n, Outside), pre + word, post);
      OpenConcat(At(n, Outside), pre, word);
      TooManyStays(word);
      TooManyStays(post);
      var k := Open(At(n, Outside), pre).open;
      BalancedAnywhere(k, word);
      CheckOpensOneTo(n, k, Open(At(n, Outside), before).open, pre, word, column, post);
    }
  }

  /** With this name the node leaves as much open as before, whatever follows the word. */
  ghost predicate NameKeepsBalance(word: string, column: string) {
    forall post :: AsOpen(word + post, CheckText(column) + post + ")")
  }

  lemma NothingLeftOpen(column: string)
    requires Open(At(0, Outside), CheckText(column) + ")") == At(0, Outside)
    ensures Open(At(1, Outside), column) == At(1, Outside)
  {
    var e, close := Open(At(1, Outside), column), ")";
    OpenConcat(At(0, Outside), CheckText(column), close);
    CheckOpens(0, column);
    assert close[1..] == [];
    match e
    case TooMany =>
      TooManyStays(IN_WORD);
      TooManyStays(close);
    case At(_, quote) =>
      if quote in {Outside, InName} {
        BareStays(e, IN_WORD);
      } else {
        StringStays(e, IN_WORD);
      }
  }

  lemma {:induction false} StringStays(st: State, s: string)
    requires Bare(s) && '\\' !in s && st.At? && (st.quote == InString || st.quote == Escaped)
    ensures Open(st, s).At? && (Open(st, s).quote == InString || Open(st, s).quote == Escaped)
    decreases |s|
  {
    if s != [] {
      StringStays(Move(st, s[0]), s[1..]);
    }
  }

  /**
    Exactly which names keep the balance, for every text behind the word: those that leave the new parenthesis open.
   */
  lemma NameKeepsBalanceIff(word: string, column: string)
    requires Balanced(word)
    ensures NameKeepsBalance(word, column) <==> Open(At(1, Outside), column) == At(1, Outside)
  {
    if NameKeepsBalance(word, column) {
      var none := "";
      assert word + none == word && CheckText(column) + none == CheckText(column);
      assert AsOpen(word + none, CheckText(column) + none + ")");
      NothingLeftOpen(column);
    }
    if Open(At(1, Outside), column) == At(1, Outside) {
      forall post ensures AsOpen(word + post, CheckText(column) + post + ")") {
        NameKeepsBehind(word, column, post);
      }
    }
  }

  lemma NameOpensOne(n: nat, column: string)
    requires Open(At(1, Outside), column) == At(1, Outside)
    ensures Open(At(n, Outside), CheckText(column)) == At(n + 1, Outside)
  {
    CheckOpens(n, column);
    OpenMore(1, Outside, n, column);
    BareStays(At(n + 1, Outside), IN_WORD);
  }

  lemma NameKeepsBehind(word: string, column: string, post: string)
    requires Balanced(word) && Open(At(1, Outside), column) == At(1, Outside)
    ensures AsOpen(word + post, CheckText(column) + post + ")")
  {
    var text, close := CheckText(column), ")";
    forall n: nat | Open(At(n, Outside), word + post).At? && Open(At(n, Outside), word + post).quote == Outside
      ensures Open(At(n, Outside), text + post + close) == Open(At(n, Outside), word + post)
    {
      OpenConcat(At(n, Outside), word, post);
      BalancedAnywhere(n, word);
      OpenConcat(At(n, Outside), text + post, close);
      OpenConcat(At(n, Outside), text, post);
      NameOpensOne(n, column);
      OpenMore(n, Outside, 1, post);
      CloseOne(Open(At(n, Outside), post).open + 1, close);
    }
  }

  /** The input: `a"(` between backquotes comes from the lexer as "a"(" in double quotes, and they do not close. */
  lemma DoubleQuoteInName(word: string)
    requires Balanced(word)
    ensures !LexedName("\"a\"(\"") && !NameKeepsBalance(word, "\"a\"(\"")
  {
    var c0 := "\"a\"(\"";
    var c1, c2, c3, c4 := c0[1..], c0[1..][1..], c0[1..][1..][1..], c0[1..][1..][1..][1..];
    assert c1[0] == 'a' && c2[0] == '"' && c3[0] == '(' && c4[0] == '"' && c4[1..] == [];
    assert Open(At(1, Outside), c0) == Open(At(1, InName), c1);
    assert Open(At(1, InName), c1) == Open(At(1, InName), c2);
    assert Open(At(1, InName), c2) == Open(At(1, Outside), c3);
    assert Open(At(1, Outside), c3) == Open(At(2, Outside), c4);
    assert Open(At(2, Outside), c4) == Open(At(2, InName), c4[1..]) == At(2, InName);
    NameKeepsBalanceIff(word, c0);
    assert c0[0] == '"' && c0[1..|c0| - 1][1] == '"';
  }

  // ---------- the printed leaves ----------

  /** What the lexer gives: no token leaves a quote open. */
  ghost predicate Lexed(kids: seq<Tree>) {
    forall x :: x in Frontier(kids) ==> Complete(x.text)
  }

  /** The word and the closing parenthesis of an enum node are leaves, spelled as they should be. */
  ghost predicate Spelled(t: Tree) {
    EnumReady(t) ==>
      var word, close := t.children[EnumWord(t.children)], t.children[Find(t.children, 0, RParen)];
      word.children == [] && Balanced(word.text) && close.children == [] && close.text == ")"
  }

  lemma {:induction false} LexedIsComplete(leaves: seq<Tree>)
    requires forall x :: x in leaves ==> Complete(x.text)
    ensures Complete(Concat(leaves))
    decreases |leaves|
  {
    if leaves != [] {
      assert leaves[0] in leaves;
      LexedIsComplete(leaves[1..]);
      CompleteConcat(leaves[0].text, Concat(leaves[1..]));
    }
  }

  lemma LexedParts(a: seq<Tree>, b: seq<Tree>)
    requires Lexed(a + b)
    ensures Lexed(a) && Lexed(b) && Complete(Visible(a)) && Complete(Visible(b))
  {
    FrontierConcat(a, b);
    LexedIsComplete(Frontier(a));
    LexedIsComplete(Frontier(b));
  }

  lemma LexedNode(t: Tree)
    requires Lexed([t]) && t.children != []
    ensures Lexed(t.children)
  {
    var none := [t][1..];
    assert none == [] && Frontier([t]) == LeavesOf(t) + Frontier(none) == Frontier(t.children);
  }

  lemma EnumWordIsWord(kids: seq<Tree>)
    requires HasKind(kids, KwEnum) || HasKind(kids, KwSet)
    ensures EnumWord(kids) < |kids| && kids[EnumWord(kids)].kind in {KwEnum, KwSet}
  {
  }

  lemma Around(kids: seq<Tree>, e: nat)
    requires e < |kids| && kids[e].children == [] && kids[e].kind != Eof
    ensures Visible(kids) == Visible(kids[..e]) + kids[e].text + Visible(kids[e + 1..])
  {
    assert kids == kids[..e] + [kids[e]] + kids[e + 1..];
    VisibleConcat(kids[..e] + [kids[e]], kids[e + 1..]);
    VisibleConcat(kids[..e], [kids[e]]);
    VisibleLeaf(kids[e]);
  }

  lemma MarkedText(t: Tree, column: string)
    requires EnumReady(t) && Spelled(t)
    ensures var kids, e := t.children, EnumWord(t.children);
            && e < |kids|
            && Visible(kids) == Visible(kids[..e]) + kids[e].text + Visible(kids[e + 1..])
            && Visible(MarkEnum(t, column).children)
               == Visible(kids[..e]) + CheckText(column) + Visible(kids[e + 1..]) + ")"
  {
    var kids, e, r := t.children, EnumWord(t.children), Find(t.children, 0, RParen);
    EnumWordIsWord(kids);
    Around(kids, e);
    var marked := kids[e := kids[e].(text := CheckText(column))];
    Around(marked, e);
    assert marked[..e] == kids[..e] && marked[e + 1..] == kids[e + 1..];
    assert marked[r] == kids[r];
    VisibleConcat(marked, [marked[r]]);
    VisibleLeaf(marked[r]);
  }

  lemma MarkKeepsBalance(t: Tree, column: string)
    requires EnumReady(t) && Spelled(t) && Lexed([t]) && LexedName(column)
    ensures AsOpen(Visible([t]), Visible([MarkEnum(t, column)]))
  {
    var kids, e := t.children, EnumWord(t.children);
    EnumWordIsWord(kids);
    LexedNode(t);
    SplitAt(kids, e);
    LexedParts(kids[..e], kids[e..]);
    NameIsBalanced(column);
    MarkedText(t, column);
    CheckKeepsBalance(Visible(kids[..e]), kids[e].text, column, Visible(kids[e + 1..]));
    VisibleNode(t);
    VisibleNode(MarkEnum(t, column));
  }

  // ---------- any number of columns and enum nodes ----------

  /** A list whose members are changed one by one. */
  lemma {:induction false} Pointwise(a: seq<Tree>, b: seq<Tree>)
    requires |a| == |b| && Lexed(a) && forall i :: 0 <= i < |a| ==> AsOpen(Visible([a[i]]), Visible([b[i]]))
    ensures AsOpen(Visible(a), Visible(b))
    decreases |a|
  {
    if a != [] {
      assert a == [a[0]] + a[1..] && b == [b[0]] + b[1..];
      LexedParts([a[0]], a[1..]);
      Pointwise(a[1..], b[1..]);
      VisibleConcat([a[0]], a[1..]);
      VisibleConcat([b[0]], b[1..]);
      AsOpenConcat(Visible([a[0]]), Visible([b[0]]), Visible(a[1..]), Visible(b[1..]));
    }
  }

  lemma LexedAt(kids: seq<Tree>, i: nat)
    requires Lexed(kids) && i < |kids|
    ensures Lexed([kids[i]])
  {
    SplitAt(kids, i);
    HeadTail(kids, i);
    LexedParts(kids[..i], kids[i..]);
    LexedParts([kids[i]], kids[i + 1..]);
  }

  /** A column with a name and enum nodes as the lexer gives them. */
  ghost predicate SpelledColumn(def: Tree) {
    && (def.children != [] ==> LexedName(def.children[0].text))
    && forall i :: 0 <= i < |def.children| && def.children[i].kind == EnumType ==> Spelled(def.children[i])
  }

  lemma ColumnKeepsBalance(def: Tree)
    requires SpelledColumn(def) && Lexed([def])
    ensures AsOpen(Visible([def]), Visible([EditColumn(Enums, def)]))
  {
    var kids := def.children;
    if kids != [] {
      var column := kids[0].text;
      LexedNode(def);
      forall i | 0 <= i < |kids| ensures AsOpen(Visible([kids[i]]), Visible([MarkNode(kids[i], column)])) {
        LexedAt(kids, i);
        if kids[i].kind == EnumType && EnumReady(kids[i]) {
          MarkKeepsBalance(kids[i], column);
        }
      }
      Pointwise(kids, MarkEnums(kids, column));
      VisibleNode(def);
      VisibleNode(EditColumn(Enums, def));
    }
  }

  /** However many columns and enum nodes there are, a balanced table stays balanced. */
  lemma EnumsKeepBalance(kids: seq<Tree>)
    requires Lexed(kids) && forall i :: 0 <= i < |kids| && kids[i].kind == ColumnDef ==> SpelledColumn(kids[i])
    ensures AsOpen(Visible(kids), Visible(EditAll(Enums, kids)))
    ensures Balanced(Visible(kids)) ==> Balanced(Visible(EditAll(Enums, kids)))
  {
    forall i | 0 <= i < |kids| ensures AsOpen(Visible([kids[i]]), Visible([EditNode(Enums, kids[i])])) {
      LexedAt(kids, i);
      if kids[i].kind == ColumnDef {
        ColumnKeepsBalance(kids[i]);
      }
    }
    Pointwise(kids, EditAll(Enums, kids));
  }
}
