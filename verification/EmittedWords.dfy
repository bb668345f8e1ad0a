/** Triggers and foreign keys are spelled with the texts of direct children: when these are the printed words. */
module EmittedWords {
  import opened Trees
  import opened Leaves
  import opened TablePasses
  import opened TableLaws
  import opened TableStatements
  import opened TableExactly

  /** Something of every child is printed: none consists of end-of-file leaves alone. */
  ghost predicate AllPrinted(kids: seq<Tree>) {
    forall c :: c in kids ==> LeavesOf(c) != []
  }

  /** A node whose own text is all that is printed of it: a leaf, or a chain down to a leaf of the same text. */
  ghost predicate PrintsItself(c: Tree) {
    |LeavesOf(c)| == 1 && LeavesOf(c)[0].text == c.text
  }

  lemma {:induction false} FrontierIsLonger(kids: seq<Tree>)
    requires AllPrinted(kids)
    ensures |kids| <= |Frontier(kids)|
    decreases |kids|
  {
    if kids != [] {
      assert kids[0] in kids;
      FrontierIsLonger(kids[1..]);
    }
  }

  lemma TextsOfTwo(a: seq<Tree>, b: seq<Tree>)
    ensures Texts(a + b) == Texts(a) + Texts(b)
  {
  }

  lemma HeadsAndTails(x: string, a: seq<string>, y: string, b: seq<string>)
    ensures [x] + a == [y] + b <==> x == y && a == b
  {
    assert ([x] + a)[1..] == a && ([y] + b)[1..] == b;
    assert ([x] + a)[0] == x && ([y] + b)[0] == y;
  }

  /** The texts of the children are the printed words if and only if every child prints itself. */
  lemma {:induction false} TextsPrintedIff(kids: seq<Tree>)
    requires AllPrinted(kids)
    ensures Texts(kids) == Texts(Frontier(kids)) <==> forall c :: c in kids ==> PrintsItself(c)
    decreases |kids|
  {
    if kids != [] {
      var c, rest := kids[0], kids[1..];
      assert c in kids && kids == [c] + rest;
      FrontierIsLonger(rest);
      TextsPrintedIff(rest);
      if |LeavesOf(c)| > 1 {
        assert |Texts(kids)| < |Texts(Frontier(kids))|;
      } else {
        var leaf := LeavesOf(c)[0];
        assert LeavesOf(c) == [leaf];
        TextsOfTwo([c], rest);
        TextsOfTwo([leaf], Frontier(rest));
        assert Texts([c]) == [c.text] && Texts([leaf]) == [leaf.text];
        HeadsAndTails(c.text, Texts(rest), leaf.text, Texts(Frontier(rest)));
      }
    }
  }

  // ---------- ON UPDATE ----------

  lemma {:induction false} ExpressionIsTexts(kids: seq<Tree>)
    requires !HasKind(kids, KwOn) && !HasKind(kids, KwUpdate)
    ensures Expression(kids) == Texts(kids)
    decreases |kids|
  {
    if kids != [] {
      assert kids[0].kind != KwOn && kids[0].kind != KwUpdate;
      NoKindTail(kids, KwOn);
      NoKindTail(kids, KwUpdate);
      ExpressionIsTexts(kids[1..]);
      assert Texts(kids) == [kids[0].text] + Texts(kids[1..]);
    }
  }

  lemma {:induction false} ExpressionIsShorter(kids: seq<Tree>)
    ensures |Expression(kids)| <= |kids|
    ensures HasKind(kids, KwOn) || HasKind(kids, KwUpdate) ==> |Expression(kids)| < |kids|
    decreases |kids|
  {
    if kids != [] {
      ExpressionIsShorter(kids[1..]);
      var rest := kids[1..];
      assert forall k :: 0 < k < |kids| ==> kids[k] == rest[k - 1];
    }
  }

  /** ON and UPDATE are left out; of the expression the texts of its topmost nodes are taken. */
  lemma TriggerTakesExpression(on: Tree, update: Tree, expr: seq<Tree>)
    requires on.kind == KwOn && update.kind == KwUpdate
    ensures Expression([on] + ([update] + expr)) == Expression(expr)
    ensures !HasKind(expr, KwOn) && !HasKind(expr, KwUpdate) ==> Expression([on] + ([update] + expr)) == Texts(expr)
  {
    assert ([on] + ([update] + expr))[1..] == [update] + expr && ([update] + expr)[1..] == expr;
    if !HasKind(expr, KwOn) && !HasKind(expr, KwUpdate) {
      ExpressionIsTexts(expr);
    }
  }

  /**
    The trigger of ON UPDATE expression assigns the words printed of the expression if and only if none of its
    topmost nodes is another ON or UPDATE and each of them prints itself, as a call never does.
   */
  lemma TriggerTakesExpressionIff(on: Tree, update: Tree, expr: seq<Tree>)
    requires on.kind == KwOn && update.kind == KwUpdate && AllPrinted(expr)
    ensures Expression([on] + ([update] + expr)) == Texts(Frontier(expr))
            <==> forall c :: c in expr ==> c.kind != KwOn && c.kind != KwUpdate && PrintsItself(c)
  {
    TriggerTakesExpression(on, update, expr);
    if HasKind(expr, KwOn) || HasKind(expr, KwUpdate) {
      ExpressionIsShorter(expr);
      FrontierIsLonger(expr);
      var k :| 0 <= k < |expr| && (expr[k].kind == KwOn || expr[k].kind == KwUpdate);
      assert expr[k] in expr;
    } else {
      ExpressionIsTexts(expr);
      TextsPrintedIff(expr);
    }
  }

  /** The node the parser builds for NOW(): an imaginary node over the words of the call. */
  ghost predicate NowCall(call: Tree) {
    && call.kind !in {KwOn, KwUpdate} && call.text == "T_FUNCTION_NAME"
    && |call.children| == 3
    && (forall i :: 0 <= i < 3 ==> call.children[i].children == [] && call.children[i].kind != Eof)
    && Texts(call.children) == ["NOW", "(", ")"]
  }

  lemma {:induction false} FrontierOfLeaves(leaves: seq<Tree>)
    requires forall x :: x in leaves ==> x.children == [] && x.kind != Eof
    ensures Frontier(leaves) == leaves
    decreases |leaves|
  {
    if leaves != [] {
      assert leaves[0] in leaves;
      FrontierOfLeaves(leaves[1..]);
    }
  }

  lemma NowIsNotTaken(on: Tree, update: Tree, call: Tree)
    requires on.kind == KwOn && update.kind == KwUpdate && NowCall(call)
    ensures Expression([on, update, call]) == ["T_FUNCTION_NAME"]
    ensures Texts(Frontier([call])) == ["NOW", "(", ")"]
  {
    var none := [call][1..];
    assert [on] + ([update] + [call]) == [on, update, call] && none == [];
    TriggerTakesExpression(on, update, [call]);
    assert Expression([call]) == ["T_FUNCTION_NAME"] + Expression(none);
    FrontierOfLeaves(call.children);
    assert Frontier([call]) == LeavesOf(call) + Frontier(none) == call.children;
  }

  /** ts TIMESTAMP ON UPDATE NOW(): the column loses the clause, and the trigger assigns T_FUNCTION_NAME. */
  lemma CallLosesItsWords(schema: string, table: string, def: Tree, on: Tree, update: Tree, call: Tree)
    requires |def.children| == 3 && Named(def) && def.children[1].kind != OnUpdate && def.children[2].kind == OnUpdate
    requires def.children[2].children == [on, update, call]
    requires on.kind == KwOn && update.kind == KwUpdate && NowCall(call)
    ensures EditColumn(Updates, def).children == def.children[..2]
    ensures ColumnStatements(Updates, schema, table, "", def)
            == [UpdateTrigger(schema, table, def.children[0].text, ["T_FUNCTION_NAME"])]
    ensures Texts(Frontier([call])) == ["NOW", "(", ")"]
  {
    var kids := def.children;
    assert kids == [kids[0], kids[1]] + [kids[2]];
    assert !Adjacent(kids, OnUpdate);
    UpdatesAreHoisted(schema, table, def);
    NowIsNotTaken(on, update, call);
    UpdateBehind([kids[0], kids[1]], kids[2]);
    var rest := [kids[2]][1..];
    assert rest == [] && TriggersFor(schema, table, kids[0].text, rest) == [];
  }

  lemma UpdateBehind(front: seq<Tree>, u: Tree)
    requires !HasKind(front, OnUpdate) && u.kind == OnUpdate
    ensures Without(OnUpdate, front + [u]) == front && Only(OnUpdate, front + [u]) == [u]
  {
    var none := [u][1..];
    WithoutConcat(OnUpdate, front, [u]);
    WithoutNothing(OnUpdate, front);
    assert none == [] && Without(OnUpdate, [u]) == Without(OnUpdate, none) == [] && front + [] == front;
    OnlyConcat(OnUpdate, front, [u]);
    OnlyOne(OnUpdate, u);
    HasKindIsOnly(OnUpdate, front);
  }
}
