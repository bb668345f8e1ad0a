/** pgify_string: walk the tree, print it, append the collected statements. */
module Pgify {
  import opened Trees
  import opened Nodes
  import opened Leaves
  import opened TablePasses
  import opened ColumnWorker
  import opened TreeWalk
  import opened WalkLaws
  import opened Walker
  import opened PrintTrace
  import opened PrintLaws
  import opened Printer

  ghost function Postscript(render: Statement -> string, sts: seq<Statement>): string {
    if sts == [] then "" else "\n" + Rendered(render, sts)
  }

  /** The whole transformation, from the parsed tree (null if there is none) to the text. */
  method PgifyString(tree: Node?, tokens: seq<Token>, ws: WalkerState, render: Statement -> string)
    returns (text: string)
    requires tree != null ==> tree.Valid() && SafeKids(tree.model.children)
    modifies ws, if tree != null then tree.repr else {}
    ensures var kids := if tree != null then old(tree.model.children) else [];
            var w := WalkKids(old(ws.schemaName), kids);
            && text == Text(tokens, Printed(tokens, 0, Frontier(RewriteKids(kids))))
              + Postscript(render, old(ws.postbuf) + w.statements)
            && ws.schemaName == w.schema && ws.postbuf == []
  {
    ghost var kids: seq<Tree> := if tree != null then tree.model.children else [];
    WalkKidsIsRewrite(ws.schemaName, kids);
    if tree != null {
      TreeWalkWorker(ws, tree);
    } else {
      assert ws.postbuf + [] == ws.postbuf;
    }
    ghost var leaves := Frontier(RewriteKids(kids));
    var out := new Output(tokens);
    if tree != null {
      out.TreeWalkPrinter(tree);
    }
    assert out.output == Text(tokens, Trace(tokens, 0, leaves));
    out.AdvanceAll();
    TextConcat(tokens, Trace(tokens, 0, leaves), Blanks(tokens, CursorAfter(tokens, 0, leaves), |tokens|));
    out.PrintPostbuf(ws, render);
    return out.output;
  }

  /**
    A script without anything that has a handler, and without a visible token over two lines: its token texts
    come out in their order, and nothing is appended.
   */
  lemma UntouchedScript(tokens: seq<Token>, kids: seq<Tree>, schema: string)
    requires forall i :: 0 <= i < |kids| ==> Quiet(kids[i]) && !HasHandler(kids[i].kind)
    requires InOrder(tokens) && StaysOnLine(tokens) && Matches(Frontier(kids), tokens, 0)
    ensures Text(tokens, Printed(tokens, 0, Frontier(RewriteKids(kids)))) == Source(tokens, 0)
    ensures WalkKids(schema, kids) == Walk(kids, schema, [])
  {
    QuietKids(schema, kids);
    WalkKidsIsRewrite(schema, kids);
    RoundTripOnLines(tokens, Frontier(kids));
  }

  /** LOCK TABLES leaves one leaf without text: nothing of it is visible. */
  lemma LockedTablesVanish(t: Tree)
    requires t.kind == LockTable
    ensures LeavesOf(RewriteTree(t)) == [t.(text := "", children := [])] && Visible([RewriteTree(t)]) == ""
  {
    LockedIsEmpty(t);
    VisibleLeaf(t.(text := "", children := []));
  }

  lemma LockedIsEmpty(t: Tree)
    requires t.kind == LockTable
    ensures RewriteTree(t) == t.(text := "", children := [])
  {
    var node := t.(children := RewriteKids(t.children));
    assert RewriteTree(t) == RewriteNode(node) == Handle("", node).tree;
  }

  /** USE name becomes SET search_path TO name,public, and name. qualifies what follows. */
  lemma UseSetsSearchPath(t: Tree, use: Tree, name: Tree, rest: seq<Tree>, schema: string)
    requires t.kind == UseDatabase && use.kind == KwUse && name.kind == Id && t.children == [use, name] + rest
    ensures Handle(schema, t).tree
            == t.(children := [use.(text := "SET search_path TO"), name.(text := name.text + ",public")] + rest)
    ensures Handle(schema, t).schema == name.text + "." && Handle(schema, t).statements == []
  {
    var kids := t.children;
    assert kids[0] == use && kids[1] == name;
    assert Find(kids, 0, KwUse) == 0 && Find(kids, 0, Id) == 1;
    var kids' := kids[0 := use.(text := "SET search_path TO")];
    assert Reword(kids, KwUse, "SET search_path TO") == kids';
    assert kids'[1] == name && Find(kids', 0, Id) == 1;
    assert Reword(kids', Id, name.text + ",public")
           == [use.(text := "SET search_path TO"), name.(text := name.text + ",public")] + rest;
  }

  /** Without the keyword nothing happens; without a name the text changes but the schema does not. */
  lemma UseWithoutName(t: Tree, schema: string)
    requires t.kind == UseDatabase && !(HasKind(t.children, KwUse) && HasKind(t.children, Id))
    ensures Handle(schema, t).schema == schema && Handle(schema, t).statements == []
    ensures !HasKind(t.children, KwUse) ==> Handle(schema, t).tree == t
  {
  }

  /**
    Whatever the walk rewrote: the printed leaves are those of the new tree, the hidden tokens all those of the old
    text.
   */
  lemma NothingHiddenIsLost(tokens: seq<Token>, kids: seq<Tree>)
    ensures var pieces := Printed(tokens, 0, Frontier(RewriteKids(kids)));
            LeavesIn(pieces) == Frontier(RewriteKids(kids)) && BlanksIn(pieces) == HiddenFrom(tokens, 0)
  {
    PrintedIsInterleaving(tokens, Frontier(RewriteKids(kids)));
  }

  /** Two scripts through one walker state are one script: the schema of the first carries over. */
  lemma {:induction false} ScriptsInSequence(schema: string, a: seq<Tree>, b: seq<Tree>)
    ensures var w := WalkKids(schema, a);
            WalkKids(schema, a + b) == Walk(w.kids + WalkKids(w.schema, b).kids, WalkKids(w.schema, b).schema,
                                            w.statements + WalkKids(w.schema, b).statements)
    decreases |a|
  {
    if a == [] {
      assert a + b == b;
      var w := WalkKids(schema, b);
      assert [] + w.kids == w.kids && [] + w.statements == w.statements;
    } else {
      var h := WalkTree(schema, a[0]);
      assert (a + b)[1..] == a[1..] + b;
      ScriptsInSequence(h.schema, a[1..], b);
      var rest := WalkKids(h.schema, a[1..]);
      var last := WalkKids(rest.schema, b);
      assert [h.tree] + (rest.kids + last.kids) == [h.tree] + rest.kids + last.kids;
      assert h.statements + (rest.statements + last.statements) == h.statements + rest.statements + last.statements;
    }
  }

  /** What is appended is a line break and then every statement, each once, in the order of postbuf. */
  lemma PostscriptAt(render: Statement -> string, sts: seq<Statement>, i: nat)
    requires i < |sts|
    ensures Postscript(render, sts)
            == "\n" + (Rendered(render, sts[..i]) + render(sts[i]) + Rendered(render, sts[i + 1..]))
  {
    RenderedAt(render, sts, i);
  }

  /** Two scripts through one state in one call: the statements of the first, then those of the second, are appended. */
  lemma StatementsOfBoth(render: Statement -> string, schema: string, a: seq<Tree>, b: seq<Tree>)
    ensures var w := WalkKids(schema, a);
            var v := WalkKids(w.schema, b);
            Postscript(render, WalkKids(schema, a + b).statements)
            == if w.statements == [] && v.statements == [] then ""
               else "\n" + (Rendered(render, w.statements) + Rendered(render, v.statements))
  {
    var w := WalkKids(schema, a);
    var v := WalkKids(w.schema, b);
    ScriptsInSequence(schema, a, b);
    RenderedConcat(render, w.statements, v.statements);
  }
}
