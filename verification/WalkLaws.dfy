/** The walk's state and tree, taken apart. */
module WalkLaws {
  import opened Sequences
  import opened Trees
  import opened Paths
  import opened TablePasses
  import opened TreeWalk

  // ---------- the tree does not depend on the state ----------

  lemma {:induction false} PassesIgnoreSchema(passes: seq<TablePass>, schema: string, r: Rewritten, schema': string,
      r': Rewritten)
    requires r.kids == r'.kids
    ensures Run(passes, schema, r).kids == Run(passes, schema', r').kids
    decreases |passes|
  {
    if passes != [] {
      PassesIgnoreSchema(passes[1..], schema, Then(passes[0], schema, r), schema', Then(passes[0], schema', r'));
    }
  }

  lemma HandlerIgnoresSchema(schema: string, t: Tree)
    ensures Handle(schema, t).tree == RewriteNode(t)
  {
    if t.kind == CreateTable {
      var r := Rewritten(t.children, []);
      PassesIgnoreSchema(Pipeline(), schema, r, "", r);
    }
  }

  lemma {:induction false} WalkIsRewrite(schema: string, t: Tree)
    ensures WalkTree(schema, t).tree == RewriteTree(t)
    decreases t
  {
    WalkKidsIsRewrite(schema, t.children);
    var below := WalkKids(schema, t.children);
    HandlerIgnoresSchema(below.schema, t.(children := below.kids));
  }

  lemma {:induction false} WalkKidsIsRewrite(schema: string, kids: seq<Tree>)
    ensures WalkKids(schema, kids).kids == RewriteKids(kids)
    decreases kids
  {
    if kids != [] {
      WalkIsRewrite(schema, kids[0]);
      WalkKidsIsRewrite(WalkTree(schema, kids[0]).schema, kids[1..]);
    }
  }

  // ---------- the state is a fold over the nodes in the order of their handling ----------

  lemma {:induction false} SchemaConcat(schema: string, a: seq<Tree>, b: seq<Tree>)
    ensures SchemaAfter(schema, a + b) == SchemaAfter(SchemaAfter(schema, a), b)
    decreases |a|
  {
    if a == [] {
      assert a + b == b;
    } else {
      assert (a + b)[1..] == a[1..] + b;
      SchemaConcat(SchemaBehind(schema, a[0]), a[1..], b);
    }
  }

  lemma {:induction false} EmissionsConcat(schema: string, a: seq<Tree>, b: seq<Tree>)
    ensures Emissions(schema, a + b) == Emissions(schema, a) + Emissions(SchemaAfter(schema, a), b)
    decreases |a|
  {
    if a == [] {
      assert a + b == b;
    } else {
      assert (a + b)[1..] == a[1..] + b;
      EmissionsConcat(SchemaBehind(schema, a[0]), a[1..], b);
      Associate(StatementsOf(schema, a[0]), Emissions(SchemaBehind(schema, a[0]), a[1..]),
        Emissions(SchemaAfter(schema, a), b));
    }
  }

  lemma One(schema: string, t: Tree)
    ensures SchemaAfter(schema, [t]) == Handle(schema, t).schema
    ensures Emissions(schema, [t]) == Handle(schema, t).statements
  {
    var none := [t][1..];
    assert none == [] && SchemaAfter(SchemaBehind(schema, t), none) == SchemaBehind(schema, t);
    assert Emissions(SchemaBehind(schema, t), none) == [];
  }

  lemma {:induction false} WalkIsFold(schema: string, t: Tree)
    ensures WalkTree(schema, t).schema == SchemaAfter(schema, Visits(t))
    ensures WalkTree(schema, t).statements == Emissions(schema, Visits(t))
    decreases t
  {
    var below, node := WalkKids(schema, t.children), t.(children := RewriteKids(t.children));
    WalkKidsIsFold(schema, t.children);
    WalkKidsIsRewrite(schema, t.children);
    SchemaConcat(schema, VisitsBelow(t.children), [node]);
    EmissionsConcat(schema, VisitsBelow(t.children), [node]);
    One(below.schema, node);
  }

  /** The whole walk: the tree bottom up, the schema of the latest USE, the tables' statements in order. */
  lemma {:induction false} WalkKidsIsFold(schema: string, kids: seq<Tree>)
    ensures WalkKids(schema, kids).schema == SchemaAfter(schema, VisitsBelow(kids))
    ensures WalkKids(schema, kids).statements == Emissions(schema, VisitsBelow(kids))
    decreases kids
  {
    if kids != [] {
      WalkIsFold(schema, kids[0]);
      WalkKidsIsFold(WalkTree(schema, kids[0]).schema, kids[1..]);
      SchemaConcat(schema, Visits(kids[0]), VisitsBelow(kids[1..]));
      EmissionsConcat(schema, Visits(kids[0]), VisitsBelow(kids[1..]));
    }
  }

  // ---------- the schema of every statement ----------

  ghost predicate IsLatestUse(nodes: seq<Tree>, i: int) {
    0 <= i < |nodes| && Switches(nodes[i]) && forall j :: i < j < |nodes| ==> !Switches(nodes[j])
  }

  /** Without a USE the schema is the one the walk began with. */
  lemma {:induction false} SchemaWithoutUse(schema: string, nodes: seq<Tree>)
    requires forall i :: 0 <= i < |nodes| ==> !Switches(nodes[i])
    ensures SchemaAfter(schema, nodes) == schema
    decreases |nodes|
  {
    if nodes != [] {
      assert !Switches(nodes[0]);
      SchemaWithoutUse(schema, nodes[1..]);
    }
  }

  /** The schema in force is that of the latest USE. */
  lemma {:induction false} SchemaIsOfLatestUse(schema: string, nodes: seq<Tree>, i: nat)
    requires IsLatestUse(nodes, i)
    ensures SchemaAfter(schema, nodes) == UsedSchema(nodes[i])
    decreases |nodes|
  {
    var rest := nodes[1..];
    assert forall j :: 0 <= j < |rest| ==> rest[j] == nodes[j + 1];
    if i == 0 {
      SchemaWithoutUse(UsedSchema(nodes[0]), rest);
    } else {
      SchemaIsOfLatestUse(SchemaBehind(schema, nodes[0]), rest, i - 1);
    }
  }

  /** Only ADD FOREIGN KEY goes without a schema. */
  ghost predicate Carries(st: Statement, schema: string) {
    st.AddForeignKey? || st.schema == schema
  }

  ghost predicate AllCarry(sts: seq<Statement>, schema: string) {
    forall st :: st in sts ==> Carries(st, schema)
  }

  lemma {:induction false} TriggersCarry(schema: string, table: string, done: seq<Tree>, todo: seq<Tree>)
    ensures AllCarry(UpdateTriggers(schema, table, done, todo), schema)
    decreases |todo|
  {
    if todo != [] {
      if todo[0].kind != OnUpdate {
        TriggersCarry(schema, table, done + [todo[0]], todo[1..]);
      } else if |todo| > 1 {
        TriggersCarry(schema, table, done + [todo[1]], todo[2..]);
      }
    }
  }

  lemma {:induction false} ColumnsCarry(pass: ColumnPass, schema: string, table: string, start: string, kids: seq<Tree>)
    ensures AllCarry(AllStatements(pass, schema, table, start, kids), schema)
    decreases |kids|
  {
    if kids != [] {
      TriggersCarry(schema, table, [], kids[0].children);
      ColumnsCarry(pass, schema, table, start, kids[1..]);
    }
  }

  lemma {:induction false} IndexesCarry(schema: string, table: string, kids: seq<Tree>)
    ensures AllCarry(IndexStatements(schema, table, kids), schema) && AllCarry(KeyStatements(table, kids), schema)
    decreases |kids|
  {
    if kids != [] {
      IndexesCarry(schema, table, kids[1..]);
    }
  }

  lemma ThenCarries(p: TablePass, schema: string, r: Rewritten)
    requires AllCarry(r.statements, schema)
    ensures AllCarry(Then(p, schema, r).statements, schema)
  {
    match p
    case Columns(pass) => ColumnsCarry(pass, schema, TableName(r.kids), StartValue(r.kids), r.kids);
    case _ => IndexesCarry(schema, TableName(r.kids), r.kids);
  }

  lemma {:induction false} PassesCarry(passes: seq<TablePass>, schema: string, r: Rewritten)
    requires AllCarry(r.statements, schema)
    ensures AllCarry(Run(passes, schema, r).statements, schema)
    decreases |passes|
  {
    if passes != [] {
      ThenCarries(passes[0], schema, r);
      PassesCarry(passes[1..], schema, Then(passes[0], schema, r));
    }
  }

  lemma StatementsCarrySchema(schema: string, kids: seq<Tree>)
    ensures AllCarry(RewriteTable(schema, kids).statements, schema)
  {
    PassesCarry(Pipeline(), schema, Rewritten(kids, []));
  }

  /** Where a statement comes from: the table handled as number i, with the schema then in force. */
  ghost predicate ComesFrom(st: Statement, schema: string, nodes: seq<Tree>, i: int) {
    && 0 <= i < |nodes| && nodes[i].kind == CreateTable
    && st in RewriteTable(SchemaAfter(schema, nodes[..i]), nodes[i].children).statements
    && Carries(st, SchemaAfter(schema, nodes[..i]))
  }

  lemma ComesFromLater(st: Statement, schema: string, nodes: seq<Tree>, i: int)
    requires nodes != [] && ComesFrom(st, SchemaBehind(schema, nodes[0]), nodes[1..], i)
    ensures ComesFrom(st, schema, nodes, i + 1)
  {
    assert nodes[..i + 1][1..] == nodes[1..][..i];
    assert SchemaAfter(schema, nodes[..i + 1]) == SchemaAfter(SchemaBehind(schema, nodes[0]), nodes[1..][..i]);
  }

  lemma ComesFromFirst(st: Statement, schema: string, nodes: seq<Tree>)
    requires nodes != [] && st in StatementsOf(schema, nodes[0])
    ensures ComesFrom(st, schema, nodes, 0)
  {
    assert nodes[..0] == [];
    StatementsCarrySchema(schema, nodes[0].children);
  }

  lemma {:induction false} EmissionsCarry(schema: string, nodes: seq<Tree>, st: Statement) returns (i: int)
    requires st in Emissions(schema, nodes)
    ensures ComesFrom(st, schema, nodes, i)
    decreases |nodes|
  {
    if st in StatementsOf(schema, nodes[0]) {
      i := 0;
      ComesFromFirst(st, schema, nodes);
    } else {
      var j := EmissionsCarry(SchemaBehind(schema, nodes[0]), nodes[1..], st);
      i := j + 1;
      ComesFromLater(st, schema, nodes, j);
    }
  }

  /** Every index, sequence and trigger the walk emits carries the schema of the latest USE before its table. */
  lemma EveryStatementCarriesItsSchema(schema: string, kids: seq<Tree>, st: Statement)
    requires st in WalkKids(schema, kids).statements
    ensures exists i :: ComesFrom(st, schema, VisitsBelow(kids), i)
  {
    WalkKidsIsFold(schema, kids);
    var i := EmissionsCarry(schema, VisitsBelow(kids), st);
  }

  /** The walk comes to every node of the tree, at any depth, as its own children have been rewritten. */
  lemma {:induction false} EveryNodeIsVisited(t: Tree, path: seq<nat>)
    requires Sub(t, path).Some?
    ensures var n := Sub(t, path).value; n.(children := RewriteKids(n.children)) in Visits(t)
    decreases |path|
  {
    if path != [] {
      EveryNodeIsVisited(t.children[path[0]], path[1..]);
      VisitedBelow(t.children, path[0], path[1..]);
    }
  }

  lemma {:induction false} VisitedBelow(kids: seq<Tree>, c: nat, rest: seq<nat>)
    requires c < |kids| && Sub(kids[c], rest).Some?
    requires var n := Sub(kids[c], rest).value; n.(children := RewriteKids(n.children)) in Visits(kids[c])
    ensures var n := Sub(kids[c], rest).value; n.(children := RewriteKids(n.children)) in VisitsBelow(kids)
    decreases c
  {
    if c > 0 {
      VisitedBelow(kids[1..], c - 1, rest);
    }
  }

  lemma EmissionsAround(schema: string, nodes: seq<Tree>, i: nat)
    requires i < |nodes|
    ensures forall st :: st in StatementsOf(SchemaAfter(schema, nodes[..i]), nodes[i]) ==>
              st in Emissions(schema, nodes)
  {
    var a, b, now := nodes[..i], nodes[i..], SchemaAfter(schema, nodes[..i]);
    SplitAt(nodes, i);
    HeadTail(nodes, i);
    EmissionsConcat(schema, a, b);
    assert Emissions(now, b) == StatementsOf(now, nodes[i]) + Emissions(SchemaBehind(now, nodes[i]), b[1..]);
  }

  /** No table is lost: each CREATE TABLE of the tree, at any depth, leaves all its statements, with some schema. */
  lemma EveryTableEmits(schema: string, t: Tree, path: seq<nat>)
    requires Sub(t, path).Some? && Sub(t, path).value.kind == CreateTable
    ensures exists now ::
              forall st :: st in RewriteTable(now, RewriteKids(Sub(t, path).value.children)).statements ==>
                st in WalkTree(schema, t).statements
  {
    var n := Sub(t, path).value;
    var node, nodes := n.(children := RewriteKids(n.children)), Visits(t);
    EveryNodeIsVisited(t, path);
    var i: nat :| i < |nodes| && nodes[i] == node;
    var now := SchemaAfter(schema, nodes[..i]);
    EmissionsAround(schema, nodes, i);
    WalkIsFold(schema, t);
    assert StatementsOf(now, node) == RewriteTable(now, node.children).statements;
  }

  // ---------- what the walk leaves alone ----------

  /** No node on the way to the end of the path, that end excluded, has a handler. */
  ghost predicate Outside(t: Tree, path: seq<nat>)
    decreases |path|
  {
    path != [] ==> !HasHandler(t.kind) && path[0] < |t.children| && Outside(t.children[path[0]], path[1..])
  }

  /** Neither the node nor anything below it is rewritten by a template. */
  ghost predicate Covered(t: Tree) {
    !Templated(t.kind) && forall kind :: Templated(kind) ==> !Below(t, kind)
  }

  /** A node outside the handled subtrees stays in its place; what stands there is its own rewriting. */
  lemma {:induction false} OutsideStays(t: Tree, path: seq<nat>)
    requires Outside(t, path)
    ensures Sub(t, path).Some? && Sub(RewriteTree(t), path).Some?
    ensures var n, m := Sub(t, path).value, Sub(RewriteTree(t), path).value;
            && (Covered(n) ==> m == RewriteTree(n))
            && (!HasHandler(n.kind) ==> m == n.(children := m.children) && |m.children| == |n.children|)
    decreases |path|
  {
    if path != [] {
      OutsideStays(t.children[path[0]], path[1..]);
    }
  }

  /** No node with a handler below `t`. */
  ghost predicate Quiet(t: Tree) {
    forall kind :: HasHandler(kind) ==> !Below(t, kind)
  }

  lemma QuietBelow(t: Tree, i: nat)
    requires Quiet(t) && i < |t.children|
    ensures Quiet(t.children[i]) && !HasHandler(t.children[i].kind)
  {
    var c := t.children[i];
    assert Below(t, c.kind);
    forall kind | HasHandler(kind) ensures !Below(c, kind) {
      assert Below(c, kind) ==> Below(t, kind);
    }
  }

  /** A tree without handled nodes comes out as it went in, and leaves no statement. */
  lemma {:induction false} NothingHandledNothingChanged(schema: string, t: Tree)
    requires Quiet(t) && !HasHandler(t.kind)
    ensures WalkTree(schema, t) == Handled(t, schema, [])
    decreases t
  {
    forall i | 0 <= i < |t.children| ensures Quiet(t.children[i]) && !HasHandler(t.children[i].kind) {
      QuietBelow(t, i);
    }
    QuietKids(schema, t.children);
  }

  lemma {:induction false} QuietKids(schema: string, kids: seq<Tree>)
    requires forall i :: 0 <= i < |kids| ==> Quiet(kids[i]) && !HasHandler(kids[i].kind)
    ensures WalkKids(schema, kids) == Walk(kids, schema, [])
    decreases kids
  {
    if kids != [] {
      NothingHandledNothingChanged(schema, kids[0]);
      QuietKids(schema, kids[1..]);
    }
  }
}
