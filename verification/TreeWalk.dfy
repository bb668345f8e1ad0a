/** The rewriting walk as a left-to-right fold over the tree, and what it amounts to. */
module TreeWalk {
  import opened Trees
  import opened TablePasses

  // ---------- the handlers ----------

  /** USE name names a schema; without the keyword the handler returns at once. */
  ghost predicate Switches(t: Tree) {
    t.kind == UseDatabase && HasKind(t.children, KwUse) && HasKind(t.children, Id)
  }

  ghost function UsedSchema(t: Tree): string
    requires Switches(t)
  {
    t.children[Find(t.children, 0, Id)].text + "."
  }

  /** The first child of the kind gets another text. */
  ghost function Reword(kids: seq<Tree>, kind: Kind, text: string): seq<Tree> {
    var k := Find(kids, 0, kind);
    if k < |kids| then kids[k := kids[k].(text := text)] else kids
  }

  ghost function FirstText(kids: seq<Tree>, kind: Kind): string {
    var k := Find(kids, 0, kind);
    if k < |kids| then kids[k].text else ""
  }

  ghost function SearchPath(kids: seq<Tree>): seq<Tree> {
    if HasKind(kids, KwUse)
    then Reword(Reword(kids, KwUse, "SET search_path TO"), Id, FirstText(kids, Id) + ",public")
    else kids
  }

  /** The kinds whose handlers rewrite SQL by fixed templates; the trees walked over hold none of them. */
  predicate Templated(kind: Kind) {
    kind in {ServerVariable, ShowTables, ShowColumns, FunctionIf, FoundRows}
  }

  /** The kinds TreeWalkWorker has a handler for. */
  predicate HasHandler(kind: Kind) {
    kind in {CreateTable, UseDatabase, LockTable} || Templated(kind)
  }

  datatype Handled = Handled(tree: Tree, schema: string, statements: seq<Statement>)

  /** What TreeWalkWorker does with a child whose own children are done. */
  ghost function Handle(schema: string, t: Tree): Handled {
    match t.kind
    case CreateTable =>
      var r := RewriteTable(schema, t.children);
      Handled(t.(children := r.kids), schema, r.statements)
    case UseDatabase =>
      Handled(t.(children := SearchPath(t.children)), SchemaBehind(schema, t), [])
    case LockTable => Handled(t.(text := "", children := []), schema, [])
    case _ => Handled(t, schema, [])
  }

  // ---------- the walk with its running state ----------

  datatype Walk = Walk(kids: seq<Tree>, schema: string, statements: seq<Statement>)

  /** One child after the other: first what is below it, then the child itself. */
  ghost function WalkKids(schema: string, kids: seq<Tree>): (w: Walk)
    ensures |w.kids| == |kids|
    decreases kids
  {
    if kids == [] then Walk([], schema, [])
    else
      var h := WalkTree(schema, kids[0]);
      var rest := WalkKids(h.schema, kids[1..]);
      Walk([h.tree] + rest.kids, rest.schema, h.statements + rest.statements)
  }

  ghost function WalkTree(schema: string, t: Tree): Handled
    decreases t
  {
    var below := WalkKids(schema, t.children);
    var h := Handle(below.schema, t.(children := below.kids));
    h.(statements := below.statements + h.statements)
  }

  // ---------- the same without state ----------

  ghost function RewriteNode(t: Tree): Tree {
    Handle("", t).tree
  }

  ghost function RewriteKids(kids: seq<Tree>): (r: seq<Tree>)
    ensures |r| == |kids|
    ensures forall i :: 0 <= i < |kids| ==> r[i] == RewriteTree(kids[i])
    decreases kids
  {
    if kids == [] then [] else [RewriteTree(kids[0])] + RewriteKids(kids[1..])
  }

  /** Bottom up, every node once. */
  ghost function RewriteTree(t: Tree): Tree
    decreases t
  {
    RewriteNode(t.(children := RewriteKids(t.children)))
  }

  /**
    No node is rewritten by a template; every CREATE TABLE, as it is when its turn comes, is one the passes can work
    on.
   */
  ghost predicate SafeKids(kids: seq<Tree>)
    decreases kids
  {
    kids == [] || (SafeTree(kids[0]) && SafeKids(kids[1..]))
  }

  ghost predicate SafeTree(t: Tree)
    decreases t
  {
    SafeKids(t.children) && !Templated(t.kind) && (t.kind == CreateTable ==> Safe(RewriteKids(t.children)))
  }

  // ---------- the nodes in the order of their handling ----------

  ghost function Visits(t: Tree): seq<Tree>
    decreases t
  {
    VisitsBelow(t.children) + [t.(children := RewriteKids(t.children))]
  }

  ghost function VisitsBelow(kids: seq<Tree>): seq<Tree>
    decreases kids
  {
    if kids == [] then [] else Visits(kids[0]) + VisitsBelow(kids[1..])
  }

  ghost function SchemaBehind(schema: string, t: Tree): string {
    if Switches(t) then UsedSchema(t) else schema
  }

  /** The schema in force behind these nodes. */
  ghost function SchemaAfter(schema: string, nodes: seq<Tree>): string
    decreases |nodes|
  {
    if nodes == [] then schema else SchemaAfter(SchemaBehind(schema, nodes[0]), nodes[1..])
  }

  ghost function StatementsOf(schema: string, t: Tree): seq<Statement> {
    if t.kind == CreateTable then RewriteTable(schema, t.children).statements else []
  }

  /** Table after table, each with the schema then in force. */
  ghost function Emissions(schema: string, nodes: seq<Tree>): seq<Statement>
    decreases |nodes|
  {
    if nodes == [] then []
    else StatementsOf(schema, nodes[0]) + Emissions(SchemaBehind(schema, nodes[0]), nodes[1..])
  }
}
