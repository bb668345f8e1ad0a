/** The nine CREATE TABLE passes as functions on the table's child list, and the statements they emit. */
module TablePasses {
  import opened Wrappers
  import opened Trees

  /** One entry of an index's column list, as the pass writes it out. */
  datatype Part = Column(name: string) | Direction(word: string)

  /**
    What a pass appends to postbuf: one group per source item. UpdateTrigger is the trigger function and its
    trigger, Sequence the CREATE SEQUENCE and the ALTER TABLE that uses it. Names are as in the tree; quotes
    come off when the text is put together.
   */
  datatype Statement =
    | UpdateTrigger(schema: string, table: string, column: string, expr: seq<string>)
    | CreateIndex(schema: string, table: string, name: string, access: Option<string>, parts: seq<Part>)
    | Sequence(schema: string, table: string, column: string, start: string)
    | AddForeignKey(table: string, tokens: seq<string>)

  /** create_table_tablename: the first identifier ("" stands for its NULL). */
  ghost function TableName(kids: seq<Tree>): string {
    var k := Find(kids, 0, Id);
    if k < |kids| then kids[k].text else ""
  }

  ghost function Removed(kids: seq<Tree>, k: nat): seq<Tree>
    requires k < |kids|
  {
    kids[..k] + kids[k + 1..]
  }

  lemma RemovedTwice(kids: seq<Tree>, k: nat)
    requires k + 1 < |kids|
    ensures Removed(Removed(kids, k + 1), k) == kids[..k] + kids[k + 2..]
  {
    var next := Removed(kids, k + 1);
    assert next[..k] == kids[..k];
    assert next[k + 1..] == kids[k + 2..];
  }

  // ---------- edits inside a column definition ----------

  /** The four passes that walk over the column definitions. */
  datatype ColumnPass = Enums | Updates | ZeroDates | AutoIncrements

  /** What the enum pass relies on: a type word and a closing parenthesis. */
  ghost predicate EnumReady(t: Tree) {
    (HasKind(t.children, KwEnum) || HasKind(t.children, KwSet)) && HasKind(t.children, RParen)
  }

  ghost function EnumWord(kids: seq<Tree>): nat {
    var e := Find(kids, 0, KwEnum);
    if e < |kids| then e else Find(kids, 0, KwSet)
  }

  function CheckText(column: string): string {
    "text CHECK ( " + column + " IN "
  }

  /** ENUM ( ... ) becomes text CHECK ( column IN ( ... ) ): new text for the word, the parenthesis once more. */
  ghost function MarkEnum(t: Tree, column: string): Tree
    requires EnumReady(t)
  {
    var e := EnumWord(t.children);
    var kids := t.children[e := t.children[e].(text := CheckText(column))];
    t.(children := kids + [kids[Find(t.children, 0, RParen)]])
  }

  ghost function MarkNode(t: Tree, column: string): Tree {
    if t.kind == EnumType && EnumReady(t) then MarkEnum(t, column) else t
  }

  ghost function MarkEnums(kids: seq<Tree>, column: string): (r: seq<Tree>)
    ensures |r| == |kids|
  {
    seq(|kids|, i requires 0 <= i < |kids| => MarkNode(kids[i], column))
  }

  /** ON UPDATE children go, but the search resumes one place further: the child behind a deleted one stays. */
  ghost function DropUpdates(done: seq<Tree>, todo: seq<Tree>): seq<Tree>
    decreases |todo|
  {
    if todo == [] then done
    else if todo[0].kind != OnUpdate then DropUpdates(done + [todo[0]], todo[1..])
    else if |todo| == 1 then done
    else DropUpdates(done + [todo[1]], todo[2..])
  }

  ghost function Expression(kids: seq<Tree>): seq<string> {
    if kids == [] then []
    else if kids[0].kind == KwOn || kids[0].kind == KwUpdate then Expression(kids[1..])
    else [kids[0].text] + Expression(kids[1..])
  }

  /** One trigger per deleted ON UPDATE child; the column's name is its first child at that moment. */
  ghost function UpdateTriggers(schema: string, table: string, done: seq<Tree>, todo: seq<Tree>): seq<Statement>
    decreases |todo|
  {
    if todo == [] then []
    else if todo[0].kind != OnUpdate then UpdateTriggers(schema, table, done + [todo[0]], todo[1..])
    else
      [UpdateTrigger(schema, table, (done + todo)[0].text, Expression(todo[0].children))]
      + (if |todo| == 1 then [] else UpdateTriggers(schema, table, done + [todo[1]], todo[2..]))
  }

  /** The first place of NOT directly before NULL (the length if there is none). */
  ghost function FindNotNull(kids: seq<Tree>, from: nat): (r: nat)
    requires from <= |kids|
    ensures from <= r <= |kids|
    ensures r < |kids| ==> r + 1 < |kids| && kids[r].kind == KwNot && kids[r + 1].kind == KwNull
    ensures forall k :: from <= k < r && k + 1 < |kids| ==> !(kids[k].kind == KwNot && kids[k + 1].kind == KwNull)
    decreases |kids| - from
  {
    if |kids| - from < 2 then |kids|
    else if kids[from].kind == KwNot && kids[from + 1].kind == KwNull then from
    else FindNotNull(kids, from + 1)
  }

  ghost function DropNotNull(kids: seq<Tree>): seq<Tree> {
    var k := FindNotNull(kids, 0);
    if k < |kids| then kids[..k] + kids[k + 2..] else kids
  }

  ghost predicate HasZeroDate(def: Tree) {
    Below(def, ZeroDate) || Below(def, ZeroTimestamp)
  }

  ghost function DropFirst(kids: seq<Tree>, kind: Kind): seq<Tree> {
    var k := Find(kids, 0, kind);
    if k < |kids| then Removed(kids, k) else kids
  }

  ghost function EditColumn(pass: ColumnPass, def: Tree): Tree {
    match pass
    case Enums => if def.children == [] then def else def.(children := MarkEnums(def.children, def.children[0].text))
    case Updates => def.(children := DropUpdates([], def.children))
    case ZeroDates => if HasZeroDate(def) then def.(children := DropNotNull(def.children)) else def
    case AutoIncrements => def.(children := DropFirst(def.children, KwAutoIncrement))
  }

  ghost function ColumnStatements(pass: ColumnPass, schema: string, table: string, start: string,
      def: Tree): seq<Statement> {
    match pass
    case Updates => UpdateTriggers(schema, table, [], def.children)
    case AutoIncrements =>
      if HasKind(def.children, KwAutoIncrement) then [Sequence(schema, table, def.children[0].text, start)] else []
    case _ => []
  }

  ghost function EditNode(pass: ColumnPass, t: Tree): Tree {
    if t.kind == ColumnDef then EditColumn(pass, t) else t
  }

  ghost function EditAll(pass: ColumnPass, kids: seq<Tree>): (r: seq<Tree>)
    ensures |r| == |kids|
  {
    seq(|kids|, i requires 0 <= i < |kids| => EditNode(pass, kids[i]))
  }

  ghost function AllStatements(pass: ColumnPass, schema: string, table: string, start: string,
      kids: seq<Tree>): seq<Statement> {
    if kids == [] then []
    else if kids[0].kind == ColumnDef then
      ColumnStatements(pass, schema, table, start, kids[0]) + AllStatements(pass, schema, table, start, kids[1..])
    else AllStatements(pass, schema, table, start, kids[1..])
  }

  // ---------- edits of the definition list ----------

  ghost function SpellDouble(kids: seq<Tree>, i: nat): Tree
    requires i < |kids|
  {
    if kids[i].kind == KwDouble && i + 1 < |kids| && kids[i + 1].kind != KwPrecision
    then kids[i].(text := kids[i].text + " PRECISION ") else kids[i]
  }

  ghost function SpellDoubles(kids: seq<Tree>): (r: seq<Tree>)
    ensures |r| == |kids|
  {
    seq(|kids|, i requires 0 <= i < |kids| => SpellDouble(kids, i))
  }

  ghost function DropComma(done: seq<Tree>): seq<Tree> {
    if done != [] && done[|done| - 1].kind == Comma then done[..|done| - 1] else done
  }

  /** Every node of the kind goes, and with it a comma directly before it. */
  ghost function Hoist(kind: Kind, done: seq<Tree>, todo: seq<Tree>): seq<Tree>
    decreases |todo|
  {
    if todo == [] then done
    else if todo[0].kind == kind then Hoist(kind, DropComma(done), todo[1..])
    else Hoist(kind, done + [todo[0]], todo[1..])
  }

  /**
    The full-text pass: like Hoist, but the comma must not be the very first child, and after deleting two
    children the search resumes at the old place, past the child that moved down.
   */
  ghost function DropFulltext(done: seq<Tree>, todo: seq<Tree>): seq<Tree>
    decreases |todo|
  {
    if todo == [] then done
    else if todo[0].kind != Fulltext then DropFulltext(done + [todo[0]], todo[1..])
    else if |done| >= 2 && done[|done| - 1].kind == Comma then
      if |todo| == 1 then DropComma(done) else DropFulltext(DropComma(done) + [todo[1]], todo[2..])
    else DropFulltext(done, todo[1..])
  }

  ghost function Without(kind: Kind, kids: seq<Tree>): seq<Tree> {
    if kids == [] then []
    else if kids[0].kind == kind then Without(kind, kids[1..])
    else [kids[0]] + Without(kind, kids[1..])
  }

  // ---------- the statements the definition list gives rise to ----------

  /** The scan of an index's children: the first identifier before any column is its name. */
  datatype IndexScan = IndexScan(name: Option<string>, parts: seq<Part>)

  ghost function ScanIndex(st: IndexScan, kids: seq<Tree>): IndexScan
    decreases |kids|
  {
    if kids == [] then st else ScanIndex(ScanOne(st, kids[0]), kids[1..])
  }

  ghost function ScanOne(st: IndexScan, t: Tree): IndexScan {
    if t.kind == Id then
      if st.name.None? && st.parts == [] then st.(name := Some(t.text)) else st.(parts := st.parts + [Column(t.text)])
    else if t.kind == KwAsc || t.kind == KwDesc then st.(parts := st.parts + [Direction(t.text)])
    else st
  }

  ghost function FirstColumn(parts: seq<Part>): string {
    if parts == [] then "" else if parts[0].Column? then parts[0].name else FirstColumn(parts[1..])
  }

  ghost function AccessMethod(kids: seq<Tree>): Option<string> {
    var k := Find(kids, 0, KwUsing);
    if k + 1 < |kids| then Some(kids[k + 1].text) else None
  }

  ghost function IndexStatement(schema: string, table: string, t: Tree): Statement {
    var scan := ScanIndex(IndexScan(None, []), t.children);
    var name := if scan.name.Some? then scan.name.value else FirstColumn(scan.parts);
    CreateIndex(schema, table, name, AccessMethod(t.children), scan.parts)
  }

  ghost function IndexStatements(schema: string, table: string, kids: seq<Tree>): seq<Statement> {
    if kids == [] then []
    else if kids[0].kind == Index then
      [IndexStatement(schema, table, kids[0])] + IndexStatements(schema, table, kids[1..])
    else IndexStatements(schema, table, kids[1..])
  }

  ghost function Texts(kids: seq<Tree>): seq<string> {
    seq(|kids|, i requires 0 <= i < |kids| => kids[i].text)
  }

  ghost function KeyStatements(table: string, kids: seq<Tree>): seq<Statement> {
    if kids == [] then []
    else if kids[0].kind == ForeignKey then
      [AddForeignKey(table, Texts(kids[0].children))] + KeyStatements(table, kids[1..])
    else KeyStatements(table, kids[1..])
  }

  /** The option node AUTO_INCREMENT = number. */
  ghost predicate IsStartOption(t: Tree) {
    && t.kind == TableOptions && |t.children| >= 3
    && t.children[0].kind == KwAutoIncrement && t.children[1].kind == Eq && t.children[2].kind == Number
  }

  /** The search for the sequence start; an option node in the very first place ends it. */
  ghost function StartFrom(kids: seq<Tree>, from: nat): string
    requires from <= |kids|
    decreases |kids| - from
  {
    var k := Find(kids, from, TableOptions);
    if k == |kids| || k == 0 then "1"
    else if IsStartOption(kids[k]) then kids[k].children[2].text
    else StartFrom(kids, k + 1)
  }

  /** No option node stops behind AUTO_INCREMENT =, where the search would read a missing child. */
  ghost predicate SafeOptions(kids: seq<Tree>) {
    forall i :: 0 <= i < |kids| && kids[i].kind == TableOptions ==> SafeNode(kids[i])
  }

  ghost function StartValue(kids: seq<Tree>): string {
    StartFrom(kids, 0)
  }

  // ---------- the pipeline ----------

  datatype TablePass = Columns(pass: ColumnPass) | Datatypes | Indexes | FulltextIndexes | ForeignKeys | Options

  ghost function Pass(p: TablePass, kids: seq<Tree>): seq<Tree> {
    match p
    case Columns(pass) => EditAll(pass, kids)
    case Datatypes => SpellDoubles(kids)
    case Indexes => Hoist(Index, [], kids)
    case FulltextIndexes => DropFulltext([], kids)
    case ForeignKeys => Hoist(ForeignKey, [], kids)
    case Options => Without(TableOptions, kids)
  }

  ghost function PassStatements(p: TablePass, schema: string, kids: seq<Tree>): seq<Statement> {
    match p
    case Columns(pass) => AllStatements(pass, schema, TableName(kids), StartValue(kids), kids)
    case Indexes => IndexStatements(schema, TableName(kids), kids)
    case ForeignKeys => KeyStatements(TableName(kids), kids)
    case _ => []
  }

  datatype Rewritten = Rewritten(kids: seq<Tree>, statements: seq<Statement>)

  ghost function Then(p: TablePass, schema: string, r: Rewritten): Rewritten {
    Rewritten(Pass(p, r.kids), r.statements + PassStatements(p, schema, r.kids))
  }

  /** One pass after the other. */
  ghost function Run(passes: seq<TablePass>, schema: string, r: Rewritten): Rewritten
    decreases |passes|, schema, r
  {
    if passes == [] then r else Run(passes[1..], schema, Then(passes[0], schema, r))
  }

  function ColumnPasses(): seq<TablePass> {
    [Columns(Enums), Datatypes, Columns(Updates), Columns(ZeroDates)]
  }

  function HoistPasses(): seq<TablePass> {
    [Indexes, Columns(AutoIncrements), FulltextIndexes, ForeignKeys, Options]
  }

  /** create_table_worker: the nine passes in their order. */
  function Pipeline(): seq<TablePass> {
    ColumnPasses() + HoistPasses()
  }

  ghost function RewriteTable(schema: string, kids: seq<Tree>): Rewritten {
    Run(Pipeline(), schema, Rewritten(kids, []))
  }

  // ---------- the same in two stages ----------

  /** Up to the passes that hoist. */
  ghost function ColumnStage(schema: string, kids: seq<Tree>): Rewritten {
    var enums := Then(Columns(Enums), schema, Rewritten(kids, []));
    var datatypes := Then(Datatypes, schema, enums);
    Then(Columns(ZeroDates), schema, Then(Columns(Updates), schema, datatypes))
  }

  ghost function HoistStage(schema: string, r: Rewritten): Rewritten {
    var indexes := Then(Columns(AutoIncrements), schema, Then(Indexes, schema, r));
    Then(Options, schema, Then(ForeignKeys, schema, Then(FulltextIndexes, schema, indexes)))
  }

  lemma RunNext(p: TablePass, rest: seq<TablePass>, schema: string, r: Rewritten)
    ensures Run([p] + rest, schema, r) == Run(rest, schema, Then(p, schema, r))
  {
    assert ([p] + rest)[1..] == rest;
  }

  lemma {:induction false} RunConcat(a: seq<TablePass>, b: seq<TablePass>, schema: string, r: Rewritten)
    ensures Run(a + b, schema, r) == Run(b, schema, Run(a, schema, r))
    decreases |a|
  {
    if a == [] {
      assert a + b == b;
    } else {
      assert (a + b)[1..] == a[1..] + b;
      RunConcat(a[1..], b, schema, Then(a[0], schema, r));
    }
  }

  lemma RunTwo(p: TablePass, q: TablePass, schema: string, r: Rewritten)
    ensures Run([p, q], schema, r) == Then(q, schema, Then(p, schema, r))
  {
    var none: seq<TablePass> := [];
    assert [p, q] == [p] + ([q] + none);
    RunNext(p, [q] + none, schema, r);
    RunNext(q, none, schema, Then(p, schema, r));
  }

  lemma RunColumns(schema: string, kids: seq<Tree>)
    ensures Run(ColumnPasses(), schema, Rewritten(kids, [])) == ColumnStage(schema, kids)
  {
    var a, b := [Columns(Enums), Datatypes], [Columns(Updates), Columns(ZeroDates)];
    assert ColumnPasses() == a + b;
    RunConcat(a, b, schema, Rewritten(kids, []));
    RunTwo(Columns(Enums), Datatypes, schema, Rewritten(kids, []));
    RunTwo(Columns(Updates), Columns(ZeroDates), schema, Run(a, schema, Rewritten(kids, [])));
  }

  lemma RunHoists(schema: string, r: Rewritten)
    ensures Run(HoistPasses(), schema, r) == HoistStage(schema, r)
  {
    var a, b, c := [Indexes, Columns(AutoIncrements)], [FulltextIndexes, ForeignKeys], [Options];
    var none: seq<TablePass> := [];
    assert HoistPasses() == a + (b + c) && c == [Options] + none;
    RunConcat(a, b + c, schema, r);
    RunTwo(Indexes, Columns(AutoIncrements), schema, r);
    RunConcat(b, c, schema, Run(a, schema, r));
    RunTwo(FulltextIndexes, ForeignKeys, schema, Run(a, schema, r));
    RunNext(Options, none, schema, Run(b, schema, Run(a, schema, r)));
  }

  lemma RewriteTableInStages(schema: string, kids: seq<Tree>)
    ensures RewriteTable(schema, kids) == HoistStage(schema, ColumnStage(schema, kids))
  {
    RunConcat(ColumnPasses(), HoistPasses(), schema, Rewritten(kids, []));
    RunColumns(schema, kids);
    RunHoists(schema, Run(ColumnPasses(), schema, Rewritten(kids, [])));
  }

  /** What the passes need of their table: where these fail the original reads through NULL. */
  ghost predicate Safe(kids: seq<Tree>) {
    HasKind(kids, Id) && Anchored(kids) && SafeColumns(kids) && SafeIndexes(kids) && SafeOptions(kids)
  }

  /** The deleting loops reach back one child: the first child must neither be hoisted nor be a comma. */
  ghost predicate Anchored(kids: seq<Tree>) {
    kids != [] && kids[0].kind !in {Comma, Index, Fulltext, ForeignKey}
  }

  ghost predicate SafeColumns(kids: seq<Tree>) {
    forall i :: 0 <= i < |kids| && kids[i].kind == ColumnDef ==> SafeNode(kids[i])
  }

  ghost predicate SafeIndexes(kids: seq<Tree>) {
    forall i :: 0 <= i < |kids| && kids[i].kind == Index ==> SafeNode(kids[i])
  }

  ghost predicate SafeNode(t: Tree) {
    match t.kind
    case ColumnDef => forall j :: 0 <= j < |t.children| && t.children[j].kind == EnumType ==> EnumReady(t.children[j])
    case Index => HasKind(t.children, Id) && !(t.children != [] && t.children[|t.children| - 1].kind == KwUsing)
    case TableOptions =>
      !(|t.children| == 2 && t.children[0].kind == KwAutoIncrement && t.children[1].kind == Eq)
    case _ => true
  }
}
