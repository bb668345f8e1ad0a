/** Every field of every statement a table emits, said by the nodes of the table as parsed. */
module StatementFields {
  import opened Wrappers
  import opened Sequences
  import opened Trees
  import opened TablePasses
  import opened TableLaws
  import opened TableStatements
  import opened TableExactly

  // ---------- the four groups ----------

  datatype Group = Triggers | Indices | Series | Keys

  predicate Belongs(group: Group, st: Statement) {
    match group
    case Triggers => st.UpdateTrigger?
    case Indices => st.CreateIndex?
    case Series => st.Sequence?
    case Keys => st.AddForeignKey?
  }

  function In(group: Group, sts: seq<Statement>): seq<Statement> {
    if sts == [] then []
    else if Belongs(group, sts[0]) then [sts[0]] + In(group, sts[1..])
    else In(group, sts[1..])
  }

  ghost predicate AllOf(group: Group, sts: seq<Statement>) {
    forall st :: st in sts ==> Belongs(group, st)
  }

  lemma {:induction false} InAll(group: Group, other: Group, sts: seq<Statement>)
    requires AllOf(group, sts)
    ensures In(other, sts) == if other == group then sts else []
    decreases |sts|
  {
    if sts != [] {
      assert sts[0] in sts && sts == [sts[0]] + sts[1..];
      InAll(group, other, sts[1..]);
    }
  }

  lemma {:induction false} InConcat(group: Group, a: seq<Statement>, b: seq<Statement>)
    ensures In(group, a + b) == In(group, a) + In(group, b)
    decreases |a|
  {
    if a == [] {
      assert a + b == b;
    } else {
      assert (a + b)[1..] == a[1..] + b;
      InConcat(group, a[1..], b);
    }
  }

  lemma InFour(group: Group, t: seq<Statement>, i: seq<Statement>, s: seq<Statement>, k: seq<Statement>)
    requires AllOf(Triggers, t) && AllOf(Indices, i) && AllOf(Series, s) && AllOf(Keys, k)
    ensures In(group, t + i + s + k)
            == match group case Triggers => t case Indices => i case Series => s case Keys => k
  {
    InConcat(group, t + i + s, k);
    InConcat(group, t + i, s);
    InConcat(group, t, i);
    InAll(Triggers, group, t);
    InAll(Indices, group, i);
    InAll(Series, group, s);
    InAll(Keys, group, k);
  }

  // ---------- what the fields are taken from ----------

  ghost predicate FirstAt(kids: seq<Tree>, kind: Kind, k: int) {
    0 <= k < |kids| && kids[k].kind == kind && forall j :: 0 <= j < k ==> kids[j].kind != kind
  }

  /** The text of the first identifier child; empty if there is none. */
  ghost predicate NamesTable(kids: seq<Tree>, name: string) {
    && (forall k :: FirstAt(kids, Id, k) ==> name == kids[k].text)
    && ((forall k :: 0 <= k < |kids| ==> kids[k].kind != Id) ==> name == "")
  }

  /** The option AUTO_INCREMENT = number. */
  ghost predicate SaysStart(t: Tree) {
    && t.kind == TableOptions && |t.children| >= 3
    && t.children[0].kind == KwAutoIncrement && t.children[1].kind == Eq && t.children[2].kind == Number
  }

  ghost predicate FirstStartAt(kids: seq<Tree>, k: int) {
    0 <= k < |kids| && SaysStart(kids[k]) && forall j :: 0 <= j < k ==> !SaysStart(kids[j])
  }

  ghost predicate SaysNoStart(kids: seq<Tree>) {
    forall k :: 0 <= k < |kids| ==> !SaysStart(kids[k])
  }

  /** The number of the first such option; 1 if there is none. */
  ghost predicate StartsAt(kids: seq<Tree>, start: string) {
    && (forall k :: FirstStartAt(kids, k) ==> start == kids[k].children[2].text)
    && (SaysNoStart(kids) ==> start == "1")
  }

  lemma TableNameNames(kids: seq<Tree>)
    ensures NamesTable(kids, TableName(kids))
  {
    var r := Find(kids, 0, Id);
    assert forall k :: FirstAt(kids, Id, k) ==> k == r;
  }

  lemma StartsHere(t: Tree, rest: seq<Tree>)
    requires SaysStart(t)
    ensures StartsAt([t] + rest, t.children[2].text)
  {
    var kids := [t] + rest;
    assert kids[0] == t && FirstStartAt(kids, 0);
    assert forall k :: FirstStartAt(kids, k) ==> k == 0;
  }

  lemma FirstStartLater(t: Tree, rest: seq<Tree>, k: int)
    requires !SaysStart(t) && FirstStartAt([t] + rest, k)
    ensures k > 0 && FirstStartAt(rest, k - 1) && ([t] + rest)[k] == rest[k - 1]
  {
    var kids := [t] + rest;
    assert kids[0] == t;
    forall j | 0 <= j < k - 1 ensures !SaysStart(rest[j]) {
      assert kids[j + 1] == rest[j];
    }
  }

  lemma StartsLater(t: Tree, rest: seq<Tree>, start: string)
    requires !SaysStart(t) && StartsAt(rest, start)
    ensures StartsAt([t] + rest, start)
  {
    var kids := [t] + rest;
    forall k | FirstStartAt(kids, k) ensures start == kids[k].children[2].text {
      FirstStartLater(t, rest, k);
    }
    if SaysNoStart(kids) {
      NoStartBehind(t, rest);
    }
  }

  lemma NoStartBehind(t: Tree, rest: seq<Tree>)
    requires SaysNoStart([t] + rest)
    ensures SaysNoStart(rest)
  {
    assert forall j :: 0 <= j < |rest| ==> ([t] + rest)[j + 1] == rest[j];
  }

  lemma {:induction false} FirstStartStarts(kids: seq<Tree>)
    ensures StartsAt(kids, FirstStart(Only(TableOptions, kids)))
    decreases |kids|
  {
    if kids != [] {
      var t, rest := kids[0], kids[1..];
      assert kids == [t] + rest;
      FirstStartStarts(rest);
      if t.kind == TableOptions {
        FirstStartCons(t, Only(TableOptions, rest));
      }
      if SaysStart(t) {
        StartsHere(t, rest);
      } else {
        StartsLater(t, rest, FirstStart(Only(TableOptions, rest)));
      }
    }
  }

  // ---------- sequences ----------

  /** The column definitions with an AUTO_INCREMENT child, in order. */
  ghost function AutoColumns(kids: seq<Tree>): seq<Tree> {
    if kids == [] then []
    else if kids[0].kind == ColumnDef && HasKind(kids[0].children, KwAutoIncrement) then
      [kids[0]] + AutoColumns(kids[1..])
    else AutoColumns(kids[1..])
  }

  ghost predicate IsSequence(st: Statement, schema: string, table: string, column: string, start: string) {
    st.Sequence? && st.schema == schema && st.table == table && st.column == column && st.start == start
  }

  ghost predicate SequencesFor(sts: seq<Statement>, schema: string, table: string, start: string, cols: seq<Tree>) {
    && |sts| == |cols|
    && forall i :: 0 <= i < |cols| ==>
         cols[i].children != [] && IsSequence(sts[i], schema, table, cols[i].children[0].text, start)
  }

  lemma SequencesCons(st: Statement, sts: seq<Statement>, schema: string, table: string, start: string, def: Tree,
      cols: seq<Tree>)
    requires def.children != [] && IsSequence(st, schema, table, def.children[0].text, start)
    requires SequencesFor(sts, schema, table, start, cols)
    ensures SequencesFor([st] + sts, schema, table, start, [def] + cols)
  {
  }

  lemma {:induction false} SequencesAre(schema: string, table: string, start: string, kids: seq<Tree>)
    ensures SequencesFor(AllStatements(AutoIncrements, schema, table, start, kids), schema, table, start,
                         AutoColumns(kids))
    decreases |kids|
  {
    if kids != [] {
      var def, rest := kids[0], AllStatements(AutoIncrements, schema, table, start, kids[1..]);
      SequencesAre(schema, table, start, kids[1..]);
      if def.kind == ColumnDef && HasKind(def.children, KwAutoIncrement) {
        var st := ColumnStatements(AutoIncrements, schema, table, start, def)[0];
        assert ColumnStatements(AutoIncrements, schema, table, start, def) == [st];
        SequencesCons(st, rest, schema, table, start, def, AutoColumns(kids[1..]));
      } else {
        assert [] + rest == rest;
      }
    }
  }

  // ---------- foreign keys ----------

  ghost predicate IsKey(st: Statement, table: string, words: seq<Tree>) {
    && st.AddForeignKey? && st.table == table && |st.tokens| == |words|
    && forall j :: 0 <= j < |words| ==> st.tokens[j] == words[j].text
  }

  ghost predicate KeysFor(sts: seq<Statement>, table: string, keys: seq<Tree>) {
    && |sts| == |keys|
    && forall i :: 0 <= i < |keys| ==> IsKey(sts[i], table, keys[i].children)
  }

  lemma {:induction false} KeysAre(table: string, kids: seq<Tree>)
    ensures KeysFor(KeyStatements(table, kids), table, Only(ForeignKey, kids))
    decreases |kids|
  {
    if kids != [] {
      KeysAre(table, kids[1..]);
    }
  }

  // ---------- indexes ----------

  /** Named after the first identifier, with the word behind the first USING, and everything else it lists. */
  ghost predicate IsIndex(st: Statement, schema: string, table: string, words: seq<Tree>) {
    && st.CreateIndex? && st.schema == schema && st.table == table
    && (forall k :: FirstAt(words, Id, k) ==> st.name == words[k].text)
    && (forall k :: FirstAt(words, KwUsing, k) && k + 1 < |words| ==> st.access == Some(words[k + 1].text))
    && (!HasKind(words, KwUsing) ==> st.access == None)
    && (Listed(words) != [] && Listed(words)[0].Column? ==> st.parts == Listed(words)[1..])
  }

  ghost predicate IndexesFor(sts: seq<Statement>, schema: string, table: string, indexes: seq<Tree>) {
    && |sts| == |indexes|
    && forall i :: 0 <= i < |indexes| ==> IsIndex(sts[i], schema, table, indexes[i].children)
  }

  ghost function NameOf(scan: IndexScan): string {
    if scan.name.Some? then scan.name.value else FirstColumn(scan.parts)
  }

  ghost predicate NoColumn(parts: seq<Part>) {
    forall i :: 0 <= i < |parts| ==> !parts[i].Column?
  }

  lemma {:induction false} FirstColumnIs(a: seq<Part>, name: string, b: seq<Part>)
    requires NoColumn(a)
    ensures FirstColumn(a + [Column(name)] + b) == name
    decreases |a|
  {
    var all := a + [Column(name)] + b;
    if a == [] {
      assert all[0] == Column(name);
    } else {
      assert all[0] == a[0] && all[1..] == a[1..] + [Column(name)] + b;
      FirstColumnIs(a[1..], name, b);
    }
  }

  /** A scan that has a name, or a first column, keeps it. */
  lemma {:induction false} ScanKeeps(st: IndexScan, a: seq<Part>, name: string, b: seq<Part>, kids: seq<Tree>)
    requires NoColumn(a)
    requires st.name == Some(name) || (st.name == None && a != [] && st.parts == a + [Column(name)] + b)
    ensures NameOf(ScanIndex(st, kids)) == name
    decreases |kids|
  {
    if kids == [] {
      FirstColumnIs(a, name, b);
    } else {
      var next := ScanOne(st, kids[0]);
      var b' := if st.name.None? && next.parts != st.parts then b + [next.parts[|next.parts| - 1]] else b;
      assert st.name.None? ==> next.parts == a + [Column(name)] + b';
      ScanKeeps(next, a, name, b', kids[1..]);
    }
  }

  /** Whatever else the scan meets, an index is named after its first identifier. */
  lemma {:induction false} ScanNames(st: IndexScan, kids: seq<Tree>, k: nat)
    requires st.name == None && NoColumn(st.parts) && FirstAt(kids, Id, k)
    ensures NameOf(ScanIndex(st, kids)) == kids[k].text
    decreases |kids|
  {
    var next := ScanOne(st, kids[0]);
    if k == 0 {
      assert st.parts != [] ==> next.parts == st.parts + [Column(kids[0].text)] + [];
      ScanKeeps(next, st.parts, kids[0].text, [], kids[1..]);
    } else {
      assert forall j :: 0 <= j < k ==> kids[j].kind != Id;
      assert forall j :: 0 <= j < k - 1 ==> kids[1..][j] == kids[j + 1];
      ScanNames(next, kids[1..], k - 1);
    }
  }

  lemma OneIndex(schema: string, table: string, t: Tree)
    ensures IsIndex(IndexStatement(schema, table, t), schema, table, t.children)
  {
    var words, st := t.children, IndexStatement(schema, table, t);
    forall k | FirstAt(words, Id, k) ensures st.name == words[k].text {
      ScanNames(IndexScan(None, []), words, k);
    }
    var u := Find(words, 0, KwUsing);
    assert forall k :: FirstAt(words, KwUsing, k) ==> k == u;
    if Listed(words) != [] && Listed(words)[0].Column? {
      ScanUnnamed(words);
    }
  }

  lemma IndexesCons(st: Statement, sts: seq<Statement>, schema: string, table: string, t: Tree, indexes: seq<Tree>)
    requires IsIndex(st, schema, table, t.children) && IndexesFor(sts, schema, table, indexes)
    ensures IndexesFor([st] + sts, schema, table, [t] + indexes)
  {
  }

  lemma {:induction false} IndexesAre(schema: string, table: string, kids: seq<Tree>)
    ensures IndexesFor(IndexStatements(schema, table, kids), schema, table, Only(Index, kids))
    decreases |kids|
  {
    if kids != [] {
      IndexesAre(schema, table, kids[1..]);
      if kids[0].kind == Index {
        OneIndex(schema, table, kids[0]);
        IndexesCons(IndexStatement(schema, table, kids[0]), IndexStatements(schema, table, kids[1..]), schema, table,
          kids[0], Only(Index, kids[1..]));
      }
    }
  }

  // ---------- triggers ----------

  /** The ON UPDATE clauses of all columns, in order, each with the name of its column. */
  ghost function Clauses(kids: seq<Tree>): seq<(string, Tree)> {
    if kids == [] then []
    else if kids[0].kind == ColumnDef && kids[0].children != [] then
      WithName(kids[0].children[0].text, Only(OnUpdate, kids[0].children)) + Clauses(kids[1..])
    else Clauses(kids[1..])
  }

  ghost function WithName(name: string, updates: seq<Tree>): (r: seq<(string, Tree)>)
    ensures |r| == |updates|
  {
    seq(|updates|, i requires 0 <= i < |updates| => (name, updates[i]))
  }

  ghost predicate IsTrigger(st: Statement, schema: string, table: string, column: string, update: Tree) {
    && st.UpdateTrigger? && st.schema == schema && st.table == table && st.column == column
    && st.expr == Expression(update.children)
  }

  ghost predicate TriggersTake(sts: seq<Statement>, schema: string, table: string, clauses: seq<(string, Tree)>) {
    && |sts| == |clauses|
    && forall i :: 0 <= i < |clauses| ==> IsTrigger(sts[i], schema, table, clauses[i].0, clauses[i].1)
  }

  lemma {:induction false} TriggersForAre(schema: string, table: string, column: string, updates: seq<Tree>)
    ensures TriggersTake(TriggersFor(schema, table, column, updates), schema, table, WithName(column, updates))
    decreases |updates|
  {
    if updates != [] {
      TriggersForAre(schema, table, column, updates[1..]);
    }
  }

  ghost predicate NoNeighbours(kids: seq<Tree>) {
    forall i :: 0 <= i < |kids| && kids[i].kind == ColumnDef ==> !Adjacent(kids[i].children, OnUpdate)
  }

  lemma TriggersConcat(a: seq<Statement>, b: seq<Statement>, schema: string, table: string, c: seq<(string, Tree)>,
      d: seq<(string, Tree)>)
    requires TriggersTake(a, schema, table, c) && TriggersTake(b, schema, table, d)
    ensures TriggersTake(a + b, schema, table, c + d)
  {
  }

  lemma {:induction false} TriggersAre(schema: string, table: string, start: string, kids: seq<Tree>)
    requires NamedColumns(kids) && NoNeighbours(kids)
    ensures TriggersTake(AllStatements(Updates, schema, table, start, kids), schema, table, Clauses(kids))
    decreases |kids|
  {
    if kids != [] {
      var def, rest := kids[0], kids[1..];
      TriggersAre(schema, table, start, rest);
      if def.kind == ColumnDef {
        assert Named(def) && !Adjacent(def.children, OnUpdate);
        ColumnTriggersAre(schema, table, start, def);
        TriggersConcat(ColumnStatements(Updates, schema, table, start, def),
          AllStatements(Updates, schema, table, start, rest), schema, table,
          WithName(def.children[0].text, Only(OnUpdate, def.children)), Clauses(rest));
      }
    }
  }

  lemma ColumnTriggersAre(schema: string, table: string, start: string, def: Tree)
    requires Named(def) && !Adjacent(def.children, OnUpdate)
    ensures TriggersTake(ColumnStatements(Updates, schema, table, start, def), schema, table,
                         WithName(def.children[0].text, Only(OnUpdate, def.children)))
  {
    UpdatesAreHoisted(schema, table, def);
    TriggersForAre(schema, table, def.children[0].text, Only(OnUpdate, def.children));
  }

  /** A trigger stems from some ON UPDATE clause of some column. */
  ghost predicate Stems(st: Statement, schema: string, table: string, kids: seq<Tree>) {
    exists i, j :: 0 <= i < |kids| && kids[i].kind == ColumnDef && 0 <= j < |kids[i].children|
                   && kids[i].children[j].kind == OnUpdate
                   && IsTrigger(st, schema, table, kids[i].children[0].text, kids[i].children[j])
  }

  lemma {:induction false} ColumnTriggersStem(schema: string, table: string, kids: seq<Tree>, i: nat,
      done: seq<Tree>, todo: seq<Tree>)
    requires i < |kids| && kids[i].kind == ColumnDef && done != [] && kids[i].children != []
    requires done[0] == kids[i].children[0] && forall x :: x in todo ==> x in kids[i].children
    ensures forall st :: st in UpdateTriggers(schema, table, done, todo) ==> Stems(st, schema, table, kids)
    decreases |todo|
  {
    if todo != [] {
      assert todo[0] in todo;
      if todo[0].kind != OnUpdate {
        ColumnTriggersStem(schema, table, kids, i, done + [todo[0]], todo[1..]);
      } else {
        var j :| 0 <= j < |kids[i].children| && kids[i].children[j] == todo[0];
        var st := UpdateTrigger(schema, table, done[0].text, Expression(todo[0].children));
        assert (done + todo)[0] == done[0];
        assert IsTrigger(st, schema, table, kids[i].children[0].text, kids[i].children[j]);
        if |todo| > 1 {
          ColumnTriggersStem(schema, table, kids, i, done + [todo[1]], todo[2..]);
        }
      }
    }
  }

  lemma OneColumnStems(schema: string, table: string, kids: seq<Tree>, i: nat)
    requires i < |kids| && kids[i].kind == ColumnDef && Named(kids[i])
    ensures forall st :: st in UpdateTriggers(schema, table, [], kids[i].children) ==> Stems(st, schema, table, kids)
  {
    var cs, none := kids[i].children, [];
    assert none + [cs[0]] == [cs[0]];
    ColumnTriggersStem(schema, table, kids, i, [cs[0]], cs[1..]);
  }

  lemma {:induction false} TriggersStem(schema: string, table: string, start: string, kids: seq<Tree>, from: nat)
    requires from <= |kids| && NamedColumns(kids)
    ensures forall st :: st in AllStatements(Updates, schema, table, start, kids[from..]) ==>
              Stems(st, schema, table, kids)
    decreases |kids| - from
  {
    if from < |kids| {
      HeadTail(kids, from);
      TriggersStem(schema, table, start, kids, from + 1);
      if kids[from].kind == ColumnDef {
        OneColumnStems(schema, table, kids, from);
      }
    }
  }

  // ---------- the groups of a table ----------

  lemma TriggersOnly(schema: string, table: string, start: string, kids: seq<Tree>)
    requires NamedColumns(kids)
    ensures AllOf(Triggers, AllStatements(Updates, schema, table, start, kids))
  {
    TriggersStem(schema, table, start, kids, 0);
    assert kids[0..] == kids;
  }

  lemma SequencesOnly(schema: string, table: string, start: string, kids: seq<Tree>)
    ensures AllOf(Series, AllStatements(AutoIncrements, schema, table, start, kids))
  {
    SequencesAre(schema, table, start, kids);
  }

  lemma IndexesOnly(schema: string, table: string, kids: seq<Tree>)
    ensures AllOf(Indices, IndexStatements(schema, table, kids))
  {
    IndexesAre(schema, table, kids);
  }

  lemma KeysOnly(table: string, kids: seq<Tree>)
    ensures AllOf(Keys, KeyStatements(table, kids))
  {
    KeysAre(table, kids);
  }

  lemma EmittedGroups(schema: string, kids: seq<Tree>, group: Group)
    requires NamedColumns(kids)
    ensures var table, start := TableName(kids), StartValue(kids);
            In(group, Emitted(schema, kids)) == match group
              case Triggers => AllStatements(Updates, schema, table, start, kids)
              case Indices => IndexStatements(schema, table, kids)
              case Series => AllStatements(AutoIncrements, schema, table, start, kids)
              case Keys => KeyStatements(table, kids)
  {
    var table, start := TableName(kids), StartValue(kids);
    TriggersOnly(schema, table, start, kids);
    IndexesOnly(schema, table, kids);
    SequencesOnly(schema, table, start, kids);
    KeysOnly(table, kids);
    InFour(group, AllStatements(Updates, schema, table, start, kids), IndexStatements(schema, table, kids),
      AllStatements(AutoIncrements, schema, table, start, kids), KeyStatements(table, kids));
  }

  /** The tables the grammar builds: neither a hoisted definition nor an option comes first, columns have names. */
  ghost predicate Parsed(kids: seq<Tree>) {
    Anchored(kids) && kids[0].kind != TableOptions && NamedColumns(kids)
  }

  ghost function Emission(schema: string, kids: seq<Tree>, group: Group): seq<Statement> {
    In(group, RewriteTable(schema, kids).statements)
  }

  /** The statements come group by group. */
  lemma StatementsAreGrouped(schema: string, kids: seq<Tree>)
    requires Parsed(kids)
    ensures RewriteTable(schema, kids).statements
            == Emission(schema, kids, Triggers) + Emission(schema, kids, Indices)
               + Emission(schema, kids, Series) + Emission(schema, kids, Keys)
  {
    StatementsAreConserved(schema, kids);
    EmittedGroups(schema, kids, Triggers);
    EmittedGroups(schema, kids, Indices);
    EmittedGroups(schema, kids, Series);
    EmittedGroups(schema, kids, Keys);
  }

  /** One sequence for each column with AUTO_INCREMENT, in order, with the table's name, the column's and the start. */
  lemma SequenceFields(schema: string, kids: seq<Tree>) returns (table: string, start: string)
    requires Parsed(kids)
    ensures NamesTable(kids, table) && StartsAt(kids, start)
    ensures SequencesFor(Emission(schema, kids, Series), schema, table, start, AutoColumns(kids))
  {
    table, start := TableName(kids), StartValue(kids);
    TableNameNames(kids);
    StartValueIsFirst(kids);
    FirstStartStarts(kids);
    StatementsAreConserved(schema, kids);
    EmittedGroups(schema, kids, Series);
    SequencesAre(schema, table, start, kids);
  }

  /** One index statement for each index, in order, with the table's name and the index's. */
  lemma IndexFields(schema: string, kids: seq<Tree>) returns (table: string)
    requires Parsed(kids)
    ensures NamesTable(kids, table) && IndexesFor(Emission(schema, kids, Indices), schema, table, Only(Index, kids))
  {
    table := TableName(kids);
    TableNameNames(kids);
    StatementsAreConserved(schema, kids);
    EmittedGroups(schema, kids, Indices);
    IndexesAre(schema, table, kids);
  }

  /** One ALTER TABLE for each foreign key, in order, with the table's name and the texts of the key's nodes. */
  lemma KeyFields(schema: string, kids: seq<Tree>) returns (table: string)
    requires Parsed(kids)
    ensures NamesTable(kids, table) && KeysFor(Emission(schema, kids, Keys), table, Only(ForeignKey, kids))
  {
    table := TableName(kids);
    TableNameNames(kids);
    StatementsAreConserved(schema, kids);
    EmittedGroups(schema, kids, Keys);
    KeysAre(table, kids);
  }

  /** Each trigger is that of some ON UPDATE clause; without neighbours one for each, in order. */
  lemma TriggerFields(schema: string, kids: seq<Tree>) returns (table: string)
    requires Parsed(kids)
    ensures NamesTable(kids, table)
    ensures forall st :: st in Emission(schema, kids, Triggers) ==> Stems(st, schema, table, kids)
    ensures NoNeighbours(kids) ==> TriggersTake(Emission(schema, kids, Triggers), schema, table, Clauses(kids))
  {
    table := TableName(kids);
    TableNameNames(kids);
    StatementsAreConserved(schema, kids);
    EmittedGroups(schema, kids, Triggers);
    TriggersStem(schema, table, StartValue(kids), kids, 0);
    assert kids[0..] == kids;
    if NoNeighbours(kids) {
      TriggersAre(schema, table, StartValue(kids), kids);
    }
  }
}
