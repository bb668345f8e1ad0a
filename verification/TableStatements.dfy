/** Which statements the CREATE TABLE pipeline emits, in terms of the table as it was parsed. */
module TableStatements {
  import opened Trees
  import opened TablePasses
  import opened TableLaws

  // ---------- the nodes of one kind, in order ----------

  ghost function Only(kind: Kind, kids: seq<Tree>): seq<Tree> {
    if kids == [] then []
    else if kids[0].kind == kind then [kids[0]] + Only(kind, kids[1..])
    else Only(kind, kids[1..])
  }

  lemma {:induction false} OnlyConcat(kind: Kind, a: seq<Tree>, b: seq<Tree>)
    ensures Only(kind, a + b) == Only(kind, a) + Only(kind, b)
    decreases |a|
  {
    if a == [] {
      assert a + b == b;
    } else {
      assert (a + b)[1..] == a[1..] + b;
      OnlyConcat(kind, a[1..], b);
    }
  }

  lemma OnlyOne(kind: Kind, t: Tree)
    ensures Only(kind, [t]) == if t.kind == kind then [t] else []
  {
    assert [t][1..] == [];
  }

  lemma OnlyDropComma(kind: Kind, done: seq<Tree>)
    requires kind != Comma
    ensures Only(kind, DropComma(done)) == Only(kind, done)
  {
    if done != [] && done[|done| - 1].kind == Comma {
      assert done == DropComma(done) + [done[|done| - 1]];
      OnlyConcat(kind, DropComma(done), [done[|done| - 1]]);
      OnlyOne(kind, done[|done| - 1]);
    }
  }

  lemma OnlySnoc(kind: Kind, done: seq<Tree>, t: Tree, rest: seq<Tree>)
    ensures Only(kind, done + [t]) + Only(kind, rest) == Only(kind, done) + Only(kind, [t] + rest)
  {
    OnlyConcat(kind, done, [t]);
    OnlyConcat(kind, [t], rest);
  }

  /** A hoisting pass loses and reorders nothing but the nodes it hoists and commas. */
  lemma {:induction false} OnlyHoist(kind: Kind, hoisted: Kind, done: seq<Tree>, todo: seq<Tree>)
    requires kind != Comma && kind != hoisted
    ensures Only(kind, Hoist(hoisted, done, todo)) == Only(kind, done) + Only(kind, todo)
    decreases |todo|
  {
    if todo != [] {
      if todo[0].kind == hoisted {
        OnlyHoist(kind, hoisted, DropComma(done), todo[1..]);
        OnlyDropComma(kind, done);
      } else {
        OnlyHoist(kind, hoisted, done + [todo[0]], todo[1..]);
        OnlySnoc(kind, done, todo[0], todo[1..]);
        assert [todo[0]] + todo[1..] == todo;
      }
    }
  }

  lemma OnlyMove(kind: Kind, done: seq<Tree>, todo: seq<Tree>)
    requires todo != []
    ensures Only(kind, done + [todo[0]]) + Only(kind, todo[1..]) == Only(kind, done) + Only(kind, todo)
  {
    OnlySnoc(kind, done, todo[0], todo[1..]);
    assert [todo[0]] + todo[1..] == todo;
  }

  lemma {:induction false} OnlyFulltext(kind: Kind, done: seq<Tree>, todo: seq<Tree>)
    requires kind != Comma && kind != Fulltext
    ensures Only(kind, DropFulltext(done, todo)) == Only(kind, done) + Only(kind, todo)
    decreases |todo|
  {
    if todo != [] {
      if todo[0].kind != Fulltext {
        OnlyFulltext(kind, done + [todo[0]], todo[1..]);
        OnlyMove(kind, done, todo);
      } else if |done| >= 2 && done[|done| - 1].kind == Comma {
        OnlyDropComma(kind, done);
        if |todo| > 1 {
          var rest := todo[1..];
          assert rest[0] == todo[1] && rest[1..] == todo[2..];
          OnlyFulltext(kind, DropComma(done) + [rest[0]], rest[1..]);
          OnlyMove(kind, DropComma(done), rest);
        }
      } else {
        OnlyFulltext(kind, done, todo[1..]);
      }
    }
  }

  lemma EditCons(pass: ColumnPass, t: Tree, rest: seq<Tree>)
    ensures EditAll(pass, [t] + rest) == [EditNode(pass, t)] + EditAll(pass, rest)
    ensures EditNode(pass, t).kind == t.kind
  {
  }

  lemma {:induction false} OnlyEdit(kind: Kind, pass: ColumnPass, kids: seq<Tree>)
    ensures Only(kind, EditAll(pass, kids)) == EditAll(pass, Only(kind, kids))
    decreases |kids|
  {
    if kids != [] {
      OnlyEdit(kind, pass, kids[1..]);
      EditCons(pass, kids[0], kids[1..]);
      assert [kids[0]] + kids[1..] == kids;
      assert EditAll(pass, kids)[1..] == EditAll(pass, kids[1..]);
      if kids[0].kind == kind {
        EditCons(pass, kids[0], Only(kind, kids[1..]));
      }
    }
  }

  lemma {:induction false} OnlyIsOfKind(kind: Kind, kids: seq<Tree>)
    ensures forall x :: x in Only(kind, kids) ==> x.kind == kind && x in kids
    decreases |kids|
  {
    if kids != [] {
      OnlyIsOfKind(kind, kids[1..]);
    }
  }

  lemma OnlyUnedited(kind: Kind, pass: ColumnPass, kids: seq<Tree>)
    requires kind != ColumnDef
    ensures Only(kind, EditAll(pass, kids)) == Only(kind, kids)
  {
    OnlyEdit(kind, pass, kids);
    OnlyIsOfKind(kind, kids);
    var only := Only(kind, kids);
    forall i | 0 <= i < |only| ensures EditNode(pass, only[i]) == only[i] { assert only[i] in only; }
  }

  lemma {:induction false} OnlySame(kind: Kind, a: seq<Tree>, b: seq<Tree>)
    requires |a| == |b| && forall i :: 0 <= i < |a| ==> a[i].kind == b[i].kind && (a[i].kind == kind ==> a[i] == b[i])
    ensures Only(kind, a) == Only(kind, b)
    decreases |a|
  {
    if a != [] {
      OnlySame(kind, a[1..], b[1..]);
    }
  }

  lemma OnlySpelled(kind: Kind, kids: seq<Tree>)
    requires kind != KwDouble
    ensures Only(kind, SpellDoubles(kids)) == Only(kind, kids)
  {
    OnlySame(kind, SpellDoubles(kids), kids);
  }

  // ---------- every emission depends on the nodes of one kind ----------

  lemma {:induction false} IndexEmissions(schema: string, table: string, kids: seq<Tree>)
    ensures IndexStatements(schema, table, kids) == IndexStatements(schema, table, Only(Index, kids))
    decreases |kids|
  {
    if kids != [] {
      IndexEmissions(schema, table, kids[1..]);
      if kids[0].kind == Index {
        assert Only(Index, kids)[1..] == Only(Index, kids[1..]);
      }
    }
  }

  lemma {:induction false} KeyEmissions(table: string, kids: seq<Tree>)
    ensures KeyStatements(table, kids) == KeyStatements(table, Only(ForeignKey, kids))
    decreases |kids|
  {
    if kids != [] {
      KeyEmissions(table, kids[1..]);
      if kids[0].kind == ForeignKey {
        assert Only(ForeignKey, kids)[1..] == Only(ForeignKey, kids[1..]);
      }
    }
  }

  lemma {:induction false} ColumnEmissions(pass: ColumnPass, schema: string, table: string, start: string,
      kids: seq<Tree>)
    ensures AllStatements(pass, schema, table, start, kids)
            == AllStatements(pass, schema, table, start, Only(ColumnDef, kids))
    decreases |kids|
  {
    if kids != [] {
      ColumnEmissions(pass, schema, table, start, kids[1..]);
      if kids[0].kind == ColumnDef {
        assert Only(ColumnDef, kids)[1..] == Only(ColumnDef, kids[1..]);
      }
    }
  }

  lemma {:induction false} FindIsOnly(kind: Kind, kids: seq<Tree>, from: nat)
    requires from <= |kids|
    ensures var k := Find(kids, from, kind);
            Only(kind, kids[from..]) == if k == |kids| then [] else [kids[k]] + Only(kind, kids[k + 1..])
    decreases |kids| - from
  {
    if from < |kids| {
      assert kids[from..][1..] == kids[from + 1..];
      if kids[from].kind != kind {
        FindIsOnly(kind, kids, from + 1);
        var k := Find(kids, from + 1, kind);
        assert Find(kids, from, kind) == k;
      } else {
        assert Find(kids, from, kind) == from;
      }
    }
  }

  /** The table's name is the text of its first identifier. */
  lemma TableNameIsFirst(kids: seq<Tree>)
    ensures TableName(kids) == if Only(Id, kids) == [] then "" else Only(Id, kids)[0].text
  {
    FindIsOnly(Id, kids, 0);
    assert kids[0..] == kids;
  }

  /** The number of the first option AUTO_INCREMENT = number, or 1. */
  ghost function FirstStart(options: seq<Tree>): string {
    if options == [] then "1"
    else if IsStartOption(options[0]) then options[0].children[2].text
    else FirstStart(options[1..])
  }

  lemma {:induction false} StartFromIsFirst(kids: seq<Tree>, from: nat)
    requires from <= |kids| && (from == 0 ==> kids != [] && kids[0].kind != TableOptions)
    ensures StartFrom(kids, from) == FirstStart(Only(TableOptions, kids[from..]))
    decreases |kids| - from
  {
    FindIsOnly(TableOptions, kids, from);
    var k := Find(kids, from, TableOptions);
    if k < |kids| {
      var rest := Only(TableOptions, kids[k + 1..]);
      assert k > 0 && Only(TableOptions, kids[from..]) == [kids[k]] + rest;
      FirstStartCons(kids[k], rest);
      StartFromIsFirst(kids, k + 1);
    }
  }

  lemma FirstStartCons(t: Tree, rest: seq<Tree>)
    ensures FirstStart([t] + rest) == if IsStartOption(t) then t.children[2].text else FirstStart(rest)
  {
    assert ([t] + rest)[1..] == rest;
  }

  /** The sequence start is the number of the first AUTO_INCREMENT = number option, 1 if there is none. */
  lemma StartValueIsFirst(kids: seq<Tree>)
    requires kids != [] && kids[0].kind != TableOptions
    ensures StartValue(kids) == FirstStart(Only(TableOptions, kids))
  {
    StartFromIsFirst(kids, 0);
    assert kids[0..] == kids;
  }

  /** An option node in the very first place ends the search, whatever it says. */
  lemma StartNeedsHeader(kids: seq<Tree>)
    requires kids != [] && kids[0].kind == TableOptions
    ensures StartValue(kids) == "1"
  {
    assert Find(kids, 0, TableOptions) == 0;
  }

  // ---------- a column's statements do not depend on the passes before ----------

  /** The grammar's columns begin with their name. */
  ghost predicate Named(def: Tree) {
    def.children != [] && def.children[0].kind == Id
  }

  ghost predicate NamedColumns(kids: seq<Tree>) {
    forall i :: 0 <= i < |kids| && kids[i].kind == ColumnDef ==> Named(kids[i])
  }

  ghost predicate SameTop(a: seq<Tree>, b: seq<Tree>) {
    && |a| == |b|
    && forall i :: 0 <= i < |a| ==>
      a[i].kind == b[i].kind && a[i].text == b[i].text && (a[i].kind == OnUpdate ==> a[i] == b[i])
  }

  lemma {:induction false} TriggersSame(schema: string, table: string, done: seq<Tree>, todo: seq<Tree>,
      done': seq<Tree>, todo': seq<Tree>)
    requires SameTop(done, done') && SameTop(todo, todo')
    ensures UpdateTriggers(schema, table, done, todo) == UpdateTriggers(schema, table, done', todo')
    decreases |todo|
  {
    if todo != [] {
      if todo[0].kind != OnUpdate {
        TriggersSame(schema, table, done + [todo[0]], todo[1..], done' + [todo'[0]], todo'[1..]);
      } else if |todo| > 1 {
        TriggersSame(schema, table, done + [todo[1]], todo[2..], done' + [todo'[1]], todo'[2..]);
      }
    }
  }

  lemma EnumsKeepTriggers(schema: string, table: string, start: string, def: Tree)
    ensures ColumnStatements(Updates, schema, table, start, EditColumn(Enums, def))
            == ColumnStatements(Updates, schema, table, start, def)
  {
    if def.children != [] {
      TriggersSame(schema, table, [], MarkEnums(def.children, def.children[0].text), [], def.children);
    }
  }

  lemma {:induction false} OnlyUpdates(kind: Kind, done: seq<Tree>, todo: seq<Tree>)
    requires kind != OnUpdate
    ensures Only(kind, DropUpdates(done, todo)) == Only(kind, done) + Only(kind, todo)
    decreases |todo|
  {
    if todo != [] {
      if todo[0].kind != OnUpdate {
        OnlyUpdates(kind, done + [todo[0]], todo[1..]);
        OnlyMove(kind, done, todo);
      } else if |todo| > 1 {
        var rest := todo[1..];
        assert rest[0] == todo[1] && rest[1..] == todo[2..];
        OnlyUpdates(kind, done + [rest[0]], rest[1..]);
        OnlyMove(kind, done, rest);
      }
    }
  }

  lemma {:induction false} UpdatesKeepFirst(done: seq<Tree>, todo: seq<Tree>)
    requires done != []
    ensures DropUpdates(done, todo) != [] && DropUpdates(done, todo)[0] == done[0]
    decreases |todo|
  {
    if todo != [] {
      if todo[0].kind != OnUpdate {
        UpdatesKeepFirst(done + [todo[0]], todo[1..]);
      } else if |todo| > 1 {
        UpdatesKeepFirst(done + [todo[1]], todo[2..]);
      }
    }
  }

  lemma HasKindCons(kind: Kind, kids: seq<Tree>)
    requires kids != []
    ensures HasKind(kids, kind) <==> kids[0].kind == kind || HasKind(kids[1..], kind)
  {
    if k :| 0 <= k < |kids[1..]| && kids[1..][k].kind == kind {
      assert kids[k + 1].kind == kind;
    }
    if k :| 0 < k < |kids| && kids[k].kind == kind {
      assert kids[1..][k - 1].kind == kind;
    }
  }

  lemma {:induction false} HasKindIsOnly(kind: Kind, kids: seq<Tree>)
    ensures HasKind(kids, kind) <==> Only(kind, kids) != []
    decreases |kids|
  {
    if kids != [] {
      HasKindCons(kind, kids);
      HasKindIsOnly(kind, kids[1..]);
    }
  }

  /** The name and the AUTO_INCREMENT word of a column. */
  ghost predicate AlikeForSequence(a: Tree, b: Tree) {
    && Named(a) && Named(b) && a.children[0].text == b.children[0].text
    && (HasKind(a.children, KwAutoIncrement) <==> HasKind(b.children, KwAutoIncrement))
  }

  lemma EnumsAlike(def: Tree)
    requires Named(def)
    ensures AlikeForSequence(def, EditColumn(Enums, def))
  {
    var marked := MarkEnums(def.children, def.children[0].text);
    assert forall i :: 0 <= i < |marked| ==>
           marked[i].kind == def.children[i].kind && marked[i].text == def.children[i].text;
  }

  lemma UpdatesAlike(def: Tree)
    requires Named(def)
    ensures AlikeForSequence(def, EditColumn(Updates, def))
  {
    var kids := def.children;
    var none: seq<Tree> := [];
    assert none + [kids[0]] == [kids[0]] && none + Only(KwAutoIncrement, kids) == Only(KwAutoIncrement, kids);
    UpdatesKeepFirst([kids[0]], kids[1..]);
    OnlyUpdates(KwAutoIncrement, none, kids);
    HasKindIsOnly(KwAutoIncrement, kids);
    HasKindIsOnly(KwAutoIncrement, DropUpdates(none, kids));
  }

  lemma NoKindBetween(a: seq<Tree>, gone: seq<Tree>, b: seq<Tree>, kind: Kind)
    requires !HasKind(gone, kind)
    ensures HasKind(a + b, kind) <==> HasKind(a + (gone + b), kind)
  {
    NoKindConcat(a, b, kind);
    NoKindConcat(a, gone + b, kind);
    NoKindConcat(gone, b, kind);
  }

  lemma NotNullAlike(kids: seq<Tree>, kind: Kind)
    requires kids != [] && kids[0].kind != KwNot && kind != KwNot && kind != KwNull
    ensures DropNotNull(kids) != [] && DropNotNull(kids)[0] == kids[0]
    ensures HasKind(DropNotNull(kids), kind) <==> HasKind(kids, kind)
  {
    var k := FindNotNull(kids, 0);
    if k < |kids| {
      var a, gone, b := kids[..k], [kids[k], kids[k + 1]], kids[k + 2..];
      assert kids == a + (gone + b);
      NoKindBetween(a, gone, b, kind);
    }
  }

  lemma ZeroDatesAlike(def: Tree)
    requires Named(def)
    ensures AlikeForSequence(def, EditColumn(ZeroDates, def))
  {
    NotNullAlike(def.children, KwAutoIncrement);
  }

  ghost function BeforeSequences(def: Tree): Tree {
    EditColumn(ZeroDates, EditColumn(Updates, EditColumn(Enums, def)))
  }

  lemma SequencesUnaffected(schema: string, table: string, start: string, def: Tree)
    requires Named(def)
    ensures ColumnStatements(AutoIncrements, schema, table, start, BeforeSequences(def))
            == ColumnStatements(AutoIncrements, schema, table, start, def)
  {
    EnumsAlike(def);
    UpdatesAlike(EditColumn(Enums, def));
    ZeroDatesAlike(EditColumn(Updates, EditColumn(Enums, def)));
  }

  lemma {:induction false} StatementsSame(pass: ColumnPass, schema: string, table: string, start: string, a: seq<Tree>,
      b: seq<Tree>)
    requires |a| == |b|
    requires forall i :: 0 <= i < |a| ==> a[i].kind == ColumnDef == b[i].kind
    requires forall i :: 0 <= i < |a| ==>
               ColumnStatements(pass, schema, table, start, a[i]) == ColumnStatements(pass, schema, table, start, b[i])
    ensures AllStatements(pass, schema, table, start, a) == AllStatements(pass, schema, table, start, b)
    decreases |a|
  {
    if a != [] {
      StatementsSame(pass, schema, table, start, a[1..], b[1..]);
    }
  }

  lemma TriggersOfColumns(schema: string, table: string, start: string, cols: seq<Tree>)
    requires forall i :: 0 <= i < |cols| ==> cols[i].kind == ColumnDef && Named(cols[i])
    ensures AllStatements(Updates, schema, table, start, EditAll(Enums, cols))
            == AllStatements(Updates, schema, table, start, cols)
  {
    var edited := EditAll(Enums, cols);
    forall i | 0 <= i < |cols|
      ensures edited[i].kind == ColumnDef
      ensures ColumnStatements(Updates, schema, table, start, edited[i])
              == ColumnStatements(Updates, schema, table, start, cols[i])
    {
      EnumsKeepTriggers(schema, table, start, cols[i]);
    }
    StatementsSame(Updates, schema, table, start, edited, cols);
  }

  lemma SequencesOfColumns(schema: string, table: string, start: string, cols: seq<Tree>)
    requires forall i :: 0 <= i < |cols| ==> cols[i].kind == ColumnDef && Named(cols[i])
    ensures AllStatements(AutoIncrements, schema, table, start,
            EditAll(ZeroDates, EditAll(Updates, EditAll(Enums, cols))))
            == AllStatements(AutoIncrements, schema, table, start, cols)
  {
    var edited := EditAll(ZeroDates, EditAll(Updates, EditAll(Enums, cols)));
    forall i | 0 <= i < |cols|
      ensures edited[i].kind == ColumnDef
      ensures ColumnStatements(AutoIncrements, schema, table, start, edited[i])
              == ColumnStatements(AutoIncrements, schema, table, start, cols[i])
    {
      assert edited[i] == BeforeSequences(cols[i]);
      SequencesUnaffected(schema, table, start, cols[i]);
    }
    StatementsSame(AutoIncrements, schema, table, start, edited, cols);
  }

  // ---------- the statements of the whole pipeline ----------

  lemma {:induction false} QuietPass(pass: ColumnPass, schema: string, table: string, start: string, kids: seq<Tree>)
    requires pass == Enums || pass == ZeroDates
    ensures AllStatements(pass, schema, table, start, kids) == []
    decreases |kids|
  {
    if kids != [] {
      QuietPass(pass, schema, table, start, kids[1..]);
    }
  }

  /** The children as the ON UPDATE pass finds them. */
  ghost function ForUpdates(kids: seq<Tree>): seq<Tree> {
    SpellDoubles(EditAll(Enums, kids))
  }

  ghost function ForIndexes(kids: seq<Tree>): seq<Tree> {
    EditAll(ZeroDates, EditAll(Updates, ForUpdates(kids)))
  }

  ghost function ForSequences(kids: seq<Tree>): seq<Tree> {
    Hoist(Index, [], ForIndexes(kids))
  }

  ghost function ForKeys(kids: seq<Tree>): seq<Tree> {
    DropFulltext([], EditAll(AutoIncrements, ForSequences(kids)))
  }

  lemma OnlyForIndexes(kind: Kind, kids: seq<Tree>)
    requires kind !in {ColumnDef, KwDouble, Comma}
    ensures Only(kind, ForUpdates(kids)) == Only(kind, ForIndexes(kids)) == Only(kind, kids)
  {
    OnlyUnedited(kind, Enums, kids);
    OnlySpelled(kind, EditAll(Enums, kids));
    OnlyUnedited(kind, Updates, ForUpdates(kids));
    OnlyUnedited(kind, ZeroDates, EditAll(Updates, ForUpdates(kids)));
  }

  lemma OnlyHoistAll(kind: Kind, hoisted: Kind, kids: seq<Tree>)
    requires kind != Comma && kind != hoisted
    ensures Only(kind, Hoist(hoisted, [], kids)) == Only(kind, kids)
  {
    var none: seq<Tree> := [];
    OnlyHoist(kind, hoisted, none, kids);
    assert Only(kind, none) + Only(kind, kids) == Only(kind, kids);
  }

  lemma OnlyFulltextAll(kind: Kind, kids: seq<Tree>)
    requires kind != Comma && kind != Fulltext
    ensures Only(kind, DropFulltext([], kids)) == Only(kind, kids)
  {
    var none: seq<Tree> := [];
    OnlyFulltext(kind, none, kids);
    assert Only(kind, none) + Only(kind, kids) == Only(kind, kids);
  }

  lemma OnlyForSequences(kind: Kind, kids: seq<Tree>)
    requires kind !in {ColumnDef, KwDouble, Comma, Index}
    ensures Only(kind, ForSequences(kids)) == Only(kind, kids)
  {
    OnlyForIndexes(kind, kids);
    OnlyHoistAll(kind, Index, ForIndexes(kids));
  }

  lemma OnlyForKeys(kind: Kind, kids: seq<Tree>)
    requires kind !in {ColumnDef, KwDouble, Comma, Index, Fulltext}
    ensures Only(kind, ForKeys(kids)) == Only(kind, kids)
  {
    OnlyForSequences(kind, kids);
    OnlyUnedited(kind, AutoIncrements, ForSequences(kids));
    OnlyFulltextAll(kind, EditAll(AutoIncrements, ForSequences(kids)));
  }

  lemma OnlyAtStages(kind: Kind, kids: seq<Tree>)
    requires kind !in {ColumnDef, KwDouble, Comma}
    ensures Only(kind, ForUpdates(kids)) == Only(kind, ForIndexes(kids)) == Only(kind, kids)
    ensures kind != Index ==> Only(kind, ForSequences(kids)) == Only(kind, kids)
    ensures kind != Index && kind != Fulltext ==> Only(kind, ForKeys(kids)) == Only(kind, kids)
  {
    OnlyForIndexes(kind, kids);
    if kind != Index {
      OnlyForSequences(kind, kids);
      if kind != Fulltext {
        OnlyForKeys(kind, kids);
      }
    }
  }

  lemma ColumnsAtStages(kids: seq<Tree>)
    ensures Only(ColumnDef, ForUpdates(kids)) == EditAll(Enums, Only(ColumnDef, kids))
    ensures Only(ColumnDef, ForSequences(kids))
            == EditAll(ZeroDates, EditAll(Updates, EditAll(Enums, Only(ColumnDef, kids))))
  {
    OnlyEdit(ColumnDef, Enums, kids);
    OnlySpelled(ColumnDef, EditAll(Enums, kids));
    OnlyEdit(ColumnDef, Updates, ForUpdates(kids));
    OnlyEdit(ColumnDef, ZeroDates, EditAll(Updates, ForUpdates(kids)));
    OnlyHoistAll(ColumnDef, Index, ForIndexes(kids));
  }

  /** The passes look up the same table name at every stage. */
  lemma NameAtStages(kids: seq<Tree>)
    ensures TableName(ForUpdates(kids)) == TableName(ForIndexes(kids)) == TableName(ForSequences(kids))
            == TableName(ForKeys(kids)) == TableName(kids)
  {
    OnlyAtStages(Id, kids);
    TableNameIsFirst(kids);
    TableNameIsFirst(ForUpdates(kids));
    TableNameIsFirst(ForIndexes(kids));
    TableNameIsFirst(ForSequences(kids));
    TableNameIsFirst(ForKeys(kids));
  }

  /** The options are all still there when the sequences look for their start value. */
  lemma StartAtStages(kids: seq<Tree>)
    requires Anchored(kids) && kids[0].kind != TableOptions
    ensures StartValue(ForSequences(kids)) == StartValue(kids)
  {
    assert ForIndexes(kids)[0].kind == kids[0].kind;
    HoistsAreWorkable(Index, ForIndexes(kids));
    OnlyAtStages(TableOptions, kids);
    StartValueIsFirst(kids);
    StartValueIsFirst(ForSequences(kids));
  }

  /** What the table emits: triggers, then indexes, then sequences, then foreign keys, each per item in source order. */
  ghost function Emitted(schema: string, kids: seq<Tree>): seq<Statement> {
    var table, start := TableName(kids), StartValue(kids);
    AllStatements(Updates, schema, table, start, kids)
    + IndexStatements(schema, table, kids)
    + AllStatements(AutoIncrements, schema, table, start, kids)
    + KeyStatements(table, kids)
  }

  lemma ColumnStatementsAtStages(schema: string, table: string, start: string, start': string, kids: seq<Tree>)
    requires NamedColumns(kids)
    ensures AllStatements(Updates, schema, table, start', ForUpdates(kids))
            == AllStatements(Updates, schema, table, start, kids)
    ensures AllStatements(AutoIncrements, schema, table, start, ForSequences(kids))
            == AllStatements(AutoIncrements, schema, table, start, kids)
  {
    var cols := Only(ColumnDef, kids);
    ColumnsAtStages(kids);
    OnlyIsOfKind(ColumnDef, kids);
    forall i | 0 <= i < |cols| ensures cols[i].kind == ColumnDef && Named(cols[i]) { assert cols[i] in cols; }
    TriggersOfColumns(schema, table, start, cols);
    SequencesOfColumns(schema, table, start, cols);
    ColumnEmissions(Updates, schema, table, start, kids);
    ColumnEmissions(Updates, schema, table, start, ForUpdates(kids));
    StartIsUnused(schema, table, start, start', ForUpdates(kids));
    ColumnEmissions(AutoIncrements, schema, table, start, kids);
    ColumnEmissions(AutoIncrements, schema, table, start, ForSequences(kids));
  }

  lemma {:induction false} StartIsUnused(schema: string, table: string, start: string, start': string, kids: seq<Tree>)
    ensures AllStatements(Updates, schema, table, start, kids) == AllStatements(Updates, schema, table, start', kids)
    decreases |kids|
  {
    if kids != [] {
      StartIsUnused(schema, table, start, start', kids[1..]);
    }
  }

  lemma IndexesAndKeysAtStages(schema: string, table: string, kids: seq<Tree>)
    ensures IndexStatements(schema, table, ForIndexes(kids)) == IndexStatements(schema, table, kids)
    ensures KeyStatements(table, ForKeys(kids)) == KeyStatements(table, kids)
  {
    OnlyAtStages(Index, kids);
    OnlyAtStages(ForeignKey, kids);
    IndexEmissions(schema, table, kids);
    IndexEmissions(schema, table, ForIndexes(kids));
    KeyEmissions(table, kids);
    KeyEmissions(table, ForKeys(kids));
  }

  /**
    The nine passes emit exactly what the table as parsed calls for, although each works on what the ones before left.
   */
  lemma StatementsAreConserved(schema: string, kids: seq<Tree>)
    requires Anchored(kids) && kids[0].kind != TableOptions && NamedColumns(kids)
    ensures RewriteTable(schema, kids).statements == Emitted(schema, kids)
  {
    var table := TableName(kids);
    StatementsAtStages(schema, kids);
    NameAtStages(kids);
    StartAtStages(kids);
    ColumnStatementsAtStages(schema, table, StartValue(kids), StartValue(ForUpdates(kids)), kids);
    IndexesAndKeysAtStages(schema, table, kids);
  }

  lemma ColumnStageIs(schema: string, kids: seq<Tree>)
    ensures ColumnStage(schema, kids) == Rewritten(ForIndexes(kids),
              AllStatements(Updates, schema, TableName(ForUpdates(kids)), StartValue(ForUpdates(kids)),
                ForUpdates(kids)))
  {
    QuietPass(Enums, schema, TableName(kids), StartValue(kids), kids);
    var k3 := EditAll(Updates, ForUpdates(kids));
    QuietPass(ZeroDates, schema, TableName(k3), StartValue(k3), k3);
    var u := AllStatements(Updates, schema, TableName(ForUpdates(kids)), StartValue(ForUpdates(kids)),
      ForUpdates(kids));
    assert Then(Columns(Enums), schema, Rewritten(kids, [])) == Rewritten(EditAll(Enums, kids), []);
    assert Then(Datatypes, schema, Rewritten(EditAll(Enums, kids), [])) == Rewritten(ForUpdates(kids), []);
    assert [] + u == u && u + [] == u;
  }

  lemma QuietPasses(p: TablePass, schema: string, r: Rewritten)
    requires p in {FulltextIndexes, Options}
    ensures Then(p, schema, r) == Rewritten(Pass(p, r.kids), r.statements)
  {
    assert r.statements + [] == r.statements;
  }

  lemma ThenIndexes(schema: string, r: Rewritten)
    ensures Then(Indexes, schema, r)
            == Rewritten(Hoist(Index, [], r.kids), r.statements + IndexStatements(schema, TableName(r.kids), r.kids))
  {
  }

  lemma ThenSequences(schema: string, r: Rewritten)
    ensures Then(Columns(AutoIncrements), schema, r).kids == EditAll(AutoIncrements, r.kids)
    ensures Then(Columns(AutoIncrements), schema, r).statements
            == r.statements + AllStatements(AutoIncrements, schema, TableName(r.kids), StartValue(r.kids), r.kids)
  {
  }

  lemma ThenKeys(schema: string, r: Rewritten)
    ensures Then(Options, schema, Then(ForeignKeys, schema, Then(FulltextIndexes, schema, r))).statements
            == r.statements + KeyStatements(TableName(DropFulltext([], r.kids)), DropFulltext([], r.kids))
  {
    var r7 := Then(FulltextIndexes, schema, r);
    QuietPasses(FulltextIndexes, schema, r);
    QuietPasses(Options, schema, Then(ForeignKeys, schema, r7));
  }

  lemma HoistStageIs(schema: string, k: seq<Tree>, u: seq<Statement>)
    ensures var k5 := Hoist(Index, [], k);
            var k7 := DropFulltext([], EditAll(AutoIncrements, k5));
            HoistStage(schema, Rewritten(k, u)).statements
            == u + IndexStatements(schema, TableName(k), k)
               + AllStatements(AutoIncrements, schema, TableName(k5), StartValue(k5), k5)
               + KeyStatements(TableName(k7), k7)
  {
    var r5 := Then(Indexes, schema, Rewritten(k, u));
    ThenIndexes(schema, Rewritten(k, u));
    ThenSequences(schema, r5);
    ThenKeys(schema, Then(Columns(AutoIncrements), schema, r5));
  }

  /** The pipeline's statements, stage by stage. */
  lemma StatementsAtStages(schema: string, kids: seq<Tree>)
    ensures RewriteTable(schema, kids).statements
            == AllStatements(Updates, schema, TableName(ForUpdates(kids)), StartValue(ForUpdates(kids)),
              ForUpdates(kids))
               + IndexStatements(schema, TableName(ForIndexes(kids)), ForIndexes(kids))
               + AllStatements(AutoIncrements, schema, TableName(ForSequences(kids)), StartValue(ForSequences(kids)),
                 ForSequences(kids))
               + KeyStatements(TableName(ForKeys(kids)), ForKeys(kids))
  {
    RewriteTableInStages(schema, kids);
    ColumnStageIs(schema, kids);
    HoistStageIs(schema, ForIndexes(kids), ColumnStage(schema, kids).statements);
  }
}
