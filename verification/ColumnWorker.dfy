/** The passes over the column definitions, on the mutable tree. */
module ColumnWorker {
  import opened Sequences
  import opened Wrappers
  import opened Trees
  import opened Nodes
  import opened NodeSearch
  import opened TablePasses
  import opened TableLaws

  /** struct walker_state_struct: the schema of the latest USE and the statements collected so far. */
  class WalkerState {
    var schemaName: string
    var postbuf: seq<Statement>

    constructor ()
      ensures schemaName == "" && postbuf == []
    {
      schemaName, postbuf := "", [];
    }
  }

  lemma KindsKeepFind(a: seq<Tree>, b: seq<Tree>, from: nat, kind: Kind)
    requires |a| == |b| && from <= |a| && forall k :: 0 <= k < |a| ==> a[k].kind == b[k].kind
    ensures Find(a, from, kind) == Find(b, from, kind)
  {
  }

  /** create_rewrite_enum, the text of the type word. */
  method MarkWord(t: Node, column: string)
    requires t.Valid() && EnumReady(t.model)
    modifies t.repr
    ensures t.Valid() && t.repr == old(t.repr)
    ensures var kids, e := old(t.model.children), EnumWord(old(t.model.children));
            t.model == old(t.model).(children := kids[e := kids[e].(text := CheckText(column))])
  {
    var e := LookAheadIndex(t, 0, KwEnum);
    if e < 0 {
      e := LookAheadIndex(t, 0, KwSet);
    }
    t.SetChildText(e, CheckText(column));
  }

  /** create_rewrite_enum, one ENUM or SET node. */
  method RewriteEnum(t: Node, column: string)
    requires t.Valid() && EnumReady(t.model)
    modifies t.repr
    ensures t.Valid() && fresh(t.repr - old(t.repr))
    ensures t.model == MarkEnum(old(t.model), column)
  {
    ghost var kids := t.model.children;
    MarkWord(t, column);
    KindsKeepFind(kids, t.model.children, 0, RParen);
    var rparen := LookAheadIndex(t, 0, RParen);
    t.Child(rparen);
    var rr := Duplicate(t.children[rparen]);
    t.AddChild(rr);
  }

  /** The children with the enum nodes before `from` rewritten. */
  ghost function MarkedTo(kids: seq<Tree>, column: string, from: nat): (r: seq<Tree>)
    ensures |r| == |kids|
  {
    seq(|kids|, i requires 0 <= i < |kids| => if i < from then MarkNode(kids[i], column) else kids[i])
  }

  lemma MarkedStep(kids: seq<Tree>, column: string, from: nat, pos: nat)
    requires pos == Look(kids, from, EnumType) && EnumReady(kids[pos])
    ensures MarkedTo(kids, column, from)[pos] == kids[pos]
    ensures MarkedTo(kids, column, pos + 1) == MarkedTo(kids, column, from)[pos := MarkEnum(kids[pos], column)]
  {
    var now, next := MarkedTo(kids, column, from), MarkedTo(kids, column, pos + 1);
    forall i | 0 <= i < |kids| ensures next[i] == if i == pos then MarkEnum(kids[pos], column) else now[i] {
      if from <= i < pos { assert kids[i].kind != EnumType; }
    }
  }

  lemma MarkedAll(kids: seq<Tree>, column: string, from: nat)
    requires Look(kids, from, EnumType) == -1
    ensures MarkedTo(kids, column, from) == MarkEnums(kids, column)
  {
    forall i | 0 <= i < |kids| ensures MarkedTo(kids, column, from)[i] == MarkEnums(kids, column)[i] {
      if from <= i { assert kids[i].kind != EnumType; }
    }
  }

  lemma MarkedLooks(kids: seq<Tree>, column: string, done: nat, from: nat)
    ensures Look(MarkedTo(kids, column, done), from, EnumType) == Look(kids, from, EnumType)
    ensures kids != [] ==> MarkedTo(kids, column, done)[0].text == kids[0].text
  {
    var marked := MarkedTo(kids, column, done);
    assert forall k :: 0 <= k < |kids| ==> marked[k].kind == kids[k].kind;
    if from <= |kids| {
      KindsKeepFind(marked, kids, from, EnumType);
    }
  }

  method RewriteEnumChild(def: Node, pos: nat, column: string)
    requires def.Valid() && pos < |def.children| == |def.model.children| && EnumReady(def.model.children[pos])
    modifies def.repr
    ensures def.Valid() && fresh(def.repr - old(def.repr))
    ensures var kids := old(def.model.children);
            def.model == old(def.model).(children := kids[pos := MarkEnum(kids[pos], column)])
  {
    def.Child(pos);
    label L:
    RewriteEnum(def.children[pos], column);
    def.SiblingsKeep@L(pos);
    def.Resync(pos);
  }

  ghost function NameOf(kids: seq<Tree>): string {
    if kids == [] then "" else kids[0].text
  }

  /** Where the loop over a column's enum nodes stands. */
  ghost predicate EnumsStand(kids: seq<Tree>, from: nat, now: seq<Tree>) {
    |now| == |kids| && forall k {:trigger Inspect(k)} :: Inspect(k) ==> now == MarkedTo(kids, NameOf(kids), from)
  }

  lemma EnumsBegin(kids: seq<Tree>)
    ensures EnumsStand(kids, 0, kids)
  {
    assert MarkedTo(kids, NameOf(kids), 0) == kids;
  }

  lemma EnumsRound(kids: seq<Tree>, from: nat, now: seq<Tree>, pos: nat)
    requires EnumsStand(kids, from, now) && pos == Look(kids, from, EnumType) && EnumReady(kids[pos])
    ensures now[pos] == kids[pos] && now[0].text == NameOf(kids)
    ensures var next := now[pos := MarkEnum(kids[pos], NameOf(kids))];
            EnumsStand(kids, pos + 1, next) && Look(next, pos + 1, EnumType) == Look(kids, pos + 1, EnumType)
  {
    assert Inspect(0);
    MarkedStep(kids, NameOf(kids), from, pos);
    MarkedLooks(kids, NameOf(kids), from, 0);
    MarkedLooks(kids, NameOf(kids), pos + 1, pos + 1);
  }

  lemma EnumsEnd(kids: seq<Tree>, from: nat, now: seq<Tree>)
    requires EnumsStand(kids, from, now) && Look(kids, from, EnumType) == -1
    ensures now == MarkEnums(kids, NameOf(kids))
  {
    assert Inspect(0);
    MarkedAll(kids, NameOf(kids), from);
  }

  ghost predicate EnumsReady(kids: seq<Tree>) {
    forall k {:trigger Inspect(k)} :: Inspect(k) ==>
      forall j :: 0 <= j < |kids| && kids[j].kind == EnumType ==> EnumReady(kids[j])
  }

  lemma ReadyAt(kids: seq<Tree>, pos: nat)
    requires EnumsReady(kids) && pos < |kids| && kids[pos].kind == EnumType
    ensures EnumReady(kids[pos])
  {
    assert Inspect(0);
  }

  /** The column `original` as the loop finds it: the enum nodes before `from` done. */
  ghost predicate Marking(def: Node, original: Tree, from: nat)
    reads def, def.repr
  {
    forall k {:trigger Inspect(k)} :: Inspect(k) ==>
      && def.Valid() && def.model == original.(children := def.model.children)
      && EnumsStand(original.children, from, def.model.children)
  }

  lemma OpenMarking(def: Node, original: Tree, from: nat)
    requires Marking(def, original, from)
    ensures def.Valid() && def.model == original.(children := def.model.children)
            && EnumsStand(original.children, from, def.model.children)
  {
    assert Inspect(0);
  }

  method RewriteThisEnum(def: Node, pos: nat, ghost original: Tree, ghost from: nat)
    requires Marking(def, original, from) && pos == Look(original.children, from, EnumType)
             && EnumsReady(original.children)
    modifies def.repr
    ensures Marking(def, original, pos + 1) && fresh(def.repr - old(def.repr))
    ensures def.Valid() && Look(def.model.children, pos + 1, EnumType) == Look(original.children, pos + 1, EnumType)
  {
    ReadyAt(original.children, pos);
    OpenMarking(def, original, from);
    EnumsRound(original.children, from, def.model.children, pos);
    def.Top();
    def.Child(0);
    RewriteEnumChild(def, pos, def.children[0].text);
  }

  /** One round of create_rewrite_enum in a column: rewrite this node, find the next. */
  method RewriteNextEnum(def: Node, pos: nat, ghost original: Tree, ghost from: nat) returns (next: int)
    requires Marking(def, original, from) && pos == Look(original.children, from, EnumType)
             && EnumsReady(original.children)
    modifies def.repr
    ensures Marking(def, original, pos + 1) && fresh(def.repr - old(def.repr))
    ensures next == Look(original.children, pos + 1, EnumType) && from <= pos < |original.children|
  {
    RewriteThisEnum(def, pos, original, from);
    next := LookAheadIndex(def, pos + 1, EnumType);
  }

  lemma EnumsColumn(def: Tree)
    ensures EditColumn(Enums, def) == def.(children := MarkEnums(def.children, NameOf(def.children)))
  {
    if def.children == [] {
      assert MarkEnums(def.children, "") == def.children;
    }
  }

  /** What the loop is to come to. */
  ghost predicate MarkGoal(original: Tree, goal: Tree) {
    forall k {:trigger Inspect(k)} :: Inspect(k) ==> goal == EditColumn(Enums, original)
  }

  /** The loop over a column's enum nodes. */
  method MarkEach(def: Node, ghost goal: Tree)
    requires def.Valid() && EnumsReady(def.model.children) && MarkGoal(def.model, goal)
    modifies def.repr
    ensures def.Valid() && fresh(def.repr - old(def.repr)) && def.model == goal
  {
    ghost var original, from := def.model, 0;
    EnumsBegin(original.children);
    var pos := LookAheadIndex(def, 0, EnumType);
    while pos > -1
      invariant Marking(def, original, from) && fresh(def.repr - old(def.repr))
                && pos == Look(original.children, from, EnumType)
      decreases |original.children| - from
    {
      var next := RewriteNextEnum(def, pos, original, from);
      from, pos := pos + 1, next;
    }
    MarkingDone(def, original, from, goal);
  }

  /** create_rewrite_enum, one column. */
  method RewriteEnums(def: Node)
    requires def.Valid() && EnumsReady(def.model.children)
    modifies def.repr
    ensures def.Valid() && fresh(def.repr - old(def.repr))
    ensures def.model == EditColumn(Enums, old(def.model))
  {
    MarkEach(def, EditColumn(Enums, def.model));
  }

  lemma MarkingDone(def: Node, original: Tree, from: nat, goal: Tree)
    requires Marking(def, original, from) && Look(original.children, from, EnumType) == -1 && MarkGoal(original, goal)
    ensures def.Valid() && def.model == goal
  {
    assert Inspect(0);
    EnumsEnd(original.children, from, def.model.children);
    EnumsColumn(original);
  }

  lemma {:induction false} ExpressionAppend(a: seq<Tree>, t: Tree)
    ensures Expression(a + [t]) == Expression(a) + (if t.kind == KwOn || t.kind == KwUpdate then [] else [t.text])
    decreases |a|
  {
    if a == [] {
      assert a + [t] == [t] && [t][1..] == [];
    } else {
      assert (a + [t])[1..] == a[1..] + [t];
      ExpressionAppend(a[1..], t);
    }
  }

  /** The expression behind ON UPDATE, word by word. */
  method CollectExpression(t: Node) returns (expr: seq<string>)
    requires t.Valid()
    ensures expr == Expression(t.model.children)
  {
    t.Top();
    expr := [];
    for c := 0 to |t.children|
      invariant expr == Expression(t.model.children[..c])
    {
      t.Child(c);
      ExpressionAppend(t.model.children[..c], t.model.children[c]);
      assert t.model.children[..c + 1] == t.model.children[..c] + [t.model.children[c]];
      if t.children[c].kind != KwOn && t.children[c].kind != KwUpdate {
        expr := expr + [t.children[c].text];
      }
    }
    assert t.model.children[..|t.children|] == t.model.children;
  }

  /** create_table_rewrite_onupdate, one ON UPDATE child: its trigger goes out, the child goes. */
  method RewriteUpdate(ws: WalkerState, def: Node, table: string, pos: nat)
    requires def.Valid() && pos < |def.children| == |def.model.children|
    modifies ws`postbuf, def.repr
    ensures def.Valid() && def.repr == old(def.repr)
    ensures def.model == old(def.model.(children := Removed(def.model.children, pos)))
    ensures var kids := old(def.model.children);
            ws.postbuf
            == old(ws.postbuf) + [UpdateTrigger(ws.schemaName, table, kids[0].text, Expression(kids[pos].children))]
  {
    def.Top();
    def.Child(0);
    def.Child(pos);
    var expr := CollectExpression(def.children[pos]);
    ws.postbuf := ws.postbuf + [UpdateTrigger(ws.schemaName, table, def.children[0].text, expr)];
    def.DeleteChild(pos);
  }

  /** One round of create_table_rewrite_onupdate in a column: hoist this child, find the next. */
  method RewriteNextUpdate(ws: WalkerState, def: Node, table: string, pos: nat, ghost from: nat, ghost goal: seq<Tree>,
      ghost sts: seq<Statement>)
    returns (next: int)
    requires def.Valid() && pos == Look(def.model.children, from, OnUpdate)
    requires UpdatesAhead(ws.schemaName, table, def.model.children, from, ws.postbuf, goal, sts)
    modifies ws`postbuf, def.repr
    ensures def.Valid() && def.repr == old(def.repr) && def.model == old(def.model).(children := def.model.children)
    ensures |def.model.children| < |old(def.model.children)| && next == Look(def.model.children, pos + 1, OnUpdate)
    ensures UpdatesAhead(ws.schemaName, table, def.model.children, pos + 1, ws.postbuf, goal, sts)
  {
    UpdatesAheadStep(ws.schemaName, table, def.model.children, from, pos, ws.postbuf, goal, sts);
    def.Top();
    RewriteUpdate(ws, def, table, pos);
    next := LookAheadIndex(def, pos + 1, OnUpdate);
  }

  /** create_table_rewrite_onupdate, one column. */
  method RewriteUpdates(ws: WalkerState, def: Node, table: string)
    requires def.Valid()
    modifies ws`postbuf, def.repr
    ensures def.Valid() && def.repr == old(def.repr)
    ensures def.model == EditColumn(Updates, old(def.model))
    ensures ws.postbuf == old(ws.postbuf + UpdateTriggers(ws.schemaName, table, [], def.model.children))
  {
    ghost var schema, before, original, from := ws.schemaName, ws.postbuf, def.model, 0;
    ghost var all := UpdatesFrom(schema, table, original.children, 0);
    UpdatesStart(schema, table, original.children);
    var pos := LookAheadIndex(def, 0, OnUpdate);
    while pos > -1
      invariant def.Valid() && def.repr == old(def.repr) && ws.schemaName == schema
      invariant def.model == original.(children := def.model.children)
                && pos == Look(def.model.children, from, OnUpdate)
      invariant UpdatesAhead(schema, table, def.model.children, from, ws.postbuf, all.kids, before + all.statements)
      decreases |def.model.children|
    {
      var next := RewriteNextUpdate(ws, def, table, pos, from, all.kids, before + all.statements);
      from, pos := pos + 1, next;
    }
    UpdatesAheadDone(schema, table, def.model.children, from, ws.postbuf, all.kids, before + all.statements);
  }

  /** What the loop still has to come to. */
  ghost predicate UpdatesAhead(schema: string, table: string, kids: seq<Tree>, from: nat, postbuf: seq<Statement>,
      goal: seq<Tree>, sts: seq<Statement>) {
    forall k {:trigger Inspect(k)} :: Inspect(k) ==>
      var rest := UpdatesFrom(schema, table, kids, from); rest.kids == goal && postbuf + rest.statements == sts
  }

  lemma UpdatesAheadStep(schema: string, table: string, kids: seq<Tree>, from: nat, pos: nat, postbuf: seq<Statement>,
      goal: seq<Tree>, sts: seq<Statement>)
    requires UpdatesAhead(schema, table, kids, from, postbuf, goal, sts) && pos == Look(kids, from, OnUpdate)
    ensures UpdatesAhead(schema, table, Removed(kids, pos), pos + 1,
                         postbuf + [UpdateTrigger(schema, table, kids[0].text, Expression(kids[pos].children))],
                         goal, sts)
  {
    assert Inspect(0);
    UpdatesStep(schema, table, kids, from, pos);
    Associate(postbuf, [UpdateTrigger(schema, table, kids[0].text, Expression(kids[pos].children))],
              UpdatesFrom(schema, table, Removed(kids, pos), pos + 1).statements);
  }

  lemma UpdatesAheadDone(schema: string, table: string, kids: seq<Tree>, from: nat, postbuf: seq<Statement>,
      goal: seq<Tree>, sts: seq<Statement>)
    requires UpdatesAhead(schema, table, kids, from, postbuf, goal, sts) && Look(kids, from, OnUpdate) == -1
    ensures kids == goal && postbuf == sts
  {
    assert Inspect(0);
    UpdatesEnd(schema, table, kids, from);
    assert postbuf + [] == postbuf;
  }

  /** The two deep searches of create_rewrite_stupid_date. */
  method FindsZeroDate(def: Node) returns (found: bool)
    requires def.Valid()
    ensures found == HasZeroDate(def.model)
  {
    var pos1 := LookAheadDown(def, 0, ZeroDate);
    var pos2 := LookAheadDown(def, 0, ZeroTimestamp);
    BelowIsBelowFrom(def.model, ZeroDate);
    BelowIsBelowFrom(def.model, ZeroTimestamp);
    return !(pos1 < 0 && pos2 < 0);
  }

  /** create_rewrite_stupid_date, one column. */
  method RewriteZeroDate(def: Node)
    requires def.Valid()
    modifies def.repr
    ensures def.Valid() && def.repr == old(def.repr)
    ensures def.model == EditColumn(ZeroDates, old(def.model))
  {
    var found := FindsZeroDate(def);
    if found {
      def.Top();
      var c := NotNullPosition(def);
      if c < |def.children| {
        DeletePair(def, c);
      }
    }
  }

  /** The scan for NOT directly before NULL. */
  method NotNullPosition(def: Node) returns (c: nat)
    requires def.Valid()
    ensures |def.children| == |def.model.children| && c == FindNotNull(def.model.children, 0)
  {
    def.Top();
    var n := |def.children|;
    c := 0;
    while c < n
      invariant 0 <= c <= n
      invariant forall k :: 0 <= k < c && k + 1 < n ==>
                !(def.model.children[k].kind == KwNot && def.model.children[k + 1].kind == KwNull)
    {
      def.Child(c);
      if def.children[c].kind == KwNot && c + 1 < n {
        def.Child(c + 1);
        if def.children[c + 1].kind == KwNull {
          return c;
        }
      }
      c := c + 1;
    }
  }

  method DeletePair(def: Node, c: nat)
    requires def.Valid() && c + 1 < |def.children| == |def.model.children|
    modifies def.repr
    ensures def.Valid() && def.repr == old(def.repr)
    ensures def.model == old(def.model.(children := def.model.children[..c] + def.model.children[c + 2..]))
  {
    ghost var kids := def.model.children;
    def.Top();
    def.DeleteChild(c + 1);
    def.Top();
    def.DeleteChild(c);
    RemovedTwice(kids, c);
  }

  /** create_table_rewrite_auto_inc, one column; `start` is what the search of the table's options gave. */
  method RewriteAutoIncrement(ws: WalkerState, def: Node, table: string, start: string)
    requires def.Valid()
    modifies ws`postbuf, def.repr
    ensures def.Valid() && def.repr == old(def.repr)
    ensures def.model == EditColumn(AutoIncrements, old(def.model))
    ensures ws.postbuf == old(ws.postbuf + ColumnStatements(AutoIncrements, ws.schemaName, table, start, def.model))
  {
    var incpos := LookAheadIndex(def, 0, KwAutoIncrement);
    if incpos < 0 {
      return;
    }
    def.Top();
    def.Child(0);
    var id := def.children[0];
    ws.postbuf := ws.postbuf + [Sequence(ws.schemaName, table, id.text, start)];
    def.DeleteChild(incpos);
  }

  /** The search for AUTO_INCREMENT = number among the table's options. */
  method FindStart(base: Node) returns (start: string)
    requires base.Valid() && SafeOptions(base.model.children)
    ensures start == StartValue(base.model.children)
  {
    base.Top();
    var lastpos := 0;
    var optpos := LookAheadIndex(base, lastpos, TableOptions);
    while optpos > 0
      invariant lastpos <= |base.children| && optpos == Look(base.model.children, lastpos, TableOptions)
      invariant StartFrom(base.model.children, lastpos) == StartValue(base.model.children)
      decreases |base.children| - lastpos
    {
      base.Child(optpos);
      var found := ReadStart(base.children[optpos]);
      if found.Some? {
        return found.value;
      }
      lastpos := optpos + 1;
      optpos := LookAheadIndex(base, lastpos, TableOptions);
    }
    return "1";
  }

  /** The number of one option node, if it is AUTO_INCREMENT = number. */
  method ReadStart(options: Node) returns (start: Option<string>)
    requires options.Valid() && options.model.kind == TableOptions && SafeNode(options.model)
    ensures start == if IsStartOption(options.model) then Some(options.model.children[2].text) else None
  {
    options.Top();
    if |options.children| >= 2 {
      options.Child(0);
      options.Child(1);
      if options.children[0].kind == KwAutoIncrement && options.children[1].kind == Eq {
        options.Child(2);
        if options.children[2].kind == Number {
          return Some(options.children[2].text);
        }
      }
    }
    return None;
  }

  // ---------- the loop over the column definitions ----------

  /** One column through one pass. */
  method RewriteColumn(ws: WalkerState, def: Node, pass: ColumnPass, table: string, start: string)
    requires def.Valid() && def.model.kind == ColumnDef && (pass == Enums ==> SafeNode(def.model))
    modifies ws`postbuf, def.repr
    ensures def.Valid() && fresh(def.repr - old(def.repr))
    ensures def.model == EditColumn(pass, old(def.model))
    ensures ws.postbuf == old(ws.postbuf + ColumnStatements(pass, ws.schemaName, table, start, def.model))
  {
    match pass {
      case Enums => RewriteEnums(def);
      case Updates => RewriteUpdates(ws, def, table);
      case ZeroDates => RewriteZeroDate(def);
      case AutoIncrements => RewriteAutoIncrement(ws, def, table, start);
    }
  }

  method RewriteColumnAt(ws: WalkerState, base: Node, pos: nat, pass: ColumnPass, table: string, start: string)
    requires base.Valid() && pos < |base.children| == |base.model.children|
    requires base.model.children[pos].kind == ColumnDef && (pass == Enums ==> SafeNode(base.model.children[pos]))
    modifies ws`postbuf, base.repr
    ensures base.Valid() && fresh(base.repr - old(base.repr))
    ensures var kids := old(base.model.children);
            base.model == old(base.model).(children := kids[pos := EditColumn(pass, kids[pos])])
    ensures ws.postbuf
            == old(ws.postbuf + ColumnStatements(pass, ws.schemaName, table, start, base.model.children[pos]))
  {
    base.Child(pos);
    label L:
    RewriteColumn(ws, base.children[pos], pass, table, start);
    base.SiblingsKeep@L(pos);
    base.Resync(pos);
  }

  /** The children with the columns before `from` edited. */
  ghost function EditedTo(pass: ColumnPass, kids: seq<Tree>, from: nat): (r: seq<Tree>)
    ensures |r| == |kids|
  {
    seq(|kids|, i requires 0 <= i < |kids| => if i < from then EditNode(pass, kids[i]) else kids[i])
  }

  lemma EditedStep(pass: ColumnPass, kids: seq<Tree>, from: nat, pos: nat)
    requires pos == Look(kids, from, ColumnDef)
    ensures EditedTo(pass, kids, from)[pos] == kids[pos]
    ensures EditedTo(pass, kids, pos + 1) == EditedTo(pass, kids, from)[pos := EditColumn(pass, kids[pos])]
  {
    var now, next := EditedTo(pass, kids, from), EditedTo(pass, kids, pos + 1);
    forall i | 0 <= i < |kids| ensures next[i] == if i == pos then EditColumn(pass, kids[pos]) else now[i] {
      if from <= i < pos { assert kids[i].kind != ColumnDef; }
    }
  }

  lemma EditedAll(pass: ColumnPass, kids: seq<Tree>, from: nat)
    requires Look(kids, from, ColumnDef) == -1
    ensures EditedTo(pass, kids, from) == EditAll(pass, kids)
  {
    forall i | 0 <= i < |kids| ensures EditedTo(pass, kids, from)[i] == EditAll(pass, kids)[i] {
      if from <= i { assert kids[i].kind != ColumnDef; }
    }
  }

  lemma EditedKeeps(pass: ColumnPass, kids: seq<Tree>, done: nat, from: nat)
    ensures Look(EditedTo(pass, kids, done), from, ColumnDef) == Look(kids, from, ColumnDef)
    ensures SafeOptions(kids) ==> SafeOptions(EditedTo(pass, kids, done))
    ensures StartValue(EditedTo(pass, kids, done)) == StartValue(kids)
  {
    var edited := EditedTo(pass, kids, done);
    assert forall k :: 0 <= k < |kids| ==>
           edited[k].kind == kids[k].kind && (kids[k].kind != ColumnDef ==> edited[k] == kids[k]);
    if from <= |kids| {
      KindsKeepFind(edited, kids, from, ColumnDef);
    }
    SameOptionsSameStart(edited, kids, 0);
  }

  lemma {:induction false} SameOptionsSameStart(a: seq<Tree>, b: seq<Tree>, from: nat)
    requires |a| == |b| && from <= |a|
    requires forall k :: 0 <= k < |a| ==> a[k].kind == b[k].kind && (a[k].kind == TableOptions ==> a[k] == b[k])
    ensures StartFrom(a, from) == StartFrom(b, from)
    decreases |a| - from
  {
    KindsKeepFind(a, b, from, TableOptions);
    var k := Find(a, from, TableOptions);
    if k < |a| {
      SameOptionsSameStart(a, b, k + 1);
    }
  }

  lemma FindNext(kids: seq<Tree>, from: nat, kind: Kind)
    requires from < |kids|
    ensures Find(kids, from, kind) == if kids[from].kind == kind then from else Find(kids, from + 1, kind)
  {
  }

  lemma StatementsCons(pass: ColumnPass, schema: string, table: string, start: string, kids: seq<Tree>, from: nat)
    requires from < |kids|
    ensures AllStatements(pass, schema, table, start, kids[from..]) ==
              if kids[from].kind == ColumnDef
              then
                ColumnStatements(pass, schema, table, start, kids[from])
                + AllStatements(pass, schema, table, start, kids[from + 1..])
              else AllStatements(pass, schema, table, start, kids[from + 1..])
  {
    HeadTail(kids, from);
  }

  lemma {:induction false} StatementsSkip(pass: ColumnPass, schema: string, table: string, start: string,
      kids: seq<Tree>, from: nat)
    requires from <= |kids|
    ensures var pos := Find(kids, from, ColumnDef);
            AllStatements(pass, schema, table, start, kids[from..]) ==
              if pos == |kids| then []
              else
                ColumnStatements(pass, schema, table, start, kids[pos])
                + AllStatements(pass, schema, table, start, kids[pos + 1..])
    decreases |kids| - from
  {
    if from < |kids| {
      FindNext(kids, from, ColumnDef);
      StatementsCons(pass, schema, table, start, kids, from);
      if kids[from].kind != ColumnDef {
        StatementsSkip(pass, schema, table, start, kids, from + 1);
      }
    }
  }

  /** Where the loop stands: columns before `from` done, the statements of the others still to come. */
  ghost predicate Stands(pass: ColumnPass, schema: string, table: string, kids: seq<Tree>, from: nat,
                         now: seq<Tree>, before: seq<Statement>, postbuf: seq<Statement>) {
    && |now| == |kids|
    && forall k {:trigger Inspect(k)} :: Inspect(k) ==>
      && from <= |kids| && now == EditedTo(pass, kids, from)
      && postbuf + AllStatements(pass, schema, table, StartValue(kids), kids[from..])
         == before + AllStatements(pass, schema, table, StartValue(kids), kids)
  }

  lemma RoundStatements(schema: string, table: string, start: string, pass: ColumnPass, kids: seq<Tree>, from: nat,
                        before: seq<Statement>, postbuf: seq<Statement>, pos: nat)
    requires from <= |kids| && pos == Look(kids, from, ColumnDef)
    requires postbuf + AllStatements(pass, schema, table, start, kids[from..]) == before
    ensures postbuf + ColumnStatements(pass, schema, table, start, kids[pos])
            + AllStatements(pass, schema, table, start, kids[pos + 1..]) == before
  {
    StatementsSkip(pass, schema, table, start, kids, from);
    Associate(postbuf, ColumnStatements(pass, schema, table, start, kids[pos]),
      AllStatements(pass, schema, table, start, kids[pos + 1..]));
  }

  lemma RoundKids(pass: ColumnPass, kids: seq<Tree>, from: nat, pos: nat)
    requires pos == Look(kids, from, ColumnDef)
    ensures var now := EditedTo(pass, kids, from);
            && now[pos] == kids[pos] && (SafeOptions(kids) ==> SafeOptions(now)) && StartValue(now) == StartValue(kids)
            && now[pos := EditColumn(pass, now[pos])] == EditedTo(pass, kids, pos + 1)
    ensures Look(EditedTo(pass, kids, pos + 1), pos + 1, ColumnDef) == Look(kids, pos + 1, ColumnDef)
  {
    EditedStep(pass, kids, from, pos);
    EditedKeeps(pass, kids, from, 0);
    EditedKeeps(pass, kids, pos + 1, pos + 1);
  }

  lemma Round(pass: ColumnPass, schema: string, table: string, kids: seq<Tree>, from: nat,
              now: seq<Tree>, before: seq<Statement>, postbuf: seq<Statement>, pos: nat)
    requires Stands(pass, schema, table, kids, from, now, before, postbuf)
    requires pos == Look(kids, from, ColumnDef)
    ensures now[pos] == kids[pos] && (SafeOptions(kids) ==> SafeOptions(now)) && StartValue(now) == StartValue(kids)
    ensures Stands(pass, schema, table, kids, pos + 1, now[pos := EditColumn(pass, now[pos])], before,
                   postbuf + ColumnStatements(pass, schema, table, StartValue(kids), now[pos]))
    ensures Look(now[pos := EditColumn(pass, now[pos])], pos + 1, ColumnDef) == Look(kids, pos + 1, ColumnDef)
  {
    assert Inspect(0);
    RoundKids(pass, kids, from, pos);
    RoundStatements(schema, table, StartValue(kids), pass, kids, from,
                    before + AllStatements(pass, schema, table, StartValue(kids), kids), postbuf, pos);
  }

  lemma Finish(pass: ColumnPass, schema: string, table: string, kids: seq<Tree>, from: nat,
               now: seq<Tree>, before: seq<Statement>, postbuf: seq<Statement>)
    requires Stands(pass, schema, table, kids, from, now, before, postbuf) && Look(kids, from, ColumnDef) == -1
    ensures now == EditAll(pass, kids) && postbuf == before + AllStatements(pass, schema, table, StartValue(kids), kids)
  {
    assert Inspect(0);
    EditedAll(pass, kids, from);
    StatementsSkip(pass, schema, table, StartValue(kids), kids, from);
    assert postbuf + [] == postbuf;
  }

  lemma Begin(pass: ColumnPass, schema: string, table: string, kids: seq<Tree>, before: seq<Statement>)
    ensures Stands(pass, schema, table, kids, 0, kids, before, before)
  {
    assert EditedTo(pass, kids, 0) == kids && kids[0..] == kids;
  }

  /** One column. For AUTO_INCREMENT the start value is looked up in the table as it is by now. */
  method RewriteColumnFrom(ws: WalkerState, base: Node, pos: nat, pass: ColumnPass, table: string)
    requires base.Valid() && pos < |base.children| == |base.model.children|
    requires base.model.children[pos].kind == ColumnDef && (pass == Enums ==> SafeNode(base.model.children[pos]))
    requires pass == AutoIncrements ==> SafeOptions(base.model.children)
    modifies ws`postbuf, base.repr
    ensures base.Valid() && fresh(base.repr - old(base.repr))
    ensures var kids := old(base.model.children);
            base.model == old(base.model).(children := kids[pos := EditColumn(pass, kids[pos])])
    ensures var kids := old(base.model.children);
            ws.postbuf == old(ws.postbuf) + ColumnStatements(pass, ws.schemaName, table, StartValue(kids), kids[pos])
  {
    var start := "";
    if pass == AutoIncrements {
      start := FindStart(base);
    }
    RewriteColumnAt(ws, base, pos, pass, table, start);
  }

  /** The table `original` as the loop finds it: the columns before `from` done. */
  ghost predicate Editing(ws: WalkerState, base: Node, original: Tree, pass: ColumnPass, table: string, from: nat,
      before: seq<Statement>)
    reads ws, base, base.repr
  {
    forall k {:trigger Inspect(k)} :: Inspect(k) ==>
      && base.Valid() && base.model == original.(children := base.model.children)
      && Stands(pass, ws.schemaName, table, original.children, from, base.model.children, before, ws.postbuf)
  }

  lemma OpenEditing(ws: WalkerState, base: Node, original: Tree, pass: ColumnPass, table: string, from: nat,
      before: seq<Statement>)
    requires Editing(ws, base, original, pass, table, from, before)
    ensures base.Valid() && base.model == original.(children := base.model.children)
    ensures Stands(pass, ws.schemaName, table, original.children, from, base.model.children, before, ws.postbuf)
  {
    assert Inspect(0);
  }

  method RewriteThisColumn(ws: WalkerState, base: Node, pos: nat, pass: ColumnPass, table: string,
                           ghost original: Tree, ghost from: nat, ghost before: seq<Statement>)
    requires Editing(ws, base, original, pass, table, from, before)
    requires pos == Look(original.children, from, ColumnDef) && Fit(pass, original.children)
    modifies ws`postbuf, base.repr
    ensures Editing(ws, base, original, pass, table, pos + 1, before) && fresh(base.repr - old(base.repr))
    ensures base.Valid() && Look(base.model.children, pos + 1, ColumnDef) == Look(original.children, pos + 1, ColumnDef)
  {
    OpenEditing(ws, base, original, pass, table, from, before);
    Round(pass, ws.schemaName, table, original.children, from, base.model.children, before, ws.postbuf, pos);
    FitAt(pass, original.children, pos);
    base.Top();
    RewriteColumnFrom(ws, base, pos, pass, table);
  }

  /** One round of the loop: rewrite this column, find the next. */
  method RewriteNextColumn(ws: WalkerState, base: Node, pos: nat, pass: ColumnPass, table: string,
                           ghost original: Tree, ghost from: nat, ghost before: seq<Statement>)
    returns (next: int)
    requires Editing(ws, base, original, pass, table, from, before)
    requires pos == Look(original.children, from, ColumnDef) && Fit(pass, original.children)
    modifies ws`postbuf, base.repr
    ensures Editing(ws, base, original, pass, table, pos + 1, before) && fresh(base.repr - old(base.repr))
    ensures next == Look(original.children, pos + 1, ColumnDef) && from <= pos < |original.children|
  {
    RewriteThisColumn(ws, base, pos, pass, table, original, from, before);
    next := LookAheadIndex(base, pos + 1, ColumnDef);
  }

  /** What a pass reads through: only the enum pass the enum nodes, only the AUTO_INCREMENT pass the options. */
  ghost predicate Fit(pass: ColumnPass, kids: seq<Tree>) {
    forall k {:trigger Inspect(k)} :: Inspect(k) ==>
      (pass == Enums ==> SafeColumns(kids)) && (pass == AutoIncrements ==> SafeOptions(kids))
  }

  lemma FitAt(pass: ColumnPass, kids: seq<Tree>, pos: nat)
    requires Fit(pass, kids) && pos < |kids| && kids[pos].kind == ColumnDef
    ensures pass == Enums ==> SafeNode(kids[pos])
    ensures pass == AutoIncrements ==> SafeOptions(kids)
  {
    assert Inspect(0);
  }

  /** What the loop is to come to. */
  ghost predicate Goal(pass: ColumnPass, schema: string, table: string, kids: seq<Tree>, before: seq<Statement>,
      goal: seq<Tree>, sts: seq<Statement>) {
    forall k {:trigger Inspect(k)} :: Inspect(k) ==>
      goal == EditAll(pass, kids) && sts == before + AllStatements(pass, schema, table, StartValue(kids), kids)
  }

  lemma Reached(ws: WalkerState, base: Node, original: Tree, pass: ColumnPass, table: string, from: nat,
      before: seq<Statement>, goal: seq<Tree>, sts: seq<Statement>)
    requires Editing(ws, base, original, pass, table, from, before) && Look(original.children, from, ColumnDef) == -1
    requires Goal(pass, ws.schemaName, table, original.children, before, goal, sts)
    ensures base.Valid() && base.model == original.(children := goal) && ws.postbuf == sts
  {
    assert Inspect(0);
    Finish(pass, ws.schemaName, table, original.children, from, base.model.children, before, ws.postbuf);
  }

  /** The loop the four column passes share: find the next column, rewrite it, go on behind it. */
  method EditEach(ws: WalkerState, base: Node, pass: ColumnPass, table: string, ghost goal: seq<Tree>,
      ghost sts: seq<Statement>)
    requires base.Valid() && Fit(pass, base.model.children)
    requires Goal(pass, ws.schemaName, table, base.model.children, ws.postbuf, goal, sts)
    modifies ws`postbuf, base.repr
    ensures base.Valid() && fresh(base.repr - old(base.repr))
    ensures base.model == old(base.model).(children := goal) && ws.postbuf == sts
  {
    ghost var original, from, before := base.model, 0, ws.postbuf;
    Begin(pass, ws.schemaName, table, original.children, before);
    var pos := LookAheadIndex(base, 0, ColumnDef);
    while pos > -1
      invariant Editing(ws, base, original, pass, table, from, before) && fresh(base.repr - old(base.repr))
      invariant pos == Look(original.children, from, ColumnDef)
      decreases |original.children| - from
    {
      var next := RewriteNextColumn(ws, base, pos, pass, table, original, from, before);
      from, pos := pos + 1, next;
    }
    Reached(ws, base, original, pass, table, from, before, goal, sts);
  }

  /** Such a pass: first the table's name, then the loop. */
  method ForEachColumn(ws: WalkerState, base: Node, pass: ColumnPass)
    requires base.Valid() && Fit(pass, base.model.children)
    modifies ws`postbuf, base.repr
    ensures base.Valid() && fresh(base.repr - old(base.repr))
    ensures base.model == old(base.model.(children := EditAll(pass, base.model.children)))
    ensures ws.postbuf == old(ws.postbuf + AllStatements(pass, ws.schemaName, TableName(base.model.children),
                                                         StartValue(base.model.children), base.model.children))
  {
    var table := CreateTableTablename(base);
    ghost var kids := base.model.children;
    EditEach(ws, base, pass, table, EditAll(pass, kids),
             ws.postbuf + AllStatements(pass, ws.schemaName, table, StartValue(kids), kids));
  }
}
