/** The passes over the definition list, and create_table_worker, on the mutable tree. */
module TableWorker {
  import opened Sequences
  import opened Wrappers
  import opened Trees
  import opened Nodes
  import opened NodeSearch
  import opened TablePasses
  import opened TableLaws
  import opened ColumnWorker

  // ---------- create_rewrite_datatypes ----------

  ghost function SpelledTo(kids: seq<Tree>, from: nat): (r: seq<Tree>)
    ensures |r| == |kids|
  {
    seq(|kids|, i requires 0 <= i < |kids| => if i < from then SpellDouble(kids, i) else kids[i])
  }

  lemma SpelledStep(kids: seq<Tree>, c: nat)
    requires c < |kids|
    ensures SpelledTo(kids, c)[c] == kids[c] && (c + 1 < |kids| ==> SpelledTo(kids, c)[c + 1] == kids[c + 1])
    ensures SpelledTo(kids, c + 1) == SpelledTo(kids, c)[c := SpellDouble(kids, c)]
  {
  }

  method RewriteDatatypes(base: Node)
    requires base.Valid()
    modifies base.repr
    ensures base.Valid() && base.repr == old(base.repr)
    ensures base.model == old(base.model.(children := SpellDoubles(base.model.children)))
  {
    ghost var kids := base.model.children;
    base.Top();
    var n := |base.children|;
    assert SpelledTo(kids, 0) == kids;
    for c := 0 to n
      invariant base.Valid() && base.repr == old(base.repr) && n == |kids|
      invariant base.model == old(base.model).(children := SpelledTo(kids, c))
    {
      SpelledStep(kids, c);
      SpellOne(base, c);
    }
    assert SpelledTo(kids, n) == SpellDoubles(kids);
  }

  method SpellOne(base: Node, c: nat)
    requires base.Valid() && c < |base.model.children|
    modifies base.repr
    ensures base.Valid() && base.repr == old(base.repr)
    ensures var kids := old(base.model.children);
            base.model == old(base.model).(children := kids[c := SpellDouble(kids, c)])
  {
    base.Top();
    base.Child(c);
    if base.children[c].kind == KwDouble && c + 1 < |base.children| {
      base.Child(c + 1);
      if base.children[c + 1].kind != KwPrecision {
        base.SetChildText(c, base.children[c].text + " PRECISION ");
      }
    }
  }

  // ---------- indexes and foreign keys ----------

  /** Delete child pos, and the child before it when that is a comma. */
  method DeleteWithComma(base: Node, pos: nat)
    requires base.Valid() && 0 < pos < |base.model.children|
    modifies base.repr
    ensures base.Valid() && base.repr == old(base.repr)
    ensures var kids := old(base.model.children);
            base.model == old(base.model).(children := DropComma(kids[..pos]) + kids[pos + 1..])
  {
    ghost var kids := base.model.children;
    base.Top();
    base.DeleteChild(pos);
    base.Top();
    base.Child(pos - 1);
    if base.children[pos - 1].kind == Comma {
      base.DeleteChild(pos - 1);
      RemovedTwice(kids, pos - 1);
      assert DropComma(kids[..pos]) == kids[..pos - 1];
    }
  }

  lemma {:induction false} FirstColumnAppend(parts: seq<Part>, p: Part)
    ensures FirstColumn(parts + [p]) ==
            if exists i :: 0 <= i < |parts| && parts[i].Column? then FirstColumn(parts)
            else if p.Column? then p.name else ""
    decreases |parts|
  {
    if parts == [] {
      assert parts + [p] == [p] && [p][1..] == [];
    } else {
      assert (parts + [p])[1..] == parts[1..] + [p];
      FirstColumnAppend(parts[1..], p);
      if !parts[0].Column? && exists i :: 0 <= i < |parts| && parts[i].Column? {
        var i :| 0 <= i < |parts| && parts[i].Column?;
        assert parts[1..][i - 1].Column?;
      }
    }
  }

  /** The scan of an index's children for its name and columns. */
  method ScanIndexChildren(t: Node) returns (name: Option<string>, parts: seq<Part>, firstcolumn: Option<string>)
    requires t.Valid()
    ensures IndexScan(name, parts) == ScanIndex(IndexScan(None, []), t.model.children)
    ensures firstcolumn.None? ==> forall i :: 0 <= i < |parts| ==> !parts[i].Column?
    ensures firstcolumn.Some?
            ==> firstcolumn.value == FirstColumn(parts) && exists i :: 0 <= i < |parts| && parts[i].Column?
  {
    t.Top();
    name, parts, firstcolumn := None, [], None;
    assert t.model.children[0..] == t.model.children;
    for c := 0 to |t.children|
      invariant ScanIndex(IndexScan(name, parts), t.model.children[c..])
                == ScanIndex(IndexScan(None, []), t.model.children)
      invariant firstcolumn.None? ==> forall i :: 0 <= i < |parts| ==> !parts[i].Column?
      invariant firstcolumn.Some?
                ==> firstcolumn.value == FirstColumn(parts) && exists i :: 0 <= i < |parts| && parts[i].Column?
    {
      t.Child(c);
      var index := t.children[c];
      assert t.model.children[c..][1..] == t.model.children[c + 1..];
      if index.kind == Id {
        if name.None? && parts == [] {
          name := Some(index.text);
        } else {
          FirstColumnAppend(parts, Column(index.text));
          assert (parts + [Column(index.text)])[|parts|].Column?;
          if firstcolumn.Some? {
            var i :| 0 <= i < |parts| && parts[i].Column?;
            assert (parts + [Column(index.text)])[i].Column?;
          }
          parts := parts + [Column(index.text)];
          if firstcolumn.None? {
            firstcolumn := Some(index.text);
          }
        }
      } else if index.kind == KwAsc || index.kind == KwDesc {
        FirstColumnAppend(parts, Direction(index.text));
        if firstcolumn.Some? {
          var i :| 0 <= i < |parts| && parts[i].Column?;
          assert (parts + [Direction(index.text)])[i].Column?;
        }
        parts := parts + [Direction(index.text)];
      }
    }
  }

  /** The CREATE INDEX statement of one index node. */
  method DescribeIndex(t: Node, schema: string, table: string) returns (st: Statement)
    requires t.Valid() && SafeNode(t.model) && t.model.kind == Index
    ensures st == IndexStatement(schema, table, t.model)
  {
    var access := None;
    var p := LookAheadIndex(t, 0, KwUsing);
    if p > -1 {
      t.Child(p + 1);
      access := Some(t.children[p + 1].text);
    }
    var name, parts, firstcolumn := ScanIndexChildren(t);
    NoColumnNoName(parts);
    if name.None? {
      name := if firstcolumn.Some? then firstcolumn else Some("");
    }
    return CreateIndex(schema, table, name.value, access, parts);
  }

  lemma {:induction false} NoColumnNoName(parts: seq<Part>)
    ensures (forall i :: 0 <= i < |parts| ==> !parts[i].Column?) ==> FirstColumn(parts) == ""
    decreases |parts|
  {
    if parts != [] { NoColumnNoName(parts[1..]); }
  }

  /** What the loop still has to come to. */
  ghost predicate IndexesAhead(schema: string, table: string, kids: seq<Tree>, postbuf: seq<Statement>,
      goal: seq<Tree>, sts: seq<Statement>) {
    forall k {:trigger Inspect(k)} :: Inspect(k) ==>
      && Anchored(kids) && SafeIndexes(kids) && Hoist(Index, [], kids) == goal
      && postbuf + IndexStatements(schema, table, kids) == sts
  }

  lemma IndexRound(schema: string, table: string, kids: seq<Tree>, pos: nat, postbuf: seq<Statement>, goal: seq<Tree>,
      sts: seq<Statement>)
    requires IndexesAhead(schema, table, kids, postbuf, goal, sts) && pos == Look(kids, 0, Index)
    ensures 0 < pos < |kids| && SafeNode(kids[pos]) && kids[pos].kind == Index
    ensures var next := DropComma(kids[..pos]) + kids[pos + 1..];
            |next| < |kids|
              && IndexesAhead(schema, table, next, postbuf + [IndexStatement(schema, table, kids[pos])], goal, sts)
  {
    assert Inspect(0);
    AnchorStays(Index, kids, pos);
    HoistStep(Index, kids, pos);
    IndexStep(schema, table, kids, pos);
    var next := DropComma(kids[..pos]) + kids[pos + 1..];
    Associate(postbuf, [IndexStatement(schema, table, kids[pos])], IndexStatements(schema, table, next));
    NextIsPart(kids, pos);
    SafeIndexesStay(kids, next);
  }

  lemma NextIsPart(kids: seq<Tree>, pos: nat)
    requires pos < |kids|
    ensures forall x :: x in DropComma(kids[..pos]) + kids[pos + 1..] ==> x in kids
  {
  }

  lemma SafeIndexesStay(kids: seq<Tree>, next: seq<Tree>)
    requires SafeIndexes(kids) && forall x :: x in next ==> x in kids
    ensures SafeIndexes(next)
  {
    forall i | 0 <= i < |next| && next[i].kind == Index ensures SafeNode(next[i]) {
      assert next[i] in next;
    }
  }

  lemma IndexesDone(schema: string, table: string, kids: seq<Tree>, postbuf: seq<Statement>, goal: seq<Tree>,
      sts: seq<Statement>)
    requires IndexesAhead(schema, table, kids, postbuf, goal, sts) && Look(kids, 0, Index) == -1
    ensures kids == goal && postbuf == sts
  {
    assert Inspect(0);
    HoistNothing(Index, kids);
    NoStatements(schema, table, kids);
    assert postbuf + [] == postbuf;
  }

  /** One index: its statement goes out, it goes with the comma before it. */
  method HoistIndex(ws: WalkerState, base: Node, pos: nat, table: string)
    requires base.Valid() && 0 < pos < |base.model.children| && base.model.children[pos].kind == Index
             && SafeNode(base.model.children[pos])
    modifies ws`postbuf, base.repr
    ensures base.Valid() && base.repr == old(base.repr)
    ensures var kids := old(base.model.children);
            && base.model == old(base.model).(children := DropComma(kids[..pos]) + kids[pos + 1..])
            && ws.postbuf == old(ws.postbuf) + [IndexStatement(ws.schemaName, table, kids[pos])]
  {
    base.Top();
    base.Child(pos);
    var st := DescribeIndex(base.children[pos], ws.schemaName, table);
    ws.postbuf := ws.postbuf + [st];
    DeleteWithComma(base, pos);
  }

  /** The table `original` as the loop finds it. */
  ghost predicate Hoisting(ws: WalkerState, base: Node, original: Tree, table: string, goal: seq<Tree>,
      sts: seq<Statement>)
    reads ws, base, base.repr
  {
    forall k {:trigger Inspect(k)} :: Inspect(k) ==>
      && base.Valid() && base.model == original.(children := base.model.children)
      && IndexesAhead(ws.schemaName, table, base.model.children, ws.postbuf, goal, sts)
  }

  lemma OpenHoisting(ws: WalkerState, base: Node, original: Tree, table: string, goal: seq<Tree>, sts: seq<Statement>)
    requires Hoisting(ws, base, original, table, goal, sts)
    ensures base.Valid() && base.model == original.(children := base.model.children)
    ensures IndexesAhead(ws.schemaName, table, base.model.children, ws.postbuf, goal, sts)
  {
    assert Inspect(0);
  }

  method HoistThisIndex(ws: WalkerState, base: Node, pos: nat, table: string, ghost original: Tree,
      ghost goal: seq<Tree>, ghost sts: seq<Statement>)
    requires Hoisting(ws, base, original, table, goal, sts) && pos == Look(base.model.children, 0, Index)
    modifies ws`postbuf, base.repr
    ensures Hoisting(ws, base, original, table, goal, sts) && base.Valid() && base.repr == old(base.repr)
    ensures |base.model.children| < |old(base.model.children)|
  {
    OpenHoisting(ws, base, original, table, goal, sts);
    IndexRound(ws.schemaName, table, base.model.children, pos, ws.postbuf, goal, sts);
    HoistIndex(ws, base, pos, table);
  }

  /** One round of the loop: hoist this index, find the next. */
  method HoistNextIndex(ws: WalkerState, base: Node, pos: nat, table: string, ghost original: Tree,
      ghost goal: seq<Tree>, ghost sts: seq<Statement>)
    returns (next: int)
    requires Hoisting(ws, base, original, table, goal, sts) && pos == Look(base.model.children, 0, Index)
    modifies ws`postbuf, base.repr
    ensures Hoisting(ws, base, original, table, goal, sts) && base.repr == old(base.repr)
    ensures |base.model.children| < |old(base.model.children)| && next == Look(base.model.children, 0, Index)
  {
    HoistThisIndex(ws, base, pos, table, original, goal, sts);
    next := LookAheadIndex(base, 0, Index);
  }

  /** The loop of create_table_index. */
  method HoistEachIndex(ws: WalkerState, base: Node, table: string, ghost goal: seq<Tree>, ghost sts: seq<Statement>)
    requires base.Valid() && IndexesAhead(ws.schemaName, table, base.model.children, ws.postbuf, goal, sts)
    modifies ws`postbuf, base.repr
    ensures base.Valid() && base.repr == old(base.repr)
    ensures base.model == old(base.model).(children := goal) && ws.postbuf == sts
  {
    ghost var original := base.model;
    var pos := LookAheadIndex(base, 0, Index);
    while pos > -1
      invariant Hoisting(ws, base, original, table, goal, sts) && base.repr == old(base.repr)
      invariant pos == Look(base.model.children, 0, Index)
      decreases |base.model.children|
    {
      pos := HoistNextIndex(ws, base, pos, table, original, goal, sts);
    }
    HoistingDone(ws, base, original, table, goal, sts);
  }

  lemma HoistingDone(ws: WalkerState, base: Node, original: Tree, table: string, goal: seq<Tree>, sts: seq<Statement>)
    requires Hoisting(ws, base, original, table, goal, sts) && Look(base.model.children, 0, Index) == -1
    ensures base.Valid() && base.model == original.(children := goal) && ws.postbuf == sts
  {
    assert Inspect(0);
    IndexesDone(ws.schemaName, table, base.model.children, ws.postbuf, goal, sts);
  }

  /** create_table_index. */
  method HoistIndexes(ws: WalkerState, base: Node)
    requires base.Valid() && Anchored(base.model.children) && SafeIndexes(base.model.children)
    modifies ws`postbuf, base.repr
    ensures base.Valid() && base.repr == old(base.repr)
    ensures base.model == old(base.model.(children := Hoist(Index, [], base.model.children)))
    ensures var kids := old(base.model.children);
            ws.postbuf == old(ws.postbuf) + IndexStatements(ws.schemaName, TableName(kids), kids)
  {
    var table := CreateTableTablename(base);
    ghost var kids := base.model.children;
    HoistEachIndex(ws, base, table, Hoist(Index, [], kids), ws.postbuf + IndexStatements(ws.schemaName, table, kids));
  }

  /** The words of a foreign-key definition: the texts of its direct children. */
  method CollectTexts(t: Node) returns (texts: seq<string>)
    requires t.Valid()
    ensures texts == Texts(t.model.children)
  {
    t.Top();
    texts := [];
    for c := 0 to |t.children|
      invariant texts == Texts(t.model.children[..c])
    {
      t.Child(c);
      texts := texts + [t.children[c].text];
    }
    assert t.model.children[..|t.children|] == t.model.children;
  }

  ghost predicate KeysAhead(table: string, kids: seq<Tree>, postbuf: seq<Statement>, goal: seq<Tree>,
      sts: seq<Statement>) {
    forall k {:trigger Inspect(k)} :: Inspect(k) ==>
      Anchored(kids) && Hoist(ForeignKey, [], kids) == goal && postbuf + KeyStatements(table, kids) == sts
  }

  lemma KeyRound(table: string, kids: seq<Tree>, pos: nat, postbuf: seq<Statement>, goal: seq<Tree>,
      sts: seq<Statement>)
    requires KeysAhead(table, kids, postbuf, goal, sts) && pos == Look(kids, 0, ForeignKey)
    ensures 0 < pos < |kids|
    ensures var next := DropComma(kids[..pos]) + kids[pos + 1..];
            |next| < |kids|
              && KeysAhead(table, next, postbuf + [AddForeignKey(table, Texts(kids[pos].children))], goal, sts)
  {
    assert Inspect(0);
    AnchorStays(ForeignKey, kids, pos);
    HoistStep(ForeignKey, kids, pos);
    KeyStep(table, kids, pos);
    Associate(postbuf, [AddForeignKey(table, Texts(kids[pos].children))],
      KeyStatements(table, DropComma(kids[..pos]) + kids[pos + 1..]));
  }

  lemma KeysDone(table: string, kids: seq<Tree>, postbuf: seq<Statement>, goal: seq<Tree>, sts: seq<Statement>)
    requires KeysAhead(table, kids, postbuf, goal, sts) && Look(kids, 0, ForeignKey) == -1
    ensures kids == goal && postbuf == sts
  {
    assert Inspect(0);
    HoistNothing(ForeignKey, kids);
    NoStatements("", table, kids);
    assert postbuf + [] == postbuf;
  }

  method HoistKey(ws: WalkerState, base: Node, pos: nat, table: string)
    requires base.Valid() && 0 < pos < |base.model.children|
    modifies ws`postbuf, base.repr
    ensures base.Valid() && base.repr == old(base.repr)
    ensures var kids := old(base.model.children);
            && base.model == old(base.model).(children := DropComma(kids[..pos]) + kids[pos + 1..])
            && ws.postbuf == old(ws.postbuf) + [AddForeignKey(table, Texts(kids[pos].children))]
  {
    base.Top();
    base.Child(pos);
    var texts := CollectTexts(base.children[pos]);
    ws.postbuf := ws.postbuf + [AddForeignKey(table, texts)];
    DeleteWithComma(base, pos);
  }

  /** create_table_rewrite_fkey. */
  method HoistKeys(ws: WalkerState, base: Node)
    requires base.Valid() && Anchored(base.model.children)
    modifies ws`postbuf, base.repr
    ensures base.Valid() && base.repr == old(base.repr)
    ensures base.model == old(base.model.(children := Hoist(ForeignKey, [], base.model.children)))
    ensures ws.postbuf == old(ws.postbuf + KeyStatements(TableName(base.model.children), base.model.children))
  {
    ghost var original, goal := base.model, Hoist(ForeignKey, [], base.model.children);
    var table := CreateTableTablename(base);
    ghost var sts := ws.postbuf + KeyStatements(table, base.model.children);
    var pos := LookAheadIndex(base, 0, ForeignKey);
    while pos > -1
      invariant base.Valid() && base.repr == old(base.repr)
      invariant base.model == original.(children := base.model.children)
                && pos == Look(base.model.children, 0, ForeignKey)
      invariant KeysAhead(table, base.model.children, ws.postbuf, goal, sts)
      decreases |base.model.children|
    {
      KeyRound(table, base.model.children, pos, ws.postbuf, goal, sts);
      HoistKey(ws, base, pos, table);
      pos := LookAheadIndex(base, 0, ForeignKey);
    }
    KeysDone(table, base.model.children, ws.postbuf, goal, sts);
  }

  // ---------- full-text indexes and table options ----------

  method DropFulltextAt(base: Node, pos: nat)
    requires base.Valid() && pos < |base.model.children|
    modifies base.repr
    ensures base.Valid() && base.repr == old(base.repr)
    ensures base.model == old(base.model.(children := FulltextRound(base.model.children, pos)))
    ensures |base.model.children| < |old(base.model.children)|
  {
    base.Top();
    base.DeleteChild(pos);
    if pos - 1 > 0 {
      base.Top();
      base.Child(pos - 1);
      if base.children[pos - 1].kind == Comma {
        base.DeleteChild(pos - 1);
      }
    }
  }

  ghost predicate FulltextAhead(kids: seq<Tree>, from: nat, goal: seq<Tree>) {
    forall k {:trigger Inspect(k)} :: Inspect(k) ==> FulltextFrom(kids, from) == goal
  }

  lemma FulltextBegin(kids: seq<Tree>)
    ensures FulltextAhead(kids, 0, DropFulltext([], kids))
  {
    assert kids[..0] == [] && kids[0..] == kids;
  }

  lemma FulltextAheadStep(kids: seq<Tree>, from: nat, pos: nat, goal: seq<Tree>)
    requires FulltextAhead(kids, from, goal) && pos == Look(kids, from, Fulltext)
    ensures FulltextAhead(FulltextRound(kids, pos), pos, goal)
  {
    assert Inspect(0);
    FulltextStep(kids, from, pos);
  }

  lemma FulltextAheadDone(kids: seq<Tree>, from: nat, goal: seq<Tree>)
    requires FulltextAhead(kids, from, goal) && Look(kids, from, Fulltext) == -1
    ensures kids == goal
  {
    assert Inspect(0);
    FulltextEnd(kids, from);
  }

  /** One round of the loop: the search resumes at the old position. */
  method DropNextFulltext(base: Node, ghost from: nat, pos: nat, ghost goal: seq<Tree>) returns (next: int)
    requires base.Valid() && pos == Look(base.model.children, from, Fulltext)
             && FulltextAhead(base.model.children, from, goal)
    modifies base.repr
    ensures base.Valid() && base.repr == old(base.repr)
            && base.model == old(base.model).(children := base.model.children)
    ensures |base.model.children| < |old(base.model.children)| && next == Look(base.model.children, pos, Fulltext)
    ensures FulltextAhead(base.model.children, pos, goal)
  {
    FulltextAheadStep(base.model.children, from, pos, goal);
    DropFulltextAt(base, pos);
    next := LookAheadIndex(base, pos, Fulltext);
  }

  /** create_table_fulltext_index. */
  method DropFulltextIndexes(base: Node)
    requires base.Valid()
    modifies base.repr
    ensures base.Valid() && base.repr == old(base.repr)
    ensures base.model == old(base.model.(children := DropFulltext([], base.model.children)))
  {
    ghost var from, original, goal := 0, base.model, DropFulltext([], base.model.children);
    FulltextBegin(base.model.children);
    var pos := LookAheadIndex(base, 0, Fulltext);
    while pos > -1
      invariant base.Valid() && base.repr == old(base.repr) && pos == Look(base.model.children, from, Fulltext)
      invariant base.model == original.(children := base.model.children)
                && FulltextAhead(base.model.children, from, goal)
      decreases |base.model.children|
    {
      var next := DropNextFulltext(base, from, pos, goal);
      from, pos := pos, next;
    }
    FulltextAheadDone(base.model.children, from, goal);
  }

  /** create_table_remove_table_options. */
  method RemoveTableOptions(base: Node)
    requires base.Valid()
    modifies base.repr
    ensures base.Valid() && base.repr == old(base.repr)
    ensures base.model == old(base.model.(children := Without(TableOptions, base.model.children)))
  {
    ghost var from, original, goal := 0, base.model, Without(TableOptions, base.model.children);
    var pos := LookAheadIndex(base, 0, TableOptions);
    while pos > -1
      invariant base.Valid() && base.repr == old(base.repr) && pos == Look(base.model.children, from, TableOptions)
      invariant base.model == original.(children := base.model.children)
                && Without(TableOptions, base.model.children) == goal
      invariant from <= |base.model.children| && !HasKind(base.model.children[..from], TableOptions)
      decreases |base.model.children|
    {
      OptionRound(base.model.children, from, pos);
      base.Top();
      base.DeleteChild(pos);
      from := pos;
      pos := LookAheadIndex(base, pos, TableOptions);
    }
    OptionsDone(base.model.children, from);
  }

  lemma OptionRound(kids: seq<Tree>, from: nat, pos: nat)
    requires from <= |kids| && !HasKind(kids[..from], TableOptions) && pos == Look(kids, from, TableOptions)
    ensures Without(TableOptions, Removed(kids, pos)) == Without(TableOptions, kids)
            && !HasKind(Removed(kids, pos)[..pos], TableOptions)
  {
    WithoutStep(TableOptions, kids, pos);
    var next := Removed(kids, pos)[..pos];
    forall k | 0 <= k < |next| ensures next[k].kind != TableOptions {
      assert next[k] == kids[k] && (k < from ==> kids[..from][k] == kids[k]);
    }
  }

  lemma OptionsDone(kids: seq<Tree>, from: nat)
    requires from <= |kids| && !HasKind(kids[..from], TableOptions) && Look(kids, from, TableOptions) == -1
    ensures Without(TableOptions, kids) == kids
  {
    forall k | 0 <= k < |kids| ensures kids[k].kind != TableOptions {
      assert k < from ==> kids[..from][k] == kids[k];
    }
    WithoutNothing(TableOptions, kids);
  }

  /** The table `original` has come to `r`: so stand the tree and postbuf, ready for another pass. */
  ghost predicate At(ws: WalkerState, tree: Node, original: Tree, r: Rewritten, before: seq<Statement>)
    reads ws, tree, tree.repr
  {
    forall k {:trigger Inspect(k)} :: Inspect(k) ==>
      tree.Valid() && tree.model == original.(children := r.kids) && ws.postbuf == before + r.statements
        && Workable(r.kids)
  }

  lemma OpenAt(ws: WalkerState, tree: Node, original: Tree, r: Rewritten, before: seq<Statement>)
    requires At(ws, tree, original, r, before)
    ensures tree.Valid() && tree.model == original.(children := r.kids) && ws.postbuf == before + r.statements
            && Workable(r.kids)
  {
    assert Inspect(0);
  }

  lemma Grow(p: TablePass, schema: string, r: Rewritten, before: seq<Statement>)
    requires Workable(r.kids)
    ensures before + r.statements + PassStatements(p, schema, r.kids) == before + Then(p, schema, r).statements
    ensures p != Options ==> Workable(Then(p, schema, r).kids)
  {
    Associate(before, r.statements, PassStatements(p, schema, r.kids));
    if p != Options {
      PassIsWorkable(p, r.kids);
    }
  }

  method ColumnPassAt(pass: ColumnPass, ws: WalkerState, tree: Node, ghost original: Tree, ghost r: Rewritten,
      ghost before: seq<Statement>)
    requires At(ws, tree, original, r, before) && (pass == Enums ==> SafeColumns(r.kids))
    modifies ws`postbuf, tree.repr
    ensures At(ws, tree, original, Then(Columns(pass), ws.schemaName, r), before) && fresh(tree.repr - old(tree.repr))
  {
    OpenAt(ws, tree, original, r, before);
    Grow(Columns(pass), ws.schemaName, r, before);
    ForEachColumn(ws, tree, pass);
  }

  method DatatypesAt(ws: WalkerState, tree: Node, ghost original: Tree, ghost r: Rewritten,
      ghost before: seq<Statement>)
    requires At(ws, tree, original, r, before)
    modifies tree.repr
    ensures At(ws, tree, original, Then(Datatypes, ws.schemaName, r), before) && tree.repr == old(tree.repr)
  {
    OpenAt(ws, tree, original, r, before);
    Grow(Datatypes, ws.schemaName, r, before);
    RewriteDatatypes(tree);
  }

  method HoistAt(p: TablePass, ws: WalkerState, tree: Node, ghost original: Tree, ghost r: Rewritten,
      ghost before: seq<Statement>)
    requires p in {Indexes, FulltextIndexes, ForeignKeys} && At(ws, tree, original, r, before)
    modifies ws`postbuf, tree.repr
    ensures At(ws, tree, original, Then(p, ws.schemaName, r), before) && tree.repr == old(tree.repr)
  {
    OpenAt(ws, tree, original, r, before);
    Grow(p, ws.schemaName, r, before);
    match p {
      case Indexes => HoistIndexes(ws, tree);
      case FulltextIndexes => DropFulltextIndexes(tree);
      case ForeignKeys => HoistKeys(ws, tree);
    }
  }

  /** The passes on enums and data types. */
  method RewriteTypes(ws: WalkerState, tree: Node, ghost original: Tree, ghost r: Rewritten,
      ghost before: seq<Statement>)
    requires At(ws, tree, original, r, before) && SafeColumns(r.kids)
    modifies ws`postbuf, tree.repr
    ensures At(ws, tree, original, Then(Datatypes, ws.schemaName, Then(Columns(Enums), ws.schemaName, r)), before)
    ensures fresh(tree.repr - old(tree.repr))
  {
    ColumnPassAt(Enums, ws, tree, original, r, before);
    DatatypesAt(ws, tree, original, Then(Columns(Enums), ws.schemaName, r), before);
  }

  /** The passes on ON UPDATE and zero dates. */
  method RewriteClauses(ws: WalkerState, tree: Node, ghost original: Tree, ghost r: Rewritten,
      ghost before: seq<Statement>)
    requires At(ws, tree, original, r, before)
    modifies ws`postbuf, tree.repr
    ensures At(ws, tree, original, Then(Columns(ZeroDates), ws.schemaName, Then(Columns(Updates), ws.schemaName, r)),
            before)
    ensures fresh(tree.repr - old(tree.repr))
  {
    ColumnPassAt(Updates, ws, tree, original, r, before);
    ColumnPassAt(ZeroDates, ws, tree, original, Then(Columns(Updates), ws.schemaName, r), before);
  }

  /** The passes on indexes and AUTO_INCREMENT. */
  method HoistIndexesAndSequences(ws: WalkerState, tree: Node, ghost original: Tree, ghost r: Rewritten,
      ghost before: seq<Statement>)
    requires At(ws, tree, original, r, before)
    modifies ws`postbuf, tree.repr
    ensures At(ws, tree, original, Then(Columns(AutoIncrements), ws.schemaName, Then(Indexes, ws.schemaName, r)),
            before)
    ensures fresh(tree.repr - old(tree.repr))
  {
    HoistAt(Indexes, ws, tree, original, r, before);
    ColumnPassAt(AutoIncrements, ws, tree, original, Then(Indexes, ws.schemaName, r), before);
  }

  /** The passes on full-text indexes and foreign keys. */
  method DropAndHoist(ws: WalkerState, tree: Node, ghost original: Tree, ghost r: Rewritten,
      ghost before: seq<Statement>)
    requires At(ws, tree, original, r, before)
    modifies ws`postbuf, tree.repr
    ensures At(ws, tree, original, Then(ForeignKeys, ws.schemaName, Then(FulltextIndexes, ws.schemaName, r)), before)
    ensures tree.repr == old(tree.repr)
  {
    HoistAt(FulltextIndexes, ws, tree, original, r, before);
    HoistAt(ForeignKeys, ws, tree, original, Then(FulltextIndexes, ws.schemaName, r), before);
  }

  /** The last pass. */
  method OptionsAt(ws: WalkerState, tree: Node, ghost original: Tree, ghost r: Rewritten, ghost before: seq<Statement>)
    requires At(ws, tree, original, r, before)
    modifies tree.repr
    ensures tree.Valid() && tree.repr == old(tree.repr)
    ensures tree.model == original.(children := Then(Options, ws.schemaName, r).kids)
    ensures ws.postbuf == before + Then(Options, ws.schemaName, r).statements
  {
    OpenAt(ws, tree, original, r, before);
    Grow(Options, ws.schemaName, r, before);
    RemoveTableOptions(tree);
    assert before + r.statements + [] == before + r.statements;
  }

  /** create_table_worker, up to the passes that hoist. */
  method EditColumns(ws: WalkerState, tree: Node, ghost original: Tree, ghost before: seq<Statement>)
    requires tree.Valid() && tree.model == original && Safe(original.children) && ws.postbuf == before
    modifies ws`postbuf, tree.repr
    ensures At(ws, tree, original, ColumnStage(ws.schemaName, original.children), before)
            && fresh(tree.repr - old(tree.repr))
  {
    ghost var r := Rewritten(original.children, []);
    assert before + [] == before;
    RewriteTypes(ws, tree, original, r, before);
    RewriteClauses(ws, tree, original, Then(Datatypes, ws.schemaName, Then(Columns(Enums), ws.schemaName, r)), before);
  }

  /** create_table_worker, the rest. */
  method HoistDefinitions(ws: WalkerState, tree: Node, ghost original: Tree, ghost r: Rewritten,
      ghost before: seq<Statement>)
    requires At(ws, tree, original, r, before)
    modifies ws`postbuf, tree.repr
    ensures tree.Valid() && fresh(tree.repr - old(tree.repr))
    ensures Becomes(ws, tree, original, HoistStage(ws.schemaName, r), before)
  {
    ghost var schema := ws.schemaName;
    HoistIndexesAndSequences(ws, tree, original, r, before);
    ghost var r6 := Then(Columns(AutoIncrements), schema, Then(Indexes, schema, r));
    DropAndHoist(ws, tree, original, r6, before);
    OptionsAt(ws, tree, original, Then(ForeignKeys, schema, Then(FulltextIndexes, schema, r6)), before);
  }

  /** The table has become `goal`, with its statements behind `before`. */
  ghost predicate Becomes(ws: WalkerState, tree: Node, original: Tree, goal: Rewritten, before: seq<Statement>)
    reads ws, tree
  {
    tree.model == original.(children := goal.kids) && ws.postbuf == before + goal.statements
  }

  /** Both stages. */
  method RewriteInStages(ws: WalkerState, tree: Node, ghost original: Tree, ghost before: seq<Statement>)
    requires tree.Valid() && tree.model == original && Safe(original.children) && ws.postbuf == before
    modifies ws`postbuf, tree.repr
    ensures tree.Valid() && fresh(tree.repr - old(tree.repr))
    ensures Becomes(ws, tree, original, HoistStage(ws.schemaName, ColumnStage(ws.schemaName, original.children)),
            before)
  {
    EditColumns(ws, tree, original, before);
    HoistDefinitions(ws, tree, original, ColumnStage(ws.schemaName, original.children), before);
  }

  /** create_table_worker: the nine passes, in their order, do what RewriteTable says. */
  method CreateTableWorker(ws: WalkerState, tree: Node)
    requires tree.Valid() && Safe(tree.model.children)
    modifies ws`postbuf, tree.repr
    ensures tree.Valid() && fresh(tree.repr - old(tree.repr))
    ensures Becomes(ws, tree, old(tree.model), RewriteTable(ws.schemaName, old(tree.model.children)), old(ws.postbuf))
  {
    RewriteTableInStages(ws.schemaName, tree.model.children);
    RewriteInStages(ws, tree, tree.model, ws.postbuf);
  }
}
