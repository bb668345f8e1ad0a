/** TreeWalkWorker and its handlers on the mutable tree. */
module Walker {
  import opened Sequences
  import opened Trees
  import opened Nodes
  import opened NodeSearch
  import opened TablePasses
  import opened ColumnWorker
  import opened TableWorker
  import opened TreeWalk
  import opened WalkLaws

  /** The first child of the kind, if there is one, gets another text. */
  method RewordFirst(t: Node, kind: Kind, text: string)
    requires t.Valid()
    modifies t.repr
    ensures t.Valid() && t.repr == old(t.repr)
    ensures t.model == old(t.model.(children := Reword(t.model.children, kind, text)))
  {
    var pos := LookAheadIndex(t, 0, kind);
    if pos > -1 {
      t.SetChildText(pos, text);
    }
  }

  lemma HasKindIffFound(kids: seq<Tree>, kind: Kind)
    ensures HasKind(kids, kind) <==> Find(kids, 0, kind) < |kids|
  {
  }

  lemma RewordKeeps(kids: seq<Tree>, kind: Kind, text: string, other: Kind)
    requires kind != other
    ensures FirstText(Reword(kids, kind, text), other) == FirstText(kids, other)
    ensures HasKind(Reword(kids, kind, text), other) <==> HasKind(kids, other)
  {
    var next := Reword(kids, kind, text);
    KindsKeepFind(next, kids, 0, other);
    HasKindIffFound(next, other);
    HasKindIffFound(kids, other);
  }

  /** use_database_worker. */
  method UseDatabaseWorker(ws: WalkerState, t: Node)
    requires t.Valid() && t.model.kind == UseDatabase
    modifies ws`schemaName, t.repr
    ensures t.Valid() && t.repr == old(t.repr)
    ensures t.model == Handle(old(ws.schemaName), old(t.model)).tree
    ensures ws.schemaName == Handle(old(ws.schemaName), old(t.model)).schema
  {
    ghost var kids := t.model.children;
    RewordKeeps(kids, KwUse, "SET search_path TO", Id);
    var pos := LookAheadIndex(t, 0, KwUse);
    if pos < 0 {
      return;
    }
    RewordFirst(t, KwUse, "SET search_path TO");
    pos := LookAheadIndex(t, 0, Id);
    if pos > -1 {
      t.Child(pos);
      ws.schemaName := t.children[pos].text + ".";
      RewordFirst(t, Id, t.children[pos].text + ",public");
    }
  }

  /** lock_tables_worker and delete_tree_children: no text, no children. */
  method LockTablesWorker(t: Node)
    requires t.Valid()
    modifies t.repr
    ensures t.Valid() && t.repr == old(t.repr)
    ensures t.model == old(t.model).(text := "", children := [])
  {
    t.Top();
    t.SetText("");
    var n := |t.children|;
    for c := 0 to n
      invariant t.Valid() && t.repr == old(t.repr) && |t.model.children| == |t.children| == n - c
      invariant t.model == old(t.model).(text := "", children := t.model.children)
    {
      t.DeleteChild(0);
      t.Top();
    }
    assert t.model.children == [];
  }

  /** The dispatch on the kind of a child whose own children are done. */
  method Dispatch(ws: WalkerState, t: Node)
    requires t.Valid() && (t.model.kind == CreateTable ==> Safe(t.model.children))
    modifies ws, t.repr
    ensures t.Valid() && fresh(t.repr - old(t.repr))
    ensures t.model == Handle(old(ws.schemaName), old(t.model)).tree
    ensures ws.schemaName == Handle(old(ws.schemaName), old(t.model)).schema
    ensures ws.postbuf == old(ws.postbuf) + Handle(old(ws.schemaName), old(t.model)).statements
  {
    t.Top();
    if t.kind == CreateTable {
      CreateTableWorker(ws, t);
    } else if t.kind == UseDatabase {
      UseDatabaseWorker(ws, t);
    } else if t.kind == LockTable {
      LockTablesWorker(t);
    }
  }

  lemma VisitIs(schema: string, t: Tree, before: seq<Statement>)
    ensures var below, all := WalkKids(schema, t.children), WalkTree(schema, t);
            var h := Handle(below.schema, t.(children := below.kids));
            all.tree == h.tree && all.schema == h.schema
            && before + all.statements == before + below.statements + h.statements
  {
    var below := WalkKids(schema, t.children);
    var h := Handle(below.schema, t.(children := below.kids));
    assert before + (below.statements + h.statements) == before + below.statements + h.statements;
  }

  /** One round of TreeWalkWorker: first below the child, then the child. */
  method Visit(ws: WalkerState, t: Node)
    requires t.Valid() && SafeTree(t.model)
    modifies ws, t.repr
    ensures t.Valid() && fresh(t.repr - old(t.repr))
    ensures t.model == WalkTree(old(ws.schemaName), old(t.model)).tree
    ensures ws.schemaName == WalkTree(old(ws.schemaName), old(t.model)).schema
    ensures ws.postbuf == old(ws.postbuf) + WalkTree(old(ws.schemaName), old(t.model)).statements
    decreases t.model, 1
  {
    ghost var schema, tree, before := ws.schemaName, t.model, ws.postbuf;
    ghost var below := WalkKids(schema, tree.children);
    t.Top();
    WalkKidsIsRewrite(schema, tree.children);
    if |t.children| > 0 {
      TreeWalkWorker(ws, t);
    } else {
      assert tree.children == [] && tree.(children := []) == tree;
    }
    Dispatch(ws, t);
    VisitIs(schema, tree, before);
  }

  /** Where the loop stands: the children before `c` done, the walk over the others still to come. */
  ghost predicate Underway(w: Walk, kids: seq<Tree>, c: nat, now: seq<Tree>, schema: string,
      statements: seq<Statement>) {
    forall k {:trigger Inspect(k)} :: Inspect(k) ==>
      && c <= |kids| == |now| && now[c..] == kids[c..] && SafeKids(kids[c..])
      && var rest := WalkKids(schema, kids[c..]);
        w == Walk(now[..c] + rest.kids, rest.schema, statements + rest.statements)
  }

  lemma UnderwayFirst(w: Walk, kids: seq<Tree>, schema: string)
    requires SafeKids(kids) && w == WalkKids(schema, kids)
    ensures Underway(w, kids, 0, kids, schema, [])
  {
    assert kids[0..] == kids && kids[..0] == [] && [] + w.kids == w.kids && [] + w.statements == w.statements;
  }

  lemma UnderwayNext(w: Walk, kids: seq<Tree>, c: nat, now: seq<Tree>, schema: string, statements: seq<Statement>)
    requires Underway(w, kids, c, now, schema, statements) && c < |now|
    ensures |kids| == |now| && now[c] == kids[c] && SafeTree(kids[c])
    ensures var h := WalkTree(schema, kids[c]);
            Underway(w, kids, c + 1, now[c := h.tree], h.schema, statements + h.statements)
  {
    assert Inspect(0);
    assert now[c..][0] == now[c] && kids[c..][0] == kids[c] && kids[c..][1..] == kids[c + 1..];
    var h := WalkTree(schema, kids[c]);
    var rest := WalkKids(h.schema, kids[c + 1..]);
    var next := now[c := h.tree];
    assert next[c + 1..] == now[c..][1..] && next[..c + 1] == now[..c] + [h.tree];
    assert now[..c] + ([h.tree] + rest.kids) == next[..c + 1] + rest.kids;
    assert statements + (h.statements + rest.statements) == statements + h.statements + rest.statements;
  }

  lemma UnderwayChild(w: Walk, kids: seq<Tree>, c: nat, now: seq<Tree>, schema: string, statements: seq<Statement>)
    requires Underway(w, kids, c, now, schema, statements) && c < |now|
    ensures |kids| == |now| && now[c] == kids[c]
  {
    assert Inspect(0);
    assert now[c..][0] == now[c] && kids[c..][0] == kids[c];
  }

  lemma UnderwayLast(w: Walk, kids: seq<Tree>, c: nat, now: seq<Tree>, schema: string, statements: seq<Statement>)
    requires Underway(w, kids, c, now, schema, statements) && c == |now|
    ensures w == Walk(now, schema, statements)
  {
    assert Inspect(0);
    assert kids[c..] == [] && now[..c] + [] == now && statements + [] == statements;
  }

  /** One child visited; the node takes note. */
  method VisitChild(ws: WalkerState, p: Node, c: nat)
    requires p.Valid() && c < |p.children| == |p.model.children| && SafeTree(p.model.children[c])
    modifies ws, p.repr
    ensures p.Valid() && fresh(p.repr - old(p.repr)) && |p.children| == |p.model.children|
    ensures var h := WalkTree(old(ws.schemaName), old(p.model.children[c]));
            && p.model == old(p.model).(children := old(p.model.children)[c := h.tree])
            && ws.schemaName == h.schema && ws.postbuf == old(ws.postbuf) + h.statements
    decreases p.model.children[c], 2
  {
    p.Child(c);
    label L:
    Visit(ws, p.children[c]);
    p.SiblingsKeep@L(c);
    p.Resync(c);
    p.Top();
  }

  /** One round of the loop. */
  method VisitNext(ws: WalkerState, p: Node, c: nat, ghost w: Walk, ghost kids: seq<Tree>,
      ghost before: seq<Statement>, ghost sts: seq<Statement>)
    returns (ghost more: seq<Statement>)
    requires p.Valid() && c < |p.children| == |p.model.children| && ws.postbuf == before + sts
    requires Underway(w, kids, c, p.model.children, ws.schemaName, sts)
    modifies ws, p.repr
    ensures p.Valid() && fresh(p.repr - old(p.repr)) && |p.children| == |p.model.children| == |kids|
    ensures p.model == old(p.model).(children := p.model.children) && ws.postbuf == before + more
    ensures Underway(w, kids, c + 1, p.model.children, ws.schemaName, more)
    decreases p.model.children[c], 3
  {
    UnderwayNext(w, kids, c, p.model.children, ws.schemaName, sts);
    ghost var h := WalkTree(ws.schemaName, kids[c]);
    VisitChild(ws, p, c);
    more := sts + h.statements;
    Associate(before, sts, h.statements);
  }

  /**
    TreeWalkWorker. The handlers change what is below a child, never the list walked over; the result is the
    left-to-right fold.
   */
  method TreeWalkWorker(ws: WalkerState, p: Node)
    requires p.Valid() && SafeKids(p.model.children)
    modifies ws, p.repr
    ensures p.Valid() && fresh(p.repr - old(p.repr))
    ensures var w := WalkKids(old(ws.schemaName), old(p.model.children));
            && p.model == old(p.model).(children := w.kids)
            && ws.schemaName == w.schema && ws.postbuf == old(ws.postbuf) + w.statements
    decreases p.model, 0
  {
    ghost var original, kids, before := p.model, p.model.children, ws.postbuf;
    ghost var w, sts := WalkKids(ws.schemaName, kids), [];
    UnderwayFirst(w, kids, ws.schemaName);
    assert before + sts == before;
    p.Top();
    var c := 0;
    while c < |p.children|
      invariant p.Valid() && fresh(p.repr - old(p.repr)) && c <= |p.children| == |p.model.children| == |kids|
      invariant p.model == original.(children := p.model.children)
      invariant Underway(w, kids, c, p.model.children, ws.schemaName, sts) && ws.postbuf == before + sts
      decreases |kids| - c, 0
    {
      UnderwayChild(w, kids, c, p.model.children, ws.schemaName, sts);
      sts := VisitNext(ws, p, c, w, kids, before, sts);
      c := c + 1;
    }
    UnderwayLast(w, kids, c, p.model.children, ws.schemaName, sts);
  }
}
