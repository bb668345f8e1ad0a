/** The read-only loops over a node: look_ahead_index, look_ahead_down, create_table_tablename, dupTree. */
module NodeSearch {
  import opened Trees
  import opened Nodes
  import opened TablePasses

  method LookAheadIndex(n: Node, from: nat, kind: Kind) returns (pos: int)
    requires n.Valid()
    ensures pos == Look(n.model.children, from, kind)
    ensures pos > -1 ==> from <= pos < |n.children| == |n.model.children|
  {
    n.Top();
    var c := from;
    while c < |n.children|
      invariant from <= c && (from <= |n.children| ==> c <= |n.children|)
      invariant forall k :: from <= k < c && k < |n.children| ==> n.model.children[k].kind != kind
    {
      n.Child(c);
      if n.children[c].kind == kind {
        return c;
      }
      c := c + 1;
    }
    return -1;
  }

  /** Some child at or behind `from`, or something below one, has the kind. */
  ghost predicate BelowFrom(kids: seq<Tree>, from: nat, kind: Kind) {
    exists k :: from <= k < |kids| && (kids[k].kind == kind || Below(kids[k], kind))
  }

  lemma BelowFromNext(kids: seq<Tree>, from: nat, kind: Kind)
    requires from < |kids|
    ensures BelowFrom(kids, from, kind)
            <==> kids[from].kind == kind || Below(kids[from], kind) || BelowFrom(kids, from + 1, kind)
  {
  }

  lemma BelowIsBelowFrom(t: Tree, kind: Kind)
    ensures Below(t, kind) <==> BelowFrom(t.children, 0, kind)
  {
  }

  /** The deep search is sound and complete: non-negative exactly when the kind occurs. */
  method LookAheadDown(n: Node, from: nat, kind: Kind) returns (pos: int)
    requires n.Valid()
    ensures pos > -1 <==> BelowFrom(n.model.children, from, kind)
    decreases n.repr
  {
    n.Top();
    var c := from;
    while c < |n.children|
      invariant from <= c && (BelowFrom(n.model.children, from, kind) <==> BelowFrom(n.model.children, c, kind))
    {
      var child := n.children[c];
      n.Child(c);
      BelowFromNext(n.model.children, c, kind);
      BelowIsBelowFrom(child.model, kind);
      if child.kind == kind {
        return c;
      } else if |child.children| > 0 {
        var down := LookAheadDown(child, 0, kind);
        if down > -1 {
          return down;
        }
      }
      c := c + 1;
    }
    return -1;
  }

  /** The name of the table: the text of the first identifier. */
  method CreateTableTablename(base: Node) returns (name: string)
    requires base.Valid()
    ensures name == TableName(base.model.children)
  {
    base.Top();
    var c := 0;
    while c < |base.children|
      invariant 0 <= c <= |base.children| && forall k :: 0 <= k < c ==> base.model.children[k].kind != Id
    {
      base.Child(c);
      if base.children[c].kind == Id {
        return base.children[c].text;
      }
      c := c + 1;
    }
    return "";
  }

  /** dupTree: a fresh copy of the whole subtree. */
  method Duplicate(n: Node) returns (d: Node)
    requires n.Valid()
    ensures d.Valid() && fresh(d.repr) && d.model == n.model
    decreases n.repr
  {
    n.Top();
    d := new Node(n.kind, n.text, n.line, n.col);
    for i := 0 to |n.children|
      invariant n.Valid() && d.Valid() && fresh(d.repr)
      invariant d.model == n.model.(children := n.model.children[..i])
    {
      n.Child(i);
      var c := Duplicate(n.children[i]);
      d.AddChild(c);
    }
    assert n.model.children[..|n.children|] == n.model.children;
  }
}
