/** Places in a tree. */
module Paths {
  import opened Wrappers
  import opened Trees

  /** The tree at the end of a path of child numbers. */
  ghost function Sub(t: Tree, path: seq<nat>): Option<Tree>
    decreases |path|
  {
    if path == [] then Some(t)
    else if path[0] < |t.children| then Sub(t.children[path[0]], path[1..])
    else None
  }

  ghost predicate Leads(t: Tree, path: seq<nat>, kind: Kind) {
    path != [] && Sub(t, path).Some? && Sub(t, path).value.kind == kind
  }

  lemma {:induction false} LeadsBelow(t: Tree, path: seq<nat>, kind: Kind)
    requires Leads(t, path, kind)
    ensures Below(t, kind)
    decreases |path|
  {
    var child := t.children[path[0]];
    if |path| == 1 {
      assert Sub(child, path[1..]) == Some(child);
    } else {
      LeadsBelow(child, path[1..], kind);
    }
  }

  lemma {:induction false} BelowLeads(t: Tree, kind: Kind) returns (path: seq<nat>)
    requires Below(t, kind)
    ensures Leads(t, path, kind)
    decreases t
  {
    var k: nat :| k < |t.children| && (t.children[k].kind == kind || Below(t.children[k], kind));
    if t.children[k].kind == kind {
      path := [k];
      assert path[1..] == [];
    } else {
      var rest := BelowLeads(t.children[k], kind);
      path := [k] + rest;
      assert path[1..] == rest;
    }
  }

  /** What the deep search looks for: a node of the kind at the end of some path. */
  lemma BelowIffPath(t: Tree, kind: Kind)
    ensures Below(t, kind) <==> exists path :: Leads(t, path, kind)
  {
    if Below(t, kind) {
      var path := BelowLeads(t, kind);
    }
    if path :| Leads(t, path, kind) {
      LeadsBelow(t, path, kind);
    }
  }
}
