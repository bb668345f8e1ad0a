/** Which leaves of a tree are printed, said by paths: the places that end in a leaf other than end-of-file. */
module LeafPaths {
  import opened Trees
  import opened Paths
  import opened Leaves
  import opened PrintTrace

  /** The path leads to a node without children that is no end-of-file token. */
  ghost predicate EndsInLeaf(t: Tree, path: seq<nat>) {
    Sub(t, path).Some? && Sub(t, path).value.children == [] && Sub(t, path).value.kind != Eof
  }

  /** The same for a child list: the first number of the path is that of the child, `from` or a later one. */
  ghost predicate EndsInLeafFrom(kids: seq<Tree>, from: nat, path: seq<nat>) {
    path != [] && from <= path[0] < |kids| && EndsInLeaf(kids[path[0]], path[1..])
  }

  /** p turns left where the two part. */
  ghost predicate LeftOf(p: seq<nat>, q: seq<nat>) {
    p != [] && q != [] && (p[0] < q[0] || (p[0] == q[0] && LeftOf(p[1..], q[1..])))
  }

  ghost predicate LeftToRight(paths: seq<seq<nat>>) {
    forall i, j :: 0 <= i < j < |paths| ==> LeftOf(paths[i], paths[j])
  }

  /** `paths` are all the paths of t that end in such a leaf, from left to right, and `leaves` what stands there. */
  ghost predicate Lists(t: Tree, paths: seq<seq<nat>>, leaves: seq<Tree>) {
    && |paths| == |leaves| && LeftToRight(paths)
    && (forall p :: p in paths <==> EndsInLeaf(t, p))
    && (forall i :: 0 <= i < |paths| ==> Sub(t, paths[i]).Some? && Sub(t, paths[i]).value == leaves[i])
  }

  ghost predicate ListsFrom(kids: seq<Tree>, from: nat, paths: seq<seq<nat>>, leaves: seq<Tree>) {
    && |paths| == |leaves| && LeftToRight(paths)
    && (forall p :: p in paths <==> EndsInLeafFrom(kids, from, p))
    && (forall i :: 0 <= i < |paths| ==> LeafAt(kids, paths[i], leaves[i]))
  }

  ghost predicate LeafAt(kids: seq<Tree>, path: seq<nat>, leaf: Tree) {
    && path != [] && path[0] < |kids|
    && Sub(kids[path[0]], path[1..]).Some? && Sub(kids[path[0]], path[1..]).value == leaf
  }

  /** The paths of child c, seen from its parent. */
  ghost function Through(c: nat, paths: seq<seq<nat>>): seq<seq<nat>> {
    seq(|paths|, i requires 0 <= i < |paths| => [c] + paths[i])
  }

  lemma ThroughHas(c: nat, paths: seq<seq<nat>>, p: seq<nat>)
    ensures p in Through(c, paths) <==> p != [] && p[0] == c && p[1..] in paths
  {
    if p in Through(c, paths) {
      var i :| 0 <= i < |paths| && Through(c, paths)[i] == p;
      assert p[1..] == paths[i];
    }
    if p != [] && p[0] == c && p[1..] in paths {
      var i :| 0 <= i < |paths| && paths[i] == p[1..];
      assert Through(c, paths)[i] == p;
    }
  }

  lemma ThroughIsOrdered(c: nat, paths: seq<seq<nat>>)
    requires LeftToRight(paths)
    ensures LeftToRight(Through(c, paths))
  {
    forall i, j | 0 <= i < j < |paths| ensures LeftOf(Through(c, paths)[i], Through(c, paths)[j]) {
      assert Through(c, paths)[i][1..] == paths[i] && Through(c, paths)[j][1..] == paths[j];
    }
  }

  /** The paths through child `from`, and then those further right. */
  lemma ListsNext(kids: seq<Tree>, from: nat, here: seq<seq<nat>>, rest: seq<seq<nat>>, a: seq<Tree>, b: seq<Tree>)
    requires from < |kids| && Lists(kids[from], here, a) && ListsFrom(kids, from + 1, rest, b)
    ensures ListsFrom(kids, from, Through(from, here) + rest, a + b)
  {
    var first := Through(from, here);
    var paths := first + rest;
    forall p ensures p in paths <==> EndsInLeafFrom(kids, from, p) {
      ThroughHas(from, here, p);
      assert p in paths <==> p in first || p in rest;
    }
    ThroughIsOrdered(from, here);
    forall i, j | 0 <= i < j < |paths| ensures LeftOf(paths[i], paths[j]) {
      if i < |first| <= j {
        assert paths[j] in rest && paths[i] == [from] + here[i];
      }
    }
    forall i | 0 <= i < |paths| ensures LeafAt(kids, paths[i], (a + b)[i]) {
      if i < |first| {
        assert paths[i] == [from] + here[i] && paths[i][1..] == here[i];
      }
    }
  }

  lemma FrontierHead(kids: seq<Tree>, from: nat)
    requires from < |kids|
    ensures Frontier(kids[from..]) == LeavesOf(kids[from]) + Frontier(kids[from + 1..])
  {
    assert kids[from..][0] == kids[from] && kids[from..][1..] == kids[from + 1..];
  }

  lemma {:induction false} ListTree(t: Tree) returns (paths: seq<seq<nat>>)
    ensures Lists(t, paths, LeavesOf(t))
    decreases t, 0
  {
    if t.children == [] {
      paths := if t.kind == Eof then [] else [[]];
      assert forall p :: EndsInLeaf(t, p) ==> p == [];
    } else {
      paths := ListKids(t.children, 0);
      assert t.children[0..] == t.children;
      forall p ensures p in paths <==> EndsInLeaf(t, p) {
        assert EndsInLeaf(t, p) <==> EndsInLeafFrom(t.children, 0, p);
      }
      forall i | 0 <= i < |paths| ensures Sub(t, paths[i]).Some? && Sub(t, paths[i]).value == LeavesOf(t)[i] {
        assert LeafAt(t.children, paths[i], LeavesOf(t)[i]);
      }
    }
  }

  lemma {:induction false} ListKids(kids: seq<Tree>, from: nat) returns (paths: seq<seq<nat>>)
    requires from <= |kids|
    ensures ListsFrom(kids, from, paths, Frontier(kids[from..]))
    decreases kids, |kids| - from
  {
    if from == |kids| {
      paths := [];
    } else {
      var here := ListTree(kids[from]);
      var rest := ListKids(kids, from + 1);
      FrontierHead(kids, from);
      ListsNext(kids, from, here, rest, LeavesOf(kids[from]), Frontier(kids[from + 1..]));
      paths := Through(from, here) + rest;
    }
  }

  /**
    What the printer prints of a child list: one leaf for each path that ends in a leaf other than end-of-file, each
    path once, in left-to-right order.
   */
  lemma PrintedByPaths(kids: seq<Tree>) returns (paths: seq<seq<nat>>)
    ensures ListsFrom(kids, 0, paths, Frontier(kids))
  {
    paths := ListKids(kids, 0);
    assert kids[0..] == kids;
  }

  /** So a node is among the printed ones if and only if some path leads to it and it is such a leaf. */
  lemma PrintedIff(kids: seq<Tree>, x: Tree)
    ensures x in Frontier(kids) <==>
              && x.children == [] && x.kind != Eof
              && exists p: seq<nat> :: p != [] && p[0] < |kids| && Sub(kids[p[0]], p[1..]).Some?
                                     && Sub(kids[p[0]], p[1..]).value == x
  {
    var paths := PrintedByPaths(kids);
    if x in Frontier(kids) {
      var i :| 0 <= i < |paths| && Frontier(kids)[i] == x;
      assert LeafAt(kids, paths[i], x) && paths[i] in paths;
    }
    if p: seq<nat> :| p != [] && p[0] < |kids| && Sub(kids[p[0]], p[1..]).Some? && Sub(kids[p[0]], p[1..]).value == x
                      && x.children == [] && x.kind != Eof {
      assert p in paths;
      var i :| 0 <= i < |paths| && paths[i] == p;
      assert LeafAt(kids, paths[i], Frontier(kids)[i]);
    }
  }

  lemma {:induction false} LeftOfIsStrict(p: seq<nat>, q: seq<nat>)
    ensures !(LeftOf(p, q) && LeftOf(q, p))
    decreases |p|
  {
    if p != [] && q != [] && p[0] == q[0] {
      LeftOfIsStrict(p[1..], q[1..]);
    }
  }

  lemma FirstPath(p: seq<seq<nat>>, q: seq<seq<nat>>)
    requires LeftToRight(p) && LeftToRight(q) && p != [] && q != [] && p[0] in q && q[0] in p
    ensures p[0] == q[0]
  {
    var j :| 0 <= j < |q| && q[j] == p[0];
    var k :| 0 <= k < |p| && p[k] == q[0];
    LeftOfIsStrict(p[0], q[0]);
  }

  lemma RestOfPaths(p: seq<seq<nat>>, q: seq<seq<nat>>, x: seq<nat>)
    requires LeftToRight(p) && p != [] && q != [] && p[0] == q[0] && (x in p ==> x in q)
    ensures x in p[1..] ==> x in q[1..]
  {
    LeftOfIsStrict(p[0], p[0]);
    if x in p[1..] {
      var i :| 0 <= i < |p[1..]| && p[1..][i] == x;
      assert p[i + 1] == x && LeftOf(p[0], x);
      var j :| 0 <= j < |q| && q[j] == x;
      assert q[1..][j - 1] == x;
    }
  }

  lemma BothEmpty(p: seq<seq<nat>>, q: seq<seq<nat>>)
    requires forall x :: x in p <==> x in q
    ensures p == [] <==> q == []
  {
    if p != [] {
      assert p[0] in p;
    }
    if q != [] {
      assert q[0] in q;
    }
  }

  lemma {:induction false} PathsAreFixed(p: seq<seq<nat>>, q: seq<seq<nat>>)
    requires LeftToRight(p) && LeftToRight(q) && forall x :: x in p <==> x in q
    ensures p == q
    decreases |p|
  {
    BothEmpty(p, q);
    if p != [] {
      assert p[0] in q && q[0] in p;
      FirstPath(p, q);
      forall x ensures x in p[1..] <==> x in q[1..] {
        RestOfPaths(p, q, x);
        RestOfPaths(q, p, x);
      }
      PathsAreFixed(p[1..], q[1..]);
    }
  }

  /** That fixes what is printed: no other list of leaves is one for each such path, in their order. */
  lemma PrintedIsFixed(kids: seq<Tree>, paths: seq<seq<nat>>, leaves: seq<Tree>)
    requires ListsFrom(kids, 0, paths, leaves)
    ensures leaves == Frontier(kids)
  {
    var all := PrintedByPaths(kids);
    PathsAreFixed(paths, all);
    forall i | 0 <= i < |paths| ensures leaves[i] == Frontier(kids)[i] {
      assert LeafAt(kids, paths[i], leaves[i]) && LeafAt(kids, all[i], Frontier(kids)[i]);
    }
  }

  // ---------- end of file ----------

  /** An end-of-file leaf, wherever it stands in a child list, adds nothing to what is printed. */
  lemma EndOfFileIsSilent(a: seq<Tree>, end: Tree, b: seq<Tree>, tokens: seq<Token>)
    requires end.kind == Eof && end.children == []
    ensures Frontier(a + [end] + b) == Frontier(a + b) && Visible(a + [end] + b) == Visible(a + b)
    ensures Text(tokens, Printed(tokens, 0, Frontier(a + [end] + b)))
            == Text(tokens, Printed(tokens, 0, Frontier(a + b)))
  {
    var none := [end][1..];
    assert none == [] && Frontier([end]) == LeavesOf(end) + Frontier(none) == [];
    FrontierConcat(a + [end], b);
    FrontierConcat(a, [end]);
    FrontierConcat(a, b);
    assert Frontier(a) + [] == Frontier(a);
  }
}
