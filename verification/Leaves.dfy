/** The printed leaves of a tree, left to right. */
module Leaves {
  import opened Trees

  /** An end-of-file leaf is not printed; a node with children prints only through them. */
  ghost function LeavesOf(t: Tree): seq<Tree>
    decreases t
  {
    if t.children != [] then Frontier(t.children) else if t.kind == Eof then [] else [t]
  }

  ghost function Frontier(kids: seq<Tree>): seq<Tree>
    decreases kids
  {
    if kids == [] then [] else LeavesOf(kids[0]) + Frontier(kids[1..])
  }

  ghost function Concat(leaves: seq<Tree>): string {
    if leaves == [] then "" else leaves[0].text + Concat(leaves[1..])
  }

  /** The visible text of a child list. */
  ghost function Visible(kids: seq<Tree>): string {
    Concat(Frontier(kids))
  }

  lemma {:induction false} FrontierConcat(a: seq<Tree>, b: seq<Tree>)
    ensures Frontier(a + b) == Frontier(a) + Frontier(b)
    decreases |a|
  {
    if a == [] {
      assert a + b == b;
    } else {
      assert (a + b)[1..] == a[1..] + b;
      FrontierConcat(a[1..], b);
    }
  }

  lemma {:induction false} ConcatConcat(a: seq<Tree>, b: seq<Tree>)
    ensures Concat(a + b) == Concat(a) + Concat(b)
    decreases |a|
  {
    if a == [] {
      assert a + b == b;
    } else {
      assert (a + b)[1..] == a[1..] + b;
      ConcatConcat(a[1..], b);
    }
  }

  lemma VisibleConcat(a: seq<Tree>, b: seq<Tree>)
    ensures Visible(a + b) == Visible(a) + Visible(b)
  {
    FrontierConcat(a, b);
    ConcatConcat(Frontier(a), Frontier(b));
  }

  lemma VisibleLeaf(t: Tree)
    requires t.children == [] && t.kind != Eof
    ensures Visible([t]) == t.text
  {
    assert [t][1..] == [] && Frontier([t]) == [t];
    assert Concat([t][1..]) == "";
  }

  /** A node with children shows the text of its children. */
  lemma VisibleNode(t: Tree)
    requires t.children != []
    ensures Visible([t]) == Visible(t.children)
  {
    var none := [t][1..];
    assert none == [] && Frontier([t]) == LeavesOf(t) + Frontier(none) == Frontier(t.children);
  }
}
