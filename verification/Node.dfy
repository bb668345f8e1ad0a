/**
  ANTLR's tree node: a mutable child list. The ghost field `model` is the tree value the node stands
  for, `repr` the nodes it is made of; `Valid` ties them to the real fields.
 */
module Nodes {
  import opened Trees

  class Node {
    const kind: Kind
    const line: int
    const col: int
    var text: string
    var children: seq<Node>
    ghost var model: Tree
    ghost var repr: set<Node>

    /** The fields and the ghost fields agree, all the way down. */
    ghost predicate Valid()
      reads this, repr
      decreases repr, 1
    {
      forall k {:trigger Inspect(k)} :: Inspect(k) ==> Fits()
    }

    ghost predicate Fits()
      reads this, repr
      decreases repr, 0
    {
      && this in repr
      && model.kind == kind && model.text == text && model.line == line && model.col == col
      && |model.children| == |children|
      && (forall i :: 0 <= i < |children| ==>
            && children[i] in repr && children[i] in children[i].repr
            && children[i].repr <= repr && this !in children[i].repr
            && children[i].Valid() && children[i].model == model.children[i])
      && (forall i, j :: 0 <= i < j < |children| ==> children[i].repr !! children[j].repr)
    }

    constructor (kind: Kind, text: string, line: int, col: int)
      ensures Valid() && fresh(repr) && repr == {this}
      ensures model == Tree(kind, text, line, col, []) && children == []
    {
      this.kind, this.text, this.line, this.col := kind, text, line, col;
      children := [];
      model := Tree(kind, text, line, col, []);
      repr := {this};
    }

    lemma Open()
      requires Valid()
      ensures Fits()
    {
      assert Inspect(0);
    }

    lemma Close()
      requires Fits()
      ensures Valid()
    {
    }

    /** What a reader of child i needs to know. */
    lemma Child(i: nat)
      requires Valid() && i < |children|
      ensures this in repr && |model.children| == |children| && children[i].Valid()
              && children[i].model == model.children[i]
      ensures children[i] in children[i].repr && children[i].repr <= repr && this !in children[i].repr
      ensures children[i].kind == model.children[i].kind && children[i].text == model.children[i].text
      ensures |children[i].children| == |model.children[i].children|
    {
      assert Inspect(0);
      children[i].Open();
    }

    lemma Top()
      requires Valid()
      ensures this in repr && |model.children| == |children|
      ensures model.kind == kind && model.text == text && model.line == line && model.col == col
    {
      assert Inspect(0);
    }

    /** token->setText on the node's token. */
    method SetText(t: string)
      requires Valid()
      modifies this`text, this`model
      ensures Valid() && model == old(model).(text := t) && repr == old(repr)
    {
      Open();
      text := t;
      model := model.(text := t);
      Close();
    }

    /** base->deleteChild: remove child i, the later ones move down. */
    method DeleteChild(i: nat)
      requires Valid() && i < |children|
      modifies this`children, this`model
      ensures Valid() && |old(model.children)| == |old(children)|
      ensures model == old(model.(children := model.children[..i] + model.children[i + 1..]))
    {
      Open();
      children := children[..i] + children[i + 1..];
      model := model.(children := model.children[..i] + model.children[i + 1..]);
      Close();
    }

    /** base->addChild: append. */
    method AddChild(n: Node)
      requires Valid() && n.Valid() && n.repr !! repr
      modifies this`children, this`model, this`repr
      ensures Valid() && repr == old(repr + n.repr)
      ensures model == old(model).(children := old(model.children + [n.model]))
    {
      Open();
      n.Open();
      children := children + [n];
      model := model.(children := model.children + [n.model]);
      repr := repr + n.repr;
      Close();
    }

    /** All of `Fits` that does not speak of child i. */
    ghost predicate FitsExcept(i: nat)
      reads *
    {
      && i < |children|
      && this in repr
      && model.kind == kind && model.text == text && model.line == line && model.col == col
      && |model.children| == |children|
      && (forall j :: 0 <= j < |children| && j != i ==>
            && children[j] in children[j].repr && children[j].repr <= repr && this !in children[j].repr
            && children[j].Valid() && children[j].model == model.children[j])
      && (forall j :: 0 <= j < |children| && j != i ==> children[j].repr !! children[i].repr)
      && (forall j, k :: 0 <= j < k < |children| && j != i && k != i ==> children[j].repr !! children[k].repr)
    }

    /** A change inside child i leaves the node itself and the siblings as they were. */
    twostate lemma SiblingsKeep(i: nat)
      requires old(Valid()) && i < |old(children)|
      requires forall o :: o in old(repr) && o !in old(children[i].repr) ==> unchanged(o)
      requires old(children[i]).Valid() && fresh(old(children[i]).repr - old(children[i].repr))
      ensures FitsExcept(i) && children == old(children) && model == old(model) && repr == old(repr)
      ensures this !in children[i].repr
    {
      assert Inspect(0);
      assert unchanged(this);
      forall j | 0 <= j < |children| && j != i
        ensures children[j].Valid() && unchanged(children[j]) && children[j].repr !! children[i].repr
      {
        assert old(children[j].repr !! children[i].repr) by {
          if j < i {} else {}
        }
        assert forall o :: o in old(children[j].repr) ==> unchanged(o);
      }
    }

    /** Bring the ghost fields up to date after a change inside child i. */
    ghost method Resync(i: nat)
      requires FitsExcept(i) && children[i].Valid() && this !in children[i].repr
      modifies this`model, this`repr
      ensures Valid() && children == old(children) && repr == old(repr) + children[i].repr
      ensures model == old(model).(children := old(model.children)[i := children[i].model])
    {
      children[i].Open();
      model := model.(children := model.children[i := children[i].model]);
      repr := repr + children[i].repr;
      Close();
    }

    /** setText on the token of child i. */
    method SetChildText(i: nat, t: string)
      requires Valid() && i < |children|
      modifies repr
      ensures Valid() && repr == old(repr) && |old(model.children)| == |old(children)|
      ensures model == old(model).(children := old(model.children)[i := old(model.children[i]).(text := t)])
    {
      Child(i);
      label L:
      children[i].SetText(t);
      SiblingsKeep@L(i);
      Resync(i);
    }
  }
}
