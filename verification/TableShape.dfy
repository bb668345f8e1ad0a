/** What the pipeline does to the child list of a CREATE TABLE as the grammar builds it. */
module TableShape {
  import opened Sequences
  import opened Trees
  import opened TablePasses
  import opened TableLaws

  /** A definition with the comma in front of it: one node, or the run of tokens of a key constraint. */
  datatype Item = Item(comma: Tree, body: seq<Tree>)

  /** A table: header, parenthesis and first column, then the further definitions, then the rest. */
  datatype Shape = Shape(lead: seq<Tree>, items: seq<Item>, tail: seq<Tree>)

  ghost function Flat(items: seq<Item>): seq<Tree> {
    if items == [] then [] else [items[0].comma] + items[0].body + Flat(items[1..])
  }

  ghost function Children(sh: Shape): seq<Tree> {
    sh.lead + Flat(sh.items) + sh.tail
  }

  ghost predicate Hoisted(kind: Kind) {
    kind == Index || kind == Fulltext || kind == ForeignKey
  }

  ghost predicate Plain(kids: seq<Tree>) {
    forall i :: 0 <= i < |kids| ==> !Hoisted(kids[i].kind)
  }

  ghost predicate CommaPair(kids: seq<Tree>, i: int) {
    0 <= i && i + 1 < |kids| && kids[i].kind == Comma && kids[i + 1].kind == Comma
  }

  /** Neither first nor last is a comma, and no two stand in a row. */
  ghost predicate Separated(kids: seq<Tree>) {
    && kids != [] && kids[0].kind != Comma && kids[|kids| - 1].kind != Comma
    && forall i :: !CommaPair(kids, i)
  }

  /** A comma and a definition: a single node the passes hoist, or anything without such nodes. */
  ghost predicate WellFormedItem(it: Item) {
    && it.comma.kind == Comma && Separated(it.body)
    && (|it.body| == 1 || Plain(it.body))
  }

  ghost predicate WellFormedItems(items: seq<Item>) {
    forall i :: 0 <= i < |items| ==> WellFormedItem(items[i])
  }

  /** Definitions separated by single commas, a kept one first; nothing to hoist outside the definitions. */
  ghost predicate WellFormed(sh: Shape) {
    && Separated(sh.lead) && Plain(sh.lead) && Plain(sh.tail)
    && WellFormedItems(sh.items)
  }

  ghost function Kept(kind: Kind, items: seq<Item>): seq<Item> {
    if items == [] then []
    else if items[0].body != [] && items[0].body[0].kind == kind then Kept(kind, items[1..])
    else [items[0]] + Kept(kind, items[1..])
  }

  lemma {:induction false} KeptWellFormed(kind: Kind, items: seq<Item>)
    requires WellFormedItems(items)
    ensures WellFormedItems(Kept(kind, items))
    ensures forall i :: 0 <= i < |Kept(kind, items)| ==> Kept(kind, items)[i].body[0].kind != kind
    decreases |items|
  {
    if items != [] {
      KeptWellFormed(kind, items[1..]);
    }
  }

  lemma SeparatedConcat(a: seq<Tree>, comma: Tree, b: seq<Tree>)
    requires Separated(a) && Separated(b)
    ensures Separated(a + ([comma] + b))
  {
    var kids := a + ([comma] + b);
    forall i ensures !CommaPair(kids, i) {
      assert !CommaPair(a, i) && !CommaPair(b, i - |a| - 1);
      if |a| < i && i + 1 < |kids| {
        assert kids[i] == b[i - |a| - 1] && kids[i + 1] == b[i - |a|];
      }
    }
  }

  /** What well-formedness means for the children: header and definitions are separated by single commas. */
  lemma {:induction false} WellFormedIsSeparated(lead: seq<Tree>, items: seq<Item>)
    requires Separated(lead) && WellFormedItems(items)
    ensures Separated(lead + Flat(items))
    decreases |items|
  {
    if items == [] {
      assert lead + Flat(items) == lead;
    } else {
      var it, rest := items[0], items[1..];
      assert WellFormedItem(it);
      SeparatedConcat(lead, it.comma, it.body);
      WellFormedIsSeparated(lead + ([it.comma] + it.body), rest);
      FlatLonger(lead, items);
    }
  }

  lemma FlatLonger(lead: seq<Tree>, items: seq<Item>)
    requires items != []
    ensures lead + ([items[0].comma] + items[0].body) + Flat(items[1..]) == lead + Flat(items)
  {
    var x, y, z := lead, [items[0].comma] + items[0].body, Flat(items[1..]);
    assert x + y + z == x + (y + z);
  }

  ghost predicate SameKinds(a: seq<Tree>, b: seq<Tree>) {
    |a| == |b| && forall i :: 0 <= i < |a| ==> a[i].kind == b[i].kind
  }

  lemma LacksByKinds(a: seq<Tree>, b: seq<Tree>, kind: Kind)
    requires SameKinds(a, b)
    ensures HasKind(a, kind) <==> HasKind(b, kind)
  {
    if i :| 0 <= i < |a| && a[i].kind == kind { assert b[i].kind == kind; }
    if i :| 0 <= i < |b| && b[i].kind == kind { assert a[i].kind == kind; }
  }

  /** Being separated, and having nothing to hoist, is a matter of kinds. */
  lemma AlikeByKinds(a: seq<Tree>, b: seq<Tree>)
    requires SameKinds(a, b)
    ensures Separated(a) <==> Separated(b)
    ensures Plain(a) <==> Plain(b)
  {
    forall i ensures CommaPair(a, i) <==> CommaPair(b, i) {}
  }

  // ---------- each hoisting pass keeps the list well-formed ----------

  lemma ItemIsOneOrLacks(kind: Kind, it: Item)
    requires WellFormedItem(it) && Hoisted(kind)
    ensures it.body[0].kind == kind ==> it.body == [it.body[0]]
    ensures it.body[0].kind != kind ==> !HasKind(it.body, kind)
  {
  }

  /** One definition through the fold: gone with its comma, or kept with it. */
  lemma HoistItem(kind: Kind, done: seq<Tree>, it: Item, tail: seq<Tree>)
    requires (kind == Index || kind == ForeignKey) && WellFormedItem(it)
    ensures it.body[0].kind == kind ==> Hoist(kind, done, [it.comma] + (it.body + tail)) == Hoist(kind, done, tail)
    ensures it.body[0].kind != kind ==>
      Hoist(kind, done, [it.comma] + (it.body + tail)) == Hoist(kind, done + ([it.comma] + it.body), tail)
  {
    ItemIsOneOrLacks(kind, it);
    if it.body[0].kind == kind {
      var todo := [it.comma] + (it.body + tail);
      assert todo[1..] == it.body + tail == [it.body[0]] + tail && ([it.body[0]] + tail)[1..] == tail;
      assert DropComma(done + [it.comma]) == done;
    } else {
      NoKindConcat([it.comma], it.body, kind);
      assert [it.comma] + (it.body + tail) == ([it.comma] + it.body) + tail;
      HoistPrefix(kind, done, [it.comma] + it.body, tail);
    }
  }

  lemma FlatCons(items: seq<Item>, rest: seq<Tree>, done: seq<Tree>, kept: seq<Item>)
    requires items != []
    ensures Flat(items) + rest == [items[0].comma] + (items[0].body + (Flat(items[1..]) + rest))
    ensures done + ([items[0].comma] + items[0].body) + Flat(kept) == done + Flat([items[0]] + kept)
  {
    assert ([items[0]] + kept)[1..] == kept;
  }

  lemma HoistFirst(kind: Kind, done: seq<Tree>, items: seq<Item>, rest: seq<Tree>)
    requires (kind == Index || kind == ForeignKey) && items != [] && WellFormedItem(items[0])
    ensures Hoist(kind, done, Flat(items) + rest)
            == Hoist(kind,
                     if items[0].body[0].kind == kind then done else done + ([items[0].comma] + items[0].body),
                     Flat(items[1..]) + rest)
  {
    FlatCons(items, rest, done, []);
    HoistItem(kind, done, items[0], Flat(items[1..]) + rest);
  }

  /** A list of definitions goes through the fold definition by definition. */
  lemma {:induction false} HoistItems(kind: Kind, done: seq<Tree>, items: seq<Item>, rest: seq<Tree>)
    requires (kind == Index || kind == ForeignKey) && WellFormedItems(items)
    ensures Hoist(kind, done, Flat(items) + rest) == Hoist(kind, done + Flat(Kept(kind, items)), rest)
    decreases |items|
  {
    if items == [] {
      assert [] + rest == rest && done + [] == done;
    } else {
      assert WellFormedItem(items[0]);
      HoistFirst(kind, done, items, rest);
      if items[0].body[0].kind == kind {
        HoistItems(kind, done, items[1..], rest);
      } else {
        HoistItems(kind, done + ([items[0].comma] + items[0].body), items[1..], rest);
        FlatCons(items, rest, done, Kept(kind, items[1..]));
      }
    }
  }

  lemma ShapeStays(kind: Kind, sh: Shape)
    requires WellFormed(sh)
    ensures WellFormed(sh.(items := Kept(kind, sh.items)))
  {
    KeptWellFormed(kind, sh.items);
  }

  lemma PlainLacks(kids: seq<Tree>, kind: Kind)
    requires Plain(kids) && Hoisted(kind)
    ensures !HasKind(kids, kind)
  {
  }

  lemma HoistTail(kind: Kind, done: seq<Tree>, tail: seq<Tree>)
    requires !HasKind(tail, kind)
    ensures Hoist(kind, done, tail) == done + tail
  {
    var none: seq<Tree> := [];
    assert tail + none == tail;
    HoistPrefix(kind, done, tail, none);
  }

  lemma HoistLead(kind: Kind, lead: seq<Tree>, more: seq<Tree>)
    requires !HasKind(lead, kind)
    ensures Hoist(kind, [], lead + more) == Hoist(kind, lead, more)
  {
    var none: seq<Tree> := [];
    assert none + lead == lead;
    HoistPrefix(kind, none, lead, more);
  }

  lemma HoistChildren(kind: Kind, lead: seq<Tree>, items: seq<Item>, tail: seq<Tree>)
    requires (kind == Index || kind == ForeignKey) && WellFormedItems(items) && !HasKind(lead, kind)
             && !HasKind(tail, kind)
    ensures Hoist(kind, [], lead + (Flat(items) + tail)) == lead + Flat(Kept(kind, items)) + tail
  {
    HoistLead(kind, lead, Flat(items) + tail);
    HoistItems(kind, lead, items, tail);
    HoistTail(kind, lead + Flat(Kept(kind, items)), tail);
  }

  /** The index and foreign-key passes drop exactly their definitions, each with its comma. */
  lemma HoistShape(kind: Kind, sh: Shape)
    requires WellFormed(sh) && (kind == Index || kind == ForeignKey)
    ensures Hoist(kind, [], Children(sh)) == Children(sh.(items := Kept(kind, sh.items)))
    ensures WellFormed(sh.(items := Kept(kind, sh.items)))
  {
    PlainLacks(sh.lead, kind);
    PlainLacks(sh.tail, kind);
    Associate(sh.lead, Flat(sh.items), sh.tail);
    HoistChildren(kind, sh.lead, sh.items, sh.tail);
    ShapeStays(kind, sh);
  }

  /** What the fold skips unread after a double deletion it would have kept anyway. */
  lemma SkipIsHarmless(done: seq<Tree>, todo: seq<Tree>)
    requires todo != [] && todo[0].kind != Fulltext
    ensures DropFulltext(done, todo) == DropFulltext(done + [todo[0]], todo[1..])
  {
  }

  lemma FulltextDropped(done: seq<Tree>, c: Tree, f: Tree, tail: seq<Tree>)
    requires done != [] && c.kind == Comma && f.kind == Fulltext && (tail != [] ==> tail[0].kind != Fulltext)
    ensures DropFulltext(done + [c], [f] + tail) == DropFulltext(done, tail)
  {
    var todo := [f] + tail;
    assert DropComma(done + [c]) == done;
    if tail != [] {
      assert todo[1] == tail[0] && todo[2..] == tail[1..];
      SkipIsHarmless(done, tail);
    }
  }

  lemma FulltextGone(done: seq<Tree>, it: Item, tail: seq<Tree>)
    requires done != [] && WellFormedItem(it) && it.body[0].kind == Fulltext
             && (tail != [] ==> tail[0].kind != Fulltext)
    ensures DropFulltext(done, [it.comma] + (it.body + tail)) == DropFulltext(done, tail)
  {
    var todo := [it.comma] + (it.body + tail);
    SkipIsHarmless(done, todo);
    assert todo[1..] == it.body + tail;
    ItemIsOneOrLacks(Fulltext, it);
    FulltextDropped(done, it.comma, it.body[0], tail);
  }

  lemma FulltextStays(done: seq<Tree>, it: Item, tail: seq<Tree>)
    requires WellFormedItem(it) && it.body[0].kind != Fulltext
    ensures DropFulltext(done, [it.comma] + (it.body + tail)) == DropFulltext(done + ([it.comma] + it.body), tail)
  {
    ItemIsOneOrLacks(Fulltext, it);
    NoKindConcat([it.comma], it.body, Fulltext);
    assert [it.comma] + (it.body + tail) == ([it.comma] + it.body) + tail;
    FulltextPrefix(done, [it.comma] + it.body, tail);
  }

  /** One definition through the full-text fold, with the ones behind it. */
  lemma FulltextItem(done: seq<Tree>, items: seq<Item>, rest: seq<Tree>)
    requires done != [] && items != [] && WellFormedItems(items) && Plain(rest)
    ensures DropFulltext(done, Flat(items) + rest)
            == DropFulltext(
                 if items[0].body[0].kind == Fulltext then done else done + ([items[0].comma] + items[0].body),
                 Flat(items[1..]) + rest)
  {
    var it, tail := items[0], Flat(items[1..]) + rest;
    assert WellFormedItem(it);
    FlatCons(items, rest, done, []);
    if it.body[0].kind != Fulltext {
      FulltextStays(done, it, tail);
    } else {
      if tail != [] {
        TailHead(items[1..], rest);
      }
      FulltextGone(done, it, tail);
    }
  }

  lemma {:induction false} FulltextItems(done: seq<Tree>, items: seq<Item>, rest: seq<Tree>)
    requires done != [] && WellFormedItems(items) && Plain(rest)
    ensures DropFulltext(done, Flat(items) + rest) == DropFulltext(done + Flat(Kept(Fulltext, items)), rest)
    decreases |items|
  {
    if items == [] {
      assert [] + rest == rest && done + [] == done;
    } else {
      assert WellFormedItem(items[0]);
      FulltextItem(done, items, rest);
      if items[0].body[0].kind == Fulltext {
        FulltextItems(done, items[1..], rest);
      } else {
        FulltextItems(done + ([items[0].comma] + items[0].body), items[1..], rest);
        FlatCons(items, rest, done, Kept(Fulltext, items[1..]));
      }
    }
  }

  lemma TailHead(items: seq<Item>, rest: seq<Tree>)
    requires WellFormedItems(items) && Plain(rest) && Flat(items) + rest != []
    ensures (Flat(items) + rest)[0].kind != Fulltext
  {
    if items != [] {
      assert WellFormedItem(items[0]);
    }
  }

  lemma FulltextTail(done: seq<Tree>, tail: seq<Tree>)
    requires !HasKind(tail, Fulltext)
    ensures DropFulltext(done, tail) == done + tail
  {
    var none: seq<Tree> := [];
    assert tail + none == tail;
    FulltextPrefix(done, tail, none);
  }

  lemma FulltextLead(lead: seq<Tree>, more: seq<Tree>)
    requires !HasKind(lead, Fulltext)
    ensures DropFulltext([], lead + more) == DropFulltext(lead, more)
  {
    var none: seq<Tree> := [];
    assert none + lead == lead;
    FulltextPrefix(none, lead, more);
  }

  lemma FulltextChildren(lead: seq<Tree>, items: seq<Item>, tail: seq<Tree>)
    requires WellFormedItems(items) && lead != [] && !HasKind(lead, Fulltext) && Plain(tail) && !HasKind(tail, Fulltext)
    ensures DropFulltext([], lead + (Flat(items) + tail)) == lead + Flat(Kept(Fulltext, items)) + tail
  {
    FulltextLead(lead, Flat(items) + tail);
    FulltextItems(lead, items, tail);
    FulltextTail(lead + Flat(Kept(Fulltext, items)), tail);
  }

  /** So does the full-text pass, although it resumes past the child that moved down. */
  lemma FulltextShape(sh: Shape)
    requires WellFormed(sh)
    ensures DropFulltext([], Children(sh)) == Children(sh.(items := Kept(Fulltext, sh.items)))
    ensures WellFormed(sh.(items := Kept(Fulltext, sh.items)))
  {
    PlainLacks(sh.lead, Fulltext);
    PlainLacks(sh.tail, Fulltext);
    Associate(sh.lead, Flat(sh.items), sh.tail);
    FulltextChildren(sh.lead, sh.items, sh.tail);
    ShapeStays(Fulltext, sh);
  }
}
