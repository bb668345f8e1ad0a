/** The CREATE TABLE pipeline keeps, hoists or drops every definition exactly as intended. */
module TableConservation {
  import opened Trees
  import opened TablePasses
  import opened TableLaws
  import opened TableShape

  // ---------- the edits of the columns, on a shape ----------

  ghost function EditItem(pass: ColumnPass, it: Item): Item {
    Item(EditNode(pass, it.comma), EditAll(pass, it.body))
  }

  ghost function EditItems(pass: ColumnPass, items: seq<Item>): seq<Item> {
    if items == [] then [] else [EditItem(pass, items[0])] + EditItems(pass, items[1..])
  }

  ghost function EditShape(pass: ColumnPass, sh: Shape): Shape {
    Shape(EditAll(pass, sh.lead), EditItems(pass, sh.items), EditAll(pass, sh.tail))
  }

  lemma EditConcat(pass: ColumnPass, a: seq<Tree>, b: seq<Tree>)
    ensures EditAll(pass, a + b) == EditAll(pass, a) + EditAll(pass, b)
  {
  }

  lemma {:induction false} EditFlat(pass: ColumnPass, items: seq<Item>)
    ensures EditAll(pass, Flat(items)) == Flat(EditItems(pass, items))
    decreases |items|
  {
    if items != [] {
      EditFlat(pass, items[1..]);
      EditConcat(pass, [items[0].comma] + items[0].body, Flat(items[1..]));
      EditConcat(pass, [items[0].comma], items[0].body);
      assert EditAll(pass, [items[0].comma]) == [EditNode(pass, items[0].comma)];
      assert EditItems(pass, items)[1..] == EditItems(pass, items[1..]);
    }
  }

  lemma EditKeepsKinds(pass: ColumnPass, kids: seq<Tree>)
    ensures SameKinds(EditAll(pass, kids), kids)
    ensures Separated(EditAll(pass, kids)) <==> Separated(kids)
    ensures Plain(EditAll(pass, kids)) <==> Plain(kids)
  {
    AlikeByKinds(EditAll(pass, kids), kids);
  }

  lemma {:induction false} EditItemsWellFormed(pass: ColumnPass, items: seq<Item>)
    requires WellFormedItems(items)
    ensures WellFormedItems(EditItems(pass, items)) && |EditItems(pass, items)| == |items|
    decreases |items|
  {
    if items != [] {
      EditItemsWellFormed(pass, items[1..]);
      assert WellFormedItem(items[0]);
      EditKeepsKinds(pass, items[0].body);
      assert WellFormedItem(EditItem(pass, items[0]));
    }
  }

  lemma EditKeepsShape(pass: ColumnPass, sh: Shape)
    requires WellFormed(sh)
    ensures EditAll(pass, Children(sh)) == Children(EditShape(pass, sh)) && WellFormed(EditShape(pass, sh))
  {
    EditConcat(pass, sh.lead + Flat(sh.items), sh.tail);
    EditConcat(pass, sh.lead, Flat(sh.items));
    EditFlat(pass, sh.items);
    EditItemsWellFormed(pass, sh.items);
    EditKeepsKinds(pass, sh.lead);
    EditKeepsKinds(pass, sh.tail);
  }

  // ---------- what becomes of each definition ----------

  /** A column after all four passes over the columns; anything else as it was. */
  ghost function Edited(t: Tree): Tree {
    EditNode(AutoIncrements, EditNode(ZeroDates, EditNode(Updates, EditNode(Enums, t))))
  }

  ghost function EditedList(kids: seq<Tree>): (r: seq<Tree>)
    ensures |r| == |kids|
  {
    seq(|kids|, i requires 0 <= i < |kids| => Edited(kids[i]))
  }

  /** The definitions that stay: not hoisted, their columns edited, in their order and with their commas. */
  ghost function Remaining(items: seq<Item>): seq<Item> {
    if items == [] then []
    else if items[0].body != [] && Hoisted(items[0].body[0].kind) then Remaining(items[1..])
    else [Item(items[0].comma, EditedList(items[0].body))] + Remaining(items[1..])
  }

  ghost function EditThrice(items: seq<Item>): seq<Item> {
    EditItems(ZeroDates, EditItems(Updates, EditItems(Enums, items)))
  }

  ghost function HoistAll(items: seq<Item>): seq<Item> {
    Kept(ForeignKey, Kept(Fulltext, EditItems(AutoIncrements, Kept(Index, items))))
  }

  ghost function Through(items: seq<Item>): seq<Item> {
    HoistAll(EditThrice(items))
  }

  lemma EditFourTimes(kids: seq<Tree>)
    ensures EditAll(AutoIncrements, EditAll(ZeroDates, EditAll(Updates, EditAll(Enums, kids)))) == EditedList(kids)
  {
  }

  lemma KeptCons(kind: Kind, it: Item, rest: seq<Item>)
    requires it.body != []
    ensures Kept(kind, [it] + rest) == (if it.body[0].kind == kind then [] else [it]) + Kept(kind, rest)
  {
    assert ([it] + rest)[1..] == rest;
  }

  lemma EditCons(pass: ColumnPass, it: Item, rest: seq<Item>)
    ensures EditItems(pass, [it] + rest) == [EditItem(pass, it)] + EditItems(pass, rest)
  {
    assert ([it] + rest)[1..] == rest;
  }

  lemma ThriceCons(it: Item, rest: seq<Item>)
    ensures EditThrice([it] + rest) == [EditItemThrice(it)] + EditThrice(rest)
  {
    EditCons(Enums, it, rest);
    EditCons(Updates, EditItem(Enums, it), EditItems(Enums, rest));
    EditCons(ZeroDates, EditItem(Updates, EditItem(Enums, it)), EditItems(Updates, EditItems(Enums, rest)));
  }

  lemma HoistAllGone(it: Item, rest: seq<Item>)
    requires it.body != [] && Hoisted(it.body[0].kind)
    ensures HoistAll([it] + rest) == HoistAll(rest)
  {
    KeptCons(Index, it, rest);
    if it.body[0].kind == Index {
      assert [] + Kept(Index, rest) == Kept(Index, rest);
    } else {
      EditCons(AutoIncrements, it, Kept(Index, rest));
      var it', rest' := EditItem(AutoIncrements, it), EditItems(AutoIncrements, Kept(Index, rest));
      assert it'.body[0].kind == it.body[0].kind;
      KeptCons(Fulltext, it', rest');
      if it.body[0].kind == Fulltext {
        assert [] + Kept(Fulltext, rest') == Kept(Fulltext, rest');
      } else {
        KeptCons(ForeignKey, it', Kept(Fulltext, rest'));
        assert [] + HoistAll(rest) == HoistAll(rest);
      }
    }
  }

  lemma HoistAllKeeps(it: Item, rest: seq<Item>)
    requires it.body != [] && !Hoisted(it.body[0].kind)
    ensures HoistAll([it] + rest) == [EditItem(AutoIncrements, it)] + HoistAll(rest)
  {
    KeptCons(Index, it, rest);
    EditCons(AutoIncrements, it, Kept(Index, rest));
    var it', rest' := EditItem(AutoIncrements, it), EditItems(AutoIncrements, Kept(Index, rest));
    assert it'.body[0].kind == it.body[0].kind;
    KeptCons(Fulltext, it', rest');
    KeptCons(ForeignKey, it', Kept(Fulltext, rest'));
  }

  ghost function EditItemThrice(it: Item): Item {
    EditItem(ZeroDates, EditItem(Updates, EditItem(Enums, it)))
  }

  lemma ItemEdited(it: Item)
    requires it.comma.kind == Comma
    ensures EditItem(AutoIncrements, EditItemThrice(it)) == Item(it.comma, EditedList(it.body))
    ensures SameKinds(EditItemThrice(it).body, it.body)
  {
    EditFourTimes(it.body);
  }

  /** The whole chain, one definition at a time. */
  lemma ThroughCons(it: Item, rest: seq<Item>)
    requires WellFormedItem(it)
    ensures Hoisted(it.body[0].kind) ==> Through([it] + rest) == Through(rest)
    ensures !Hoisted(it.body[0].kind) ==> Through([it] + rest) == [Item(it.comma, EditedList(it.body))] + Through(rest)
  {
    var it3, rest3 := EditItemThrice(it), EditThrice(rest);
    ThriceCons(it, rest);
    ItemEdited(it);
    if Hoisted(it.body[0].kind) {
      HoistAllGone(it3, rest3);
    } else {
      HoistAllKeeps(it3, rest3);
    }
  }

  lemma RemainingCons(it: Item, rest: seq<Item>)
    requires it.body != []
    ensures Remaining([it] + rest) ==
            if Hoisted(it.body[0].kind) then Remaining(rest)
            else [Item(it.comma, EditedList(it.body))] + Remaining(rest)
  {
    assert ([it] + rest)[1..] == rest;
  }

  lemma ThroughNext(it: Item, rest: seq<Item>)
    requires WellFormedItem(it) && Through(rest) == Remaining(rest)
    ensures Through([it] + rest) == Remaining([it] + rest)
  {
    ThroughCons(it, rest);
    RemainingCons(it, rest);
  }

  lemma {:induction false} ThroughIsRemaining(items: seq<Item>)
    requires WellFormedItems(items)
    ensures Through(items) == Remaining(items)
    decreases |items|
  {
    if items != [] {
      var it, rest := items[0], items[1..];
      assert WellFormedItem(it) && items == [it] + rest;
      ThroughIsRemaining(rest);
      ThroughNext(it, rest);
    }
  }

  // ---------- the children after the pipeline ----------

  /** The grammar's table: among the definitions DOUBLE occurs only inside columns, options only behind them. */
  ghost predicate GrammarTable(sh: Shape) {
    && WellFormed(sh)
    && !HasKind(sh.lead, KwDouble) && !HasKind(Flat(sh.items), KwDouble)
    && !HasKind(sh.lead, TableOptions) && !HasKind(Flat(sh.items), TableOptions)
  }

  /** The table with DOUBLE spelled out behind the definitions. */
  ghost function TailSpelled(sh: Shape): Shape {
    sh.(tail := SpellDoubles(sh.tail))
  }

  lemma SpellOnlyTail(head: seq<Tree>, tail: seq<Tree>)
    requires !HasKind(head, KwDouble)
    ensures SpellDoubles(head + tail) == head + SpellDoubles(tail)
  {
    var kids := head + tail;
    forall i | 0 <= i < |kids| ensures SpellDoubles(kids)[i] == (head + SpellDoubles(tail))[i] {
      if i < |head| {
        assert kids[i] == head[i] && head[i].kind != KwDouble;
      } else {
        assert kids[i] == tail[i - |head|] && (i + 1 < |kids| ==> kids[i + 1] == tail[i + 1 - |head|]);
      }
    }
  }

  lemma SpellEdited(pass: ColumnPass, kids: seq<Tree>)
    ensures SpellDoubles(EditAll(pass, kids)) == EditAll(pass, SpellDoubles(kids))
  {
  }

  lemma EditLacks(pass: ColumnPass, kids: seq<Tree>, kind: Kind)
    ensures HasKind(EditAll(pass, kids), kind) <==> HasKind(kids, kind)
  {
    LacksByKinds(EditAll(pass, kids), kids, kind);
  }

  lemma SpellShape(sh: Shape)
    requires GrammarTable(sh)
    ensures SpellDoubles(EditAll(Enums, Children(sh))) == Children(EditShape(Enums, TailSpelled(sh)))
  {
    var edited := EditShape(Enums, sh);
    EditKeepsShape(Enums, sh);
    EditFlat(Enums, sh.items);
    EditLacks(Enums, sh.lead, KwDouble);
    EditLacks(Enums, Flat(sh.items), KwDouble);
    NoKindConcat(edited.lead, Flat(edited.items), KwDouble);
    SpellOnlyTail(edited.lead + Flat(edited.items), edited.tail);
    SpellEdited(Enums, sh.tail);
  }

  lemma TailSpelledIsWellFormed(sh: Shape)
    requires WellFormed(sh)
    ensures WellFormed(TailSpelled(sh))
  {
    assert forall i :: 0 <= i < |sh.tail| ==> SpellDoubles(sh.tail)[i].kind == sh.tail[i].kind;
  }

  lemma ColumnStageShape(schema: string, sh: Shape)
    requires GrammarTable(sh)
    ensures var edited := EditShape(ZeroDates, EditShape(Updates, EditShape(Enums, TailSpelled(sh))));
            ColumnStage(schema, Children(sh)).kids == Children(edited) && WellFormed(edited)
  {
    var spelled := TailSpelled(sh);
    TailSpelledIsWellFormed(sh);
    SpellShape(sh);
    EditKeepsShape(Enums, spelled);
    EditKeepsShape(Updates, EditShape(Enums, spelled));
    EditKeepsShape(ZeroDates, EditShape(Updates, EditShape(Enums, spelled)));
  }

  ghost function HoistedShape(sh: Shape): Shape {
    var auto := EditShape(AutoIncrements, sh.(items := Kept(Index, sh.items)));
    auto.(items := Kept(ForeignKey, Kept(Fulltext, auto.items)))
  }

  lemma HoistPassesShape(sh: Shape)
    requires WellFormed(sh)
    ensures Hoist(ForeignKey, [], DropFulltext([], EditAll(AutoIncrements, Hoist(Index, [], Children(sh)))))
            == Children(HoistedShape(sh))
  {
    HoistShape(Index, sh);
    var indexes := sh.(items := Kept(Index, sh.items));
    EditKeepsShape(AutoIncrements, indexes);
    var auto := EditShape(AutoIncrements, indexes);
    FulltextShape(auto);
    HoistShape(ForeignKey, auto.(items := Kept(Fulltext, auto.items)));
  }

  lemma HoistStageShape(schema: string, r: Rewritten, sh: Shape)
    requires WellFormed(sh) && r.kids == Children(sh)
    ensures HoistStage(schema, r).kids == Without(TableOptions, Children(HoistedShape(sh)))
  {
    HoistPassesShape(sh);
  }

  lemma EditedLacks(kids: seq<Tree>, kind: Kind)
    ensures HasKind(EditedList(kids), kind) <==> HasKind(kids, kind)
  {
    EditedKeepsKinds(kids);
    LacksByKinds(EditedList(kids), kids, kind);
  }

  lemma {:induction false} RemainingLacks(items: seq<Item>, kind: Kind)
    requires WellFormedItems(items) && !HasKind(Flat(items), kind)
    ensures !HasKind(Flat(Remaining(items)), kind)
    decreases |items|
  {
    if items != [] {
      var it := items[0];
      assert WellFormedItem(it);
      NoKindConcat([it.comma] + it.body, Flat(items[1..]), kind);
      NoKindConcat([it.comma], it.body, kind);
      RemainingLacks(items[1..], kind);
      if !Hoisted(it.body[0].kind) {
        EditedLacks(it.body, kind);
        NoKindConcat([it.comma], EditedList(it.body), kind);
        assert Remaining(items)[1..] == Remaining(items[1..]);
        NoKindConcat([it.comma] + EditedList(it.body), Flat(Remaining(items[1..])), kind);
      }
    }
  }

  lemma RemainderIs(sh: Shape)
    requires GrammarTable(sh)
    ensures var lead, flat, tail := EditedList(sh.lead), Flat(Remaining(sh.items)), EditedList(SpellDoubles(sh.tail));
            Without(TableOptions, lead + flat + tail) == lead + flat + Without(TableOptions, tail)
  {
    var lead, flat, tail := EditedList(sh.lead), Flat(Remaining(sh.items)), EditedList(SpellDoubles(sh.tail));
    EditedLacks(sh.lead, TableOptions);
    RemainingLacks(sh.items, TableOptions);
    WithoutConcat(TableOptions, lead + flat, tail);
    WithoutConcat(TableOptions, lead, flat);
    WithoutNothing(TableOptions, lead);
    WithoutNothing(TableOptions, flat);
  }

  /**
    Conservation: the final children are the header and first column, then the definitions that are not
    hoisted, in order and separated by single commas, then the tail without options. Columns are edited, a
    DOUBLE behind the definitions is spelled out, and nothing else is touched.
   */
  lemma ChildrenAreConserved(schema: string, sh: Shape)
    requires GrammarTable(sh)
    ensures RewriteTable(schema, Children(sh)).kids
            == EditedList(sh.lead) + Flat(Remaining(sh.items))
              + Without(TableOptions, EditedList(SpellDoubles(sh.tail)))
  {
    var edited := EditShape(ZeroDates, EditShape(Updates, EditShape(Enums, TailSpelled(sh))));
    RewriteTableInStages(schema, Children(sh));
    ColumnStageShape(schema, sh);
    HoistStageShape(schema, ColumnStage(schema, Children(sh)), edited);
    EditFourTimes(sh.lead);
    EditFourTimes(SpellDoubles(sh.tail));
    ThroughIsRemaining(sh.items);
    assert Children(HoistedShape(edited))
           == EditedList(sh.lead) + Flat(Remaining(sh.items)) + EditedList(SpellDoubles(sh.tail));
    RemainderIs(sh);
  }

  lemma EditedKeepsKinds(kids: seq<Tree>)
    ensures SameKinds(EditedList(kids), kids)
    ensures Separated(EditedList(kids)) <==> Separated(kids)
    ensures Plain(EditedList(kids)) <==> Plain(kids)
  {
    AlikeByKinds(EditedList(kids), kids);
  }

  lemma KeptIsPlain(it: Item)
    requires WellFormedItem(it) && !Hoisted(it.body[0].kind)
    ensures Plain(it.body)
  {
  }

  lemma RemainingItem(it: Item)
    requires WellFormedItem(it) && !Hoisted(it.body[0].kind)
    ensures PlainItem(Item(it.comma, EditedList(it.body)))
  {
    KeptIsPlain(it);
    EditedKeepsKinds(it.body);
  }

  /** A definition with nothing to hoist. */
  ghost predicate PlainItem(it: Item) {
    WellFormedItem(it) && Plain(it.body)
  }

  /** The definitions that stay are again a well-formed list, with nothing left to hoist. */
  lemma {:induction false} RemainingIsWellFormed(items: seq<Item>)
    requires WellFormedItems(items)
    ensures forall it :: it in Remaining(items) ==> PlainItem(it)
    ensures WellFormedItems(Remaining(items))
    decreases |items|
  {
    if items != [] {
      RemainingIsWellFormed(items[1..]);
      assert WellFormedItem(items[0]);
      if !Hoisted(items[0].body[0].kind) {
        RemainingItem(items[0]);
      }
    }
    AllWellFormed(Remaining(items));
  }

  lemma AllWellFormed(items: seq<Item>)
    requires forall it :: it in items ==> PlainItem(it)
    ensures WellFormedItems(items)
  {
    forall i | 0 <= i < |items| ensures WellFormedItem(items[i]) {
      assert items[i] in items;
    }
  }

  /** Header and definitions end up separated by single commas, none of them first or last. */
  lemma DefinitionsStaySeparated(schema: string, sh: Shape)
    requires GrammarTable(sh)
    ensures var list := EditedList(sh.lead) + Flat(Remaining(sh.items));
            Separated(list) && list <= RewriteTable(schema, Children(sh)).kids
  {
    ChildrenAreConserved(schema, sh);
    EditedKeepsKinds(sh.lead);
    RemainingIsWellFormed(sh.items);
    WellFormedIsSeparated(EditedList(sh.lead), Remaining(sh.items));
  }
}
