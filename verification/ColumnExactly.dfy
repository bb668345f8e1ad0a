/** What the four passes over the columns do to one column definition, and what they leave alone. */
module ColumnExactly {
  import opened Trees
  import opened Paths
  import opened TablePasses
  import opened TableLaws
  import opened TableStatements
  import opened TableExactly
  import opened TableConservation

  // ---------- zero dates ----------

  ghost predicate NotNullAt(kids: seq<Tree>, k: int) {
    0 <= k && k + 1 < |kids| && kids[k].kind == KwNot && kids[k + 1].kind == KwNull
  }

  /** Somewhere in the column, at any depth, stands a zero date or a zero timestamp. */
  ghost predicate LeadsToZeroDate(def: Tree, path: seq<nat>) {
    Leads(def, path, ZeroDate) || Leads(def, path, ZeroTimestamp)
  }

  lemma FoundNotNull(kids: seq<Tree>)
    ensures var k := FindNotNull(kids, 0);
            && (forall j :: 0 <= j < k ==> !NotNullAt(kids, j))
            && (k < |kids| <==> NotNullAt(kids, k)) && (k == |kids| <==> forall j :: !NotNullAt(kids, j))
  {
    var k := FindNotNull(kids, 0);
    assert k < |kids| ==> NotNullAt(kids, k);
  }

  lemma ZeroDatePath(def: Tree)
    ensures HasZeroDate(def) <==> exists path :: LeadsToZeroDate(def, path)
  {
    BelowIffPath(def, ZeroDate);
    BelowIffPath(def, ZeroTimestamp);
    if path :| Leads(def, path, ZeroDate) { assert LeadsToZeroDate(def, path); }
    if path :| Leads(def, path, ZeroTimestamp) { assert LeadsToZeroDate(def, path); }
  }

  /** A column with a zero date loses its first adjacent NOT NULL and nothing else. */
  lemma ZeroDateDropsFirstNotNull(def: Tree, path: seq<nat>, k: nat)
    requires LeadsToZeroDate(def, path)
    requires NotNullAt(def.children, k) && forall j :: 0 <= j < k ==> !NotNullAt(def.children, j)
    ensures EditColumn(ZeroDates, def) == def.(children := def.children[..k] + def.children[k + 2..])
  {
    ZeroDatePath(def);
    FoundNotNull(def.children);
  }

  /** The pass changes a column if and only if it has both. */
  lemma ZeroDateChangesIff(def: Tree)
    ensures EditColumn(ZeroDates, def) != def
            <==> (exists path :: LeadsToZeroDate(def, path)) && (exists k :: NotNullAt(def.children, k))
  {
    ZeroDatePath(def);
    DropNotNullChangesIff(def.children);
  }

  lemma DropNotNullChangesIff(kids: seq<Tree>)
    ensures DropNotNull(kids) != kids <==> exists k :: NotNullAt(kids, k)
  {
    FoundNotNull(kids);
    if FindNotNull(kids, 0) < |kids| {
      assert |DropNotNull(kids)| < |kids|;
    }
  }

  // ---------- enums ----------

  /** The word that is marked: the first ENUM, or without one the first SET. */
  lemma EnumWordIs(kids: seq<Tree>)
    requires HasKind(kids, KwEnum) || HasKind(kids, KwSet)
    ensures var e, kind := EnumWord(kids), if HasKind(kids, KwEnum) then KwEnum else KwSet;
            e < |kids| && kids[e].kind == kind && forall j :: 0 <= j < e ==> kids[j].kind != kind
  {
    var e := Find(kids, 0, KwEnum);
    assert HasKind(kids, KwEnum) <==> e < |kids|;
  }

  lemma MarkedGrammarEnum(t: Tree, word: Tree, open: Tree, values: seq<Tree>, close: Tree, column: string)
    requires t.children == [word, open] + (values + [close])
    requires word.kind in {KwEnum, KwSet} && open.kind !in {KwEnum, KwSet, RParen} && close.kind == RParen
    requires forall x :: x in values ==> x.kind !in {KwEnum, KwSet, RParen}
    ensures EnumReady(t)
    ensures MarkEnum(t, column)
            == t.(children := [word.(text := "text CHECK ( " + column + " IN "), open] + (values + [close, close]))
  {
    var kids, last := t.children, 2 + |values|;
    assert kids[0] == word && kids[1] == open && kids[last] == close;
    forall k | 2 <= k < last ensures kids[k].kind !in {KwEnum, KwSet, RParen} {
      assert kids[k] == values[k - 2];
    }
    assert EnumWord(kids) == 0 && Find(kids, 0, RParen) == last;
    assert kids[0 := word.(text := CheckText(column))] + [close]
           == [word.(text := CheckText(column)), open] + (values + [close, close]);
  }

  /** ENUM ( values ) in a column called c prints as text CHECK ( c IN ( values ) ); children of other kinds stay. */
  lemma EnumBecomes(def: Tree, i: nat, word: Tree, open: Tree, values: seq<Tree>, close: Tree)
    requires i < |def.children| && def.children[i].kind == EnumType
    requires def.children[i].children == [word, open] + (values + [close])
    requires word.kind in {KwEnum, KwSet} && open.kind !in {KwEnum, KwSet, RParen} && close.kind == RParen
    requires forall x :: x in values ==> x.kind !in {KwEnum, KwSet, RParen}
    ensures var kids, t, check := EditColumn(Enums, def).children, def.children[i],
                                  "text CHECK ( " + def.children[0].text + " IN ";
            && |kids| == |def.children|
            && kids[i] == t.(children := [word.(text := check), open] + (values + [close, close]))
            && (forall j :: 0 <= j < |kids| && def.children[j].kind != EnumType ==> kids[j] == def.children[j])
  {
    MarkedGrammarEnum(def.children[i], word, open, values, close, def.children[0].text);
  }

  // ---------- all four passes ----------

  /** The children no pass over the columns is about. */
  ghost predicate Ordinary(kind: Kind) {
    kind !in {EnumType, OnUpdate, KwNot, KwNull, KwAutoIncrement}
  }

  ghost function Rest(kids: seq<Tree>): seq<Tree> {
    if kids == [] then []
    else if Ordinary(kids[0].kind) then [kids[0]] + Rest(kids[1..])
    else Rest(kids[1..])
  }

  lemma {:induction false} RestConcat(a: seq<Tree>, b: seq<Tree>)
    ensures Rest(a + b) == Rest(a) + Rest(b)
    decreases |a|
  {
    if a == [] {
      assert a + b == b;
    } else {
      assert (a + b)[1..] == a[1..] + b;
      RestConcat(a[1..], b);
    }
  }

  lemma RestOne(t: Tree)
    ensures Rest([t]) == if Ordinary(t.kind) then [t] else []
  {
    assert [t][1..] == [];
  }

  lemma {:induction false} RestMarked(kids: seq<Tree>, column: string)
    ensures Rest(MarkEnums(kids, column)) == Rest(kids)
    decreases |kids|
  {
    if kids != [] {
      assert MarkEnums(kids, column)[1..] == MarkEnums(kids[1..], column);
      RestMarked(kids[1..], column);
    }
  }

  lemma {:induction false} RestUpdates(done: seq<Tree>, todo: seq<Tree>)
    ensures Rest(DropUpdates(done, todo)) == Rest(done) + Rest(todo)
    decreases |todo|
  {
    if todo != [] {
      RestConcat(done, [todo[0]]);
      RestOne(todo[0]);
      if todo[0].kind != OnUpdate {
        RestUpdates(done + [todo[0]], todo[1..]);
      } else if |todo| > 1 {
        RestUpdates(done + [todo[1]], todo[2..]);
        RestConcat(done, [todo[1]]);
        RestOne(todo[1]);
        assert todo[1..] == [todo[1]] + todo[2..];
        RestConcat([todo[1]], todo[2..]);
      }
    }
  }

  lemma RestWithout(a: seq<Tree>, gone: seq<Tree>, b: seq<Tree>)
    requires Rest(gone) == []
    ensures Rest(a + b) == Rest(a + (gone + b))
  {
    RestConcat(a, gone + b);
    RestConcat(gone, b);
    RestConcat(a, b);
    assert [] + Rest(b) == Rest(b);
  }

  lemma RestNotNull(kids: seq<Tree>)
    ensures Rest(DropNotNull(kids)) == Rest(kids)
  {
    var k := FindNotNull(kids, 0);
    if k < |kids| {
      var a, gone, b := kids[..k], [kids[k]] + [kids[k + 1]], kids[k + 2..];
      RestOne(kids[k]);
      RestOne(kids[k + 1]);
      RestConcat([kids[k]], [kids[k + 1]]);
      RestWithout(a, gone, b);
      assert kids == a + (gone + b);
    }
  }

  lemma RestFirst(kids: seq<Tree>, kind: Kind)
    requires !Ordinary(kind)
    ensures Rest(DropFirst(kids, kind)) == Rest(kids)
  {
    var k := Find(kids, 0, kind);
    if k < |kids| {
      var a, gone, b := kids[..k], [kids[k]], kids[k + 1..];
      RestOne(kids[k]);
      RestWithout(a, gone, b);
      assert kids == a + (gone + b);
    }
  }

  lemma RestEdited(pass: ColumnPass, def: Tree)
    ensures Rest(EditColumn(pass, def).children) == Rest(def.children)
  {
    match pass
    case Enums => if def.children != [] { RestMarked(def.children, def.children[0].text); }
    case Updates => RestUpdates([], def.children);
    case ZeroDates => RestNotNull(def.children);
    case AutoIncrements => RestFirst(def.children, KwAutoIncrement);
  }

  lemma EditKeepsNode(pass: ColumnPass, def: Tree)
    ensures EditColumn(pass, def) == def.(children := EditColumn(pass, def).children)
  {
  }

  /** However a column is rewritten, its kind and text and all its ordinary children stay, in their order. */
  lemma ColumnKeepsTheRest(def: Tree)
    ensures Rest(Edited(def).children) == Rest(def.children)
    ensures Edited(def) == def.(children := Edited(def).children)
    ensures def.kind != ColumnDef ==> Edited(def) == def
  {
    if def.kind == ColumnDef {
      var e1 := EditColumn(Enums, def);
      EditKeepsNode(Enums, def);
      RestEdited(Enums, def);
      var e2 := EditColumn(Updates, e1);
      EditKeepsNode(Updates, e1);
      RestEdited(Updates, e1);
      var e3 := EditColumn(ZeroDates, e2);
      EditKeepsNode(ZeroDates, e2);
      RestEdited(ZeroDates, e2);
      EditKeepsNode(AutoIncrements, e3);
      RestEdited(AutoIncrements, e3);
    }
  }

  // ---------- a column of the grammar, exactly ----------

  /** A zero date, or something with one below. */
  ghost predicate HoldsZeroDate(t: Tree) {
    t.kind == ZeroDate || t.kind == ZeroTimestamp || HasZeroDate(t)
  }

  /** A zero date outside the column's ON UPDATE clauses. */
  ghost predicate ZeroDateBeside(def: Tree) {
    exists i :: 0 <= i < |def.children| && def.children[i].kind != OnUpdate && HoldsZeroDate(def.children[i])
  }

  lemma HasZeroDateIff(def: Tree)
    ensures HasZeroDate(def) <==> exists x :: x in def.children && HoldsZeroDate(x)
  {
    if x :| x in def.children && HoldsZeroDate(x) {
      var i :| 0 <= i < |def.children| && def.children[i] == x;
    }
    if HasZeroDate(def) {
      var i :| 0 <= i < |def.children| && HoldsZeroDate(def.children[i]);
      assert def.children[i] in def.children;
    }
  }

  /** Lists with the same holders of zero dates, up to their number. */
  lemma SameHolders(t: Tree, m: Tree)
    requires |t.children| <= |m.children|
    requires forall i :: 0 <= i < |t.children| ==> (HoldsZeroDate(t.children[i]) <==> HoldsZeroDate(m.children[i]))
    requires forall i :: |t.children| <= i < |m.children| ==> m.children[i] in t.children
    ensures HasZeroDate(m) <==> HasZeroDate(t)
  {
    HasZeroDateIff(m);
    HasZeroDateIff(t);
    if x :| x in m.children && HoldsZeroDate(x) {
      var i :| 0 <= i < |m.children| && m.children[i] == x;
      assert i < |t.children| ==> t.children[i] in t.children;
    }
    if x :| x in t.children && HoldsZeroDate(x) {
      var i :| 0 <= i < |t.children| && t.children[i] == x;
      assert m.children[i] in m.children;
    }
  }

  lemma MarkKeepsZeroDate(t: Tree, column: string)
    ensures MarkNode(t, column).kind == t.kind && (HoldsZeroDate(MarkNode(t, column)) <==> HoldsZeroDate(t))
  {
    if t.kind == EnumType && EnumReady(t) {
      var e := EnumWord(t.children);
      WordKeepsZeroDate(t.children[e], CheckText(column));
      var r := Find(t.children, 0, RParen);
      var word := t.children[e].(text := CheckText(column));
      assert word.kind != RParen && t.children[e := word][r] == t.children[r];
      SameHolders(t, MarkEnum(t, column));
    }
  }

  lemma WordKeepsZeroDate(t: Tree, text: string)
    ensures HoldsZeroDate(t.(text := text)) <==> HoldsZeroDate(t)
  {
  }

  lemma {:induction false} InWithout(kind: Kind, kids: seq<Tree>)
    ensures forall x :: x in Without(kind, kids) <==> x in kids && x.kind != kind
    decreases |kids|
  {
    if kids != [] {
      InWithout(kind, kids[1..]);
      assert kids == [kids[0]] + kids[1..];
    }
  }

  /** What is left of a zero date when the ON UPDATE clauses are gone. */
  lemma ZeroDateLeft(def: Tree, column: string)
    ensures HasZeroDate(def.(children := Without(OnUpdate, MarkEnums(def.children, column)))) <==> ZeroDateBeside(def)
  {
    var kids, marked := def.children, MarkEnums(def.children, column);
    var kept := Without(OnUpdate, marked);
    InWithout(OnUpdate, marked);
    HasZeroDateIff(def.(children := kept));
    if x :| x in kept && HoldsZeroDate(x) {
      var i :| 0 <= i < |marked| && marked[i] == x;
      MarkKeepsZeroDate(kids[i], column);
      assert kids[i].kind != OnUpdate && HoldsZeroDate(kids[i]);
    }
    if ZeroDateBeside(def) {
      var i :| 0 <= i < |kids| && kids[i].kind != OnUpdate && HoldsZeroDate(kids[i]);
      MarkKeepsZeroDate(kids[i], column);
      assert marked[i] in marked && marked[i] in kept;
    }
  }

  lemma WithoutOne(kind: Kind, a: seq<Tree>, x: Tree, b: seq<Tree>)
    requires !HasKind(a, kind) && x.kind == kind && !HasKind(b, kind)
    ensures Without(kind, a + ([x] + b)) == a + b
  {
    WithoutConcat(kind, a, [x] + b);
    assert ([x] + b)[1..] == b;
    WithoutNothing(kind, a);
    WithoutNothing(kind, b);
  }

  lemma OnlyOneLeft(kind: Kind, a: seq<Tree>, x: Tree, b: seq<Tree>)
    requires x.kind == kind && |Only(kind, a + ([x] + b))| <= 1
    ensures !HasKind(b, kind)
  {
    OnlyConcat(kind, a, [x] + b);
    assert ([x] + b)[1..] == b;
    HasKindIsOnly(kind, b);
  }

  lemma DropFirstOne(kind: Kind, a: seq<Tree>, x: Tree, b: seq<Tree>)
    requires !HasKind(a, kind) && x.kind == kind
    ensures DropFirst(a + ([x] + b), kind) == a + b
  {
    var kids := a + ([x] + b);
    assert kids[|a|] == x && forall k :: 0 <= k < |a| ==> kids[k] == a[k];
    assert Find(kids, 0, kind) == |a|;
    assert kids[..|a|] == a && kids[|a| + 1..] == b;
  }

  lemma SplitAtFirst(kind: Kind, kids: seq<Tree>) returns (a: seq<Tree>, x: Tree, b: seq<Tree>)
    requires HasKind(kids, kind)
    ensures kids == a + ([x] + b) && !HasKind(a, kind) && x.kind == kind
  {
    var k := Find(kids, 0, kind);
    a, x, b := kids[..k], kids[k], kids[k + 1..];
  }

  /** A list with at most one node of the kind loses all of them with the first. */
  lemma DropFirstIsWithout(kids: seq<Tree>, kind: Kind)
    requires |Only(kind, kids)| <= 1
    ensures DropFirst(kids, kind) == Without(kind, kids)
  {
    if HasKind(kids, kind) {
      var a, x, b := SplitAtFirst(kind, kids);
      OnlyOneLeft(kind, a, x, b);
      WithoutOne(kind, a, x, b);
      DropFirstOne(kind, a, x, b);
    } else {
      WithoutNothing(kind, kids);
    }
  }

  lemma {:induction false} OnlyMarked(kind: Kind, kids: seq<Tree>, column: string)
    requires kind != EnumType
    ensures Only(kind, MarkEnums(kids, column)) == Only(kind, kids)
    decreases |kids|
  {
    if kids != [] {
      assert MarkEnums(kids, column)[1..] == MarkEnums(kids[1..], column);
      OnlyMarked(kind, kids[1..], column);
    }
  }

  lemma OnlyNotNull(kind: Kind, kids: seq<Tree>)
    requires kind != KwNot && kind != KwNull
    ensures Only(kind, DropNotNull(kids)) == Only(kind, kids)
  {
    var k := FindNotNull(kids, 0);
    if k < |kids| {
      var a, b := kids[..k], kids[k + 2..];
      assert kids == a + ([kids[k]] + ([kids[k + 1]] + b));
      OnlyConcat(kind, a, b);
      OnlyConcat(kind, a, [kids[k]] + ([kids[k + 1]] + b));
      OnlyConcat(kind, [kids[k]], [kids[k + 1]] + b);
      OnlyConcat(kind, [kids[k + 1]], b);
      OnlyOne(kind, kids[k]);
      OnlyOne(kind, kids[k + 1]);
    }
  }

  lemma MarkedColumn(def: Tree)
    requires Named(def) && !Adjacent(def.children, OnUpdate)
    ensures var marked := EditColumn(Enums, def);
            marked.children == MarkEnums(def.children, def.children[0].text) && Named(marked)
              && !Adjacent(marked.children, OnUpdate)
  {
    var marked := MarkEnums(def.children, def.children[0].text);
    assert forall i :: 0 <= i < |marked| ==> marked[i].kind == def.children[i].kind;
  }

  lemma UpdatedColumn(def: Tree)
    requires Named(def) && !Adjacent(def.children, OnUpdate)
    ensures EditColumn(Updates, EditColumn(Enums, def))
            == def.(children := Without(OnUpdate, MarkEnums(def.children, def.children[0].text)))
    ensures Only(KwAutoIncrement, Without(OnUpdate, MarkEnums(def.children, def.children[0].text)))
            == Only(KwAutoIncrement, def.children)
  {
    var marked := EditColumn(Enums, def);
    MarkedColumn(def);
    OnlyMarked(KwAutoIncrement, def.children, def.children[0].text);
    UpdatesAreHoisted("", "", marked);
    OnlyUpdates(KwAutoIncrement, [], marked.children);
  }

  ghost function WithoutZeroNull(def: Tree): seq<Tree> {
    if HasZeroDate(def) then DropNotNull(def.children) else def.children
  }

  lemma ZeroDatesColumn(def: Tree)
    ensures EditColumn(ZeroDates, def) == def.(children := WithoutZeroNull(def))
  {
  }

  lemma AutoIncrementsColumn(def: Tree)
    ensures EditColumn(AutoIncrements, def) == def.(children := DropFirst(def.children, KwAutoIncrement))
  {
  }

  lemma WithoutAutoIncrement(kids: seq<Tree>, zero: bool)
    requires |Only(KwAutoIncrement, kids)| <= 1
    ensures var next := if zero then DropNotNull(kids) else kids;
            DropFirst(next, KwAutoIncrement) == Without(KwAutoIncrement, next)
  {
    OnlyNotNull(KwAutoIncrement, kids);
    DropFirstIsWithout(if zero then DropNotNull(kids) else kids, KwAutoIncrement);
  }

  lemma FinishedColumn(def: Tree)
    requires |Only(KwAutoIncrement, def.children)| <= 1
    ensures EditColumn(AutoIncrements, EditColumn(ZeroDates, def)).children
            == Without(KwAutoIncrement, WithoutZeroNull(def))
  {
    ZeroDatesColumn(def);
    AutoIncrementsColumn(EditColumn(ZeroDates, def));
    WithoutAutoIncrement(def.children, HasZeroDate(def));
  }

  lemma EditedIs(def: Tree)
    requires def.kind == ColumnDef
    ensures Edited(def)
            == EditColumn(AutoIncrements, EditColumn(ZeroDates, EditColumn(Updates, EditColumn(Enums, def))))
  {
    EditKeepsNode(Enums, def);
    EditKeepsNode(Updates, EditColumn(Enums, def));
    EditKeepsNode(ZeroDates, EditColumn(Updates, EditColumn(Enums, def)));
  }

  /**
    A column as the grammar builds it, after the four passes: enums marked, ON UPDATE gone, the first adjacent
    NOT NULL of what then stands there gone if a zero date stands outside ON UPDATE, AUTO_INCREMENT gone.
   */
  lemma ColumnBecomes(def: Tree)
    requires def.kind == ColumnDef && Named(def) && !Adjacent(def.children, OnUpdate)
             && |Only(KwAutoIncrement, def.children)| <= 1
    ensures var kept := Without(OnUpdate, MarkEnums(def.children, def.children[0].text));
            Edited(def).children == Without(KwAutoIncrement, if ZeroDateBeside(def) then DropNotNull(kept) else kept)
  {
    var kept := Without(OnUpdate, MarkEnums(def.children, def.children[0].text));
    var updated := def.(children := kept);
    EditedIs(def);
    UpdatedColumn(def);
    ZeroDateLeft(def, def.children[0].text);
    FinishedColumn(updated);
    assert WithoutZeroNull(updated) == if ZeroDateBeside(def) then DropNotNull(kept) else kept;
  }

  lemma NothingToMark(kids: seq<Tree>, column: string)
    requires !HasKind(kids, EnumType)
    ensures MarkEnums(kids, column) == kids
  {
  }

  /** ON UPDATE alone, behind everything else. */
  lemma LastUpdateGone(front: seq<Tree>, update: Tree)
    requires !HasKind(front, OnUpdate) && update.kind == OnUpdate
    ensures Without(OnUpdate, front + [update]) == front && !Adjacent(front + [update], OnUpdate)
  {
    var none, kids := [update][1..], front + [update];
    assert none == [] && Without(OnUpdate, [update]) == Without(OnUpdate, none);
    WithoutNothing(OnUpdate, front);
    WithoutConcat(OnUpdate, front, [update]);
    assert forall i :: 0 <= i < |front| ==> kids[i] == front[i];
  }

  lemma DropNotNullBehind(pre: seq<Tree>, not: Tree, nul: Tree, post: seq<Tree>)
    requires !HasKind(pre, KwNot) && not.kind == KwNot && nul.kind == KwNull
    ensures DropNotNull(pre + ([not, nul] + post)) == pre + post
  {
    var kids := pre + ([not, nul] + post);
    assert forall j :: 0 <= j < |pre| ==> kids[j] == pre[j];
    assert kids[|pre|] == not && kids[|pre| + 1] == nul;
    assert NotNullAt(kids, |pre|);
    FoundNotNull(kids);
    assert kids[..|pre|] == pre && kids[|pre| + 2..] == post;
  }

  lemma ZeroDateAlone(def: Tree, pre: seq<Tree>, not: Tree, nul: Tree, update: Tree)
    requires def.children == pre + ([not, nul] + [update]) && HasZeroDate(update)
    requires !HasKind(pre, KwNot) && not.kind == KwNot && nul.kind == KwNull
    ensures EditColumn(ZeroDates, def).children == pre + [update]
  {
    assert update in def.children && HoldsZeroDate(update) by {
      assert def.children[|pre| + 2] == update;
    }
    HasZeroDateIff(def);
    DropNotNullBehind(pre, not, nul, [update]);
  }

  lemma NoZeroDateBeside(def: Tree, front: seq<Tree>, update: Tree)
    requires def.children == front + [update] && update.kind == OnUpdate
    requires forall x :: x in front ==> !HoldsZeroDate(x)
    ensures !ZeroDateBeside(def)
  {
    assert forall i :: 0 <= i < |front| ==> def.children[i] == front[i] && front[i] in front;
  }

  lemma NoneIn(kids: seq<Tree>, last: Tree, kind: Kind)
    requires forall x :: x in kids ==> x.kind != kind
    ensures !HasKind(kids, kind) && (last.kind != kind ==> !HasKind(kids + [last], kind))
  {
    assert forall i :: 0 <= i < |kids| ==> kids[i] in kids && (kids + [last])[i] == kids[i];
  }

  lemma UpdateGoesFirst(def: Tree, front: seq<Tree>, update: Tree)
    requires def.kind == ColumnDef && Named(def) && def.children == front + [update] && update.kind == OnUpdate
    requires forall x :: x in front ==> x.kind !in {OnUpdate, EnumType, KwAutoIncrement} && !HoldsZeroDate(x)
    ensures Edited(def).children == front
  {
    NoneIn(front, update, OnUpdate);
    NoneIn(front, update, EnumType);
    NoneIn(front, update, KwAutoIncrement);
    LastUpdateGone(front, update);
    NoZeroDateBeside(def, front, update);
    NothingToMark(def.children, def.children[0].text);
    HasKindIsOnly(KwAutoIncrement, def.children);
    ColumnBecomes(def);
    WithoutNothing(KwAutoIncrement, front);
  }

  /**
    A column with name, type, whatever no pass is about, and then NOT NULL and ON UPDATE: a zero date that stands only
    in ON UPDATE costs it its NOT NULL when the pass runs on its own, but not behind the ON UPDATE pass.
   */
  lemma ZeroDateOnlyInUpdate(def: Tree, pre: seq<Tree>, not: Tree, nul: Tree, update: Tree)
    requires def.kind == ColumnDef && |pre| >= 2 && pre[0].kind == Id
    requires def.children == pre + ([not, nul] + [update])
    requires not.kind == KwNot && nul.kind == KwNull && update.kind == OnUpdate && HasZeroDate(update)
    requires forall x :: x in pre ==> Ordinary(x.kind)
    requires forall x :: x in pre + [not, nul] ==> !HoldsZeroDate(x)
    ensures EditColumn(ZeroDates, def).children == pre + [update]
    ensures Edited(def).children == pre + [not, nul]
  {
    assert pre + ([not, nul] + [update]) == (pre + [not, nul]) + [update];
    assert !HasKind(pre, KwNot) by {
      assert forall i :: 0 <= i < |pre| ==> pre[i] in pre;
    }
    ZeroDateAlone(def, pre, not, nul, update);
    assert def.children[0] == pre[0];
    UpdateGoesFirst(def, pre + [not, nul], update);
  }
}
