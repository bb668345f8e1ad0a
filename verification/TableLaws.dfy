/** Laws of the single passes. */
module TableLaws {
  import opened Sequences
  import opened Trees
  import opened TablePasses

  // ---------- the left fold behind Hoist ----------

  lemma {:induction false} HoistPrefix(kind: Kind, done: seq<Tree>, a: seq<Tree>, b: seq<Tree>)
    requires !HasKind(a, kind)
    ensures Hoist(kind, done, a + b) == Hoist(kind, done + a, b)
    decreases |a|
  {
    if a == [] {
      assert a + b == b && done + a == done;
    } else {
      assert a[0].kind != kind;
      assert (a + b)[1..] == a[1..] + b && done + [a[0]] + a[1..] == done + a;
      NoKindTail(a, kind);
      HoistPrefix(kind, done + [a[0]], a[1..], b);
    }
  }

  lemma NoKindTail(a: seq<Tree>, kind: Kind)
    requires a != [] && !HasKind(a, kind)
    ensures !HasKind(a[1..], kind)
  {
    forall k | 0 <= k < |a[1..]| ensures a[1..][k].kind != kind { assert a[k + 1].kind != kind; }
  }

  lemma NoKindConcat(a: seq<Tree>, b: seq<Tree>, kind: Kind)
    ensures HasKind(a + b, kind) <==> HasKind(a, kind) || HasKind(b, kind)
  {
    if HasKind(a, kind) {
      var k :| 0 <= k < |a| && a[k].kind == kind;
      assert (a + b)[k].kind == kind;
    }
    if HasKind(b, kind) {
      var k :| 0 <= k < |b| && b[k].kind == kind;
      assert (a + b)[|a| + k].kind == kind;
    }
  }

  /** One round of the deleting loop leaves the fold's result as it was. */
  lemma HoistStep(kind: Kind, kids: seq<Tree>, pos: nat)
    requires kind != Comma && pos == Find(kids, 0, kind) < |kids|
    ensures Hoist(kind, [], kids) == Hoist(kind, [], DropComma(kids[..pos]) + kids[pos + 1..])
  {
    var a, b := kids[..pos], kids[pos + 1..];
    assert kids == a + ([kids[pos]] + b);
    HoistPrefix(kind, [], a, [kids[pos]] + b);
    assert [] + a == a && ([kids[pos]] + b)[1..] == b;
    assert !HasKind(DropComma(a), kind);
    HoistPrefix(kind, [], DropComma(a), b);
    assert [] + DropComma(a) == DropComma(a);
  }

  lemma HoistNothing(kind: Kind, kids: seq<Tree>)
    requires !HasKind(kids, kind)
    ensures Hoist(kind, [], kids) == kids
  {
    HoistPrefix(kind, [], kids, []);
    assert kids + [] == kids && [] + kids == kids;
  }

  // ---------- the ON UPDATE loop ----------

  ghost function Cut(from: nat, kids: seq<Tree>): nat {
    if from <= |kids| then from else |kids|
  }

  lemma {:induction false} UpdatesPrefix(schema: string, table: string, done: seq<Tree>, a: seq<Tree>, b: seq<Tree>)
    requires !HasKind(a, OnUpdate)
    ensures DropUpdates(done, a + b) == DropUpdates(done + a, b)
    ensures UpdateTriggers(schema, table, done, a + b) == UpdateTriggers(schema, table, done + a, b)
    decreases |a|
  {
    if a == [] {
      assert a + b == b && done + a == done;
    } else {
      assert a[0].kind != OnUpdate;
      assert (a + b)[1..] == a[1..] + b && done + [a[0]] + a[1..] == done + a;
      NoKindTail(a, OnUpdate);
      UpdatesPrefix(schema, table, done + [a[0]], a[1..], b);
    }
  }

  /** What the loop still does from position `from` on. */
  ghost function UpdatesFrom(schema: string, table: string, kids: seq<Tree>, from: nat): Rewritten {
    var f := Cut(from, kids);
    Rewritten(DropUpdates(kids[..f], kids[f..]), UpdateTriggers(schema, table, kids[..f], kids[f..]))
  }

  lemma UpdatesAt(schema: string, table: string, kids: seq<Tree>, pos: nat)
    requires pos < |kids| && kids[pos].kind == OnUpdate
    ensures var rest := UpdatesFrom(schema, table, Removed(kids, pos), pos + 1);
            && DropUpdates(kids[..pos], kids[pos..]) == rest.kids
            && UpdateTriggers(schema, table, kids[..pos], kids[pos..])
               == [UpdateTrigger(schema, table, kids[0].text, Expression(kids[pos].children))] + rest.statements
  {
    SplitAt(kids, pos);
    HeadTail(kids, pos);
    BehindRemoved(kids, pos);
    UpdatesRound(schema, table, kids[..pos], kids[pos..]);
    if pos + 1 < |kids| {
      HeadTail(kids, pos + 1);
    }
  }

  /** One round of the loop: the child at pos goes, its trigger is out, the search resumes behind pos. */
  lemma UpdatesStep(schema: string, table: string, kids: seq<Tree>, from: nat, pos: nat)
    requires pos == Look(kids, from, OnUpdate)
    ensures var rest := UpdatesFrom(schema, table, Removed(kids, pos), pos + 1);
            UpdatesFrom(schema, table, kids, from) == Rewritten(
              rest.kids, [UpdateTrigger(schema, table, kids[0].text, Expression(kids[pos].children))] + rest.statements)
  {
    Between(kids, from, pos);
    UpdatesPrefix(schema, table, kids[..from], kids[from..pos], kids[pos..]);
    UpdatesAt(schema, table, kids, pos);
  }

  lemma UpdatesRound(schema: string, table: string, done: seq<Tree>, todo: seq<Tree>)
    requires todo != [] && todo[0].kind == OnUpdate
    ensures |todo| == 1 ==> DropUpdates(done, todo) == done
    ensures |todo| > 1 ==> DropUpdates(done, todo) == DropUpdates(done + [todo[1]], todo[2..])
    ensures UpdateTriggers(schema, table, done, todo)
            == [UpdateTrigger(schema, table, (done + todo)[0].text, Expression(todo[0].children))]
               + if |todo| == 1 then [] else UpdateTriggers(schema, table, done + [todo[1]], todo[2..])
  {
  }

  lemma UpdatesEnd(schema: string, table: string, kids: seq<Tree>, from: nat)
    requires Look(kids, from, OnUpdate) == -1
    ensures UpdatesFrom(schema, table, kids, from) == Rewritten(kids, [])
  {
    var f := Cut(from, kids);
    assert kids[f..] + [] == kids[f..] && kids[..f] + kids[f..] == kids;
    UpdatesPrefix(schema, table, kids[..f], kids[f..], []);
  }

  lemma UpdatesStart(schema: string, table: string, kids: seq<Tree>)
    ensures UpdatesFrom(schema, table, kids, 0)
            == Rewritten(DropUpdates([], kids), UpdateTriggers(schema, table, [], kids))
  {
    assert kids[..0] == [] && kids[0..] == kids;
  }

  // ---------- the hoisting loops ----------

  /** One round keeps the anchor. */
  lemma AnchorStays(kind: Kind, kids: seq<Tree>, pos: nat)
    requires Anchored(kids) && kind in {Index, Fulltext, ForeignKey} && pos == Find(kids, 0, kind) < |kids|
    ensures pos > 0 && Anchored(DropComma(kids[..pos]) + kids[pos + 1..])
  {
  }

  lemma {:induction false} StatementsPrefix(schema: string, table: string, a: seq<Tree>, b: seq<Tree>)
    ensures !HasKind(a, Index) ==> IndexStatements(schema, table, a + b) == IndexStatements(schema, table, b)
    ensures !HasKind(a, ForeignKey) ==> KeyStatements(table, a + b) == KeyStatements(table, b)
    decreases |a|
  {
    if a == [] {
      assert a + b == b;
    } else {
      assert (a + b)[1..] == a[1..] + b;
      StatementsPrefix(schema, table, a[1..], b);
      if !HasKind(a, Index) { NoKindTail(a, Index); }
      if !HasKind(a, ForeignKey) { NoKindTail(a, ForeignKey); }
    }
  }

  lemma DropCommaLacks(a: seq<Tree>, kind: Kind)
    requires !HasKind(a, kind)
    ensures !HasKind(DropComma(a), kind)
  {
  }

  /** One round takes the statement of its node off those still to come. */
  lemma IndexStep(schema: string, table: string, kids: seq<Tree>, pos: nat)
    requires pos == Find(kids, 0, Index) < |kids|
    ensures IndexStatements(schema, table, kids)
            == [IndexStatement(schema, table, kids[pos])]
              + IndexStatements(schema, table, DropComma(kids[..pos]) + kids[pos + 1..])
  {
    var a, b := kids[..pos], kids[pos + 1..];
    assert kids == a + ([kids[pos]] + b) && ([kids[pos]] + b)[1..] == b;
    StatementsPrefix(schema, table, a, [kids[pos]] + b);
    DropCommaLacks(a, Index);
    StatementsPrefix(schema, table, DropComma(a), b);
  }

  lemma KeyStep(table: string, kids: seq<Tree>, pos: nat)
    requires pos == Find(kids, 0, ForeignKey) < |kids|
    ensures KeyStatements(table, kids)
            == [AddForeignKey(table, Texts(kids[pos].children))]
              + KeyStatements(table, DropComma(kids[..pos]) + kids[pos + 1..])
  {
    var a, b := kids[..pos], kids[pos + 1..];
    assert kids == a + ([kids[pos]] + b) && ([kids[pos]] + b)[1..] == b;
    StatementsPrefix("", table, a, [kids[pos]] + b);
    DropCommaLacks(a, ForeignKey);
    StatementsPrefix("", table, DropComma(a), b);
  }

  lemma NoStatements(schema: string, table: string, kids: seq<Tree>)
    ensures !HasKind(kids, Index) ==> IndexStatements(schema, table, kids) == []
    ensures !HasKind(kids, ForeignKey) ==> KeyStatements(table, kids) == []
  {
    StatementsPrefix(schema, table, kids, []);
    assert kids + [] == kids;
  }

  // ---------- the full-text loop ----------

  lemma {:induction false} FulltextPrefix(done: seq<Tree>, a: seq<Tree>, b: seq<Tree>)
    requires !HasKind(a, Fulltext)
    ensures DropFulltext(done, a + b) == DropFulltext(done + a, b)
    decreases |a|
  {
    if a == [] {
      assert a + b == b && done + a == done;
    } else {
      assert a[0].kind != Fulltext;
      assert (a + b)[1..] == a[1..] + b && done + [a[0]] + a[1..] == done + a;
      NoKindTail(a, Fulltext);
      FulltextPrefix(done + [a[0]], a[1..], b);
    }
  }

  /** What the loop still does from position `from` on. */
  ghost function FulltextFrom(kids: seq<Tree>, from: nat): seq<Tree> {
    var f := Cut(from, kids);
    DropFulltext(kids[..f], kids[f..])
  }

  /** The children after one round: the node gone, and a comma before it unless that is the first child. */
  ghost function FulltextRound(kids: seq<Tree>, pos: nat): seq<Tree>
    requires pos < |kids|
  {
    if pos - 1 > 0 && kids[pos - 1].kind == Comma then Removed(Removed(kids, pos), pos - 1) else Removed(kids, pos)
  }

  lemma FulltextStep(kids: seq<Tree>, from: nat, pos: nat)
    requires pos == Look(kids, from, Fulltext)
    ensures FulltextFrom(kids, from) == FulltextFrom(FulltextRound(kids, pos), pos)
  {
    Between(kids, from, pos);
    FulltextPrefix(kids[..from], kids[from..pos], kids[pos..]);
    FulltextAt(kids, pos);
  }

  lemma FulltextAt(kids: seq<Tree>, pos: nat)
    requires pos < |kids| && kids[pos].kind == Fulltext
    ensures DropFulltext(kids[..pos], kids[pos..]) == FulltextFrom(FulltextRound(kids, pos), pos)
  {
    var a, b, next := kids[..pos], kids[pos..], FulltextRound(kids, pos);
    assert b[0].kind == Fulltext;
    if pos - 1 > 0 && kids[pos - 1].kind == Comma {
      RemovedTwice(kids, pos - 1);
      assert a[..|a| - 1] == kids[..pos - 1] && b[1..] == kids[pos + 1..];
      FulltextWithComma(a, b);
    } else {
      assert next[..pos] == a;
      assert next[pos..] == b[1..];
      assert !(|a| >= 2 && a[|a| - 1].kind == Comma);
    }
  }

  lemma FulltextWithComma(a: seq<Tree>, b: seq<Tree>)
    requires |a| > 1 && a[|a| - 1].kind == Comma && b != [] && b[0].kind == Fulltext
    ensures DropFulltext(a, b) == FulltextFrom(a[..|a| - 1] + b[1..], |a|)
  {
    var next := a[..|a| - 1] + b[1..];
    if |b| > 1 {
      assert next[..|a|] == a[..|a| - 1] + [b[1]];
      assert next[|a|..] == b[2..];
    } else {
      var f := Cut(|a|, next);
      assert next[..f] == a[..|a| - 1] && next[f..] == [];
    }
  }

  lemma FulltextEnd(kids: seq<Tree>, from: nat)
    requires Look(kids, from, Fulltext) == -1
    ensures FulltextFrom(kids, from) == kids
  {
    var f := Cut(from, kids);
    assert kids[f..] + [] == kids[f..] && kids[..f] + kids[f..] == kids;
    FulltextPrefix(kids[..f], kids[f..], []);
  }

  // ---------- removing the options ----------

  lemma {:induction false} WithoutConcat(kind: Kind, a: seq<Tree>, b: seq<Tree>)
    ensures Without(kind, a + b) == Without(kind, a) + Without(kind, b)
    decreases |a|
  {
    if a == [] {
      assert a + b == b;
    } else {
      assert (a + b)[1..] == a[1..] + b;
      WithoutConcat(kind, a[1..], b);
    }
  }

  lemma {:induction false} WithoutNothing(kind: Kind, kids: seq<Tree>)
    requires !HasKind(kids, kind)
    ensures Without(kind, kids) == kids
    decreases |kids|
  {
    if kids != [] {
      assert kids[0].kind != kind;
      NoKindTail(kids, kind);
      WithoutNothing(kind, kids[1..]);
    }
  }

  lemma WithoutStep(kind: Kind, kids: seq<Tree>, pos: nat)
    requires pos < |kids| && kids[pos].kind == kind
    ensures Without(kind, kids) == Without(kind, Removed(kids, pos))
  {
    assert kids == kids[..pos] + ([kids[pos]] + kids[pos + 1..])
           && ([kids[pos]] + kids[pos + 1..])[1..] == kids[pos + 1..];
    WithoutConcat(kind, kids[..pos], [kids[pos]] + kids[pos + 1..]);
    WithoutConcat(kind, kids[..pos], kids[pos + 1..]);
  }

  // ---------- each pass leaves a table the next ones can work on ----------

  ghost predicate Workable(kids: seq<Tree>) {
    Anchored(kids) && SafeIndexes(kids) && SafeOptions(kids)
  }

  /**
    `next` is as workable as `kids`: the anchor is alike, and the nodes the later passes read are among those of kids.
   */
  ghost predicate AsWorkable(kids: seq<Tree>, next: seq<Tree>) {
    && next != [] && kids != [] && next[0].kind == kids[0].kind
    && (forall x :: x in next && x.kind in {Index, TableOptions} ==> x in kids)
  }

  lemma WorkableStays(kids: seq<Tree>, next: seq<Tree>)
    requires Workable(kids) && AsWorkable(kids, next)
    ensures Workable(next)
  {
    forall i | 0 <= i < |next| && next[i].kind in {Index, TableOptions} ensures SafeNode(next[i]) {
      assert next[i] in next;
    }
  }

  lemma AlikeIsWorkable(kids: seq<Tree>, next: seq<Tree>)
    requires kids != [] && |next| == |kids|
    requires forall i :: 0 <= i < |kids| ==>
             next[i].kind == kids[i].kind && (kids[i].kind in {Index, TableOptions} ==> next[i] == kids[i])
    ensures AsWorkable(kids, next)
  {
    forall x | x in next && x.kind in {Index, TableOptions} ensures x in kids {
      var i :| 0 <= i < |next| && next[i] == x;
      assert kids[i] == x;
    }
  }

  lemma EditsAreWorkable(pass: ColumnPass, kids: seq<Tree>)
    requires kids != []
    ensures AsWorkable(kids, EditAll(pass, kids)) && AsWorkable(kids, SpellDoubles(kids))
  {
    AlikeIsWorkable(kids, EditAll(pass, kids));
    AlikeIsWorkable(kids, SpellDoubles(kids));
  }

  lemma {:induction false} HoistSelects(kind: Kind, done: seq<Tree>, todo: seq<Tree>)
    ensures forall x :: x in Hoist(kind, done, todo) ==> x in done || x in todo
    ensures done != [] && done[0].kind != Comma
            ==> Hoist(kind, done, todo) != [] && Hoist(kind, done, todo)[0] == done[0]
    decreases |todo|
  {
    if todo != [] {
      if todo[0].kind == kind {
        HoistSelects(kind, DropComma(done), todo[1..]);
      } else {
        HoistSelects(kind, done + [todo[0]], todo[1..]);
      }
    }
  }

  lemma {:induction false} FulltextSelects(done: seq<Tree>, todo: seq<Tree>)
    ensures forall x :: x in DropFulltext(done, todo) ==> x in done || x in todo
    ensures done != [] ==> DropFulltext(done, todo) != [] && DropFulltext(done, todo)[0] == done[0]
    decreases |todo|
  {
    if todo != [] {
      if todo[0].kind != Fulltext {
        FulltextSelects(done + [todo[0]], todo[1..]);
      } else if |done| >= 2 && done[|done| - 1].kind == Comma {
        if |todo| > 1 {
          FulltextSelects(DropComma(done) + [todo[1]], todo[2..]);
        }
      } else {
        FulltextSelects(done, todo[1..]);
      }
    }
  }

  lemma HoistsAreWorkable(kind: Kind, kids: seq<Tree>)
    requires Anchored(kids)
    ensures kind in {Index, ForeignKey} ==> AsWorkable(kids, Hoist(kind, [], kids))
    ensures AsWorkable(kids, DropFulltext([], kids))
  {
    assert [] + [kids[0]] == [kids[0]];
    if kind in {Index, ForeignKey} {
      HoistSelects(kind, [kids[0]], kids[1..]);
    }
    FulltextSelects([kids[0]], kids[1..]);
  }

  /** Every pass but the last leaves a table the next one can work on. */
  lemma PassIsWorkable(p: TablePass, kids: seq<Tree>)
    requires Workable(kids) && p != Options
    ensures Workable(Pass(p, kids))
  {
    match p {
      case Columns(pass) => EditsAreWorkable(pass, kids);
      case Datatypes => EditsAreWorkable(Enums, kids);
      case Indexes => HoistsAreWorkable(Index, kids);
      case FulltextIndexes => HoistsAreWorkable(Index, kids);
      case ForeignKeys => HoistsAreWorkable(ForeignKey, kids);
    }
    WorkableStays(kids, Pass(p, kids));
  }
}
