/** Exactly when a pass meets its purpose, and inputs on which it does not. */
module TableExactly {
  import opened Sequences
  import opened Wrappers
  import opened Trees
  import opened Paths
  import opened TablePasses
  import opened TableLaws
  import opened TableStatements

  // ---------- ON UPDATE ----------

  ghost predicate Adjacent(kids: seq<Tree>, kind: Kind) {
    exists i :: 0 <= i && i + 1 < |kids| && kids[i].kind == kind && kids[i + 1].kind == kind
  }

  lemma {:induction false} UpdatesKeepDone(done: seq<Tree>, todo: seq<Tree>)
    requires HasKind(done, OnUpdate)
    ensures HasKind(DropUpdates(done, todo), OnUpdate)
    decreases |todo|
  {
    if todo != [] {
      if todo[0].kind != OnUpdate {
        NoKindConcat(done, [todo[0]], OnUpdate);
        UpdatesKeepDone(done + [todo[0]], todo[1..]);
      } else if |todo| > 1 {
        NoKindConcat(done, [todo[1]], OnUpdate);
        UpdatesKeepDone(done + [todo[1]], todo[2..]);
      }
    }
  }

  lemma AdjacentTail(kids: seq<Tree>, kind: Kind, k: nat)
    requires k <= |kids|
             && (forall i :: 0 <= i < k && i + 1 < |kids| ==> !(kids[i].kind == kind && kids[i + 1].kind == kind))
    ensures Adjacent(kids, kind) <==> Adjacent(kids[k..], kind)
  {
    if Adjacent(kids, kind) {
      var i :| 0 <= i && i + 1 < |kids| && kids[i].kind == kind && kids[i + 1].kind == kind;
      assert kids[k..][i - k].kind == kind && kids[k..][i - k + 1].kind == kind;
    }
    if Adjacent(kids[k..], kind) {
      var i :| 0 <= i && i + 1 < |kids[k..]| && kids[k..][i].kind == kind && kids[k..][i + 1].kind == kind;
      assert kids[i + k].kind == kind && kids[i + k + 1].kind == kind;
    }
  }

  lemma {:induction false} UpdatesRemain(done: seq<Tree>, todo: seq<Tree>)
    requires !HasKind(done, OnUpdate)
    ensures HasKind(DropUpdates(done, todo), OnUpdate) <==> Adjacent(todo, OnUpdate)
    decreases |todo|
  {
    if todo != [] {
      if todo[0].kind != OnUpdate {
        NoKindConcat(done, [todo[0]], OnUpdate);
        UpdatesRemain(done + [todo[0]], todo[1..]);
        AdjacentTail(todo, OnUpdate, 1);
      } else if |todo| > 1 {
        NoKindConcat(done, [todo[1]], OnUpdate);
        if todo[1].kind == OnUpdate {
          assert [todo[1]][0].kind == OnUpdate;
          UpdatesKeepDone(done + [todo[1]], todo[2..]);
        } else {
          UpdatesRemain(done + [todo[1]], todo[2..]);
          AdjacentTail(todo, OnUpdate, 2);
        }
      }
    }
  }

  /** The pass removes every ON UPDATE of a column if and only if no two of them stand side by side. */
  lemma UpdatesAllGoneIff(kids: seq<Tree>)
    ensures !HasKind(DropUpdates([], kids), OnUpdate) <==> !Adjacent(kids, OnUpdate)
  {
    UpdatesRemain([], kids);
  }

  lemma UpdatesPass(schema: string, table: string, done: seq<Tree>, x: Tree, rest: seq<Tree>)
    requires x.kind != OnUpdate
    ensures DropUpdates(done, [x] + rest) == DropUpdates(done + [x], rest)
    ensures UpdateTriggers(schema, table, done, [x] + rest) == UpdateTriggers(schema, table, done + [x], rest)
  {
    assert ([x] + rest)[1..] == rest;
  }

  lemma LastTwoUpdates(schema: string, table: string, name: Tree, done: seq<Tree>, u: Tree, v: Tree)
    requires done != [] && done[0] == name && u.kind == OnUpdate && v.kind == OnUpdate
    ensures DropUpdates(done, [u, v]) == done + [v]
    ensures UpdateTriggers(schema, table, done, [u, v])
            == [UpdateTrigger(schema, table, name.text, Expression(u.children))]
  {
    var none := [u, v][2..];
    assert none == [] && (done + [u, v])[0] == name;
    assert DropUpdates(done + [v], none) == done + [v];
    assert UpdateTriggers(schema, table, done + [v], none) == [];
  }

  /** Two of them side by side behind name and type: the second stays in the column and gets no trigger. */
  lemma UpdatesSideBySide(name: Tree, sqlType: Tree, u: Tree, v: Tree, schema: string, table: string)
    requires name.kind == Id && sqlType.kind != OnUpdate && u.kind == OnUpdate && v.kind == OnUpdate
    ensures DropUpdates([], [name, sqlType, u, v]) == [name, sqlType, v]
    ensures UpdateTriggers(schema, table, [], [name, sqlType, u, v])
            == [UpdateTrigger(schema, table, name.text, Expression(u.children))]
  {
    var none: seq<Tree> := [];
    assert none + [name] == [name] && [name] + [sqlType] == [name, sqlType];
    assert [name] + ([sqlType] + [u, v]) == [name, sqlType, u, v] && [name, sqlType] + [v] == [name, sqlType, v];
    UpdatesPass(schema, table, none, name, [sqlType] + [u, v]);
    UpdatesPass(schema, table, [name], sqlType, [u, v]);
    LastTwoUpdates(schema, table, name, [name, sqlType], u, v);
  }

  /** The triggers a column calls for: one for each ON UPDATE, named after the column's first child. */
  ghost function TriggersFor(schema: string, table: string, column: string, updates: seq<Tree>): seq<Statement> {
    if updates == [] then []
    else
      [UpdateTrigger(schema, table, column, Expression(updates[0].children))]
      + TriggersFor(schema, table, column, updates[1..])
  }

  lemma {:induction false} DroppedWithoutNeighbours(done: seq<Tree>, todo: seq<Tree>)
    requires !Adjacent(todo, OnUpdate)
    ensures DropUpdates(done, todo) == done + Without(OnUpdate, todo)
    decreases |todo|
  {
    if todo == [] {
      assert done + [] == done;
    } else if todo[0].kind != OnUpdate {
      AdjacentTail(todo, OnUpdate, 1);
      DroppedWithoutNeighbours(done + [todo[0]], todo[1..]);
      assert done + [todo[0]] + Without(OnUpdate, todo[1..]) == done + ([todo[0]] + Without(OnUpdate, todo[1..]));
    } else if |todo| > 1 {
      assert todo[1].kind != OnUpdate;
      AdjacentTail(todo, OnUpdate, 2);
      DroppedWithoutNeighbours(done + [todo[1]], todo[2..]);
      assert todo[1..][1..] == todo[2..];
      assert done + [todo[1]] + Without(OnUpdate, todo[2..]) == done + ([todo[1]] + Without(OnUpdate, todo[2..]));
    } else {
      assert Without(OnUpdate, todo[1..]) == [] && done + [] == done;
    }
  }

  lemma {:induction false} TriggersWithoutNeighbours(schema: string, table: string, done: seq<Tree>, todo: seq<Tree>)
    requires !Adjacent(todo, OnUpdate) && done != []
    ensures UpdateTriggers(schema, table, done, todo) == TriggersFor(schema, table, done[0].text, Only(OnUpdate, todo))
    decreases |todo|
  {
    if todo == [] {
    } else if todo[0].kind != OnUpdate {
      AdjacentTail(todo, OnUpdate, 1);
      TriggersWithoutNeighbours(schema, table, done + [todo[0]], todo[1..]);
    } else if |todo| > 1 {
      assert todo[1].kind != OnUpdate;
      AdjacentTail(todo, OnUpdate, 2);
      TriggersWithoutNeighbours(schema, table, done + [todo[1]], todo[2..]);
      assert todo[1..][1..] == todo[2..] && ([todo[0]] + Only(OnUpdate, todo[1..]))[1..] == Only(OnUpdate, todo[1..]);
    } else {
      assert Only(OnUpdate, todo) == [todo[0]] && [todo[0]][1..] == [];
    }
  }

  /** Otherwise a column loses exactly its ON UPDATE children and gets one trigger for each, in order. */
  lemma UpdatesAreHoisted(schema: string, table: string, def: Tree)
    requires Named(def) && !Adjacent(def.children, OnUpdate)
    ensures EditColumn(Updates, def) == def.(children := Without(OnUpdate, def.children))
    ensures ColumnStatements(Updates, schema, table, "", def)
            == TriggersFor(schema, table, def.children[0].text, Only(OnUpdate, def.children))
  {
    var kids := def.children;
    assert [] + [kids[0]] == [kids[0]];
    AdjacentTail(kids, OnUpdate, 1);
    DroppedWithoutNeighbours([kids[0]], kids[1..]);
    TriggersWithoutNeighbours(schema, table, [kids[0]], kids[1..]);
  }

  // ---------- AUTO_INCREMENT ----------

  /** A column loses its first AUTO_INCREMENT; all of them are gone if and only if there was at most one. */
  lemma AutoIncrementsGoneIff(kids: seq<Tree>)
    ensures !HasKind(DropFirst(kids, KwAutoIncrement), KwAutoIncrement) <==>
            forall i, j :: 0 <= i < j < |kids| ==> !(kids[i].kind == KwAutoIncrement && kids[j].kind == KwAutoIncrement)
  {
    var k, next := Find(kids, 0, KwAutoIncrement), DropFirst(kids, KwAutoIncrement);
    if k < |kids| {
      forall j | k < j < |kids| ensures next[j - 1] == kids[j] {}
      if HasKind(next, KwAutoIncrement) {
        var i :| 0 <= i < |next| && next[i].kind == KwAutoIncrement;
        assert i >= k && kids[i + 1].kind == KwAutoIncrement;
      }
      if i, j :| 0 <= i < j < |kids| && kids[i].kind == KwAutoIncrement && kids[j].kind == KwAutoIncrement {
        assert k <= i && next[j - 1].kind == KwAutoIncrement;
      }
    }
  }

  // ---------- FULLTEXT ----------

  ghost predicate ShadowAt(kids: seq<Tree>, i: int) {
    0 <= i && i + 2 < |kids| && kids[i].kind == Comma && kids[i + 1].kind == Fulltext && kids[i + 2].kind == Fulltext
  }

  /** A comma and two full-text definitions without a comma between them. */
  ghost predicate Shadowed(kids: seq<Tree>) {
    exists i :: ShadowAt(kids, i)
  }

  lemma ShadowedTail(kids: seq<Tree>, k: nat)
    requires k <= |kids| && (forall i :: 0 <= i < k ==> !ShadowAt(kids, i))
    ensures Shadowed(kids) <==> Shadowed(kids[k..])
  {
    if Shadowed(kids) {
      var i :| ShadowAt(kids, i);
      assert ShadowAt(kids[k..], i - k);
    }
    if Shadowed(kids[k..]) {
      var i :| ShadowAt(kids[k..], i);
      assert ShadowAt(kids, i + k);
    }
  }

  lemma {:induction false} FulltextKeepsDone(done: seq<Tree>, todo: seq<Tree>)
    requires HasKind(done, Fulltext)
    ensures HasKind(DropFulltext(done, todo), Fulltext)
    decreases |todo|
  {
    if todo != [] {
      if todo[0].kind != Fulltext {
        NoKindConcat(done, [todo[0]], Fulltext);
        FulltextKeepsDone(done + [todo[0]], todo[1..]);
      } else if |done| >= 2 && done[|done| - 1].kind == Comma {
        assert HasKind(DropComma(done), Fulltext) by {
          var k :| 0 <= k < |done| && done[k].kind == Fulltext;
          assert DropComma(done)[k].kind == Fulltext;
        }
        if |todo| > 1 {
          NoKindConcat(DropComma(done), [todo[1]], Fulltext);
          FulltextKeepsDone(DropComma(done) + [todo[1]], todo[2..]);
        }
      } else {
        FulltextKeepsDone(done, todo[1..]);
      }
    }
  }

  lemma ShadowedBehind(x: Tree, rest: seq<Tree>)
    requires !ShadowAt([x] + rest, 0)
    ensures Shadowed([x] + rest) <==> Shadowed(rest)
  {
    ShadowedTail([x] + rest, 1);
    assert ([x] + rest)[1..] == rest;
  }

  lemma HeadIsNoComma(todo: seq<Tree>)
    requires todo != [] && todo[0].kind != Comma
    ensures Shadowed(todo) <==> Shadowed(todo[1..])
  {
    HeadTail(todo, 0);
    ShadowedBehind(todo[0], todo[1..]);
  }

  lemma {:induction false} FulltextRemains(done: seq<Tree>, todo: seq<Tree>)
    requires done != [] && done[0].kind != Comma && !HasKind(done, Fulltext)
    ensures HasKind(DropFulltext(done, todo), Fulltext) <==> Shadowed([done[|done| - 1]] + todo)
    decreases |todo|, 1
  {
    var last := done[|done| - 1];
    if todo != [] {
      HeadTail(todo, 0);
      if todo[0].kind != Fulltext {
        NoKindConcat(done, [todo[0]], Fulltext);
        FulltextRemains(done + [todo[0]], todo[1..]);
        ShadowedBehind(last, todo);
      } else if last.kind == Comma {
        FulltextBehindComma(done, todo);
      } else {
        FulltextRemains(done, todo[1..]);
        ShadowedBehind(last, todo);
        HeadIsNoComma(todo);
        ShadowedBehind(last, todo[1..]);
      }
    }
  }

  lemma {:induction false} FulltextBehindComma(done: seq<Tree>, todo: seq<Tree>)
    requires done != [] && done[0].kind != Comma && !HasKind(done, Fulltext)
    requires done[|done| - 1].kind == Comma && todo != [] && todo[0].kind == Fulltext
    ensures HasKind(DropFulltext(done, todo), Fulltext) <==> Shadowed([done[|done| - 1]] + todo)
    decreases |todo|, 0
  {
    var last, next := done[|done| - 1], DropComma(done);
    DropCommaLacks(done, Fulltext);
    if |todo| > 1 {
      NoKindConcat(next, [todo[1]], Fulltext);
      if todo[1].kind == Fulltext {
        assert ShadowAt([last] + todo, 0);
        assert [todo[1]][0].kind == Fulltext;
        FulltextKeepsDone(next + [todo[1]], todo[2..]);
      } else {
        HeadTail(todo, 1);
        FulltextRemains(next + [todo[1]], todo[2..]);
        ShadowedBehind(last, todo);
        HeadIsNoComma(todo);
      }
    }
  }

  /**
    The full-text pass leaves nothing of its kind if and only if no comma is followed by two such definitions at once.
   */
  lemma FulltextAllGoneIff(kids: seq<Tree>)
    requires Anchored(kids)
    ensures !HasKind(DropFulltext([], kids), Fulltext) <==> !Shadowed(kids)
  {
    assert [] + [kids[0]] == [kids[0]] && [kids[0]] + kids[1..] == kids;
    FulltextRemains([kids[0]], kids[1..]);
  }

  /** A comma, a full-text index and another one at once: the second is left over. */
  lemma FulltextLeftover(header: Tree, comma: Tree, f: Tree, g: Tree)
    requires header.kind == LParen && comma.kind == Comma && f.kind == Fulltext && g.kind == Fulltext
    ensures DropFulltext([], [header, comma, f, g]) == [header, g]
  {
    var a, b := [header, comma], [f, g];
    var none: seq<Tree> := b[2..];
    assert none == [] && [] + a == a && [header, comma, f, g] == a + b;
    FulltextPrefix([], a, b);
    assert DropComma(a) == [header];
    assert DropFulltext([header, g], none) == [header, g];
    assert DropFulltext(a, b) == DropFulltext([header] + [g], none);
  }

  // ---------- index names ----------

  /** The columns an index lists: every identifier and direction. */
  ghost function Listed(kids: seq<Tree>): seq<Part> {
    if kids == [] then []
    else if kids[0].kind == Id then [Column(kids[0].text)] + Listed(kids[1..])
    else if kids[0].kind == KwAsc || kids[0].kind == KwDesc then [Direction(kids[0].text)] + Listed(kids[1..])
    else Listed(kids[1..])
  }

  lemma {:induction false} ScanNamed(name: string, parts: seq<Part>, kids: seq<Tree>)
    ensures ScanIndex(IndexScan(Some(name), parts), kids) == IndexScan(Some(name), parts + Listed(kids))
    decreases |kids|
  {
    if kids == [] {
      assert parts + [] == parts;
    } else {
      var st := ScanOne(IndexScan(Some(name), parts), kids[0]);
      ScanNamed(name, st.parts, kids[1..]);
      if kids[0].kind == Id {
        assert parts + [Column(kids[0].text)] + Listed(kids[1..])
               == parts + ([Column(kids[0].text)] + Listed(kids[1..]));
      } else if kids[0].kind == KwAsc || kids[0].kind == KwDesc {
        assert parts + [Direction(kids[0].text)] + Listed(kids[1..])
               == parts + ([Direction(kids[0].text)] + Listed(kids[1..]));
      }
    }
  }

  lemma {:induction false} ScanUnnamed(kids: seq<Tree>)
    requires Listed(kids) == [] || Listed(kids)[0].Column?
    ensures ScanIndex(IndexScan(None, []), kids)
            == if Listed(kids) == [] then IndexScan(None, [])
              else IndexScan(Some(Listed(kids)[0].name), Listed(kids)[1..])
    decreases |kids|
  {
    if kids != [] {
      if kids[0].kind == Id {
        ScanNamed(kids[0].text, [], kids[1..]);
        assert [] + Listed(kids[1..]) == Listed(kids[1..]) && Listed(kids)[1..] == Listed(kids[1..]);
      } else {
        ScanUnnamed(kids[1..]);
      }
    }
  }

  /**
    Behind the header (its name, if any), the statement lists exactly the index's columns if and only if the
    index is named or lists nothing; without a name the first column is taken for one and lost from the list.
   */
  lemma ColumnsListedIff(schema: string, table: string, t: Tree, header: nat)
    requires header <= |t.children|
    requires var h := Listed(t.children[..header]); |h| <= 1 && (h != [] ==> h[0].Column?)
    requires var l := Listed(t.children[header..]); l != [] ==> l[0].Column?
    ensures IndexStatement(schema, table, t).parts == Listed(t.children[header..])
            <==> Listed(t.children[..header]) != [] || Listed(t.children[header..]) == []
    ensures Listed(t.children[..header]) != []
            ==> IndexStatement(schema, table, t).name == Listed(t.children[..header])[0].name
  {
    var a, b := t.children[..header], t.children[header..];
    assert t.children == a + b;
    ListedConcat(a, b);
    ScanUnnamed(t.children);
    assert Listed(a) == [] ==> [] + Listed(b) == Listed(b);
    assert Listed(a) != [] ==> (Listed(a) + Listed(b))[1..] == Listed(b);
  }

  /** INDEX (a, b) without a name: the statement is named after a and lists b only. */
  lemma UnnamedIndexLosesColumn(schema: string, table: string, t: Tree, open: Tree, a: Tree, comma: Tree, b: Tree,
      close: Tree)
    requires t.children == [open, a, comma, b, close]
    requires open.kind == LParen && a.kind == Id && comma.kind == Comma && b.kind == Id && close.kind == RParen
    ensures IndexStatement(schema, table, t).parts == [Column(b.text)]
            && IndexStatement(schema, table, t).name == a.text
  {
    var k1, k2, k3, k4 := [a, comma, b, close], [comma, b, close], [b, close], [close];
    var none := k4[1..];
    assert t.children[1..] == k1 && k1[1..] == k2 && k2[1..] == k3 && k3[1..] == k4 && none == [];
    assert Listed(none) == [] && Listed(k4) == [];
    assert Listed(k3) == [Column(b.text)];
    assert Listed(k2) == Listed(k3);
    assert Listed(k1) == [Column(a.text)] + Listed(k2) == [Column(a.text), Column(b.text)];
    assert Listed(t.children) == Listed(k1);
    ScanUnnamed(t.children);
    assert [Column(a.text), Column(b.text)][1..] == [Column(b.text)];
  }

  lemma {:induction false} ListedConcat(a: seq<Tree>, b: seq<Tree>)
    ensures Listed(a + b) == Listed(a) + Listed(b)
    decreases |a|
  {
    if a == [] {
      assert a + b == b;
    } else {
      assert (a + b)[1..] == a[1..] + b;
      ListedConcat(a[1..], b);
    }
  }

  // ---------- the other parts of a statement ----------

  /** USING method: the word behind the first USING; without one there is no access method. */
  lemma IndexTakesAccessMethod(schema: string, table: string, t: Tree, a: seq<Tree>, using: Tree, method': Tree,
      b: seq<Tree>)
    requires using.kind == KwUsing && !HasKind(a, KwUsing)
    ensures t.children == a + [using, method'] + b ==> IndexStatement(schema, table, t).access == Some(method'.text)
    ensures t.children == a ==> IndexStatement(schema, table, t).access == None
  {
    var kids := a + [using, method'] + b;
    assert kids[|a|] == using && kids[|a| + 1] == method';
    assert forall k :: 0 <= k < |a| ==> kids[k] == a[k];
    assert Find(kids, 0, KwUsing) == |a|;
    assert Find(a, 0, KwUsing) == |a|;
  }

  lemma FirstIdIs(a: seq<Tree>, id: Tree, rest: seq<Tree>)
    requires !HasKind(a, Id) && id.kind == Id
    ensures TableName(a + [id] + rest) == id.text
  {
    var kids := a + [id] + rest;
    assert kids[|a|] == id && forall k :: 0 <= k < |a| ==> kids[k] == a[k];
    assert Find(kids, 0, Id) == |a|;
  }

  /** Of a qualified name the statements take the right part if and only if the schema is no identifier, or the same. */
  lemma QualifiedNameIff(a: seq<Tree>, schema: Tree, dot: Tree, table: Tree, rest: seq<Tree>)
    requires !HasKind(a, Id) && dot.kind != Id && table.kind == Id
    ensures TableName(a + [schema, dot, table] + rest) == table.text <==> schema.kind != Id || schema.text == table.text
  {
    var kids := a + [schema, dot, table] + rest;
    if schema.kind == Id {
      assert kids == a + [schema] + ([dot, table] + rest);
      FirstIdIs(a, schema, [dot, table] + rest);
    } else {
      NoKindConcat(a, [schema, dot], Id);
      assert kids == (a + [schema, dot]) + [table] + rest;
      FirstIdIs(a + [schema, dot], table, rest);
    }
  }

  // ---------- DOUBLE ----------

  /**
    Of all nodes of a table, at any depth, the pass spells out exactly the DOUBLEs that are children of the table
    itself, not last and not followed by PRECISION: never one inside a column. These get the word, no other node
    changes but the table itself.
   */
  lemma DoubleSpelledIff(t: Tree, path: seq<nat>)
    requires Sub(t, path).Some?
    ensures var n, t' := Sub(t, path).value, t.(children := SpellDoubles(t.children));
            && Sub(t', path).Some?
            && (Sub(t', path).value.text != n.text <==>
                  && |path| == 1 && n.kind == KwDouble
                  && path[0] + 1 < |t.children| && t.children[path[0] + 1].kind != KwPrecision)
            && (path != [] ==>
                  var m := Sub(t', path).value; m == if m.text == n.text then n else n.(text := n.text + " PRECISION "))
  {
    if path != [] {
      var c := t.children[path[0]];
      if |path| == 1 {
        assert Sub(c, path[1..]) == Some(c)
               && Sub(SpellDouble(t.children, path[0]), path[1..]) == Some(SpellDouble(t.children, path[0]));
        assert |c.text + " PRECISION "| > |c.text|;
      } else {
        assert Sub(SpellDouble(t.children, path[0]), path[1..]) == Sub(c, path[1..]);
      }
    }
  }

  // ---------- foreign keys ----------

  ghost predicate Qualified(sts: seq<Statement>) {
    forall st :: st in sts ==> !st.AddForeignKey?
  }

  lemma {:induction false} TriggersQualified(schema: string, table: string, done: seq<Tree>, todo: seq<Tree>)
    ensures Qualified(UpdateTriggers(schema, table, done, todo))
    decreases |todo|
  {
    if todo != [] {
      if todo[0].kind != OnUpdate {
        TriggersQualified(schema, table, done + [todo[0]], todo[1..]);
      } else if |todo| > 1 {
        TriggersQualified(schema, table, done + [todo[1]], todo[2..]);
      }
    }
  }

  lemma {:induction false} ColumnsQualified(pass: ColumnPass, schema: string, table: string, start: string,
      kids: seq<Tree>)
    ensures Qualified(AllStatements(pass, schema, table, start, kids))
    decreases |kids|
  {
    if kids != [] {
      TriggersQualified(schema, table, [], kids[0].children);
      ColumnsQualified(pass, schema, table, start, kids[1..]);
    }
  }

  lemma {:induction false} IndexesQualified(schema: string, table: string, kids: seq<Tree>)
    ensures Qualified(IndexStatements(schema, table, kids))
    decreases |kids|
  {
    if kids != [] {
      IndexesQualified(schema, table, kids[1..]);
    }
  }

  lemma {:induction false} KeysQualified(table: string, kids: seq<Tree>)
    ensures Qualified(KeyStatements(table, kids)) <==> Only(ForeignKey, kids) == []
    decreases |kids|
  {
    if kids != [] {
      KeysQualified(table, kids[1..]);
      if kids[0].kind == ForeignKey {
        assert KeyStatements(table, kids)[0].AddForeignKey?;
      }
    }
  }

  /** All statements of a table carry a schema if and only if it has no foreign key. */
  lemma AllQualifiedIff(schema: string, kids: seq<Tree>)
    ensures Qualified(RewriteTable(schema, kids).statements) <==> !HasKind(kids, ForeignKey)
  {
    StatementsAtStages(schema, kids);
    var k1, k2, k3, k4 := ForUpdates(kids), ForIndexes(kids), ForSequences(kids), ForKeys(kids);
    ColumnsQualified(Updates, schema, TableName(k1), StartValue(k1), k1);
    IndexesQualified(schema, TableName(k2), k2);
    ColumnsQualified(AutoIncrements, schema, TableName(k3), StartValue(k3), k3);
    KeysQualified(TableName(k4), k4);
    OnlyAtStages(ForeignKey, kids);
    HasKindIsOnly(ForeignKey, kids);
  }
}
