/** The token kinds the passes test, and the values that trees of ANTLR nodes stand for. */
module Trees {
  datatype Kind =
    | Eof | Id | Comma | LParen | RParen | Eq | Number
    | KwUsing | KwAsc | KwDesc | KwAutoIncrement | KwNot | KwNull | KwEnum | KwSet | KwOn | KwUpdate | KwUse
    | KwDouble | KwPrecision
    | ZeroDate | ZeroTimestamp
    | CreateTable | ColumnDef | EnumType | OnUpdate | Index | Fulltext | ForeignKey | TableOptions
    | UseDatabase | LockTable | ServerVariable | ShowTables | ShowColumns | FunctionIf | FoundRows
    | Other(code: nat)

  datatype Tree = Tree(kind: Kind, text: string, line: int, col: int, children: seq<Tree>)

  /** The first place of a kind at or behind `from` (the length if there is none). */
  ghost function Find(kids: seq<Tree>, from: nat, kind: Kind): (r: nat)
    requires from <= |kids|
    ensures from <= r <= |kids|
    ensures r < |kids| ==> kids[r].kind == kind
    ensures forall k :: from <= k < r ==> kids[k].kind != kind
  {
    FindExists(kids, from, kind);
    var r: nat :| from <= r <= |kids| && (r < |kids| ==> kids[r].kind == kind)
                  && forall k :: from <= k < r ==> kids[k].kind != kind;
    r
  }

  lemma FindExists(kids: seq<Tree>, from: nat, kind: Kind)
    requires from <= |kids|
    ensures exists r: nat :: from <= r <= |kids| && (r < |kids| ==> kids[r].kind == kind)
                             && forall k :: from <= k < r ==> kids[k].kind != kind
  {
    var r := from;
    while r < |kids| && kids[r].kind != kind
      invariant from <= r <= |kids| && forall k :: from <= k < r ==> kids[k].kind != kind
    {
      r := r + 1;
    }
  }

  /** The answer of look_ahead_index: a position, or -1 (also when `from` lies behind the children). */
  ghost function Look(kids: seq<Tree>, from: nat, kind: Kind): int {
    if from <= |kids| && Find(kids, from, kind) < |kids| then Find(kids, from, kind) else -1
  }

  predicate HasKind(kids: seq<Tree>, kind: Kind) {
    exists k :: 0 <= k < |kids| && kids[k].kind == kind
  }

  /** Some tree below `t` (not t itself) has the kind. */
  predicate Below(t: Tree, kind: Kind) {
    exists k :: 0 <= k < |t.children| && (t.children[k].kind == kind || Below(t.children[k], kind))
  }

  /**
    Only steers the verifier: a definition of the form "for all k with Inspect(k)" stays one fact until Inspect is
    mentioned.
   */
  ghost predicate Inspect(k: int) {
    true
  }
}
