/** What the printer emits: the leaves of the tree, with the hidden tokens put back between them. */
module PrintTrace {
  import opened Trees

  /** A token of the lexer's stream; hidden are white space and comments. */
  datatype Token = Token(hidden: bool, line: int, col: int, text: string)

  /** The test of `advance`: the token comes before a leaf at this place. */
  predicate Early(tok: Token, line: int, col: int) {
    tok.line < line || tok.col <= col
  }

  /** Where the cursor stops on the way to a leaf: at the first hidden token that is not early. */
  ghost function Reach(tokens: seq<Token>, from: nat, line: int, col: int): (r: nat)
    requires from <= |tokens|
    ensures from <= r <= |tokens|
    ensures forall k :: from <= k < r && tokens[k].hidden ==> Early(tokens[k], line, col)
    ensures r < |tokens| ==> tokens[r].hidden && !Early(tokens[r], line, col)
    decreases |tokens| - from
  {
    if from == |tokens| || (tokens[from].hidden && !Early(tokens[from], line, col)) then from
    else Reach(tokens, from + 1, line, col)
  }

  /** One thing printed: a leaf, or the hidden token of a number. */
  datatype Piece = Shown(leaf: Tree) | Blank(index: nat)

  ghost function Blanks(tokens: seq<Token>, from: nat, upTo: nat): seq<Piece>
    requires from <= upTo <= |tokens|
    decreases upTo - from
  {
    if from == upTo then []
    else if tokens[from].hidden then [Blank(from)] + Blanks(tokens, from + 1, upTo)
    else Blanks(tokens, from + 1, upTo)
  }

  ghost function Trace(tokens: seq<Token>, from: nat, leaves: seq<Tree>): seq<Piece>
    requires from <= |tokens|
    decreases |leaves|
  {
    if leaves == [] then []
    else
      var r := Reach(tokens, from, leaves[0].line, leaves[0].col);
      Blanks(tokens, from, r) + ([Shown(leaves[0])] + Trace(tokens, r, leaves[1..]))
  }

  /** Where the cursor stands behind these leaves; it never moves back. */
  ghost function CursorAfter(tokens: seq<Token>, from: nat, leaves: seq<Tree>): (r: nat)
    requires from <= |tokens|
    ensures from <= r <= |tokens|
    decreases |leaves|
  {
    if leaves == [] then from
    else CursorAfter(tokens, Reach(tokens, from, leaves[0].line, leaves[0].col), leaves[1..])
  }

  /** The tree printed, then advance_all. */
  ghost function Printed(tokens: seq<Token>, from: nat, leaves: seq<Tree>): seq<Piece>
    requires from <= |tokens|
  {
    Trace(tokens, from, leaves) + Blanks(tokens, CursorAfter(tokens, from, leaves), |tokens|)
  }

  ghost function PieceText(tokens: seq<Token>, p: Piece): string {
    match p
    case Shown(leaf) => leaf.text
    case Blank(i) => if i < |tokens| then tokens[i].text else ""
  }

  ghost function Text(tokens: seq<Token>, pieces: seq<Piece>): string {
    if pieces == [] then "" else PieceText(tokens, pieces[0]) + Text(tokens, pieces[1..])
  }

  lemma {:induction false} TextConcat(tokens: seq<Token>, a: seq<Piece>, b: seq<Piece>)
    ensures Text(tokens, a + b) == Text(tokens, a) + Text(tokens, b)
    decreases |a|
  {
    if a == [] {
      assert a + b == b;
    } else {
      assert (a + b)[1..] == a[1..] + b;
      TextConcat(tokens, a[1..], b);
    }
  }

  lemma {:induction false} BlanksConcat(tokens: seq<Token>, from: nat, mid: nat, upTo: nat)
    requires from <= mid <= upTo <= |tokens|
    ensures Blanks(tokens, from, upTo) == Blanks(tokens, from, mid) + Blanks(tokens, mid, upTo)
    decreases mid - from
  {
    if from < mid {
      BlanksConcat(tokens, from + 1, mid, upTo);
    }
  }

  lemma {:induction false} TraceConcat(tokens: seq<Token>, from: nat, a: seq<Tree>, b: seq<Tree>)
    requires from <= |tokens|
    ensures CursorAfter(tokens, from, a + b) == CursorAfter(tokens, CursorAfter(tokens, from, a), b)
    ensures Trace(tokens, from, a + b) == Trace(tokens, from, a) + Trace(tokens, CursorAfter(tokens, from, a), b)
    decreases |a|
  {
    if a == [] {
      assert a + b == b && [] + Trace(tokens, from, b) == Trace(tokens, from, b);
    } else {
      assert (a + b)[1..] == a[1..] + b;
      TraceConcat(tokens, Reach(tokens, from, a[0].line, a[0].col), a[1..], b);
    }
  }
}
