/** The printed text: an interleaving of leaves and hidden tokens, and exactly when it is the original text. */
module PrintLaws {
  import opened Trees
  import opened PrintTrace

  // ---------- every tree, any positions: an interleaving ----------

  ghost function LeavesIn(pieces: seq<Piece>): seq<Tree> {
    if pieces == [] then []
    else if pieces[0].Shown? then [pieces[0].leaf] + LeavesIn(pieces[1..])
    else LeavesIn(pieces[1..])
  }

  ghost function BlanksIn(pieces: seq<Piece>): seq<nat> {
    if pieces == [] then []
    else if pieces[0].Blank? then [pieces[0].index] + BlanksIn(pieces[1..])
    else BlanksIn(pieces[1..])
  }

  /** The numbers of the hidden tokens, ascending. */
  ghost function HiddenFrom(tokens: seq<Token>, from: nat): seq<nat>
    requires from <= |tokens|
    decreases |tokens| - from
  {
    if from == |tokens| then []
    else if tokens[from].hidden then [from] + HiddenFrom(tokens, from + 1)
    else HiddenFrom(tokens, from + 1)
  }

  ghost predicate Ascending(r: seq<nat>) {
    forall i, j :: 0 <= i < j < |r| ==> r[i] < r[j]
  }

  lemma {:induction false} HiddenFromIs(tokens: seq<Token>, from: nat)
    requires from <= |tokens|
    ensures forall k :: k in HiddenFrom(tokens, from) <==> from <= k < |tokens| && tokens[k].hidden
    decreases |tokens| - from
  {
    if from < |tokens| {
      HiddenFromIs(tokens, from + 1);
      forall k ensures k in HiddenFrom(tokens, from) <==> from <= k < |tokens| && tokens[k].hidden {
        assert k in HiddenFrom(tokens, from)
               <==> (k == from && tokens[from].hidden) || k in HiddenFrom(tokens, from + 1);
      }
    }
  }

  lemma AscendingCons(k: nat, rest: seq<nat>)
    requires Ascending(rest) && forall i :: i in rest ==> k < i
    ensures Ascending([k] + rest)
  {
    assert forall j :: 0 <= j < |rest| ==> rest[j] in rest;
  }

  lemma {:induction false} HiddenAscending(tokens: seq<Token>, from: nat)
    requires from <= |tokens|
    ensures Ascending(HiddenFrom(tokens, from))
    decreases |tokens| - from
  {
    if from < |tokens| {
      HiddenAscending(tokens, from + 1);
      HiddenFromIs(tokens, from + 1);
      if tokens[from].hidden {
        AscendingCons(from, HiddenFrom(tokens, from + 1));
      }
    }
  }

  lemma {:induction false} InConcat(a: seq<Piece>, b: seq<Piece>)
    ensures LeavesIn(a + b) == LeavesIn(a) + LeavesIn(b) && BlanksIn(a + b) == BlanksIn(a) + BlanksIn(b)
    decreases |a|
  {
    if a == [] {
      assert a + b == b;
    } else {
      assert (a + b)[1..] == a[1..] + b;
      InConcat(a[1..], b);
    }
  }

  lemma {:induction false} InBlanks(tokens: seq<Token>, from: nat, upTo: nat)
    requires from <= upTo <= |tokens|
    ensures LeavesIn(Blanks(tokens, from, upTo)) == []
    ensures BlanksIn(Blanks(tokens, from, upTo)) + HiddenFrom(tokens, upTo) == HiddenFrom(tokens, from)
    decreases upTo - from
  {
    if from < upTo {
      InBlanks(tokens, from + 1, upTo);
      if tokens[from].hidden {
        BlankFirst(from, Blanks(tokens, from + 1, upTo), HiddenFrom(tokens, upTo));
      }
    } else {
      assert [] + HiddenFrom(tokens, from) == HiddenFrom(tokens, from);
    }
  }

  lemma BlankFirst(k: nat, rest: seq<Piece>, later: seq<nat>)
    ensures BlanksIn([Blank(k)] + rest) + later == [k] + (BlanksIn(rest) + later)
    ensures LeavesIn([Blank(k)] + rest) == LeavesIn(rest)
  {
    assert ([Blank(k)] + rest)[1..] == rest;
  }

  lemma {:induction false} InTrace(tokens: seq<Token>, from: nat, leaves: seq<Tree>)
    requires from <= |tokens|
    ensures LeavesIn(Trace(tokens, from, leaves)) == leaves
    ensures BlanksIn(Trace(tokens, from, leaves)) + HiddenFrom(tokens, CursorAfter(tokens, from, leaves))
            == HiddenFrom(tokens, from)
    decreases |leaves|
  {
    if leaves != [] {
      var r := Reach(tokens, from, leaves[0].line, leaves[0].col);
      var rest := Trace(tokens, r, leaves[1..]);
      InTrace(tokens, r, leaves[1..]);
      InBlanks(tokens, from, r);
      InConcat(Blanks(tokens, from, r), [Shown(leaves[0])] + rest);
      assert ([Shown(leaves[0])] + rest)[1..] == rest;
    }
  }

  /** Every leaf and every hidden token is printed exactly once, leaves and hidden tokens each in their order. */
  lemma PrintedIsInterleaving(tokens: seq<Token>, leaves: seq<Tree>)
    ensures LeavesIn(Printed(tokens, 0, leaves)) == leaves
    ensures BlanksIn(Printed(tokens, 0, leaves)) == HiddenFrom(tokens, 0)
    ensures |Printed(tokens, 0, leaves)| == |leaves| + |HiddenFrom(tokens, 0)|
  {
    var end := CursorAfter(tokens, 0, leaves);
    InTrace(tokens, 0, leaves);
    InBlanks(tokens, end, |tokens|);
    InConcat(Trace(tokens, 0, leaves), Blanks(tokens, end, |tokens|));
    InCount(Printed(tokens, 0, leaves));
  }

  lemma {:induction false} InCount(pieces: seq<Piece>)
    ensures |pieces| == |LeavesIn(pieces)| + |BlanksIn(pieces)|
  {
    if pieces != [] {
      InCount(pieces[1..]);
    }
  }

  // ---------- an unchanged tree: the original text ----------

  ghost predicate Before(a: Token, b: Token) {
    a.line < b.line || (a.line == b.line && a.col < b.col)
  }

  /** The lexer's stream runs from left to right and from top to bottom. */
  ghost predicate InOrder(tokens: seq<Token>) {
    forall i, j :: 0 <= i < j < |tokens| ==> Before(tokens[i], tokens[j])
  }

  ghost predicate IsLeafOf(leaf: Tree, tok: Token) {
    leaf.text == tok.text && leaf.line == tok.line && leaf.col == tok.col
  }

  /** The leaves are exactly the visible tokens from `from` on. */
  ghost predicate Matches(leaves: seq<Tree>, tokens: seq<Token>, from: nat)
    requires from <= |tokens|
    decreases |tokens| - from
  {
    if from == |tokens| then leaves == []
    else if tokens[from].hidden then Matches(leaves, tokens, from + 1)
    else leaves != [] && IsLeafOf(leaves[0], tokens[from]) && Matches(leaves[1..], tokens, from + 1)
  }

  /** The pieces in the order of the stream. */
  ghost function Stream(tokens: seq<Token>, from: nat, leaves: seq<Tree>): seq<Piece>
    requires from <= |tokens| && Matches(leaves, tokens, from)
    decreases |tokens| - from
  {
    if from == |tokens| then []
    else if tokens[from].hidden then [Blank(from)] + Stream(tokens, from + 1, leaves)
    else [Shown(leaves[0])] + Stream(tokens, from + 1, leaves[1..])
  }

  ghost function Source(tokens: seq<Token>, from: nat): string
    requires from <= |tokens|
    decreases |tokens| - from
  {
    if from == |tokens| then "" else tokens[from].text + Source(tokens, from + 1)
  }

  lemma {:induction false} StreamIsSource(tokens: seq<Token>, from: nat, leaves: seq<Tree>)
    requires from <= |tokens| && Matches(leaves, tokens, from)
    ensures Text(tokens, Stream(tokens, from, leaves)) == Source(tokens, from)
    decreases |tokens| - from
  {
    if from < |tokens| {
      if tokens[from].hidden {
        var rest := Stream(tokens, from + 1, leaves);
        StreamIsSource(tokens, from + 1, leaves);
        assert ([Blank(from)] + rest)[1..] == rest;
      } else {
        var rest := Stream(tokens, from + 1, leaves[1..]);
        StreamIsSource(tokens, from + 1, leaves[1..]);
        assert ([Shown(leaves[0])] + rest)[1..] == rest;
      }
    }
  }

  /** b is the next hidden token behind the visible token a. */
  ghost predicate NextHidden(tokens: seq<Token>, a: int, b: int) {
    0 <= a < b < |tokens| && !tokens[a].hidden && tokens[b].hidden && forall k :: a < k < b ==> !tokens[k].hidden
  }

  ghost predicate ClearAt(tokens: seq<Token>, a: int) {
    forall b :: NextHidden(tokens, a, b) ==> tokens[a].col < tokens[b].col
  }

  /** Behind every visible token the next hidden one stands in a later column. */
  ghost predicate Clear(tokens: seq<Token>, from: nat) {
    forall a :: from <= a < |tokens| ==> ClearAt(tokens, a)
  }

  lemma {:induction false} ReachSkips(tokens: seq<Token>, from: nat, upTo: nat, line: int, col: int)
    requires from <= upTo <= |tokens|
    requires forall k :: from <= k < upTo && tokens[k].hidden ==> Early(tokens[k], line, col)
    ensures Reach(tokens, from, line, col) == Reach(tokens, upTo, line, col)
    decreases upTo - from
  {
    if from < upTo {
      ReachSkips(tokens, from + 1, upTo, line, col);
    }
  }

  lemma {:induction false} NoBlanks(tokens: seq<Token>, from: nat, upTo: nat)
    requires from <= upTo <= |tokens| && forall k :: from <= k < upTo ==> !tokens[k].hidden
    ensures Blanks(tokens, from, upTo) == []
    decreases upTo - from
  {
    if from < upTo {
      NoBlanks(tokens, from + 1, upTo);
    }
  }

  lemma BlanksSkip(tokens: seq<Token>, from: nat, mid: nat, upTo: nat)
    requires from <= mid <= upTo <= |tokens| && forall k :: from <= k < mid ==> !tokens[k].hidden
    ensures Blanks(tokens, from, upTo) == Blanks(tokens, mid, upTo)
  {
    NoBlanks(tokens, from, mid);
    BlanksConcat(tokens, from, mid, upTo);
    assert [] + Blanks(tokens, mid, upTo) == Blanks(tokens, mid, upTo);
  }

  /** Visible tokens do not hold the cursor up. */
  lemma PrintedSkips(tokens: seq<Token>, from: nat, upTo: nat, leaves: seq<Tree>)
    requires from <= upTo <= |tokens| && forall k :: from <= k < upTo ==> !tokens[k].hidden
    ensures Printed(tokens, from, leaves) == Printed(tokens, upTo, leaves)
  {
    if leaves == [] {
      BlanksSkip(tokens, from, upTo, |tokens|);
    } else {
      ReachSkips(tokens, from, upTo, leaves[0].line, leaves[0].col);
      BlanksSkip(tokens, from, upTo, Reach(tokens, upTo, leaves[0].line, leaves[0].col));
      assert Trace(tokens, from, leaves) == Trace(tokens, upTo, leaves);
      assert CursorAfter(tokens, from, leaves) == CursorAfter(tokens, upTo, leaves);
    }
  }

  lemma {:induction false} FirstLeafIsLater(leaves: seq<Tree>, tokens: seq<Token>, from: nat)
    requires from <= |tokens| && Matches(leaves, tokens, from) && leaves != []
    ensures exists v :: from <= v < |tokens| && IsLeafOf(leaves[0], tokens[v])
    decreases |tokens| - from
  {
    if from < |tokens| && tokens[from].hidden {
      FirstLeafIsLater(leaves, tokens, from + 1);
    }
  }

  /** A hidden token comes out before the leaves behind it. */
  lemma HiddenFirst(tokens: seq<Token>, from: nat, leaves: seq<Tree>)
    requires InOrder(tokens) && from < |tokens| && tokens[from].hidden && Matches(leaves, tokens, from)
    ensures Printed(tokens, from, leaves) == [Blank(from)] + Printed(tokens, from + 1, leaves)
  {
    if leaves != [] {
      FirstLeafIsLater(leaves, tokens, from + 1);
      var line, col := leaves[0].line, leaves[0].col;
      assert Early(tokens[from], line, col);
      var r := Reach(tokens, from + 1, line, col);
      assert Reach(tokens, from, line, col) == r;
      var rest := [Shown(leaves[0])] + Trace(tokens, r, leaves[1..]);
      assert Blanks(tokens, from, r) + rest == [Blank(from)] + (Blanks(tokens, from + 1, r) + rest);
    }
  }

  /** The next hidden token is early for a visible one exactly if it does not stand in a later column. */
  lemma ReachNext(tokens: seq<Token>, a: nat, r: nat)
    requires InOrder(tokens) && a < |tokens| && !tokens[a].hidden
             && r == Reach(tokens, a, tokens[a].line, tokens[a].col)
    ensures a < r
    ensures ClearAt(tokens, a) <==> forall k :: a <= k < r ==> !tokens[k].hidden
  {
    if k :| a <= k < r && tokens[k].hidden {
      var b := NextHiddenAt(tokens, a, k);
      assert Early(tokens[b], tokens[a].line, tokens[a].col) && Before(tokens[a], tokens[b]);
    } else {
      assert forall b :: NextHidden(tokens, a, b) ==> b == r;
    }
  }

  /** A leaf comes out at once exactly when its token is clear of the next hidden one. */
  lemma LeafFirst(tokens: seq<Token>, from: nat, leaves: seq<Tree>)
    requires InOrder(tokens) && from < |tokens| && !tokens[from].hidden && Matches(leaves, tokens, from)
             && ClearAt(tokens, from)
    ensures Printed(tokens, from, leaves) == [Shown(leaves[0])] + Printed(tokens, from + 1, leaves[1..])
  {
    var r := Reach(tokens, from, leaves[0].line, leaves[0].col);
    var rest := Trace(tokens, r, leaves[1..]);
    ReachNext(tokens, from, r);
    NoBlanks(tokens, from, r);
    PrintedSkips(tokens, from + 1, r, leaves[1..]);
    var blanks := Blanks(tokens, CursorAfter(tokens, r, leaves[1..]), |tokens|);
    assert [] + ([Shown(leaves[0])] + rest) + blanks == [Shown(leaves[0])] + (rest + blanks);
  }

  lemma LeafNotFirst(tokens: seq<Token>, from: nat, leaves: seq<Tree>)
    requires InOrder(tokens) && from < |tokens| && !tokens[from].hidden && Matches(leaves, tokens, from)
             && !ClearAt(tokens, from)
    ensures Printed(tokens, from, leaves) != [] && Printed(tokens, from, leaves)[0] != Shown(leaves[0])
  {
    var r := Reach(tokens, from, leaves[0].line, leaves[0].col);
    ReachNext(tokens, from, r);
    var k :| from <= k < r && tokens[k].hidden;
    SomeBlank(tokens, from, r, k);
  }

  lemma {:induction false} SomeBlank(tokens: seq<Token>, from: nat, upTo: nat, k: nat)
    requires from <= k < upTo <= |tokens| && tokens[k].hidden
    ensures Blanks(tokens, from, upTo) != [] && Blanks(tokens, from, upTo)[0].Blank?
    decreases upTo - from
  {
    if !tokens[from].hidden {
      SomeBlank(tokens, from + 1, upTo, k);
    }
  }

  lemma NextHiddenAt(tokens: seq<Token>, a: nat, k: nat) returns (b: nat)
    requires a < k < |tokens| && !tokens[a].hidden && tokens[k].hidden
    ensures NextHidden(tokens, a, b) && b <= k
  {
    b := a + 1;
    while !tokens[b].hidden
      invariant a < b <= k && forall j :: a < j < b ==> !tokens[j].hidden
      decreases k - b
    {
      b := b + 1;
    }
  }

  lemma {:induction false} InStreamOrderIff(tokens: seq<Token>, from: nat, leaves: seq<Tree>)
    requires InOrder(tokens) && from <= |tokens| && Matches(leaves, tokens, from)
    ensures Printed(tokens, from, leaves) == Stream(tokens, from, leaves) <==> Clear(tokens, from)
    decreases |tokens| - from
  {
    if from < |tokens| {
      assert Clear(tokens, from) <==> ClearAt(tokens, from) && Clear(tokens, from + 1);
      if tokens[from].hidden {
        HiddenFirst(tokens, from, leaves);
        InStreamOrderIff(tokens, from + 1, leaves);
        SameHead(Blank(from), Printed(tokens, from + 1, leaves), Stream(tokens, from + 1, leaves));
      } else if ClearAt(tokens, from) {
        LeafFirst(tokens, from, leaves);
        InStreamOrderIff(tokens, from + 1, leaves[1..]);
        SameHead(Shown(leaves[0]), Printed(tokens, from + 1, leaves[1..]), Stream(tokens, from + 1, leaves[1..]));
      } else {
        LeafNotFirst(tokens, from, leaves);
      }
    }
  }

  lemma SameHead(p: Piece, a: seq<Piece>, b: seq<Piece>)
    ensures [p] + a == [p] + b <==> a == b
  {
    assert ([p] + a)[1..] == a && ([p] + b)[1..] == b;
  }

  /**
    Round trip: an unchanged tree prints its tokens in the order of the stream if and only if behind every
    visible token the next hidden one stands in a later column; the text is then the original text.
   */
  lemma RoundTripIff(tokens: seq<Token>, leaves: seq<Tree>)
    requires InOrder(tokens) && Matches(leaves, tokens, 0)
    ensures Printed(tokens, 0, leaves) == Stream(tokens, 0, leaves) <==> Clear(tokens, 0)
    ensures Clear(tokens, 0) ==> Text(tokens, Printed(tokens, 0, leaves)) == Source(tokens, 0)
  {
    InStreamOrderIff(tokens, 0, leaves);
    StreamIsSource(tokens, 0, leaves);
  }

  // ---------- the text ----------

  /** Neither of the texts of a visible token and the next hidden one begins with the other. */
  ghost predicate TellsApart(tokens: seq<Token>) {
    forall a, b :: NextHidden(tokens, a, b) ==>
      !(tokens[a].text <= tokens[b].text) && !(tokens[b].text <= tokens[a].text)
  }

  lemma CancelPrefix(x: string, a: string, b: string)
    ensures x + a == x + b <==> a == b
  {
    assert (x + a)[|x|..] == a && (x + b)[|x|..] == b;
  }

  lemma SameBeginning(x: string, a: string, y: string, b: string)
    requires x + a == y + b
    ensures x <= y || y <= x
  {
    assert (x + a)[..|x|] == x && (y + b)[..|y|] == y;
    if |x| <= |y| {
      assert y[..|x|] == (y + b)[..|x|];
    } else {
      assert x[..|y|] == (x + a)[..|y|];
    }
  }

  lemma TextOfFirst(tokens: seq<Token>, p: Piece, rest: seq<Piece>)
    ensures Text(tokens, [p] + rest) == PieceText(tokens, p) + Text(tokens, rest)
  {
    assert ([p] + rest)[1..] == rest;
  }

  lemma FirstBlank(tokens: seq<Token>, from: nat, b: nat, upTo: nat)
    requires from <= b < upTo <= |tokens| && tokens[b].hidden && forall k :: from <= k < b ==> !tokens[k].hidden
    ensures Blanks(tokens, from, upTo) == [Blank(b)] + Blanks(tokens, b + 1, upTo)
  {
    BlanksSkip(tokens, from, b, upTo);
  }

  /** A token that is not clear of the next hidden one is overtaken by that one. */
  lemma NextHiddenOvertakes(tokens: seq<Token>, from: nat, leaves: seq<Tree>) returns (b: nat, rest: seq<Piece>)
    requires InOrder(tokens) && from < |tokens| && !tokens[from].hidden && Matches(leaves, tokens, from)
    requires !ClearAt(tokens, from)
    ensures NextHidden(tokens, from, b) && Printed(tokens, from, leaves) == [Blank(b)] + rest
  {
    var r := Reach(tokens, from, leaves[0].line, leaves[0].col);
    ReachNext(tokens, from, r);
    var k :| from <= k < r && tokens[k].hidden;
    b := NextHiddenAt(tokens, from, k);
    FirstBlank(tokens, from, b, r);
    var behind := [Shown(leaves[0])] + Trace(tokens, r, leaves[1..]);
    var end := Blanks(tokens, CursorAfter(tokens, from, leaves), |tokens|);
    rest := Blanks(tokens, b + 1, r) + behind + end;
    HeadOut(Blank(b), Blanks(tokens, b + 1, r), behind, end);
  }

  lemma HeadOut(p: Piece, a: seq<Piece>, b: seq<Piece>, c: seq<Piece>)
    ensures [p] + a + b + c == [p] + (a + b + c)
  {
  }

  lemma {:induction false} TextReturnsIff(tokens: seq<Token>, from: nat, leaves: seq<Tree>)
    requires InOrder(tokens) && TellsApart(tokens) && from <= |tokens| && Matches(leaves, tokens, from)
    ensures Text(tokens, Printed(tokens, from, leaves)) == Source(tokens, from) <==> Clear(tokens, from)
    decreases |tokens| - from
  {
    if from < |tokens| {
      var x, later := tokens[from].text, Source(tokens, from + 1);
      assert Clear(tokens, from) <==> ClearAt(tokens, from) && Clear(tokens, from + 1);
      if tokens[from].hidden {
        var rest := Printed(tokens, from + 1, leaves);
        HiddenFirst(tokens, from, leaves);
        TextReturnsIff(tokens, from + 1, leaves);
        TextOfFirst(tokens, Blank(from), rest);
        CancelPrefix(x, Text(tokens, rest), later);
      } else if ClearAt(tokens, from) {
        var rest := Printed(tokens, from + 1, leaves[1..]);
        LeafFirst(tokens, from, leaves);
        TextReturnsIff(tokens, from + 1, leaves[1..]);
        TextOfFirst(tokens, Shown(leaves[0]), rest);
        CancelPrefix(x, Text(tokens, rest), later);
      } else {
        var b, rest := NextHiddenOvertakes(tokens, from, leaves);
        TextOfFirst(tokens, Blank(b), rest);
        if tokens[b].text + Text(tokens, rest) == x + later {
          SameBeginning(tokens[b].text, Text(tokens, rest), x, later);
        }
      }
    }
  }

  /**
    Round trip of the text: where no visible token's text can be taken for the beginning of the next hidden one's,
    or the other way round, an unchanged tree prints the original text if and only if behind every visible token the
    next hidden one stands in a later column.
   */
  lemma TextRoundTripIff(tokens: seq<Token>, leaves: seq<Tree>)
    requires InOrder(tokens) && TellsApart(tokens) && Matches(leaves, tokens, 0)
    ensures Text(tokens, Printed(tokens, 0, leaves)) == Source(tokens, 0) <==> Clear(tokens, 0)
  {
    TextReturnsIff(tokens, 0, leaves);
  }

  // ---------- tokens that stay on their line ----------

  /** No visible token spans a line break: what follows it starts on its line. */
  ghost predicate StaysOnLine(tokens: seq<Token>) {
    forall k :: 0 <= k && k + 1 < |tokens| && !tokens[k].hidden ==> tokens[k].line == tokens[k + 1].line
  }

  lemma {:induction false} SameLine(tokens: seq<Token>, a: nat, b: nat)
    requires StaysOnLine(tokens) && a <= b < |tokens| && forall k :: a <= k < b ==> !tokens[k].hidden
    ensures tokens[a].line == tokens[b].line
    decreases b
  {
    if a < b {
      SameLine(tokens, a, b - 1);
      assert tokens[b - 1 + 1] == tokens[b];
    }
  }

  /**
    Round trip: when no visible token spans a line break, the token texts come out in the order of the stream,
    whatever their lengths (comments and white space may span lines).
   */
  lemma RoundTripOnLines(tokens: seq<Token>, leaves: seq<Tree>)
    requires InOrder(tokens) && Matches(leaves, tokens, 0) && StaysOnLine(tokens)
    ensures Printed(tokens, 0, leaves) == Stream(tokens, 0, leaves)
    ensures Text(tokens, Printed(tokens, 0, leaves)) == Source(tokens, 0)
  {
    forall a, b | 0 <= a < |tokens| && NextHidden(tokens, a, b) ensures tokens[a].col < tokens[b].col {
      SameLine(tokens, a, b);
      assert Before(tokens[a], tokens[b]);
    }
    RoundTripIff(tokens, leaves);
  }

  // ---------- an instance: tokens with the texts of the source ----------

  /** The place behind a text that starts at this one. */
  function EndOf(line: int, col: int, text: string): (int, int)
    decreases |text|
  {
    if text == [] then (line, col)
    else if text[0] == '\n' then EndOf(line + 1, 0, text[1..])
    else EndOf(line, col + 1, text[1..])
  }

  /** The lexer changed no text: each token starts where the text of the one before it ends. */
  ghost predicate Contiguous(tokens: seq<Token>) {
    && (forall i :: 0 <= i < |tokens| ==> tokens[i].text != [])
    && (forall i :: 0 <= i && i + 1 < |tokens| ==>
          EndOf(tokens[i].line, tokens[i].col, tokens[i].text) == (tokens[i + 1].line, tokens[i + 1].col))
  }

  lemma {:induction false} EndIsLater(line: int, col: int, text: string)
    ensures var e := EndOf(line, col, text); text == [] || line < e.0 || (line == e.0 && col < e.1)
    ensures '\n' !in text ==> EndOf(line, col, text) == (line, col + |text|)
    decreases |text|
  {
    if text != [] {
      if text[0] == '\n' { EndIsLater(line + 1, 0, text[1..]); } else { EndIsLater(line, col + 1, text[1..]); }
    }
  }

  lemma {:induction false} ContiguousBefore(tokens: seq<Token>, i: nat, j: nat)
    requires Contiguous(tokens) && i < j < |tokens|
    ensures Before(tokens[i], tokens[j])
    decreases j
  {
    EndIsLater(tokens[j - 1].line, tokens[j - 1].col, tokens[j - 1].text);
    if i < j - 1 {
      ContiguousBefore(tokens, i, j - 1);
    }
  }

  /** There, a visible text without a line break is all that is needed. */
  lemma ContiguousStaysOnLine(tokens: seq<Token>)
    requires Contiguous(tokens) && forall k :: 0 <= k < |tokens| && !tokens[k].hidden ==> '\n' !in tokens[k].text
    ensures InOrder(tokens) && StaysOnLine(tokens)
  {
    forall i, j | 0 <= i < j < |tokens| ensures Before(tokens[i], tokens[j]) {
      ContiguousBefore(tokens, i, j);
    }
    forall k | 0 <= k && k + 1 < |tokens| && !tokens[k].hidden ensures tokens[k].line == tokens[k + 1].line {
      EndIsLater(tokens[k].line, tokens[k].col, tokens[k].text);
    }
  }

  /** A visible token behind which the next hidden one stands in no later column: that one is printed first. */
  lemma HiddenOvertakes(a: Token, s: Token, b: Token, x: Tree, y: Tree)
    requires !a.hidden && !s.hidden && b.hidden && IsLeafOf(x, a) && IsLeafOf(y, s)
    requires !Early(b, a.line, a.col) && Early(b, s.line, s.col)
    ensures var tokens, leaves := [a, s, b], [x, y];
            && Matches(leaves, tokens, 0) && Source(tokens, 0) == a.text + s.text + b.text
            && Printed(tokens, 0, leaves) == [Shown(x), Blank(2), Shown(y)]
            && Text(tokens, Printed(tokens, 0, leaves)) == a.text + b.text + s.text
  {
    var tokens, leaves, last, none := [a, s, b], [x, y], [y], [x, y][2..];
    assert leaves[1..] == last && last[1..] == none;
    assert Matches(none, tokens, 3) && Matches(none, tokens, 2) && Matches(last, tokens, 1);
    assert Source(tokens, 3) == "" && Source(tokens, 2) == b.text && Source(tokens, 1) == s.text + b.text;
    assert Reach(tokens, 2, x.line, x.col) == 2 && Reach(tokens, 0, x.line, x.col) == 2;
    assert Reach(tokens, 2, y.line, y.col) == 3;
    NoBlanks(tokens, 0, 2);
    assert Blanks(tokens, 3, 3) == [] && Blanks(tokens, 2, 3) == [Blank(2)];
    assert Trace(tokens, 3, none) == [] && CursorAfter(tokens, 3, none) == 3;
    assert Trace(tokens, 2, last) == [Blank(2), Shown(y)] && CursorAfter(tokens, 2, last) == 3;
    assert Trace(tokens, 0, leaves) == [Shown(x), Blank(2), Shown(y)] && CursorAfter(tokens, 0, leaves) == 3;
    TextOfThree(tokens, Shown(x), Blank(2), Shown(y));
  }

  lemma TextOfThree(tokens: seq<Token>, p: Piece, q: Piece, r: Piece)
    ensures Text(tokens, [p, q, r]) == PieceText(tokens, p) + PieceText(tokens, q) + PieceText(tokens, r)
  {
    var all, two, one := [p, q, r], [q, r], [r];
    assert all[1..] == two && two[1..] == one && one[1..] == [];
    assert Text(tokens, one) == PieceText(tokens, r);
    assert Text(tokens, two) == PieceText(tokens, q) + Text(tokens, one);
  }

  /** So it is with a string over two lines: a'(newline)' and a blank come out as a, the blank, the string. */
  lemma LineBreakInToken(a: Token, s: Token, b: Token, x: Tree, y: Tree)
    requires a == Token(false, 1, 0, "a") && s == Token(false, 1, 1, "'\n'") && b == Token(true, 2, 1, " ")
    requires IsLeafOf(x, a) && IsLeafOf(y, s)
    ensures Contiguous([a, s, b]) && Matches([x, y], [a, s, b], 0)
    ensures Text([a, s, b], Printed([a, s, b], 0, [x, y])) == "a '\n'" != Source([a, s, b], 0) == "a'\n' "
  {
    HiddenOvertakes(a, s, b, x, y);
    EndIsLater(1, 0, a.text);
    assert s.text[1..] == "\n'" && "\n'"[1..] == "'" && "'"[1..] == "";
    assert EndOf(2, 0, "'") == (2, 1) && EndOf(1, 2, "\n'") == (2, 1) && EndOf(1, 1, s.text) == (2, 1);
    assert a.text + b.text + s.text == "a '\n'" && a.text + s.text + b.text == "a'\n' ";
    assert "a '\n'"[1] == ' ' && "a'\n' "[1] == '\'';
  }
}
