/** advance, advance_all, TreeWalkPrinter and print_postbuf, with the output and the shared cursor as state. */
module Printer {
  import opened Sequences
  import opened Trees
  import opened Nodes
  import opened Leaves
  import opened TablePasses
  import opened ColumnWorker
  import opened PrintTrace

  /** The texts of the collected statements, one after the other. */
  function Rendered(render: Statement -> string, sts: seq<Statement>): string {
    if sts == [] then "" else render(sts[0]) + Rendered(render, sts[1..])
  }

  /** One statement alone is its own text. */
  lemma RenderedOne(render: Statement -> string, st: Statement)
    ensures Rendered(render, [st]) == render(st)
  {
    var none := [st][1..];
    assert none == [] && render(st) + "" == render(st);
  }

  /** The text of two lists is that of the first, then that of the second: each statement once, in order. */
  lemma {:induction false} RenderedConcat(render: Statement -> string, a: seq<Statement>, b: seq<Statement>)
    ensures Rendered(render, a + b) == Rendered(render, a) + Rendered(render, b)
    decreases |a|
  {
    if a == [] {
      assert a + b == b;
    } else {
      assert (a + b)[1..] == a[1..] + b;
      RenderedConcat(render, a[1..], b);
    }
  }

  /** So statement i stands between the texts of those before it and those behind it. */
  lemma RenderedAt(render: Statement -> string, sts: seq<Statement>, i: nat)
    requires i < |sts|
    ensures Rendered(render, sts) == Rendered(render, sts[..i]) + render(sts[i]) + Rendered(render, sts[i + 1..])
  {
    SplitAt(sts, i);
    HeadTail(sts, i);
    RenderedAround(render, sts[..i], sts[i], sts[i + 1..]);
  }

  lemma RenderedAround(render: Statement -> string, a: seq<Statement>, st: Statement, b: seq<Statement>)
    ensures Rendered(render, a + ([st] + b)) == Rendered(render, a) + render(st) + Rendered(render, b)
  {
    RenderedConcat(render, a, [st] + b);
    RenderedConcat(render, [st], b);
    RenderedOne(render, st);
    Associate(Rendered(render, a), render(st), Rendered(render, b));
  }

  class Output {
    const tokens: seq<Token>
    var output: string
    var tokenIndex: nat

    constructor (tokens: seq<Token>)
      ensures this.tokens == tokens && output == "" && tokenIndex == 0
    {
      this.tokens, output, tokenIndex := tokens, "", 0;
    }

    ghost predicate Valid()
      reads this
    {
      tokenIndex <= |tokens|
    }

    /** What has been printed since `before`, and where the cursor has gone. */
    ghost predicate Has(before: string, pieces: seq<Piece>, cursor: nat)
      reads this
    {
      Valid() && output == before + Text(tokens, pieces) && tokenIndex == cursor
    }

    lemma OneMoreBlank(before: string, from: nat, at: nat)
      requires from <= at < |tokens|
      ensures before + Text(tokens, Blanks(tokens, from, at + 1))
              == before + Text(tokens, Blanks(tokens, from, at)) + if tokens[at].hidden then tokens[at].text else ""
    {
      BlanksConcat(tokens, from, at, at + 1);
      TextConcat(tokens, Blanks(tokens, from, at), Blanks(tokens, at, at + 1));
      if tokens[at].hidden {
        var none := [Blank(at)][1..];
        assert Blanks(tokens, at, at + 1) == [Blank(at)] && Text(tokens, none) == "";
        assert Text(tokens, [Blank(at)]) == tokens[at].text;
      }
    }

    /** `advance`: the hidden tokens in front of a leaf, then its text. */
    method Advance(child: Node)
      requires Valid() && child.Valid() && child.model.children == []
      modifies this
      ensures Has(old(output), Trace(tokens, old(tokenIndex), [child.model]),
              CursorAfter(tokens, old(tokenIndex), [child.model]))
    {
      child.Top();
      ghost var before, from := output, tokenIndex;
      assert Text(tokens, Blanks(tokens, from, from)) == "";
      while tokenIndex < |tokens|
        invariant from <= tokenIndex <= |tokens|
        invariant Reach(tokens, tokenIndex, child.line, child.col) == Reach(tokens, from, child.line, child.col)
        invariant output == before + Text(tokens, Blanks(tokens, from, tokenIndex))
        decreases |tokens| - tokenIndex
      {
        var token := tokens[tokenIndex];
        OneMoreBlank(before, from, tokenIndex);
        if token.hidden {
          if Early(token, child.line, child.col) {
            output := output + token.text;
          } else {
            break;
          }
        }
        tokenIndex := tokenIndex + 1;
      }
      output := output + child.text;
      LeafAfterBlanks(before, from, tokenIndex, child.model);
    }

    lemma LeafAfterBlanks(before: string, from: nat, at: nat, leaf: Tree)
      requires from <= |tokens| && at == Reach(tokens, from, leaf.line, leaf.col)
      ensures CursorAfter(tokens, from, [leaf]) == at
      ensures before + Text(tokens, Trace(tokens, from, [leaf]))
              == before + Text(tokens, Blanks(tokens, from, at)) + leaf.text
    {
      var one, none, shown, nothing := [leaf], [leaf][1..], [Shown(leaf)], [Shown(leaf)][1..];
      assert none == [] && nothing == [];
      assert Trace(tokens, at, none) == [] && CursorAfter(tokens, at, none) == at;
      assert Trace(tokens, from, one) == Blanks(tokens, from, at) + (shown + []) && shown + [] == shown;
      TextConcat(tokens, Blanks(tokens, from, at), shown);
      assert Text(tokens, nothing) == "" && Text(tokens, shown) == leaf.text;
    }

    /** `advance_all`: the hidden tokens that are left. */
    method AdvanceAll()
      requires Valid()
      modifies this
      ensures Has(old(output), Blanks(tokens, old(tokenIndex), |tokens|), |tokens|)
    {
      ghost var before, from := output, tokenIndex;
      assert Text(tokens, Blanks(tokens, from, from)) == "";
      while tokenIndex < |tokens|
        invariant from <= tokenIndex <= |tokens|
        invariant output == before + Text(tokens, Blanks(tokens, from, tokenIndex))
        decreases |tokens| - tokenIndex
      {
        var token := tokens[tokenIndex];
        OneMoreBlank(before, from, tokenIndex);
        if token.hidden {
          output := output + token.text;
        }
        tokenIndex := tokenIndex + 1;
      }
    }

    lemma OneMoreChild(kids: seq<Tree>, c: nat, before: string, from: nat)
      requires c < |kids| && from <= |tokens|
      ensures Frontier(kids[..c + 1]) == Frontier(kids[..c]) + LeavesOf(kids[c])
      ensures var now, more := Frontier(kids[..c]), LeavesOf(kids[c]);
              var mid := CursorAfter(tokens, from, now);
              && CursorAfter(tokens, from, now + more) == CursorAfter(tokens, mid, more)
              && before + Text(tokens, Trace(tokens, from, now + more))
                 == before + Text(tokens, Trace(tokens, from, now)) + Text(tokens, Trace(tokens, mid, more))
    {
      var now, more := Frontier(kids[..c]), LeavesOf(kids[c]);
      assert kids[..c + 1] == kids[..c] + [kids[c]];
      FrontierConcat(kids[..c], [kids[c]]);
      var none := [kids[c]][1..];
      assert none == [] && Frontier([kids[c]]) == more + Frontier(none) == more;
      TraceConcat(tokens, from, now, more);
      TextConcat(tokens, Trace(tokens, from, now), Trace(tokens, CursorAfter(tokens, from, now), more));
    }

    /** One round of TreeWalkPrinter. */
    method PrintChild(child: Node)
      requires Valid() && child.Valid()
      modifies this
      ensures Has(old(output), Trace(tokens, old(tokenIndex), LeavesOf(child.model)),
              CursorAfter(tokens, old(tokenIndex), LeavesOf(child.model)))
      decreases child.model, 1
    {
      child.Top();
      if |child.children| > 0 {
        TreeWalkPrinter(child);
      } else {
        assert child.model.children == [];
        if child.kind != Eof {
          Advance(child);
        } else {
          assert output == output + "";
        }
      }
    }

    /** TreeWalkPrinter: the leaves below a node, from left to right, each with the hidden tokens in front of it. */
    method TreeWalkPrinter(p: Node)
      requires Valid() && p.Valid()
      modifies this
      ensures Has(old(output), Trace(tokens, old(tokenIndex), Frontier(p.model.children)),
                  CursorAfter(tokens, old(tokenIndex), Frontier(p.model.children)))
      decreases p.model, 0
    {
      ghost var before, from, kids := output, tokenIndex, p.model.children;
      p.Top();
      assert kids[..0] == [] && output == output + "";
      for c := 0 to |p.children|
        invariant p.Valid() && |p.children| == |kids|
        invariant Has(before, Trace(tokens, from, Frontier(kids[..c])), CursorAfter(tokens, from, Frontier(kids[..c])))
      {
        p.Child(c);
        OneMoreChild(kids, c, before, from);
        PrintChild(p.children[c]);
      }
      assert kids[..|p.children|] == kids;
    }

    /** print_postbuf: a line break and the statements, if there are any; then there are none. */
    method PrintPostbuf(ws: WalkerState, render: Statement -> string)
      requires Valid()
      modifies this`output, ws`postbuf
      ensures output == old(output) + if old(ws.postbuf) == [] then "" else "\n" + Rendered(render, old(ws.postbuf))
      ensures ws.postbuf == []
    {
      if |ws.postbuf| > 0 {
        output := output + "\n" + Rendered(render, ws.postbuf);
        ws.postbuf := [];
      }
    }
  }
}
