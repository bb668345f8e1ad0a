/** Facts about slices of sequences. */
module Sequences {
  lemma HeadTail<T>(s: seq<T>, k: nat)
    requires k < |s|
    ensures s[k..] == [s[k]] + s[k + 1..] && s[k..][0] == s[k] && s[k..][1..] == s[k + 1..]
  {
  }

  lemma Snoc<T>(s: seq<T>, k: nat)
    requires k < |s|
    ensures s[..k + 1] == s[..k] + [s[k]]
  {
  }

  lemma SplitAt<T>(s: seq<T>, k: nat)
    requires k <= |s|
    ensures s[..k] + s[k..] == s
  {
  }

  lemma Associate<T>(a: seq<T>, b: seq<T>, c: seq<T>)
    ensures a + (b + c) == a + b + c
  {
  }

  /** s without its element k, taken apart behind the element that moved up. */
  lemma BehindRemoved<T>(s: seq<T>, k: nat)
    requires k < |s|
    ensures var next := s[..k] + s[k + 1..];
            if k + 1 < |s| then next[..k + 1] == s[..k] + [s[k + 1]] && next[k + 1..] == s[k + 2..]
            else next == s[..k] && next[..|next|] == next && next[|next|..] == []
  {
  }

  /** A slice in two parts. */
  lemma Between<T>(s: seq<T>, from: nat, mid: nat)
    requires from <= mid <= |s|
    ensures s[from..] == s[from..mid] + s[mid..] && s[..from] + s[from..mid] == s[..mid]
  {
  }
}
