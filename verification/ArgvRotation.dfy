/** The block exchange of getopt.c: an in-place rotation of two adjacent blocks. */
module ArgvRotation {
  import opened Sequences

  /** The equally long blocks at x and y exchanged. */
  ghost function Swapped<T>(a: seq<T>, x: nat, y: nat, len: nat): seq<T>
    requires x + len <= y && y + len <= |a|
  {
    a[..x] + a[y..y + len] + a[x + len..y] + a[x..x + len] + a[y + len..]
  }

  method SwapBlocks<T>(a: array<T>, x: nat, y: nat, len: nat)
    requires x + len <= y && y + len <= a.Length
    modifies a
    ensures a[..] == Swapped(old(a[..]), x, y, len)
  {
    var i := 0;
    while i < len
      invariant 0 <= i <= len
      invariant forall k :: x <= k < x + i ==> a[k] == old(a[k + (y - x)])
      invariant forall k :: y <= k < y + i ==> a[k] == old(a[k - (y - x)])
      invariant forall k :: 0 <= k < a.Length && !(x <= k < x + i) && !(y <= k < y + i) ==> a[k] == old(a[k])
    {
      a[x + i], a[y + i] := a[y + i], a[x + i];
      i := i + 1;
    }
    SwappedIs(old(a[..]), a[..], x, y, len);
  }

  lemma SwappedAt<T>(a: seq<T>, x: nat, y: nat, len: nat, k: nat)
    requires x + len <= y && y + len <= |a| && k < |a|
    ensures |Swapped(a, x, y, len)| == |a|
    ensures Swapped(a, x, y, len)[k] ==
            if x <= k < x + len then a[k + (y - x)] else if y <= k < y + len then a[k - (y - x)] else a[k]
  {
  }

  lemma SwappedIs<T>(a: seq<T>, c: seq<T>, x: nat, y: nat, len: nat)
    requires x + len <= y && y + len <= |a| == |c|
    requires forall k :: x <= k < x + len ==> c[k] == a[k + (y - x)]
    requires forall k :: y <= k < y + len ==> c[k] == a[k - (y - x)]
    requires forall k :: 0 <= k < |a| && !(x <= k < x + len) && !(y <= k < y + len) ==> c[k] == a[k]
    ensures c == Swapped(a, x, y, len)
  {
    var s := Swapped(a, x, y, len);
    assert |s| == |c|;
    forall k | 0 <= k < |a| ensures c[k] == s[k] {
      SwappedAt(a, x, y, len, k);
    }
  }

  /** What the swap loop of `exchange` still owes: cur is `goal` outside [b, t), and its two blocks swapped inside. */
  ghost predicate Owes<T>(cur: seq<T>, goal: seq<T>, b: int, m: int, t: int) {
    && 0 <= b <= m <= t <= |cur| == |goal|
    && cur[..b] == goal[..b]
    && cur[m..t] + cur[b..m] == goal[b..t]
    && cur[t..] == goal[t..]
  }

  lemma OwesRotation<T>(p: seq<T>, x: seq<T>, y: seq<T>, w: seq<T>)
    ensures Owes(p + x + y + w, p + y + x + w, |p|, |p| + |x|, |p| + |x| + |y|)
  {
    var cur, goal := p + x + y + w, p + y + x + w;
    assert cur[..|p|] == p == goal[..|p|];
    assert cur[|p| + |x|..|p| + |x| + |y|] == y && cur[|p|..|p| + |x|] == x;
    assert goal[|p|..|p| + |x| + |y|] == y + x;
    assert cur[|p| + |x| + |y|..] == w == goal[|p| + |x| + |y|..];
  }

  lemma SwappedParts<T>(p: seq<T>, x: seq<T>, y: seq<T>, z: seq<T>, w: seq<T>)
    requires |x| == |z|
    ensures Swapped(p + x + y + z + w, |p|, |p| + |x| + |y|, |x|) == p + z + y + x + w
  {
    var a, i, j := p + x + y + z + w, |p|, |p| + |x| + |y|;
    assert a[..i] == p;
    assert a[j..j + |x|] == z;
    assert a[i + |x|..j] == y;
    assert a[i..i + |x|] == x;
    assert a[j + |x|..] == w;
  }

  lemma OwesParts<T>(cur: seq<T>, goal: seq<T>, b: int, m: int, t: int)
    requires Owes(cur, goal, b, m, t)
    ensures cur == cur[..b] + cur[b..m] + cur[m..t] + cur[t..]
    ensures goal == cur[..b] + cur[m..t] + cur[b..m] + cur[t..]
  {
    assert goal == goal[..b] + goal[b..t] + goal[t..];
    assert cur[..b] + (cur[m..t] + cur[b..m]) == cur[..b] + cur[m..t] + cur[b..m];
  }

  lemma SwapBottomParts<T>(p: seq<T>, x: seq<T>, y: seq<T>, z: seq<T>, w: seq<T>)
    requires |x| == |z|
    ensures Owes(Swapped(p + x + y + z + w, |p|, |p| + |x| + |y|, |x|), p + (y + z) + x + w,
                 |p|, |p| + |z|, |p| + |z| + |y|)
  {
    SwappedParts(p, x, y, z, w);
    assert p + z + y + x + w == p + z + y + (x + w);
    assert p + (y + z) + x + w == p + y + z + (x + w);
    OwesRotation(p, z, y, x + w);
  }

  lemma SwapTopParts<T>(p: seq<T>, x: seq<T>, y: seq<T>, z: seq<T>, w: seq<T>)
    requires |x| == |z|
    ensures Owes(Swapped(p + x + y + z + w, |p|, |p| + |x| + |y|, |x|), p + z + (x + y) + w,
                 |p| + |z|, |p| + |z| + |y|, |p| + |z| + |y| + |x|)
  {
    SwappedParts(p, x, y, z, w);
    assert p + z + (x + y) + w == p + z + x + y + w;
    OwesRotation(p + z, y, x, w);
  }

  lemma Regroup<T>(p: seq<T>, x: seq<T>, y: seq<T>, z: seq<T>, w: seq<T>)
    ensures p + x + (y + z) + w == p + x + y + z + w
    ensures p + (x + y) + z + w == p + x + y + z + w
  {
    Associate(p + x, y, z);
    Associate(p, x, y);
  }

  lemma SliceInTwo<T>(s: seq<T>, i: nat, j: nat, k: nat)
    requires i <= j <= k <= |s|
    ensures s[i..k] == s[i..j] + s[j..k]
  {
  }

  /** The bottom block x, the top block y + z with z as long as x. */
  lemma BottomShorter<T>(cur: seq<T>, goal: seq<T>, b: int, m: int, t: int)
    returns (p: seq<T>, x: seq<T>, y: seq<T>, z: seq<T>, w: seq<T>)
    requires Owes(cur, goal, b, m, t) && t - m > m - b
    ensures cur == p + x + y + z + w && goal == p + (y + z) + x + w
    ensures |p| == b && |x| == m - b == |z| && |y| == t - (m - b) - m
  {
    var l := m - b;
    p, x, y, z, w := cur[..b], cur[b..m], cur[m..t - l], cur[t - l..t], cur[t..];
    OwesParts(cur, goal, b, m, t);
    SliceInTwo(cur, m, t - l, t);
    Regroup(p, x, y, z, w);
  }

  /** The bottom block x + y, the top block z as long as x. */
  lemma TopShorter<T>(cur: seq<T>, goal: seq<T>, b: int, m: int, t: int)
    returns (p: seq<T>, x: seq<T>, y: seq<T>, z: seq<T>, w: seq<T>)
    requires Owes(cur, goal, b, m, t) && t - m <= m - b
    ensures cur == p + x + y + z + w && goal == p + z + (x + y) + w
    ensures |p| == b && |x| == t - m == |z| && |y| == m - (t - m) - b
  {
    var l := t - m;
    p, x, y, z, w := cur[..b], cur[b..b + l], cur[b + l..m], cur[m..t], cur[t..];
    OwesParts(cur, goal, b, m, t);
    SliceInTwo(cur, b, b + l, m);
    Regroup(p, x, y, z, w);
  }

  /** The bottom block is the shorter one: swapped with the far end of the top block it is home. */
  lemma SwapShortBottom<T>(cur: seq<T>, goal: seq<T>, b: int, m: int, t: int)
    requires Owes(cur, goal, b, m, t) && t - m > m - b
    ensures Owes(Swapped(cur, b, t - (m - b), m - b), goal, b, m, t - (m - b))
  {
    var p, x, y, z, w := BottomShorter(cur, goal, b, m, t);
    SwapBottomParts(p, x, y, z, w);
  }

  lemma SwapShortTop<T>(cur: seq<T>, goal: seq<T>, b: int, m: int, t: int)
    requires Owes(cur, goal, b, m, t) && t - m <= m - b
    ensures Owes(Swapped(cur, b, m, t - m), goal, b + (t - m), m, t)
  {
    var p, x, y, z, w := TopShorter(cur, goal, b, m, t);
    SwapTopParts(p, x, y, z, w);
  }

  lemma OwesNothing<T>(cur: seq<T>, goal: seq<T>, b: int, m: int, t: int)
    requires Owes(cur, goal, b, m, t) && (t == m || m == b)
    ensures cur == goal
  {
    assert cur[b..t] == goal[b..t];
    assert cur == cur[..b] + cur[b..t] + cur[t..];
    assert goal == goal[..b] + goal[b..t] + goal[t..];
  }

  method SwapBottom<T>(a: array<T>, ghost goal: seq<T>, b: int, m: int, t: int)
    requires Owes(a[..], goal, b, m, t) && t - m > m - b
    modifies a
    ensures Owes(a[..], goal, b, m, t - (m - b))
  {
    SwapShortBottom(a[..], goal, b, m, t);
    SwapBlocks(a, b, t - (m - b), m - b);
  }

  method SwapTop<T>(a: array<T>, ghost goal: seq<T>, b: int, m: int, t: int)
    requires Owes(a[..], goal, b, m, t) && t - m <= m - b
    modifies a
    ensures Owes(a[..], goal, b + (t - m), m, t)
  {
    SwapShortTop(a[..], goal, b, m, t);
    SwapBlocks(a, b, m, t - m);
  }

  /** The loop of `exchange`: the shorter block goes home, until one block is empty. */
  method SwapLoop<T>(a: array<T>, first: int, last: int, end: int, ghost goal: seq<T>)
    requires Owes(a[..], goal, first, last, end)
    modifies a
    ensures a[..] == goal
  {
    var bottom, middle, top := first, last, end;
    while top > middle && middle > bottom
      invariant Owes(a[..], goal, bottom, middle, top)
      decreases top - bottom
    {
      if top - middle > middle - bottom {
        var len := middle - bottom;
        SwapBottom(a, goal, bottom, middle, top);
        top := top - len;
      } else {
        var len := top - middle;
        SwapTop(a, goal, bottom, middle, top);
        bottom := bottom + len;
      }
    }
    OwesNothing(a[..], goal, bottom, middle, top);
  }

  /** `exchange` is exactly a rotation: the blocks x and y change places, p and w stay. */
  method ExchangeBlocks<T>(a: array<T>, first: int, last: int, end: int, ghost p: seq<T>, ghost x: seq<T>,
      ghost y: seq<T>, ghost w: seq<T>)
    requires a[..] == p + x + y + w
    requires first == |p| && last == |p| + |x| && end == |p| + |x| + |y|
    modifies a
    ensures a[..] == p + y + x + w
  {
    OwesRotation(p, x, y, w);
    SwapLoop(a, first, last, end, p + y + x + w);
  }
}
