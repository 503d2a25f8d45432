/** Round-robin placement of the pieces of one segment over the ordered storage-node pool.
    Upload and repair both walk a cursor over the pool that starts at the first node for
    every segment, moves one node per piece and wraps back to the first node at the end. */
module Placement {
  import opened Ids
  import opened Seqs

  /** The position the cursor reaches for piece `i` in a pool of `n` nodes: one node per
      piece from the first, back to the first after the last. */
  function Slot(i: nat, n: nat): (s: nat)
    requires n > 0
    ensures s < n
    ensures i < n ==> s == i
    decreases i
  {
    if i < n then i else Slot(i - n, n)
  }

  /** The wrapped position is the remainder of the piece index by the pool size. */
  lemma {:induction false} SlotIsMod(i: nat, n: nat)
    requires n > 0
    ensures Slot(i, n) == i % n
    decreases i
  {
    if i < n {
      DivModUnique(i, n, 0, i);
    } else {
      SlotIsMod(i - n, n);
      DivModUnique(i, n, (i - n) / n + 1, (i - n) % n);
    }
  }

  /** Advancing the cursor and wrapping at the end moves it from the position of piece `i`
      to that of piece `i + 1`. */
  lemma {:induction false} SlotNext(i: nat, n: nat)
    requires n > 0
    ensures Slot(i + 1, n) == if Slot(i, n) + 1 == n then 0 else Slot(i, n) + 1
    decreases i
  {
    if i + 1 > n {
      SlotNext(i - n, n);
    }
  }

  /** The placement rule: piece `i` goes to the node at the wrapped position of `i`. While
      pieces do not outnumber nodes the placement is the pool's own prefix, so a pool
      without repeated nodes gives no two pieces of the segment the same node. */
  function RoundRobin(count: nat, pool: seq<Uuid>): (placed: seq<Uuid>)
    requires count == 0 || |pool| > 0
    ensures count <= |pool| ==> placed == pool[..count]
    ensures Distinct(pool) && count <= |pool| ==> Distinct(placed)
  {
    seq(count, i requires 0 <= i < count => pool[Slot(i, |pool|)])
  }

  /** The cursor walk of upload and repair, for a segment of `count` pieces. The cursor is
      dereferenced only while pieces remain, so an empty pool is harmless when there are
      no pieces. */
  method PlaceSegment(count: nat, pool: seq<Uuid>) returns (placed: seq<Uuid>)
    requires count == 0 || |pool| > 0
    ensures |placed| == count
    ensures forall i :: 0 <= i < count ==> placed[i] == pool[Slot(i, |pool|)]
  {
    placed := [];
    var cursor := 0;
    var i := 0;
    while i < count
      invariant 0 <= i <= count
      invariant |placed| == i
      invariant forall j :: 0 <= j < i ==> placed[j] == pool[Slot(j, |pool|)]
      invariant count > 0 ==> cursor == Slot(i, |pool|)
    {
      var next := cursor + 1;
      if next == |pool| {
        next := 0;
      }
      SlotNext(i, |pool|);
      assert next == Slot(i + 1, |pool|);
      placed := placed + [pool[cursor]];
      cursor := next;
      i := i + 1;
    }
  }

  /** Quotient and remainder are determined by any decomposition `x == q * n + r` with
      `0 <= r < n`. */
  lemma DivModUnique(x: int, n: int, q: int, r: int)
    requires n > 0 && 0 <= r < n && x == q * n + r
    ensures x % n == r && x / n == q
  {
    var q0, r0 := x / n, x % n;
    assert x == q0 * n + r0;
    assert (q - q0) * n == r0 - r;
    if q > q0 {
      MulAtLeast(q - q0, n);
    } else if q < q0 {
      MulAtLeast(q0 - q, n);
    }
  }

  lemma MulAtLeast(d: int, n: int)
    requires d >= 1 && n > 0
    ensures d * n >= n
  {
  }

  /** When pieces outnumber nodes the placement repeats with the period of the pool: the
      piece one pool length after piece `i` lands on the same node. */
  lemma RoundRobinWraps(count: nat, pool: seq<Uuid>, i: nat)
    requires 0 < |pool| && i + |pool| < count
    ensures RoundRobin(count, pool)[i + |pool|] == RoundRobin(count, pool)[i]
  {
  }
}
