/** Row identifiers and the generator that hands out fresh ones. */
module Ids {

  /** A 128-bit identifier, kept only up to identity: the model compares ids and nothing else. */
  type Uuid = nat

  /** The all-zero identifier that a default-constructed record carries. */
  const Nil: Uuid := 0

  /** The random identifier generator, modelled as a source that never repeats itself: every
      id handed out so far is at most `last`, and the next one is larger. This is the
      uniqueness the system assumes of random 128-bit identifiers. */
  datatype IdGen = IdGen(last: nat)

  /** The id was handed out by `g` or before it. */
  predicate Issued(g: IdGen, u: Uuid)
  {
    u <= g.last
  }

  /** One draw: an id never handed out before, and never the nil id. */
  function Draw(g: IdGen): (r: (Uuid, IdGen))
    ensures r.0 != Nil && !Issued(g, r.0) && Issued(r.1, r.0)
    ensures g.last < r.1.last
  {
    (g.last + 1, IdGen(g.last + 1))
  }

  /** `count` draws in a row: ids in increasing order of drawing, all new. */
  function DrawMany(g: IdGen, count: nat): (r: (seq<Uuid>, IdGen))
    ensures |r.0| == count
    ensures g.last <= r.1.last
    ensures forall i :: 0 <= i < count ==> g.last < r.0[i] <= r.1.last
    ensures forall i, j :: 0 <= i < j < count ==> r.0[i] < r.0[j]
    decreases count
  {
    if count == 0 then ([], g)
    else
      var (u, g1) := Draw(g);
      var (rest, g2) := DrawMany(g1, count - 1);
      ([u] + rest, g2)
  }
}
