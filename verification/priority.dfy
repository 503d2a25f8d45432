/** `sort_segments`: the segments reported by the scan are ordered for repair by a score,
    the expected number of rounds until the segment becomes unrecoverable, and each segment's
    `k` and `r` are re-paired with it after the sort. The score is computed over `real`. */
module Priority {
  import opened Ids
  import opened Sorting

  /** The scoring constants of the configuration: the node count, the per-round failure rate
      and the floor on the per-round churn. Their values are set outside this model. */
  datatype ChurnModel = ChurnModel(totalNodes: int, failureRate: real, minChurn: real)

  /** Nodes expected to leave per round: the rate times the node count, raised to the floor. */
  function ChurnPerRound(m: ChurnModel): (c: real)
    ensures c >= m.minChurn && c >= m.failureRate * (m.totalNodes as real)
    ensures c == m.minChurn || c == m.failureRate * (m.totalNodes as real)
  {
    var c := m.failureRate * (m.totalNodes as real);
    if c < m.minChurn then m.minChurn else c
  }

  /** The score divides by the node count and by the churn. */
  predicate ValidModel(m: ChurnModel)
  {
    m.totalNodes != 0 && ChurnPerRound(m) != 0.0
  }

  /** The share of nodes holding no piece of the segment. */
  function Lost(m: ChurnModel, r: int): real
    requires m.totalNodes != 0
  {
    ((m.totalNodes - r) as real) / (m.totalNodes as real)
  }

  lemma Cancel(x: real, y: real, t: real)
    requires t != 0.0 && x * t == y * t
    ensures x == y
  {
    assert (x - y) * t == 0.0;
  }

  /** With b + c == t, one minus b / t is c / t. */
  lemma Complement(b: real, c: real, t: real)
    requires t != 0.0 && b + c == t
    ensures 1.0 - b / t == c / t
  {
    assert (b / t) * t == b;
    assert (c / t) * t == c;
    Cancel(1.0 - b / t, c / t, t);
  }

  /** a * (b / t) / (1 - b / t) is a * b / c when b + c == t and c is not zero. */
  lemma MeanClosedForm(a: real, b: real, c: real, t: real)
    requires t != 0.0 && c != 0.0 && b + c == t
    ensures b / t != 1.0
    ensures Mean(a, b / t) == a * b / c
  {
    var p := b / t;
    Complement(b, c, t);
    assert p * t == b;
    var v := c / t;
    assert v * t == c;
    var q := a * p / v;
    assert q * v == a * p;
    assert q * v * t == a * p * t;
    assert q * c == a * b;
    assert (a * b / c) * c == a * b;
    Cancel(q, a * b / c, c);
  }

  /** The score of a segment of a file with parameter `k` of which `r` pieces passed the
      audit. With no passing piece the source divides by zero; that case is excluded. Once
      the intermediate ratio cancels, the score is (r - k + 1)(T - r) / (r * churn); with
      0 < r < T and a positive churn it is negative exactly when fewer than k - 1 pieces
      passed, and zero exactly at k - 1. */
  function Weight(m: ChurnModel, k: int, r: int): (w: real)
    requires ValidModel(m) && r != 0
    ensures w == Ratio(r - k + 1, m.totalNodes - r, r, ChurnPerRound(m))
    ensures ChurnPerRound(m) > 0.0 && 0 < r < m.totalNodes ==>
      (w < 0.0 <==> r < k - 1) && (w == 0.0 <==> r == k - 1)
  {
    ScoreClosedForm(r - k + 1, m.totalNodes - r, r, m.totalNodes, ChurnPerRound(m));
    RatioSign();
    Mean((r - k + 1) as real, Lost(m, r)) / ChurnPerRound(m)
  }

  /** The expected number of rounds before the segment is lost: its margin of pieces times
      p / (1 - p), `p` being the share of nodes without a piece. */
  function Mean(margin: real, p: real): real
    requires p != 1.0
  {
    margin * p / (1.0 - p)
  }

  /** a * b / (r * ch), the shape of the score once the intermediate ratio is cancelled. */
  function Ratio(a: int, b: int, r: int, ch: real): real
    requires r != 0 && ch != 0.0
  {
    (a as real) * (b as real) / ((r as real) * ch)
  }

  /** The mean over the churn, with b / t the lost share and r / t its complement. */
  lemma ScoreClosedForm(a: int, b: int, r: int, t: int, ch: real)
    requires t != 0 && r != 0 && ch != 0.0 && b + r == t
    ensures (b as real) / (t as real) != 1.0
    ensures Mean(a as real, (b as real) / (t as real)) / ch == Ratio(a, b, r, ch)
  {
    MeanClosedForm(a as real, b as real, r as real, t as real);
    assert Mean(a as real, (b as real) / (t as real)) == (a as real) * (b as real) / (r as real);
    DivDiv((a as real) * (b as real), r as real, ch);
    assert (a as real) * (b as real) / (r as real) / ch == (a as real) * (b as real) / ((r as real) * ch);
  }

  lemma CastMul(x: int, y: int)
    ensures (x * y) as real == (x as real) * (y as real)
  {
  }

  lemma DivDiv(x: real, y: real, z: real)
    requires y != 0.0 && z != 0.0
    ensures x / y / z == x / (y * z)
  {
    assert (x / y / z) * z == x / y;
    assert (x / y) * y == x;
    assert (x / (y * z)) * (y * z) == x;
    Cancel(x / y / z, x / (y * z), y * z);
  }

  /** Comparing two fractions with positive denominators. */
  lemma FractionLess(a: real, x: real, b: real, y: real)
    requires x > 0.0 && y > 0.0
    ensures a / x < b / y <==> a * y < b * x
  {
    assert a / x * (x * y) == a * y;
    assert b / y * (x * y) == b * x;
  }

  lemma ScaleLess(a: real, b: real, c: real)
    requires c > 0.0
    ensures a * c < b * c <==> a < b
  {
    if a < b {
      assert (b - a) * c > 0.0;
    } else {
      assert (a - b) * c >= 0.0;
    }
  }

  lemma PositiveFactor(d: int, x: int)
    requires d > 0
    ensures d * x < 0 <==> x < 0
    ensures d * x == 0 <==> x == 0
  {
    if x < 0 {
      assert d * (-x) > 0;
    } else {
      assert d * x >= 0;
    }
  }

  lemma Expand(k: int, t: int, r: int, s: int)
    ensures (r - k + 1) * (t - r) * s == r * s * t - r * r * s - (k - 1) * t * s + (k - 1) * r * s
  {
    assert (r - k + 1) * (t - r) == r * t - r * r - (k - 1) * t + (k - 1) * r;
  }

  lemma CrossDifference(k: int, t: int, r1: int, r2: int)
    ensures (r1 - k + 1) * (t - r1) * r2 - (r2 - k + 1) * (t - r2) * r1 == (r2 - r1) * (r1 * r2 - (k - 1) * t)
  {
    Expand(k, t, r1, r2);
    Expand(k, t, r2, r1);
    assert (r2 - r1) * (r1 * r2 - (k - 1) * t) == r2 * r1 * r2 - r1 * r1 * r2 - (k - 1) * t * r2 + (k - 1) * t * r1;
  }

  /** The comparator of the sort: a segment with pair (ka, ra) goes before one with (kb, rb)
      when its score is strictly lower. With positive counts and churn this is a comparison
      of cross products of the closed forms. */
  function Less(m: ChurnModel, ka: int, ra: int, kb: int, rb: int): (b: bool)
    requires ValidModel(m) && ra != 0 && rb != 0
    ensures ChurnPerRound(m) > 0.0 && 0 < ra && 0 < rb ==>
      (b <==> (ra - ka + 1) * (m.totalNodes - ra) * rb < (rb - kb + 1) * (m.totalNodes - rb) * ra)
  {
    RatioLess();
    Weight(m, ka, ra) < Weight(m, kb, rb)
  }

  /** For one `k` and ra < rb, the segment with fewer passing pieces goes first exactly when
      ra * rb < (k - 1) * T: the order is not monotone in `r` over all inputs. */
  lemma LessSameK(m: ChurnModel, k: int, r1: int, r2: int)
    requires ValidModel(m) && ChurnPerRound(m) > 0.0
    requires 0 < r1 < r2
    ensures Less(m, k, r1, k, r2) <==> r1 * r2 < (k - 1) * m.totalNodes
  {
    CrossDifference(k, m.totalNodes, r1, r2);
    PositiveFactor(r2 - r1, r1 * r2 - (k - 1) * m.totalNodes);
  }

  /** Two ratios with positive r and ch compare as their cross products. */
  lemma RatioLess()
    ensures forall a1, b1, r1, a2, b2, r2, ch :: 0 < r1 && 0 < r2 && ch > 0.0 ==>
      (Ratio(a1, b1, r1, ch) < Ratio(a2, b2, r2, ch) <==> a1 * b1 * r2 < a2 * b2 * r1)
  {
    forall a1, b1, r1, a2, b2, r2, ch | 0 < r1 && 0 < r2 && ch > 0.0
      ensures Ratio(a1, b1, r1, ch) < Ratio(a2, b2, r2, ch) <==> a1 * b1 * r2 < a2 * b2 * r1
    {
      CrossCompare(a1, b1, a2, b2, r1, r2, ch);
    }
  }

  lemma CrossCompare(a1: int, b1: int, a2: int, b2: int, r1: int, r2: int, ch: real)
    requires 0 < r1 && 0 < r2 && ch > 0.0
    ensures Ratio(a1, b1, r1, ch) < Ratio(a2, b2, r2, ch) <==> a1 * b1 * r2 < a2 * b2 * r1
  {
    var n1, n2 := a1 * b1, a2 * b2;
    CastMul(a1, b1);
    CastMul(a2, b2);
    FractionLess(n1 as real, (r1 as real) * ch, n2 as real, (r2 as real) * ch);
    CastMul(n1, r2);
    CastMul(n2, r1);
    assert (n1 as real) * ((r2 as real) * ch) == ((n1 * r2) as real) * ch;
    assert (n2 as real) * ((r1 as real) * ch) == ((n2 * r1) as real) * ch;
    ScaleLess((n1 * r2) as real, (n2 * r1) as real, ch);
  }

  /** With b, r and ch positive, a ratio has the sign of a. */
  lemma RatioSign()
    ensures forall a, b, r, ch :: 0 < b && 0 < r && ch > 0.0 ==>
      (Ratio(a, b, r, ch) < 0.0 <==> a < 0) && (Ratio(a, b, r, ch) == 0.0 <==> a == 0)
  {
    forall a, b, r, ch | 0 < b && 0 < r && ch > 0.0
      ensures (Ratio(a, b, r, ch) < 0.0 <==> a < 0) && (Ratio(a, b, r, ch) == 0.0 <==> a == 0)
    {
      CastMul(a, b);
      PositiveFactor(b, a);
      assert a * b == b * a;
      DivSign((a * b) as real, (r as real) * ch);
      assert (r as real) * ch > 0.0;
    }
  }

  lemma DivSign(a: real, d: real)
    requires d > 0.0
    ensures a / d < 0.0 <==> a < 0.0
    ensures a / d == 0.0 <==> a == 0.0
  {
    assert a / d * d == a;
    ScaleLess(a / d, 0.0, d);
  }

  /** With k = 5 and 20 nodes, a segment with 5 passing pieces goes before one with 6, but
      one with 10 passing pieces also goes before one with 9, whatever the churn. */
  lemma FewerPiecesFirst(m: ChurnModel)
    requires m.totalNodes == 20 && ChurnPerRound(m) > 0.0
    ensures Less(m, 5, 5, 5, 6)
    ensures Less(m, 5, 10, 5, 9)
  {
    LessSameK(m, 5, 5, 6);
  }

  /** The id-to-pair map built position by position with a place-if-absent insert: the
      first position of an id fixes its pair. */
  function Associate(ids: seq<Uuid>, ks: seq<int>, rs: seq<int>): map<Uuid, (int, int)>
    requires |ids| == |ks| == |rs|
  {
    if |ids| == 0 then map[]
    else Associate(ids[1..], ks[1..], rs[1..])[ids[0] := (ks[0], rs[0])]
  }

  /** The map holds exactly the listed ids, each with the pair of its first position. */
  lemma {:induction false} AssociateFirst(ids: seq<Uuid>, ks: seq<int>, rs: seq<int>)
    requires |ids| == |ks| == |rs|
    ensures forall id :: id in Associate(ids, ks, rs) <==> id in ids
    ensures forall f :: 0 <= f < |ids| && (forall i :: 0 <= i < f ==> ids[i] != ids[f]) ==>
      Associate(ids, ks, rs)[ids[f]] == (ks[f], rs[f])
  {
    if |ids| > 0 {
      AssociateFirst(ids[1..], ks[1..], rs[1..]);
      assert ids == [ids[0]] + ids[1..];
      forall f | 0 < f < |ids| && (forall i :: 0 <= i < f ==> ids[i] != ids[f])
        ensures Associate(ids, ks, rs)[ids[f]] == (ks[f], rs[f])
      {
        assert ids[1..][f - 1] == ids[f];
        forall i | 0 <= i < f - 1 ensures ids[1..][i] != ids[1..][f - 1] {
          assert ids[1..][i] == ids[i + 1];
        }
      }
    }
  }

  /** Every pair in the map is the pair of some position; so every `r` in it is an input
      `r`. */
  lemma {:induction false} AssociateValues(ids: seq<Uuid>, ks: seq<int>, rs: seq<int>, id: Uuid)
    requires |ids| == |ks| == |rs|
    requires id in Associate(ids, ks, rs)
    ensures exists i :: 0 <= i < |ids| && ids[i] == id && Associate(ids, ks, rs)[id] == (ks[i], rs[i])
  {
    if id != ids[0] {
      AssociateValues(ids[1..], ks[1..], rs[1..], id);
      var i :| 0 <= i < |ids| - 1 && ids[1..][i] == id && Associate(ids[1..], ks[1..], rs[1..])[id] == (ks[1..][i], rs[1..][i]);
      assert ids[i + 1] == id;
    }
  }

  /** The score the comparator reads for an id: the weight of its associated pair. Ids
      outside the map, and pairs without a passing piece, do not reach the comparator under
      the precondition of `SortSegments`; they are given 0 so that the key is total. */
  function Score(m: ChurnModel, assoc: map<Uuid, (int, int)>): Uuid -> real
    requires ValidModel(m)
  {
    id => if id in assoc && assoc[id].1 != 0 then Weight(m, assoc[id].0, assoc[id].1) else 0.0
  }

  /** Reordered ids with their re-paired `k` and `r` sequences. */
  datatype Sorted = Sorted(ids: seq<Uuid>, ks: seq<int>, rs: seq<int>)

  /** `sort_segments`: when the three sequences differ in length nothing changes; otherwise
      the ids are sorted by the score of their associated pairs and `ks`, `rs` are rewritten
      from the map. Every input `r` must be non-zero for the score to be defined. */
  function SortSegments(m: ChurnModel, ids: seq<Uuid>, ks: seq<int>, rs: seq<int>): (out: Sorted)
    requires ValidModel(m)
    requires |ids| == |ks| == |rs| ==> forall i :: 0 <= i < |rs| ==> rs[i] != 0
    ensures !(|ids| == |ks| == |rs|) ==> out == Sorted(ids, ks, rs)
    ensures |ids| == |ks| == |rs| ==> |out.ids| == |out.ks| == |out.rs| == |ids|
  {
    if |ids| != |ks| || |ids| != |rs| then Sorted(ids, ks, rs)
    else
      var assoc := Associate(ids, ks, rs);
      var sorted := SortBy(ids, Score(m, assoc));
      SortByCorrect(ids, Score(m, assoc));
      AssociateFirst(ids, ks, rs);
      assert forall i :: 0 <= i < |sorted| ==> sorted[i] in assoc by {
        forall i | 0 <= i < |sorted| ensures sorted[i] in assoc {
          assert sorted[i] in multiset(ids);
        }
      }
      Sorted(sorted,
             seq(|sorted|, i requires 0 <= i < |sorted| => assoc[sorted[i]].0),
             seq(|sorted|, i requires 0 <= i < |sorted| => assoc[sorted[i]].1))
  }

  /** The sorted ids are a permutation of the input ids. */
  lemma SortSegmentsPermutes(m: ChurnModel, ids: seq<Uuid>, ks: seq<int>, rs: seq<int>)
    requires ValidModel(m)
    requires |ids| == |ks| == |rs|
    requires forall i :: 0 <= i < |rs| ==> rs[i] != 0
    ensures multiset(SortSegments(m, ids, ks, rs).ids) == multiset(ids)
  {
    SortByCorrect(ids, Score(m, Associate(ids, ks, rs)));
  }

  /** Each output position holds the pair of the first input position of its id. */
  lemma SortSegmentsRepairs(m: ChurnModel, ids: seq<Uuid>, ks: seq<int>, rs: seq<int>, i: nat, f: nat)
    requires ValidModel(m)
    requires |ids| == |ks| == |rs|
    requires forall i :: 0 <= i < |rs| ==> rs[i] != 0
    requires i < |ids| && f < |ids|
    requires SortSegments(m, ids, ks, rs).ids[i] == ids[f]
    requires forall i' :: 0 <= i' < f ==> ids[i'] != ids[f]
    ensures SortSegments(m, ids, ks, rs).ks[i] == ks[f]
    ensures SortSegments(m, ids, ks, rs).rs[i] == rs[f]
  {
    AssociateFirst(ids, ks, rs);
  }

  /** Along the output, no position's pair goes strictly before that of an earlier position
      under the comparator. */
  lemma SortSegmentsOrdered(m: ChurnModel, ids: seq<Uuid>, ks: seq<int>, rs: seq<int>, i: nat, j: nat)
    requires ValidModel(m)
    requires |ids| == |ks| == |rs|
    requires forall i :: 0 <= i < |rs| ==> rs[i] != 0
    requires i < j < |ids|
    ensures var out := SortSegments(m, ids, ks, rs);
      out.rs[i] != 0 && out.rs[j] != 0 && !Less(m, out.ks[j], out.rs[j], out.ks[i], out.rs[i])
  {
    var assoc := Associate(ids, ks, rs);
    var out := SortSegments(m, ids, ks, rs);
    SortByCorrect(ids, Score(m, assoc));
    AssociateFirst(ids, ks, rs);
    assert out.ids[i] in multiset(ids) && out.ids[j] in multiset(ids);
    AssociateValues(ids, ks, rs, out.ids[i]);
    AssociateValues(ids, ks, rs, out.ids[j]);
    assert Score(m, assoc)(out.ids[i]) <= Score(m, assoc)(out.ids[j]);
  }
}
