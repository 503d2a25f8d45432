/** `upload_file`: the duplicate-name check, then one file row, and per segment a segment row,
    the codec's pieces stamped with fresh ids and indices, placed round-robin, each written to
    its node's blob store and recorded in the catalog. */
module Upload {
  import opened Ids
  import opened Records
  import opened Outcomes
  import opened Store
  import opened Placement
  import opened Seqs

  datatype UploadError = DuplicateName

  /** One segment as the upload leaves it: the stamped segment and its stamped, placed
      pieces. */
  datatype SegmentPlan = SegmentPlan(segment: Segment, pieces: seq<Piece>)

  /** What a successful upload produces: the new catalog and blob store, the generator after
      its draws, the file record and the segments it wrote. */
  datatype Uploaded = Uploaded(catalog: Catalog, blobs: Blobs, gen: IdGen, file: FileRec,
                               plans: seq<SegmentPlan>)

  /** The duplicate-name test as written: the record the lookup by name hands back carries the
      requested name. */
  predicate NameTaken(cat: Catalog, name: string)
  {
    SelectFile(cat, ByName(name)).name == name
  }

  /** The catalog row of a stamped piece. */
  function RowOf(p: Piece): PieceRec
  {
    PieceRec(p.index, p.segmentId, p.nodeId)
  }

  /** The pieces the codec produces for one (stamped) segment. */
  function CodedPieces(dp: Codec, segment: Segment): seq<Piece>
  {
    dp.mergeToPieces(EncodeStripes(dp, dp.splitSegment(segment)))
  }

  /** Stamping the shares of a piece with the piece's id. */
  function StampShares(shares: seq<Share>, pieceId: Uuid): seq<Share>
  {
    seq(|shares|, s requires 0 <= s < |shares| => shares[s].(pieceId := pieceId))
  }

  /** Stamping the codec's pieces of one segment with ids, indices, the segment id and the
      nodes they are placed on. */
  function StampPieces(coded: seq<Piece>, ids: seq<Uuid>, segId: Uuid, nodes: seq<Uuid>): seq<Piece>
    requires |ids| == |coded| == |nodes|
  {
    seq(|coded|, i requires 0 <= i < |coded| =>
      coded[i].(id := ids[i], index := i, segmentId := segId, nodeId := nodes[i],
                shares := StampShares(coded[i].shares, ids[i])))
  }

  /** How piece `i` of a segment must look: the codec's `i`-th piece with the `i`-th index,
      the segment's id, its round-robin node, and every share stamped with the piece's id. */
  ghost predicate PieceStamped(p: Piece, coded: Piece, i: nat, segId: Uuid, pool: seq<Uuid>)
    requires |pool| > 0
  {
    && p.index == i && p.segmentId == segId && p.nodeId == pool[Slot(i, |pool|)]
    && p.data == coded.data
    && |p.shares| == |coded.shares|
    && forall s :: 0 <= s < |p.shares| ==> p.shares[s] == coded.shares[s].(pieceId := p.id)
  }

  /** How segment `t` of a file must look: the codec's `t`-th segment with index `t` and the
      file's id, and exactly the codec's pieces of it, stamped. */
  ghost predicate SegmentStamped(dp: Codec, pool: seq<Uuid>, fileId: Uuid, seg: Segment, t: nat,
                                 plan: SegmentPlan)
    requires |pool| > 0
  {
    && plan.segment == seg.(id := plan.segment.id, index := t, fileId := fileId)
    && |plan.pieces| == |CodedPieces(dp, plan.segment)|
    && forall i :: 0 <= i < |plan.pieces| ==>
         PieceStamped(plan.pieces[i], CodedPieces(dp, plan.segment)[i], i, plan.segment.id, pool)
  }

  /** The ids of a plan lie above `lo` and at most `hi`; the segment id comes first, then the
      piece ids in increasing order. */
  ghost predicate IdsWithin(plan: SegmentPlan, lo: nat, hi: nat)
  {
    && lo < plan.segment.id <= hi
    && (forall i :: 0 <= i < |plan.pieces| ==> plan.segment.id < plan.pieces[i].id <= hi)
    && (forall i, j :: 0 <= i < j < |plan.pieces| ==> plan.pieces[i].id < plan.pieces[j].id)
  }

  /** The largest id of a plan: its last piece's, or the segment's when it has no pieces. */
  function LastId(plan: SegmentPlan): nat
  {
    if |plan.pieces| == 0 then plan.segment.id else plan.pieces[|plan.pieces| - 1].id
  }

  /** Every id of plan `a` is smaller than every id of plan `b`. */
  ghost predicate Precedes(a: SegmentPlan, b: SegmentPlan)
  {
    && a.segment.id < b.segment.id
    && forall i :: 0 <= i < |a.pieces| ==> a.pieces[i].id < b.segment.id
  }

  /** One segment: draw its id, stamp index and file id, run the codec, draw one id per piece,
      stamp and place the pieces. A segment with no more pieces than a pool without repeated
      nodes has no two pieces on one node. */
  function PlanSegment(dp: Codec, pool: seq<Uuid>, fileId: Uuid, seg: Segment, t: nat, gen: IdGen)
    : (r: (SegmentPlan, IdGen))
    requires |pool| > 0
    ensures SegmentStamped(dp, pool, fileId, seg, t, r.0)
    ensures IdsWithin(r.0, gen.last, r.1.last)
    ensures Distinct(pool) && |r.0.pieces| <= |pool| ==>
      forall i, j :: 0 <= i < j < |r.0.pieces| ==> r.0.pieces[i].nodeId != r.0.pieces[j].nodeId
  {
    var (segId, g1) := Draw(gen);
    var segment := seg.(id := segId, index := t, fileId := fileId);
    var coded := CodedPieces(dp, segment);
    var (ids, g2) := DrawMany(g1, |coded|);
    var placed := RoundRobin(|coded|, pool);
    var pieces := StampPieces(coded, ids, segId, placed);
    (SegmentPlan(segment, pieces), g2)
  }

  /** Segments `t` onwards, in order. */
  function PlanSegments(dp: Codec, pool: seq<Uuid>, fileId: Uuid, segs: seq<Segment>, t: nat, gen: IdGen)
    : (r: (seq<SegmentPlan>, IdGen))
    requires |pool| > 0 && t <= |segs|
    ensures |r.0| == |segs| - t
    ensures gen.last <= r.1.last
    ensures forall u :: 0 <= u < |r.0| ==> SegmentStamped(dp, pool, fileId, segs[t + u], t + u, r.0[u])
    ensures forall u :: 0 <= u < |r.0| ==> IdsWithin(r.0[u], gen.last, r.1.last)
    ensures forall u, v :: 0 <= u < v < |r.0| ==> Precedes(r.0[u], r.0[v])
    decreases |segs| - t
  {
    if t == |segs| then ([], gen)
    else
      var (p, g1) := PlanSegment(dp, pool, fileId, segs[t], t, gen);
      var (rest, g2) := PlanSegments(dp, pool, fileId, segs, t + 1, g1);
      assert forall u :: 0 <= u < |rest| ==> Precedes(p, rest[u]) by {
        forall u | 0 <= u < |rest| ensures Precedes(p, rest[u]) {
          assert IdsWithin(rest[u], g1.last, g2.last);
        }
      }
      var plans := [p] + rest;
      assert forall u :: 1 <= u < |plans| ==> plans[u] == rest[u - 1];
      (plans, g2)
  }

  /** The catalog rows of a segment's pieces, keyed by piece id. */
  function PieceRows(pieces: seq<Piece>): seq<(Uuid, PieceRec)>
  {
    seq(|pieces|, i requires 0 <= i < |pieces| => (pieces[i].id, RowOf(pieces[i])))
  }

  /** The blobs of a segment's pieces, keyed by (node id, piece id). */
  function BlobPuts(pieces: seq<Piece>): seq<((Uuid, Uuid), Bytes)>
  {
    seq(|pieces|, i requires 0 <= i < |pieces| => ((pieces[i].nodeId, pieces[i].id), pieces[i].data))
  }

  /** Writing the pieces of one segment, in order: each blob is created, then each row is
      inserted. Blob store and piece table are disjoint, so doing all blob writes and all
      row inserts as two ordered passes gives the same stores as interleaving them. */
  function ApplyPieces(cat: Catalog, blobs: Blobs, pieces: seq<Piece>): (Catalog, Blobs)
  {
    (cat.(pieces := PutAll(cat.pieces, PieceRows(pieces))), PutAll(blobs, BlobPuts(pieces)))
  }

  /** Writing every segment, in order: the segment row, then its pieces. */
  function ApplyPlans(cat: Catalog, blobs: Blobs, plans: seq<SegmentPlan>): (Catalog, Blobs)
    decreases |plans|
  {
    if |plans| == 0 then (cat, blobs)
    else
      var s := plans[0].segment;
      var cat1 := cat.(segments := PutIfAbsent(cat.segments, s.id, SegmentRec(s.index, s.fileId)));
      var (cat2, blobs2) := ApplyPieces(cat1, blobs, plans[0].pieces);
      ApplyPlans(cat2, blobs2, plans[1..])
  }

  /** The segment ids of a sequence of plans. */
  function SegmentIds(plans: seq<SegmentPlan>): set<Uuid>
    decreases |plans|
  {
    if |plans| == 0 then {} else {plans[0].segment.id} + SegmentIds(plans[1..])
  }

  /** The piece ids of a sequence of plans. */
  function PlanPieceIds(plans: seq<SegmentPlan>): set<Uuid>
    decreases |plans|
  {
    if |plans| == 0 then {} else KeySet(PieceRows(plans[0].pieces)) + PlanPieceIds(plans[1..])
  }

  /** The blob keys of a sequence of plans. */
  function PlanBlobKeys(plans: seq<SegmentPlan>): set<(Uuid, Uuid)>
    decreases |plans|
  {
    if |plans| == 0 then {} else KeySet(BlobPuts(plans[0].pieces)) + PlanBlobKeys(plans[1..])
  }

  /** Writing the pieces of one segment under ids above every stored one adds exactly their
      rows and blobs and changes nothing already stored. */
  lemma ApplyPiecesFresh(cat: Catalog, blobs: Blobs, pieces: seq<Piece>, lo: nat, hi: nat)
    requires forall i, j :: 0 <= i < j < |pieces| ==> pieces[i].id < pieces[j].id
    requires forall i :: 0 <= i < |pieces| ==> lo < pieces[i].id <= hi
    requires forall u :: u in cat.pieces ==> u <= lo
    requires forall key :: key in blobs ==> key.1 <= lo
    ensures var r := ApplyPieces(cat, blobs, pieces);
      && r.0.files == cat.files && r.0.segments == cat.segments
      && r.0.pieces.Keys == cat.pieces.Keys + KeySet(PieceRows(pieces))
      && r.1.Keys == blobs.Keys + KeySet(BlobPuts(pieces))
      && (forall u :: u in cat.pieces ==> r.0.pieces[u] == cat.pieces[u])
      && (forall key :: key in blobs ==> r.1[key] == blobs[key])
      && (forall i :: 0 <= i < |pieces| ==>
            && pieces[i].id in r.0.pieces && r.0.pieces[pieces[i].id] == RowOf(pieces[i])
            && (pieces[i].nodeId, pieces[i].id) in r.1
            && r.1[(pieces[i].nodeId, pieces[i].id)] == pieces[i].data)
      && (forall u :: u in r.0.pieces ==> u in cat.pieces || lo < u <= hi)
      && (forall key :: key in r.1 ==> key in blobs || lo < key.1 <= hi)
  {
    PieceRowsFresh(cat.pieces, pieces, lo, hi);
    BlobPutsFresh(blobs, pieces, lo, hi);
  }

  /** The piece-table half of `ApplyPiecesFresh`. */
  lemma PieceRowsFresh(table: map<Uuid, PieceRec>, pieces: seq<Piece>, lo: nat, hi: nat)
    requires forall i, j :: 0 <= i < j < |pieces| ==> pieces[i].id < pieces[j].id
    requires forall i :: 0 <= i < |pieces| ==> lo < pieces[i].id <= hi
    requires forall u :: u in table ==> u <= lo
    ensures var r := PutAll(table, PieceRows(pieces));
      && r.Keys == table.Keys + KeySet(PieceRows(pieces))
      && (forall u :: u in table ==> r[u] == table[u])
      && (forall i :: 0 <= i < |pieces| ==> pieces[i].id in r && r[pieces[i].id] == RowOf(pieces[i]))
      && (forall u :: u in r ==> u in table || lo < u <= hi)
  {
    var rows := PieceRows(pieces);
    assert forall i :: 0 <= i < |pieces| ==> rows[i].0 == pieces[i].id;
    PutAllFresh(table, rows);
    KeySetMembers(rows);
  }

  /** The blob-store half of `ApplyPiecesFresh`. */
  lemma BlobPutsFresh(blobs: Blobs, pieces: seq<Piece>, lo: nat, hi: nat)
    requires forall i, j :: 0 <= i < j < |pieces| ==> pieces[i].id < pieces[j].id
    requires forall i :: 0 <= i < |pieces| ==> lo < pieces[i].id <= hi
    requires forall key: (Uuid, Uuid) :: key in blobs ==> key.1 <= lo
    ensures var r := PutAll(blobs, BlobPuts(pieces));
      && r.Keys == blobs.Keys + KeySet(BlobPuts(pieces))
      && (forall key: (Uuid, Uuid) :: key in blobs ==> r[key] == blobs[key])
      && (forall i :: 0 <= i < |pieces| ==>
            (pieces[i].nodeId, pieces[i].id) in r && r[(pieces[i].nodeId, pieces[i].id)] == pieces[i].data)
      && (forall key: (Uuid, Uuid) :: key in r ==> key in blobs || lo < key.1 <= hi)
  {
    var puts := BlobPuts(pieces);
    assert forall i :: 0 <= i < |pieces| ==> puts[i].0.1 == pieces[i].id;
    PutAllFresh(blobs, puts);
    KeySetMembers(puts);
  }

  /** The plans' ids are above `lo`, at most `hi`, increase from one plan to the next, and
      everything stored is at most `lo`. */
  ghost predicate FreshPlans(cat: Catalog, blobs: Blobs, plans: seq<SegmentPlan>, lo: nat, hi: nat)
  {
    && (forall u :: 0 <= u < |plans| ==> IdsWithin(plans[u], lo, hi))
    && (forall u, v :: 0 <= u < v < |plans| ==> Precedes(plans[u], plans[v]))
    && (forall u :: u in cat.segments ==> u <= lo)
    && (forall u :: u in cat.pieces ==> u <= lo)
    && (forall key :: key in blobs ==> key.1 <= lo)
  }

  /** The stores after writing the first segment of the plans. */
  function ApplyFirst(cat: Catalog, blobs: Blobs, plans: seq<SegmentPlan>): (Catalog, Blobs)
    requires |plans| > 0
  {
    var s := plans[0].segment;
    var cat1 := cat.(segments := PutIfAbsent(cat.segments, s.id, SegmentRec(s.index, s.fileId)));
    ApplyPieces(cat1, blobs, plans[0].pieces)
  }

  /** Writing the first segment keeps the freshness of the remaining ones, with the first
      segment's largest id as the new bound. */
  lemma ApplyFirstFresh(cat: Catalog, blobs: Blobs, plans: seq<SegmentPlan>, lo: nat, hi: nat)
    requires |plans| > 0 && FreshPlans(cat, blobs, plans, lo, hi)
    ensures ApplyPlans(cat, blobs, plans) ==
            ApplyPlans(ApplyFirst(cat, blobs, plans).0, ApplyFirst(cat, blobs, plans).1, plans[1..])
    ensures var r := ApplyFirst(cat, blobs, plans);
      var s := plans[0].segment;
      && FreshPlans(r.0, r.1, plans[1..], LastId(plans[0]), hi)
      && r.0.files == cat.files
      && r.0.segments == cat.segments[s.id := SegmentRec(s.index, s.fileId)]
      && s.id !in cat.segments
      && lo < s.id <= hi
      && r.0.pieces.Keys == cat.pieces.Keys + KeySet(PieceRows(plans[0].pieces))
      && r.1.Keys == blobs.Keys + KeySet(BlobPuts(plans[0].pieces))
      && (forall u :: u in cat.pieces ==> r.0.pieces[u] == cat.pieces[u])
      && (forall key :: key in blobs ==> r.1[key] == blobs[key])
      && (forall i :: 0 <= i < |plans[0].pieces| ==>
            var p := plans[0].pieces[i];
            && p.id in r.0.pieces && r.0.pieces[p.id] == RowOf(p)
            && (p.nodeId, p.id) in r.1 && r.1[(p.nodeId, p.id)] == p.data)
      && (forall u :: u in r.0.pieces ==> u in cat.pieces || lo < u <= hi)
      && (forall key :: key in r.1 ==> key in blobs || lo < key.1 <= hi)
  {
    var plan := plans[0];
    var s := plan.segment;
    assert IdsWithin(plan, lo, hi);
    var cat1 := cat.(segments := PutIfAbsent(cat.segments, s.id, SegmentRec(s.index, s.fileId)));
    var top := LastId(plan);
    ApplyPiecesFresh(cat1, blobs, plan.pieces, lo, top);
    var rest := plans[1..];
    assert forall u :: 1 <= u < |plans| ==> plans[u] == rest[u - 1];
    forall u | 0 <= u < |rest|
      ensures IdsWithin(rest[u], top, hi)
    {
      assert Precedes(plans[0], plans[u + 1]);
      assert IdsWithin(plans[u + 1], lo, hi);
    }
  }

  /** Writing all segments of a file under fresh ids adds exactly their rows and blobs and
      changes nothing already stored. */
  lemma ApplyPlansKeys(cat: Catalog, blobs: Blobs, plans: seq<SegmentPlan>, lo: nat, hi: nat)
    requires FreshPlans(cat, blobs, plans, lo, hi)
    ensures var r := ApplyPlans(cat, blobs, plans);
      && r.0.files == cat.files
      && r.0.segments.Keys == cat.segments.Keys + SegmentIds(plans)
      && r.0.pieces.Keys == cat.pieces.Keys + PlanPieceIds(plans)
      && r.1.Keys == blobs.Keys + PlanBlobKeys(plans)
      && (forall u :: u in cat.segments ==> r.0.segments[u] == cat.segments[u])
      && (forall u :: u in cat.pieces ==> r.0.pieces[u] == cat.pieces[u])
      && (forall key :: key in blobs ==> r.1[key] == blobs[key])
  {
    ApplyPlansSegmentKeys(cat, blobs, plans, lo, hi);
    ApplyPlansPieceKeys(cat, blobs, plans, lo, hi);
    ApplyPlansBlobKeys(cat, blobs, plans, lo, hi);
  }

  /** The file and segment tables after writing all segments. */
  lemma {:induction false} ApplyPlansSegmentKeys(cat: Catalog, blobs: Blobs, plans: seq<SegmentPlan>, lo: nat, hi: nat)
    requires FreshPlans(cat, blobs, plans, lo, hi)
    ensures var r := ApplyPlans(cat, blobs, plans);
      && r.0.files == cat.files
      && r.0.segments.Keys == cat.segments.Keys + SegmentIds(plans)
      && (forall u :: u in cat.segments ==> r.0.segments[u] == cat.segments[u])
    decreases |plans|
  {
    if |plans| > 0 {
      ApplyFirstFresh(cat, blobs, plans, lo, hi);
      var r1 := ApplyFirst(cat, blobs, plans);
      ApplyPlansSegmentKeys(r1.0, r1.1, plans[1..], LastId(plans[0]), hi);
    }
  }

  /** The piece table after writing all segments. */
  lemma {:induction false} ApplyPlansPieceKeys(cat: Catalog, blobs: Blobs, plans: seq<SegmentPlan>, lo: nat, hi: nat)
    requires FreshPlans(cat, blobs, plans, lo, hi)
    ensures var r := ApplyPlans(cat, blobs, plans);
      && r.0.pieces.Keys == cat.pieces.Keys + PlanPieceIds(plans)
      && (forall u :: u in cat.pieces ==> r.0.pieces[u] == cat.pieces[u])
    decreases |plans|
  {
    if |plans| > 0 {
      ApplyFirstFresh(cat, blobs, plans, lo, hi);
      var r1 := ApplyFirst(cat, blobs, plans);
      ApplyPlansPieceKeys(r1.0, r1.1, plans[1..], LastId(plans[0]), hi);
    }
  }

  /** The blob store after writing all segments. */
  lemma {:induction false} ApplyPlansBlobKeys(cat: Catalog, blobs: Blobs, plans: seq<SegmentPlan>, lo: nat, hi: nat)
    requires FreshPlans(cat, blobs, plans, lo, hi)
    ensures var r := ApplyPlans(cat, blobs, plans);
      && r.1.Keys == blobs.Keys + PlanBlobKeys(plans)
      && (forall key :: key in blobs ==> r.1[key] == blobs[key])
    decreases |plans|
  {
    if |plans| > 0 {
      ApplyFirstFresh(cat, blobs, plans, lo, hi);
      var r1 := ApplyFirst(cat, blobs, plans);
      ApplyPlansBlobKeys(r1.0, r1.1, plans[1..], LastId(plans[0]), hi);
    }
  }

  /** Everything writing all segments adds carries an id between the bounds. */
  lemma {:induction false} ApplyPlansBounds(cat: Catalog, blobs: Blobs, plans: seq<SegmentPlan>, lo: nat, hi: nat)
    requires FreshPlans(cat, blobs, plans, lo, hi)
    ensures var r := ApplyPlans(cat, blobs, plans);
      && (forall u :: u in r.0.segments ==> u in cat.segments || lo < u <= hi)
      && (forall u :: u in r.0.pieces ==> u in cat.pieces || lo < u <= hi)
      && (forall key :: key in r.1 ==> key in blobs || lo < key.1 <= hi)
    decreases |plans|
  {
    if |plans| > 0 {
      ApplyFirstFresh(cat, blobs, plans, lo, hi);
      var r1 := ApplyFirst(cat, blobs, plans);
      ApplyPlansBounds(r1.0, r1.1, plans[1..], LastId(plans[0]), hi);
      var r := ApplyPlans(cat, blobs, plans);
      assert r == ApplyPlans(r1.0, r1.1, plans[1..]);
      assert LastId(plans[0]) <= hi by {
        assert IdsWithin(plans[0], lo, hi);
      }
    }
  }

  /** After writing all segments, every segment's row is in the catalog. */
  lemma {:induction false} ApplyPlansSegments(cat: Catalog, blobs: Blobs, plans: seq<SegmentPlan>, lo: nat, hi: nat)
    requires FreshPlans(cat, blobs, plans, lo, hi)
    ensures var r := ApplyPlans(cat, blobs, plans);
      forall t :: 0 <= t < |plans| ==>
        var s := plans[t].segment;
        s.id in r.0.segments && r.0.segments[s.id] == SegmentRec(s.index, s.fileId)
    decreases |plans|
  {
    if |plans| > 0 {
      ApplyFirstFresh(cat, blobs, plans, lo, hi);
      var r1 := ApplyFirst(cat, blobs, plans);
      var rest := plans[1..];
      ApplyPlansSegments(r1.0, r1.1, rest, LastId(plans[0]), hi);
      ApplyPlansKeys(r1.0, r1.1, rest, LastId(plans[0]), hi);
      assert forall t :: 1 <= t < |plans| ==> plans[t] == rest[t - 1];
    }
  }

  /** After writing all segments, every piece's row and blob are stored. */
  lemma {:induction false} ApplyPlansPieces(cat: Catalog, blobs: Blobs, plans: seq<SegmentPlan>, lo: nat, hi: nat)
    requires FreshPlans(cat, blobs, plans, lo, hi)
    ensures var r := ApplyPlans(cat, blobs, plans);
      forall t, i :: 0 <= t < |plans| && 0 <= i < |plans[t].pieces| ==>
        var p := plans[t].pieces[i];
        && p.id in r.0.pieces && r.0.pieces[p.id] == RowOf(p)
        && (p.nodeId, p.id) in r.1 && r.1[(p.nodeId, p.id)] == p.data
    decreases |plans|
  {
    if |plans| > 0 {
      ApplyFirstFresh(cat, blobs, plans, lo, hi);
      var r1 := ApplyFirst(cat, blobs, plans);
      var rest := plans[1..];
      ApplyPlansPieces(r1.0, r1.1, rest, LastId(plans[0]), hi);
      ApplyPlansKeys(r1.0, r1.1, rest, LastId(plans[0]), hi);
      assert forall t :: 1 <= t < |plans| ==> plans[t] == rest[t - 1];
    }
  }

  /** `upload_file`. The duplicate-name check runs first and returns before anything is
      written; then the file row, then each segment with its pieces. The source interleaves
      drawing ids and writing per segment; drawing all ids first (in the same order) and then
      writing gives the same stores. */
  function UploadFile(cat: Catalog, blobs: Blobs, gen: IdGen, pool: seq<Uuid>, processor: Processor,
                      name: string, cfg: Config): (r: Result<Uploaded, UploadError>)
    requires |pool| > 0
    ensures r.Failure? <==> (exists i :: 0 <= i < |cat.files| && cat.files[i].name == name) || name == ""
    ensures r.Failure? ==> r.error == DuplicateName
  {
    if NameTaken(cat, name) then Failure(DuplicateName)
    else
      var (fileId, g1) := Draw(gen);
      var file := FileRec(fileId, name, cfg);
      var dp := processor(cfg);
      var (plans, g2) := PlanSegments(dp, pool, fileId, dp.splitFile(file), 0, g1);
      var (cat2, blobs2) := ApplyPlans(InsertFile(cat, file), blobs, plans);
      Success(Uploaded(cat2, blobs2, g2, file, plans))
  }

  /** The stores an upload starts from meet the freshness its writes need: in particular the
      drawn file id is stored nowhere, so the file row is appended. */
  lemma UploadFresh(cat: Catalog, blobs: Blobs, gen: IdGen, pool: seq<Uuid>, processor: Processor,
                    name: string, cfg: Config)
    requires |pool| > 0 && AllIssued(cat, blobs, gen)
    requires !NameTaken(cat, name)
    ensures var (fileId, g1) := Draw(gen);
      var file := FileRec(fileId, name, cfg);
      var dp := processor(cfg);
      var (plans, g2) := PlanSegments(dp, pool, fileId, dp.splitFile(file), 0, g1);
      && UploadFile(cat, blobs, gen, pool, processor, name, cfg)
           == Success(Uploaded(ApplyPlans(cat.(files := cat.files + [file]), blobs, plans).0,
                               ApplyPlans(cat.(files := cat.files + [file]), blobs, plans).1,
                               g2, file, plans))
      && FreshPlans(cat.(files := cat.files + [file]), blobs, plans, g1.last, g2.last)
  {
    var (fileId, g1) := Draw(gen);
    assert forall i :: 0 <= i < |cat.files| ==> cat.files[i].id != fileId;
  }

  /** A successful upload appends one file row, with the requested name and configuration,
      under an id nothing stored carries. */
  lemma UploadRecordsFile(cat: Catalog, blobs: Blobs, gen: IdGen, pool: seq<Uuid>, processor: Processor,
                          name: string, cfg: Config)
    requires |pool| > 0 && AllIssued(cat, blobs, gen)
    requires UploadFile(cat, blobs, gen, pool, processor, name, cfg).Success?
    ensures var u := UploadFile(cat, blobs, gen, pool, processor, name, cfg).value;
      && u.catalog.files == cat.files + [u.file]
      && u.file.name == name && u.file.cfg == cfg
      && u.file.id != Nil && !Issued(gen, u.file.id) && Issued(u.gen, u.file.id)
      && gen.last <= u.gen.last
      && forall i :: 0 <= i < |cat.files| ==> cat.files[i].id != u.file.id
  {
    UploadFresh(cat, blobs, gen, pool, processor, name, cfg);
    var (fileId, g1) := Draw(gen);
    var file := FileRec(fileId, name, cfg);
    var dp := processor(cfg);
    var (plans, g2) := PlanSegments(dp, pool, fileId, dp.splitFile(file), 0, g1);
    ApplyPlansKeys(cat.(files := cat.files + [file]), blobs, plans, g1.last, g2.last);
  }

  /** Segment `t` of the upload is the codec's segment `t`, stamped with index `t` and the
      file's id, recorded in the catalog under a fresh id, and holds exactly the codec's
      pieces of it. */
  lemma UploadStampsSegments(cat: Catalog, blobs: Blobs, gen: IdGen, pool: seq<Uuid>, processor: Processor,
                             name: string, cfg: Config)
    requires |pool| > 0 && AllIssued(cat, blobs, gen)
    requires UploadFile(cat, blobs, gen, pool, processor, name, cfg).Success?
    ensures var u := UploadFile(cat, blobs, gen, pool, processor, name, cfg).value;
      var segs := processor(cfg).splitFile(u.file);
      && |u.plans| == |segs|
      && forall t :: 0 <= t < |u.plans| ==>
           var s := u.plans[t].segment;
           && s.index == t && s.fileId == u.file.id
           && s.id !in cat.segments && !Issued(gen, s.id)
           && s.id in u.catalog.segments && u.catalog.segments[s.id] == SegmentRec(t, u.file.id)
           && SegmentStamped(processor(cfg), pool, u.file.id, segs[t], t, u.plans[t])
  {
    UploadFresh(cat, blobs, gen, pool, processor, name, cfg);
    var (fileId, g1) := Draw(gen);
    var file := FileRec(fileId, name, cfg);
    var dp := processor(cfg);
    var (plans, g2) := PlanSegments(dp, pool, fileId, dp.splitFile(file), 0, g1);
    ApplyPlansSegments(cat.(files := cat.files + [file]), blobs, plans, g1.last, g2.last);
    forall t | 0 <= t < |plans| ensures plans[t].segment.id !in cat.segments {
      assert IdsWithin(plans[t], g1.last, g2.last);
    }
  }

  /** Piece `i` of segment `t` carries index `i`, the segment's id, a fresh id, the node at
      the wrapped position of `i`, and shares stamped with its id. */
  lemma UploadStampsPieces(cat: Catalog, blobs: Blobs, gen: IdGen, pool: seq<Uuid>, processor: Processor,
                           name: string, cfg: Config)
    requires |pool| > 0 && AllIssued(cat, blobs, gen)
    requires UploadFile(cat, blobs, gen, pool, processor, name, cfg).Success?
    ensures var u := UploadFile(cat, blobs, gen, pool, processor, name, cfg).value;
      forall t, i :: 0 <= t < |u.plans| && 0 <= i < |u.plans[t].pieces| ==>
        var p := u.plans[t].pieces[i];
        && p.index == i && p.segmentId == u.plans[t].segment.id
        && p.nodeId == pool[Slot(i, |pool|)]
        && (forall s :: 0 <= s < |p.shares| ==> p.shares[s].pieceId == p.id)
        && p.id !in cat.pieces && !Issued(gen, p.id)
  {
    UploadFresh(cat, blobs, gen, pool, processor, name, cfg);
    var (fileId, g1) := Draw(gen);
    var file := FileRec(fileId, name, cfg);
    var dp := processor(cfg);
    var segs := dp.splitFile(file);
    var (plans, g2) := PlanSegments(dp, pool, fileId, segs, 0, g1);
    forall t, i | 0 <= t < |plans| && 0 <= i < |plans[t].pieces|
      ensures plans[t].pieces[i].id !in cat.pieces && !Issued(gen, plans[t].pieces[i].id)
      ensures PieceStamped(plans[t].pieces[i], CodedPieces(dp, plans[t].segment)[i], i, plans[t].segment.id, pool)
    {
      assert IdsWithin(plans[t], g1.last, g2.last);
      assert SegmentStamped(dp, pool, fileId, segs[t], t, plans[t]);
    }
  }

  /** Every piece of the upload has its row in the catalog, and its payload in the blob
      store under its node and id. */
  lemma UploadRecordsPieces(cat: Catalog, blobs: Blobs, gen: IdGen, pool: seq<Uuid>, processor: Processor,
                           name: string, cfg: Config)
    requires |pool| > 0 && AllIssued(cat, blobs, gen)
    requires UploadFile(cat, blobs, gen, pool, processor, name, cfg).Success?
    ensures var u := UploadFile(cat, blobs, gen, pool, processor, name, cfg).value;
      forall t, i :: 0 <= t < |u.plans| && 0 <= i < |u.plans[t].pieces| ==>
        var p := u.plans[t].pieces[i];
        && p.id in u.catalog.pieces && u.catalog.pieces[p.id] == PieceRec(i, u.plans[t].segment.id, p.nodeId)
        && (p.nodeId, p.id) in u.blobs && u.blobs[(p.nodeId, p.id)] == p.data
  {
    UploadFresh(cat, blobs, gen, pool, processor, name, cfg);
    var (fileId, g1) := Draw(gen);
    var file := FileRec(fileId, name, cfg);
    var dp := processor(cfg);
    var segs := dp.splitFile(file);
    var (plans, g2) := PlanSegments(dp, pool, fileId, segs, 0, g1);
    ApplyPlansPieces(cat.(files := cat.files + [file]), blobs, plans, g1.last, g2.last);
  }

  /** An upload changes no segment row, piece row or blob already stored. */
  lemma UploadKeepsExisting(cat: Catalog, blobs: Blobs, gen: IdGen, pool: seq<Uuid>, processor: Processor,
                            name: string, cfg: Config)
    requires |pool| > 0 && AllIssued(cat, blobs, gen)
    requires UploadFile(cat, blobs, gen, pool, processor, name, cfg).Success?
    ensures var u := UploadFile(cat, blobs, gen, pool, processor, name, cfg).value;
      && (forall v :: v in cat.segments ==> v in u.catalog.segments && u.catalog.segments[v] == cat.segments[v])
      && (forall v :: v in cat.pieces ==> v in u.catalog.pieces && u.catalog.pieces[v] == cat.pieces[v])
      && (forall key :: key in blobs ==> key in u.blobs && u.blobs[key] == blobs[key])
  {
    UploadFresh(cat, blobs, gen, pool, processor, name, cfg);
    var (fileId, g1) := Draw(gen);
    var file := FileRec(fileId, name, cfg);
    var dp := processor(cfg);
    var (plans, g2) := PlanSegments(dp, pool, fileId, dp.splitFile(file), 0, g1);
    var cat1 := cat.(files := cat.files + [file]);
    ApplyPlansKeys(cat1, blobs, plans, g1.last, g2.last);
    ApplyPlansBounds(cat1, blobs, plans, g1.last, g2.last);
  }

  /** Every segment row, piece row and blob an upload adds is keyed by an id this upload
      drew: one not issued before and issued by the advanced generator. */
  lemma UploadAddsFresh(cat: Catalog, blobs: Blobs, gen: IdGen, pool: seq<Uuid>, processor: Processor,
                            name: string, cfg: Config)
    requires |pool| > 0 && AllIssued(cat, blobs, gen)
    requires UploadFile(cat, blobs, gen, pool, processor, name, cfg).Success?
    ensures var u := UploadFile(cat, blobs, gen, pool, processor, name, cfg).value;
      && (forall v :: v in u.catalog.segments ==> v in cat.segments || (!Issued(gen, v) && Issued(u.gen, v)))
      && (forall v :: v in u.catalog.pieces ==> v in cat.pieces || (!Issued(gen, v) && Issued(u.gen, v)))
      && (forall key :: key in u.blobs ==> key in blobs || (!Issued(gen, key.1) && Issued(u.gen, key.1)))
  {
    UploadFresh(cat, blobs, gen, pool, processor, name, cfg);
    var (fileId, g1) := Draw(gen);
    var file := FileRec(fileId, name, cfg);
    var dp := processor(cfg);
    var (plans, g2) := PlanSegments(dp, pool, fileId, dp.splitFile(file), 0, g1);
    var cat1 := cat.(files := cat.files + [file]);
    ApplyPlansKeys(cat1, blobs, plans, g1.last, g2.last);
    ApplyPlansBounds(cat1, blobs, plans, g1.last, g2.last);
  }

  /** After an upload every stored id has been issued by the generator it hands back, so the
      next operation draws ids that collide with nothing stored. */
  lemma UploadStaysIssued(cat: Catalog, blobs: Blobs, gen: IdGen, pool: seq<Uuid>, processor: Processor,
                            name: string, cfg: Config)
    requires |pool| > 0 && AllIssued(cat, blobs, gen)
    requires UploadFile(cat, blobs, gen, pool, processor, name, cfg).Success?
    ensures var u := UploadFile(cat, blobs, gen, pool, processor, name, cfg).value;
      AllIssued(u.catalog, u.blobs, u.gen)
  {
    UploadRecordsFile(cat, blobs, gen, pool, processor, name, cfg);
    UploadAddsFresh(cat, blobs, gen, pool, processor, name, cfg);
    var u := UploadFile(cat, blobs, gen, pool, processor, name, cfg).value;
    assert forall i :: 0 <= i < |u.catalog.files| ==> Issued(u.gen, u.catalog.files[i].id) by {
      forall i | 0 <= i < |u.catalog.files| ensures Issued(u.gen, u.catalog.files[i].id) {
        if i < |cat.files| {
          assert u.catalog.files[i] == cat.files[i];
        }
      }
    }
  }

  /** The distinct-node property for uploads: a segment with no more pieces than the pool has
      nodes stores no two of its pieces on the same node. */
  lemma UploadPlacementDistinct(cat: Catalog, blobs: Blobs, gen: IdGen, pool: seq<Uuid>, processor: Processor,
                                name: string, cfg: Config, t: nat, i: nat, j: nat)
    requires |pool| > 0 && AllIssued(cat, blobs, gen) && Distinct(pool)
    requires UploadFile(cat, blobs, gen, pool, processor, name, cfg).Success?
    requires var u := UploadFile(cat, blobs, gen, pool, processor, name, cfg).value;
      t < |u.plans| && i < j < |u.plans[t].pieces| <= |pool|
    ensures var u := UploadFile(cat, blobs, gen, pool, processor, name, cfg).value;
      u.plans[t].pieces[i].nodeId != u.plans[t].pieces[j].nodeId
  {
    UploadStampsPieces(cat, blobs, gen, pool, processor, name, cfg);
  }
}
