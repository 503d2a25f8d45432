/** `repair_segment`: the listed pieces of a segment are downloaded (a missing blob yields a
    piece without bytes, not a skipped one), decoded and re-encoded by the codec; the new
    pieces get fresh ids, indices 0.. in order, the segment's id and round-robin nodes, are
    written and recorded, and then every listed old piece is removed. */
module Repair {
  import opened Ids
  import opened Records
  import opened Store
  import opened Placement
  import opened Seqs
  import opened Upload

  /** What a repair produces: the new catalog and blob store, the generator after its
      draws, and the new pieces. */
  datatype Repaired = Repaired(catalog: Catalog, blobs: Blobs, gen: IdGen, pieces: seq<Piece>)

  /** The download loop: each listed piece is downloaded, and skipped only when the record
      handed back carries the nil id. */
  function Kept(cat: Catalog, blobs: Blobs, ids: seq<Uuid>): seq<Piece>
    requires forall i :: 0 <= i < |ids| ==> ids[i] in cat.pieces
  {
    if |ids| == 0 then []
    else
      var p := DownloadPiece(cat, blobs, ids[|ids| - 1]);
      Kept(cat, blobs, ids[..|ids| - 1]) + (if p.id == Nil then [] else [p])
  }

  /** With no nil id listed, every listed piece reaches the codec, in order, including those
      whose blob is missing, which arrive without bytes. */
  lemma {:induction false} KeptAll(cat: Catalog, blobs: Blobs, ids: seq<Uuid>)
    requires forall i :: 0 <= i < |ids| ==> ids[i] in cat.pieces
    requires forall i :: 0 <= i < |ids| ==> ids[i] != Nil
    ensures |Kept(cat, blobs, ids)| == |ids|
    ensures forall i :: 0 <= i < |ids| ==>
      var p := Kept(cat, blobs, ids)[i];
      && p.id == ids[i] && p.nodeId == cat.pieces[ids[i]].nodeId
      && (!AuditPiece(cat, blobs, ids[i]) ==> p.data == [])
  {
    if |ids| > 0 {
      KeptAll(cat, blobs, ids[..|ids| - 1]);
    }
  }

  /** A nil id is the only one dropped: the codec receives one piece per listed non-nil id. */
  lemma {:induction false} KeptCount(cat: Catalog, blobs: Blobs, ids: seq<Uuid>)
    requires forall i :: 0 <= i < |ids| ==> ids[i] in cat.pieces
    ensures |Kept(cat, blobs, ids)| == |ids| - NilCount(ids)
  {
    if |ids| > 0 {
      KeptCount(cat, blobs, ids[..|ids| - 1]);
    }
  }

  /** How many listed ids are nil. */
  function NilCount(ids: seq<Uuid>): nat
  {
    if |ids| == 0 then 0 else NilCount(ids[..|ids| - 1]) + (if ids[|ids| - 1] == Nil then 1 else 0)
  }

  /** The codec's new pieces: split the kept pieces into shares, merge the shares into
      stripes, encode each stripe again and merge the shares into pieces. */
  function RecodedPieces(dp: Codec, kept: seq<Piece>): seq<Piece>
  {
    var shares := seq(|kept|, i requires 0 <= i < |kept| => dp.splitPiece(kept[i]));
    dp.mergeToPieces(EncodeStripes(dp, dp.mergeToStripes(shares)))
  }

  /** Stamping the codec's new pieces: each draws a fresh id and takes the next node of the
      round-robin walk, index `i` and the segment id; unlike upload, the shares keep the piece
      id the codec gave them. */
  function StampRepaired(coded: seq<Piece>, gen: IdGen, pool: seq<Uuid>, segId: Uuid): (r: (seq<Piece>, IdGen))
    requires |pool| > 0 || |coded| == 0
    ensures |r.0| == |coded| && gen.last <= r.1.last
    ensures forall i :: 0 <= i < |r.0| ==>
      && r.0[i].index == i && r.0[i].segmentId == segId
      && r.0[i].nodeId == pool[Slot(i, |pool|)]
      && r.0[i].data == coded[i].data && r.0[i].shares == coded[i].shares
      && gen.last < r.0[i].id <= r.1.last
    ensures forall i, j :: 0 <= i < j < |r.0| ==> r.0[i].id < r.0[j].id
    ensures Distinct(pool) && |r.0| <= |pool| ==>
      forall i, j :: 0 <= i < j < |r.0| ==> r.0[i].nodeId != r.0[j].nodeId
  {
    var (ids, gen') := DrawMany(gen, |coded|);
    var nodes := RoundRobin(|coded|, pool);
    var pieces := seq(|coded|, i requires 0 <= i < |coded| =>
      coded[i].(id := ids[i], index := i, segmentId := segId, nodeId := nodes[i]));
    (pieces, gen')
  }

  /** The removal loop: `remove_piece` for each listed id, in order. */
  function RemoveAll(cat: Catalog, blobs: Blobs, ids: seq<Uuid>): (r: (Catalog, Blobs))
    requires Distinct(ids)
    requires forall i :: 0 <= i < |ids| ==> ids[i] in cat.pieces
    ensures r.0.files == cat.files && r.0.segments == cat.segments
    ensures forall i :: 0 <= i < |ids| ==> ids[i] !in r.0.pieces
    ensures forall u :: u in r.0.pieces <==> u in cat.pieces && u !in ids
    ensures forall u :: u in r.0.pieces ==> r.0.pieces[u] == cat.pieces[u]
    ensures forall key :: key in r.1 <==> key in blobs && forall i :: 0 <= i < |ids| ==> key != (cat.pieces[ids[i]].nodeId, ids[i])
    ensures forall key :: key in r.1 ==> r.1[key] == blobs[key]
    decreases |ids|
  {
    if |ids| == 0 then (cat, blobs)
    else
      var (cat1, blobs1) := RemovePiece(cat, blobs, ids[0]);
      var rest := ids[1..];
      assert forall i :: 0 <= i < |rest| ==> rest[i] == ids[i + 1] && rest[i] != ids[0];
      var r := RemoveAll(cat1, blobs1, rest);
      assert forall i :: 0 <= i < |rest| ==> cat1.pieces[rest[i]] == cat.pieces[rest[i]];
      assert forall u :: u in ids <==> u == ids[0] || u in rest;
      r
  }

  /** The new pieces of a repair, before they are written: one per piece the codec produced
      from the kept pieces. Piece `i` carries the codec's `i`-th bytes and shares, index `i`,
      the segment's id and the node at the wrapped position of `i`, under an id never issued
      before and drawn in increasing order. When the codec yields no more pieces than the
      pool has nodes, and the pool repeats no node, no two new pieces share a node. */
  function NewPieces(cat: Catalog, blobs: Blobs, gen: IdGen, pool: seq<Uuid>, processor: Processor,
                     segId: Uuid, pieceIds: seq<Uuid>): (r: (seq<Piece>, IdGen))
    requires segId in cat.segments
    requires forall i :: 0 <= i < |pieceIds| ==> pieceIds[i] in cat.pieces
    requires |pool| > 0 || |RecodedPieces(processor(SelectFile(cat, ById(cat.segments[segId].fileId)).cfg), Kept(cat, blobs, pieceIds))| == 0
    ensures var dp := processor(SelectFile(cat, ById(cat.segments[segId].fileId)).cfg);
      var coded := RecodedPieces(dp, Kept(cat, blobs, pieceIds));
      && |r.0| == |coded|
      && gen.last <= r.1.last
      && (forall i :: 0 <= i < |r.0| ==>
            && r.0[i].index == i && r.0[i].segmentId == segId
            && r.0[i].nodeId == pool[Slot(i, |pool|)]
            && r.0[i].data == coded[i].data && r.0[i].shares == coded[i].shares
            && gen.last < r.0[i].id <= r.1.last)
      && (forall i, j :: 0 <= i < j < |r.0| ==> r.0[i].id < r.0[j].id)
    ensures Distinct(pool) && |r.0| <= |pool| ==>
      forall i, j :: 0 <= i < j < |r.0| ==> r.0[i].nodeId != r.0[j].nodeId
  {
    var dp := processor(SelectFile(cat, ById(cat.segments[segId].fileId)).cfg);
    StampRepaired(RecodedPieces(dp, Kept(cat, blobs, pieceIds)), gen, pool, segId)
  }

  /** `repair_segment`, given the ids the ordered piece query lists for the segment (distinct,
      each naming a stored piece), over a non-empty node pool. Every listed old piece is gone
      from the catalog afterwards, whether or not its blob could be deleted. */
  function RepairSegment(cat: Catalog, blobs: Blobs, gen: IdGen, pool: seq<Uuid>, processor: Processor,
                         segId: Uuid, pieceIds: seq<Uuid>): (r: Repaired)
    requires |pool| > 0 && segId in cat.segments
    requires Distinct(pieceIds)
    requires forall i :: 0 <= i < |pieceIds| ==> pieceIds[i] in cat.pieces
    ensures forall i :: 0 <= i < |pieceIds| ==> pieceIds[i] !in r.catalog.pieces
    ensures forall i :: 0 <= i < |pieceIds| ==> (cat.pieces[pieceIds[i]].nodeId, pieceIds[i]) !in r.blobs
    ensures r.catalog.files == cat.files && r.catalog.segments == cat.segments
  {
    var (pieces, gen') := NewPieces(cat, blobs, gen, pool, processor, segId, pieceIds);
    var (cat1, blobs1) := ApplyPieces(cat, blobs, pieces);
    PutAllKeeps(cat.pieces, PieceRows(pieces));
    var (cat2, blobs2) := RemoveAll(cat1, blobs1, pieceIds);
    Repaired(cat2, blobs2, gen', pieces)
  }

  /** A repair records every new piece under a freshly drawn id, and keeps the row after the
      old pieces are removed. */
  lemma RepairRecordsNew(cat: Catalog, blobs: Blobs, gen: IdGen, pool: seq<Uuid>, processor: Processor,
                         segId: Uuid, pieceIds: seq<Uuid>)
    requires |pool| > 0 && segId in cat.segments
    requires Distinct(pieceIds)
    requires forall i :: 0 <= i < |pieceIds| ==> pieceIds[i] in cat.pieces
    requires AllIssued(cat, blobs, gen)
    ensures var r := RepairSegment(cat, blobs, gen, pool, processor, segId, pieceIds);
      forall i :: 0 <= i < |r.pieces| ==>
        var p := r.pieces[i];
        && !Issued(gen, p.id) && Issued(r.gen, p.id)
        && p.id in r.catalog.pieces && r.catalog.pieces[p.id] == RowOf(p)
  {
    var (pieces, gen') := NewPieces(cat, blobs, gen, pool, processor, segId, pieceIds);
    ApplyPiecesFresh(cat, blobs, pieces, gen.last, gen'.last);
    PutAllKeeps(cat.pieces, PieceRows(pieces));
    assert forall i :: 0 <= i < |pieceIds| ==> pieceIds[i] <= gen.last;
    forall i | 0 <= i < |pieces|
      ensures pieces[i].id !in pieceIds
    {
    }
  }

  /** A repair writes every new piece's bytes to a blob under its node and id, and keeps the
      blob after the old pieces are removed. */
  lemma RepairWritesNew(cat: Catalog, blobs: Blobs, gen: IdGen, pool: seq<Uuid>, processor: Processor,
                        segId: Uuid, pieceIds: seq<Uuid>)
    requires |pool| > 0 && segId in cat.segments
    requires Distinct(pieceIds)
    requires forall i :: 0 <= i < |pieceIds| ==> pieceIds[i] in cat.pieces
    requires AllIssued(cat, blobs, gen)
    ensures var r := RepairSegment(cat, blobs, gen, pool, processor, segId, pieceIds);
      forall i :: 0 <= i < |r.pieces| ==>
        var p := r.pieces[i];
        (p.nodeId, p.id) in r.blobs && r.blobs[(p.nodeId, p.id)] == p.data
  {
    var (pieces, gen') := NewPieces(cat, blobs, gen, pool, processor, segId, pieceIds);
    ApplyPiecesFresh(cat, blobs, pieces, gen.last, gen'.last);
    var (cat1, blobs1) := ApplyPieces(cat, blobs, pieces);
    PutAllKeeps(cat.pieces, PieceRows(pieces));
    assert forall i :: 0 <= i < |pieceIds| ==> pieceIds[i] <= gen.last;
    forall i | 0 <= i < |pieces|
      ensures forall j :: 0 <= j < |pieceIds| ==> (pieces[i].nodeId, pieces[i].id) != (cat1.pieces[pieceIds[j]].nodeId, pieceIds[j])
    {
    }
  }

  /** A repair leaves the file and segment tables alone, keeps every piece row that was not
      listed and every blob that is not a listed piece's, and adds rows and blobs only under
      freshly drawn ids. */
  lemma RepairKeepsOthers(cat: Catalog, blobs: Blobs, gen: IdGen, pool: seq<Uuid>, processor: Processor,
                          segId: Uuid, pieceIds: seq<Uuid>)
    requires |pool| > 0 && segId in cat.segments
    requires Distinct(pieceIds)
    requires forall i :: 0 <= i < |pieceIds| ==> pieceIds[i] in cat.pieces
    requires AllIssued(cat, blobs, gen)
    ensures var r := RepairSegment(cat, blobs, gen, pool, processor, segId, pieceIds);
      && (forall u :: u in cat.pieces && u !in pieceIds ==> u in r.catalog.pieces && r.catalog.pieces[u] == cat.pieces[u])
      && (forall u :: u in r.catalog.pieces ==> (u in cat.pieces && u !in pieceIds) || gen.last < u <= r.gen.last)
      && (forall key :: key in blobs && (forall i :: 0 <= i < |pieceIds| ==> key != (cat.pieces[pieceIds[i]].nodeId, pieceIds[i])) ==>
            key in r.blobs && r.blobs[key] == blobs[key])
      && (forall key :: key in r.blobs ==> key in blobs || gen.last < key.1 <= r.gen.last)
  {
    var (pieces, gen') := NewPieces(cat, blobs, gen, pool, processor, segId, pieceIds);
    ApplyPiecesFresh(cat, blobs, pieces, gen.last, gen'.last);
    PutAllKeeps(cat.pieces, PieceRows(pieces));
  }

  /** Every id a repair leaves in the stores has been issued by the generator it hands back. */
  lemma RepairStaysIssued(cat: Catalog, blobs: Blobs, gen: IdGen, pool: seq<Uuid>, processor: Processor,
                          segId: Uuid, pieceIds: seq<Uuid>)
    requires |pool| > 0 && segId in cat.segments
    requires Distinct(pieceIds)
    requires forall i :: 0 <= i < |pieceIds| ==> pieceIds[i] in cat.pieces
    requires AllIssued(cat, blobs, gen)
    ensures var r := RepairSegment(cat, blobs, gen, pool, processor, segId, pieceIds);
      AllIssued(r.catalog, r.blobs, r.gen)
  {
    RepairKeepsOthers(cat, blobs, gen, pool, processor, segId, pieceIds);
  }
}
