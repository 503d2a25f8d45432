/** `download_file`: the piece rows of a file, ordered by (segment index, piece index), are
    cut into runs of equal segment id; each run is fetched, split into shares, decoded and
    reassembled into its segment. */
module Download {
  import opened Ids
  import opened Records
  import opened Store

  /** One row of the ordered piece query: piece id, node id, segment id. */
  datatype PieceRow = PieceRow(id: Uuid, nodeId: Uuid, segmentId: Uuid)

  /** A run of rows sharing one segment id. */
  datatype Group = Group(segmentId: Uuid, rows: seq<PieceRow>)

  /** The rows of a sequence of groups, in order. */
  function RowsOf(gs: seq<Group>): seq<PieceRow>
  {
    if |gs| == 0 then [] else RowsOf(gs[..|gs| - 1]) + gs[|gs| - 1].rows
  }

  /** What the grouping loop keeps: every group is a non-empty run of rows carrying the
      group's segment id, and neighbouring groups carry different ids. */
  ghost predicate Runs(gs: seq<Group>)
  {
    && (forall g :: 0 <= g < |gs| ==> |gs[g].rows| > 0)
    && (forall g, i :: 0 <= g < |gs| && 0 <= i < |gs[g].rows| ==> gs[g].rows[i].segmentId == gs[g].segmentId)
    && (forall g :: 0 <= g < |gs| - 1 ==> gs[g].segmentId != gs[g + 1].segmentId)
  }

  /** One turn of the row loop: a row whose segment id differs from the previous row's opens
      a new group (the first row always does, the initial "previous id" being an empty string
      no rendered id equals); otherwise the row joins the last group. */
  function Step(gs: seq<Group>, r: PieceRow): seq<Group>
  {
    if |gs| > 0 && gs[|gs| - 1].segmentId == r.segmentId then
      gs[..|gs| - 1] + [Group(r.segmentId, gs[|gs| - 1].rows + [r])]
    else
      gs + [Group(r.segmentId, [r])]
  }

  lemma {:induction false} StepKeepsRuns(gs: seq<Group>, r: PieceRow)
    requires Runs(gs)
    ensures Runs(Step(gs, r))
    ensures RowsOf(Step(gs, r)) == RowsOf(gs) + [r]
  {
    var gs' := Step(gs, r);
    if |gs| > 0 && gs[|gs| - 1].segmentId == r.segmentId {
      assert gs'[..|gs'| - 1] == gs[..|gs| - 1];
    } else {
      assert gs'[..|gs'| - 1] == gs;
    }
  }

  /** The row loop over all rows: its groups, read back in order, are exactly the rows. */
  function GroupRows(rows: seq<PieceRow>): (gs: seq<Group>)
    ensures RowsOf(gs) == rows
    ensures Runs(gs)
    decreases |rows|
  {
    if |rows| == 0 then []
    else
      var init := GroupRows(rows[..|rows| - 1]);
      StepKeepsRuns(init, rows[|rows| - 1]);
      assert rows == rows[..|rows| - 1] + [rows[|rows| - 1]];
      Step(init, rows[|rows| - 1])
  }

  /** Rows of the same segment stand together: this is what ordering the query by segment
      index guarantees, segment indices being distinct within a file. */
  ghost predicate Contiguous(rows: seq<PieceRow>)
  {
    forall i, j, k :: 0 <= i < j < k < |rows| && rows[i].segmentId == rows[k].segmentId ==>
      rows[j].segmentId == rows[i].segmentId
  }

  /** Rows ordered by their segment's index, within a file whose segments have distinct
      indices, leave each segment's rows together. */
  lemma IndexOrderContiguous(cat: Catalog, rows: seq<PieceRow>)
    requires forall i :: 0 <= i < |rows| ==> rows[i].segmentId in cat.segments
    requires forall i, j :: 0 <= i < j < |rows| ==>
      cat.segments[rows[i].segmentId].index <= cat.segments[rows[j].segmentId].index
    requires forall i, j ::
      && 0 <= i < |rows| && 0 <= j < |rows|
      && cat.segments[rows[i].segmentId].index == cat.segments[rows[j].segmentId].index
      ==> rows[i].segmentId == rows[j].segmentId
    ensures Contiguous(rows)
  {
    forall i, j, k | 0 <= i < j < k < |rows| && rows[i].segmentId == rows[k].segmentId
      ensures rows[j].segmentId == rows[i].segmentId
    {
      assert cat.segments[rows[i].segmentId].index <= cat.segments[rows[j].segmentId].index;
      assert cat.segments[rows[j].segmentId].index <= cat.segments[rows[k].segmentId].index;
    }
  }

  /** Where group `g` starts among the rows. */
  function Offset(gs: seq<Group>, g: nat): nat
    requires g <= |gs|
  {
    |RowsOf(gs[..g])|
  }

  lemma {:induction false} RowsOfAt(gs: seq<Group>, g: nat, t: nat)
    requires g < |gs| && t < |gs[g].rows|
    ensures Offset(gs, g) + t < |RowsOf(gs)|
    ensures RowsOf(gs)[Offset(gs, g) + t] == gs[g].rows[t]
    decreases |gs|
  {
    var init := gs[..|gs| - 1];
    if g < |gs| - 1 {
      assert init[..g] == gs[..g];
      RowsOfAt(init, g, t);
    } else {
      assert init == gs[..g];
    }
  }

  lemma {:induction false} OffsetGrows(gs: seq<Group>, g1: nat, g2: nat)
    requires g1 < g2 <= |gs|
    ensures Offset(gs, g1) + |gs[g1].rows| <= Offset(gs, g2)
    decreases g2 - g1
  {
    assert gs[..g2][..g2 - 1] == gs[..g2 - 1];
    if g1 < g2 - 1 {
      OffsetGrows(gs, g1, g2 - 1);
    }
  }

  /** The contiguity of the rows, at three given positions. */
  lemma {:induction false} ContiguousAt(rows: seq<PieceRow>, i: nat, j: nat, k: nat)
    requires Contiguous(rows)
    requires i < j < k < |rows| && rows[i].segmentId == rows[k].segmentId
    ensures rows[j].segmentId == rows[i].segmentId
  {
  }

  /** Two groups with a differently labelled group between them: contiguity keeps their
      labels apart. */
  lemma {:induction false} GroupPairDistinct(gs: seq<Group>, g1: nat, g2: nat)
    requires g1 < g2 < |gs|
    requires |gs[g1].rows| > 0 && |gs[g1 + 1].rows| > 0 && |gs[g2].rows| > 0
    requires gs[g1].rows[0].segmentId == gs[g1].segmentId
    requires gs[g1 + 1].rows[0].segmentId == gs[g1 + 1].segmentId
    requires gs[g2].rows[0].segmentId == gs[g2].segmentId
    requires gs[g1].segmentId != gs[g1 + 1].segmentId
    requires Contiguous(RowsOf(gs))
    ensures gs[g1].segmentId != gs[g2].segmentId
  {
    var a, b, c := Offset(gs, g1), Offset(gs, g1 + 1), Offset(gs, g2);
    RowsOfAt(gs, g1, 0);
    RowsOfAt(gs, g1 + 1, 0);
    RowsOfAt(gs, g2, 0);
    OffsetGrows(gs, g1, g1 + 1);
    if g1 + 1 < g2 {
      OffsetGrows(gs, g1 + 1, g2);
      if gs[g1].segmentId == gs[g2].segmentId {
        ContiguousAt(RowsOf(gs), a, b, c);
      }
    }
  }

  /** When the rows of each segment stand together, every segment gets exactly one group:
      no two groups carry the same segment id. */
  lemma {:induction false} GroupsDistinct(rows: seq<PieceRow>)
    requires Contiguous(rows)
    ensures forall g1, g2 :: 0 <= g1 < g2 < |GroupRows(rows)| ==>
      GroupRows(rows)[g1].segmentId != GroupRows(rows)[g2].segmentId
  {
    var gs := GroupRows(rows);
    forall g1, g2 | 0 <= g1 < g2 < |gs|
      ensures gs[g1].segmentId != gs[g2].segmentId
    {
      GroupPairDistinct(gs, g1, g2);
    }
  }

  /** The segments a download hands back, with the file record it looked up. */
  datatype Downloaded = Downloaded(file: FileRec, segments: seq<Segment>)

  /** The pieces the codec receives for one group: one per row, in row order, carrying the
      row's ids and the bytes of the piece's blob, or no bytes when the blob is missing (a
      missing blob does not drop its piece). The query does not read the index column, so each
      piece keeps whatever index a default piece carries; the piece type's initializer is not
      part of this model, the model writes 0 and the contract says nothing about it. */
  function FetchGroup(cat: Catalog, blobs: Blobs, group: Group): (ps: seq<Piece>)
    requires forall i :: 0 <= i < |group.rows| ==> group.rows[i].id in cat.pieces
    ensures |ps| == |group.rows|
    ensures forall i :: 0 <= i < |ps| ==>
      var row := group.rows[i];
      && ps[i].id == row.id && ps[i].segmentId == row.segmentId && ps[i].nodeId == row.nodeId
      && var key := (cat.pieces[row.id].nodeId, row.id);
         ps[i].data == (if key in blobs then blobs[key] else [])
  {
    seq(|group.rows|, i requires 0 <= i < |group.rows| =>
      var row := group.rows[i];
      Piece(row.id, 0, row.segmentId, row.nodeId, DownloadPiece(cat, blobs, row.id).data, []))
  }

  /** Every group names stored pieces and a stored segment. */
  ghost predicate GroupsInCatalog(cat: Catalog, gs: seq<Group>)
  {
    forall g :: 0 <= g < |gs| ==>
      && gs[g].segmentId in cat.segments
      && forall i :: 0 <= i < |gs[g].rows| ==> gs[g].rows[i].id in cat.pieces
  }

  /** Rows that name stored pieces and segments group into groups that do too. */
  lemma {:induction false} GroupsInCatalogFromRows(cat: Catalog, rows: seq<PieceRow>)
    requires forall i :: 0 <= i < |rows| ==> rows[i].id in cat.pieces && rows[i].segmentId in cat.segments
    ensures GroupsInCatalog(cat, GroupRows(rows))
  {
    var gs := GroupRows(rows);
    forall g, i | 0 <= g < |gs| && 0 <= i < |gs[g].rows|
      ensures gs[g].rows[i].id in cat.pieces
    {
      RowsOfAt(gs, g, i);
    }
    forall g | 0 <= g < |gs|
      ensures gs[g].segmentId in cat.segments
    {
      RowsOfAt(gs, g, 0);
    }
  }

  /** One segment per group: split the group's pieces into shares, merge the shares into
      stripes and the stripes into the segment's bytes, under the segment's catalog record. */
  function DecodeGroups(cat: Catalog, blobs: Blobs, dp: Codec, gs: seq<Group>): (segs: seq<Segment>)
    requires GroupsInCatalog(cat, gs)
    ensures |segs| == |gs|
    ensures forall g :: 0 <= g < |gs| ==>
      && segs[g].id == gs[g].segmentId && segs[g].id in cat.segments
      && segs[g].index == cat.segments[segs[g].id].index
      && segs[g].fileId == cat.segments[segs[g].id].fileId
  {
    seq(|gs|, g requires 0 <= g < |gs| =>
      var pieces := FetchGroup(cat, blobs, gs[g]);
      var shares := seq(|pieces|, i requires 0 <= i < |pieces| => dp.splitPiece(pieces[i]));
      var rec := cat.segments[gs[g].segmentId];
      Segment(gs[g].segmentId, rec.index, rec.fileId, dp.mergeToSegment(dp.mergeToStripes(shares))))
  }

  /** `download_file`, given the rows of the ordered piece query for the file's name (every
      row the join yields names a stored piece and a stored segment): the codec is built from
      the configuration of the file found by name, and one segment comes back per run of
      rows, in row order. */
  function DownloadFile(cat: Catalog, blobs: Blobs, processor: Processor, name: string,
                        rows: seq<PieceRow>): (d: Downloaded)
    requires forall i :: 0 <= i < |rows| ==> rows[i].id in cat.pieces && rows[i].segmentId in cat.segments
    ensures d.file == SelectFile(cat, ByName(name))
    ensures |d.segments| == |GroupRows(rows)|
    ensures forall g :: 0 <= g < |d.segments| ==>
      && d.segments[g].id == GroupRows(rows)[g].segmentId && d.segments[g].id in cat.segments
      && d.segments[g].index == cat.segments[d.segments[g].id].index
      && d.segments[g].fileId == cat.segments[d.segments[g].id].fileId
  {
    var file := SelectFile(cat, ByName(name));
    GroupsInCatalogFromRows(cat, rows);
    Downloaded(file, DecodeGroups(cat, blobs, processor(file.cfg), GroupRows(rows)))
  }

  /** When the rows of each segment stand together, as ordering by segment index makes them,
      no segment comes back twice, and the segment ids that come back are exactly those of
      the rows. */
  lemma {:induction false} DownloadDistinctSegments(cat: Catalog, blobs: Blobs, processor: Processor, name: string, rows: seq<PieceRow>)
    requires forall i :: 0 <= i < |rows| ==> rows[i].id in cat.pieces && rows[i].segmentId in cat.segments
    requires Contiguous(rows)
    ensures var d := DownloadFile(cat, blobs, processor, name, rows);
      forall g1, g2 :: 0 <= g1 < g2 < |d.segments| ==> d.segments[g1].id != d.segments[g2].id
  {
    GroupsDistinct(rows);
    var d := DownloadFile(cat, blobs, processor, name, rows);
    var gs := GroupRows(rows);
    forall g1, g2 | 0 <= g1 < g2 < |d.segments|
      ensures d.segments[g1].id != d.segments[g2].id
    {
      assert d.segments[g1].id == gs[g1].segmentId;
      assert d.segments[g2].id == gs[g2].segmentId;
    }
  }
}
