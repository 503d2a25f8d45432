/** `scan_corrupted_segments`: every file, every segment of the file in index order, and
    every piece row of the segment are visited; a segment whose passing pieces number fewer
    than the file's `n` is reported for repair, with the file's `k` and the number of passing
    pieces, and each file's number of reported segments is tallied under its id. */
module Scan {
  import opened Outcomes
  import opened Ids
  import opened Records
  import opened Store

  /** The piece ids the query lists for one segment. Both queries are left joins: a segment
      with no piece rows comes back as one row whose id column is NULL, written here as an
      empty list. */
  datatype SegmentScan = SegmentScan(id: Uuid, pieces: seq<Uuid>)

  /** A file row with its segments in index order, as the queries list them; a file with no
      segment rows (one NULL row from the left join) has an empty list. */
  datatype FileScan = FileScan(file: FileRec, segments: seq<SegmentScan>)

  /** Building a string from a NULL column aborts the whole scan. */
  datatype ScanError = NullColumn

  /** One reported segment: its id, the file's `k`, and how many of its pieces passed the
      audit (the three parallel result vectors, read position by position). */
  datatype Entry = Entry(segmentId: Uuid, k: int, r: int)

  /** The whole result: the reported segments in visiting order, and the per-file tally. */
  datatype Report = Report(entries: seq<Entry>, tally: map<Uuid, int>)

  /** Every piece id a query lists names a catalog row (the audit looks the row up). */
  predicate SegmentListed(cat: Catalog, s: SegmentScan)
  {
    forall p :: 0 <= p < |s.pieces| ==> s.pieces[p] in cat.pieces
  }

  predicate FileListed(cat: Catalog, segs: seq<SegmentScan>)
  {
    forall j :: 0 <= j < |segs| ==> SegmentListed(cat, segs[j])
  }

  predicate Listed(cat: Catalog, scans: seq<FileScan>)
  {
    forall i :: 0 <= i < |scans| ==> FileListed(cat, scans[i].segments)
  }

  /** Whether one file's queries return a NULL id: the file has no segment rows, or one of
      its segments has no piece rows. */
  predicate NullRow(s: FileScan)
  {
    |s.segments| == 0 || exists j :: 0 <= j < |s.segments| && |s.segments[j].pieces| == 0
  }

  /** The counting loop: how many of the listed pieces pass the audit. */
  function Present(cat: Catalog, blobs: Blobs, ids: seq<Uuid>): int
    requires forall p :: 0 <= p < |ids| ==> ids[p] in cat.pieces
  {
    if |ids| == 0 then 0
    else Present(cat, blobs, ids[..|ids| - 1]) + (if AuditPiece(cat, blobs, ids[|ids| - 1]) then 1 else 0)
  }

  /** The report a segment contributes: nothing when at least `n` pieces pass, otherwise one
      entry. */
  function Flag(cat: Catalog, blobs: Blobs, f: FileRec, s: SegmentScan): seq<Entry>
    requires SegmentListed(cat, s)
  {
    var count := Present(cat, blobs, s.pieces);
    if count < f.cfg.n then [Entry(s.id, f.cfg.k, count)] else []
  }

  /** The entries of one file's segments, in segment order. */
  function FileEntries(cat: Catalog, blobs: Blobs, f: FileRec, segs: seq<SegmentScan>): seq<Entry>
    requires FileListed(cat, segs)
  {
    if |segs| == 0 then []
    else FileEntries(cat, blobs, f, segs[..|segs| - 1]) + Flag(cat, blobs, f, segs[|segs| - 1])
  }

  /** The entries of all files, in file order. */
  function AllEntries(cat: Catalog, blobs: Blobs, scans: seq<FileScan>): seq<Entry>
    requires Listed(cat, scans)
  {
    if |scans| == 0 then []
    else
      var last := scans[|scans| - 1];
      AllEntries(cat, blobs, scans[..|scans| - 1]) + FileEntries(cat, blobs, last.file, last.segments)
  }

  /** The tally: each file's count of reported segments is placed under its id; the map's
      place-if-absent keeps the first file's count when an id repeats. */
  function Tally(cat: Catalog, blobs: Blobs, scans: seq<FileScan>): map<Uuid, int>
    requires Listed(cat, scans)
  {
    if |scans| == 0 then map[]
    else
      var last := scans[|scans| - 1];
      var t := Tally(cat, blobs, scans[..|scans| - 1]);
      if last.file.id in t then t else t[last.file.id := |FileEntries(cat, blobs, last.file, last.segments)|]
  }

  /** The scan as written: the segment and piece ids are read with a string constructor that
      does not accept the NULL id of an empty left join, so the first file without segments, or
      segment without pieces, ends the scan with an exception and no report. Without such a
      row, the report is the one the loops below build. */
  function ScanAsWritten(cat: Catalog, blobs: Blobs, scans: seq<FileScan>): (r: Result<Report, ScanError>)
    requires Listed(cat, scans)
    ensures r.Failure? <==> exists i :: 0 <= i < |scans| && NullRow(scans[i])
    ensures r.Success? ==> r.value == Report(AllEntries(cat, blobs, scans), Tally(cat, blobs, scans))
  {
    if |scans| == 0 then Success(Report([], map[]))
    else
      var init := scans[..|scans| - 1];
      var last := scans[|scans| - 1];
      assert forall i :: 0 <= i < |init| ==> init[i] == scans[i];
      var prev := ScanAsWritten(cat, blobs, init);
      if prev.Failure? then prev
      else if NullRow(last) then
        assert NullRow(scans[|scans| - 1]);
        Failure(NullColumn)
      else
        assert forall i :: 0 <= i < |scans| ==> !NullRow(scans[i]) by {
          assert forall i :: 0 <= i < |init| ==> !NullRow(init[i]);
        }
        var entries := FileEntries(cat, blobs, last.file, last.segments);
        var tally := if last.file.id in prev.value.tally then prev.value.tally
                     else prev.value.tally[last.file.id := |entries|];
        Success(Report(prev.value.entries + entries, tally))
  }

  /** A file without segments stops the scan as written, where skipping the NULL row tallies
      it with no reported segment; a segment without pieces stops it too, where skipping the
      NULL row reports it with no passing piece. */
  lemma NullRowStopsScan(cat: Catalog, blobs: Blobs, f: FileRec, s: Uuid)
    ensures ScanAsWritten(cat, blobs, [FileScan(f, [])]).Failure?
    ensures AllEntries(cat, blobs, [FileScan(f, [])]) == []
    ensures Tally(cat, blobs, [FileScan(f, [])]) == map[f.id := 0]
    ensures ScanAsWritten(cat, blobs, [FileScan(f, [SegmentScan(s, [])])]).Failure?
    ensures f.cfg.n > 0 ==> AllEntries(cat, blobs, [FileScan(f, [SegmentScan(s, [])])]) == [Entry(s, f.cfg.k, 0)]
  {
    var one := [FileScan(f, [SegmentScan(s, [])])];
    assert one[..0] == [];
    assert one[0].segments[..0] == [];
    assert [FileScan(f, [])][..0] == [];
  }

  /** The audit loop over one segment's listed pieces. */
  method CountPresent(cat: Catalog, blobs: Blobs, ids: seq<Uuid>) returns (count: int)
    requires forall p :: 0 <= p < |ids| ==> ids[p] in cat.pieces
    ensures count == Present(cat, blobs, ids)
  {
    count := 0;
    for p := 0 to |ids|
      invariant count == Present(cat, blobs, ids[..p])
    {
      if AuditPiece(cat, blobs, ids[p]) {
        count := count + 1;
      }
      assert ids[..p + 1][..p] == ids[..p];
    }
    assert ids[..|ids|] == ids;
  }

  /** The segment loop of one file: the entries it appends and the number of segments it
      reports. */
  method ScanFile(cat: Catalog, blobs: Blobs, f: FileRec, segs: seq<SegmentScan>)
    returns (entries: seq<Entry>, corrupted: int)
    requires FileListed(cat, segs)
    ensures entries == FileEntries(cat, blobs, f, segs)
    ensures corrupted == |entries|
  {
    entries := [];
    corrupted := 0;
    for j := 0 to |segs|
      invariant entries == FileEntries(cat, blobs, f, segs[..j])
      invariant corrupted == |entries|
    {
      var seg := segs[j];
      var count := CountPresent(cat, blobs, seg.pieces);
      if count < f.cfg.n {
        corrupted := corrupted + 1;
        entries := entries + [Entry(seg.id, f.cfg.k, count)];
      }
      assert segs[..j + 1][..j] == segs[..j];
    }
    assert segs[..|segs|] == segs;
  }

  /** `scan_corrupted_segments` as the loops run it, with the NULL row of an empty left join
      skipped: files in table order, segments in index order, pieces in row order; the counted
      audits decide each segment, and the tally is placed once per file, after its segments. */
  method ScanCorrupted(cat: Catalog, blobs: Blobs, scans: seq<FileScan>) returns (report: Report)
    requires Listed(cat, scans)
    ensures report.entries == AllEntries(cat, blobs, scans)
    ensures report.tally == Tally(cat, blobs, scans)
  {
    var entries: seq<Entry> := [];
    var tally: map<Uuid, int> := map[];
    for i := 0 to |scans|
      invariant entries == AllEntries(cat, blobs, scans[..i])
      invariant tally == Tally(cat, blobs, scans[..i])
    {
      var fileEntries, corrupted := ScanFile(cat, blobs, scans[i].file, scans[i].segments);
      entries := entries + fileEntries;
      if scans[i].file.id !in tally {
        tally := tally[scans[i].file.id := corrupted];
      }
      assert scans[..i + 1][..i] == scans[..i];
    }
    assert scans[..|scans|] == scans;
    report := Report(entries, tally);
  }

  /** At most every listed piece passes, and all of them pass exactly when the count reaches
      the number listed. */
  lemma {:induction false} PresentBounds(cat: Catalog, blobs: Blobs, ids: seq<Uuid>)
    requires forall p :: 0 <= p < |ids| ==> ids[p] in cat.pieces
    ensures 0 <= Present(cat, blobs, ids) <= |ids|
    ensures Present(cat, blobs, ids) == |ids| <==> forall p :: 0 <= p < |ids| ==> AuditPiece(cat, blobs, ids[p])
  {
    if |ids| > 0 {
      var init := ids[..|ids| - 1];
      PresentBounds(cat, blobs, init);
      if forall p :: 0 <= p < |ids| ==> AuditPiece(cat, blobs, ids[p]) {
        assert forall p :: 0 <= p < |init| ==> AuditPiece(cat, blobs, init[p]) by {
          forall p | 0 <= p < |init| ensures AuditPiece(cat, blobs, init[p]) {
            assert init[p] == ids[p];
          }
        }
      } else {
        var p :| 0 <= p < |ids| && !AuditPiece(cat, blobs, ids[p]);
        if p < |ids| - 1 {
          assert init[p] == ids[p];
        }
      }
    }
  }

  /** A segment listing exactly `n` pieces is reported exactly when one of them fails the
      audit. */
  lemma FullSegmentReported(cat: Catalog, blobs: Blobs, f: FileRec, seg: SegmentScan)
    requires SegmentListed(cat, seg)
    requires |seg.pieces| == f.cfg.n
    ensures Flag(cat, blobs, f, seg) != [] <==> exists p :: 0 <= p < |seg.pieces| && !AuditPiece(cat, blobs, seg.pieces[p])
  {
    PresentBounds(cat, blobs, seg.pieces);
  }

  /** The entries of one file are exactly the flags of its segments. */
  lemma {:induction false} FileEntriesMembers(cat: Catalog, blobs: Blobs, f: FileRec, segs: seq<SegmentScan>, e: Entry)
    requires FileListed(cat, segs)
    ensures e in FileEntries(cat, blobs, f, segs) <==> exists j :: 0 <= j < |segs| && Flag(cat, blobs, f, segs[j]) == [e]
    ensures |FileEntries(cat, blobs, f, segs)| <= |segs|
  {
    if |segs| > 0 {
      var init := segs[..|segs| - 1];
      FileEntriesMembers(cat, blobs, f, init, e);
      if e in FileEntries(cat, blobs, f, init) {
        var j :| 0 <= j < |init| && Flag(cat, blobs, f, init[j]) == [e];
        assert segs[j] == init[j];
      } else if e in Flag(cat, blobs, f, segs[|segs| - 1]) {
      } else {
        forall j | 0 <= j < |segs| ensures Flag(cat, blobs, f, segs[j]) != [e] {
          if j < |init| {
            assert segs[j] == init[j];
          }
        }
      }
    }
  }

  /** The entries of all files are exactly the flags of all their segments. */
  lemma {:induction false} AllEntriesFlags(cat: Catalog, blobs: Blobs, scans: seq<FileScan>, e: Entry)
    requires Listed(cat, scans)
    ensures e in AllEntries(cat, blobs, scans) <==>
      exists i, j :: 0 <= i < |scans| && 0 <= j < |scans[i].segments| && Flag(cat, blobs, scans[i].file, scans[i].segments[j]) == [e]
  {
    if |scans| > 0 {
      var init := scans[..|scans| - 1];
      var last := scans[|scans| - 1];
      AllEntriesFlags(cat, blobs, init, e);
      FileEntriesMembers(cat, blobs, last.file, last.segments, e);
      if e in AllEntries(cat, blobs, init) {
        var i, j :| 0 <= i < |init| && 0 <= j < |init[i].segments| && Flag(cat, blobs, init[i].file, init[i].segments[j]) == [e];
        assert scans[i] == init[i];
      } else if e in FileEntries(cat, blobs, last.file, last.segments) {
      } else {
        forall i, j | 0 <= i < |scans| && 0 <= j < |scans[i].segments|
          ensures Flag(cat, blobs, scans[i].file, scans[i].segments[j]) != [e]
        {
          if i < |init| {
            assert scans[i] == init[i];
          }
        }
      }
    }
  }

  /** A segment whose passing pieces number fewer than its file's `n` is reported, with the
      file's `k` and the number that passed. */
  lemma ShortSegmentReported(cat: Catalog, blobs: Blobs, scans: seq<FileScan>, i: nat, j: nat)
    requires Listed(cat, scans)
    requires i < |scans| && j < |scans[i].segments|
    requires Present(cat, blobs, scans[i].segments[j].pieces) < scans[i].file.cfg.n
    ensures var f, seg := scans[i].file, scans[i].segments[j];
      Entry(seg.id, f.cfg.k, Present(cat, blobs, seg.pieces)) in AllEntries(cat, blobs, scans)
  {
    var f, seg := scans[i].file, scans[i].segments[j];
    AllEntriesFlags(cat, blobs, scans, Entry(seg.id, f.cfg.k, Present(cat, blobs, seg.pieces)));
  }

  /** A segment listed once, at least `n` of whose pieces pass, is not reported. */
  lemma HealthySegmentNotReported(cat: Catalog, blobs: Blobs, scans: seq<FileScan>, i: nat, j: nat)
    requires Listed(cat, scans)
    requires i < |scans| && j < |scans[i].segments|
    requires forall i', j' :: 0 <= i' < |scans| && 0 <= j' < |scans[i'].segments| && (i', j') != (i, j) ==>
      scans[i'].segments[j'].id != scans[i].segments[j].id
    requires Present(cat, blobs, scans[i].segments[j].pieces) >= scans[i].file.cfg.n
    ensures forall e :: e in AllEntries(cat, blobs, scans) ==> e.segmentId != scans[i].segments[j].id
  {
    forall e | e in AllEntries(cat, blobs, scans)
      ensures e.segmentId != scans[i].segments[j].id
    {
      EntriesAreShortSegments(cat, blobs, scans, e);
    }
  }

  /** Every entry reports a segment of a scanned file whose passing pieces number fewer than
      that file's `n`, with the file's `k` and that number. */
  lemma EntriesAreShortSegments(cat: Catalog, blobs: Blobs, scans: seq<FileScan>, e: Entry)
    requires Listed(cat, scans)
    requires e in AllEntries(cat, blobs, scans)
    ensures exists i, j ::
      && 0 <= i < |scans| && 0 <= j < |scans[i].segments|
      && scans[i].segments[j].id == e.segmentId && e.k == scans[i].file.cfg.k
      && e.r == Present(cat, blobs, scans[i].segments[j].pieces) && e.r < scans[i].file.cfg.n
  {
    AllEntriesFlags(cat, blobs, scans, e);
  }

  /** The tally has an entry for every scanned file id and no other. */
  lemma {:induction false} TallyKeys(cat: Catalog, blobs: Blobs, scans: seq<FileScan>, id: Uuid)
    requires Listed(cat, scans)
    ensures id in Tally(cat, blobs, scans) <==> exists i :: 0 <= i < |scans| && scans[i].file.id == id
  {
    if |scans| > 0 {
      var init := scans[..|scans| - 1];
      TallyKeys(cat, blobs, init, id);
      if id in Tally(cat, blobs, init) {
        var i :| 0 <= i < |init| && init[i].file.id == id;
        assert scans[i] == init[i];
      } else if id != scans[|scans| - 1].file.id {
        forall i | 0 <= i < |scans| ensures scans[i].file.id != id {
          if i < |init| {
            assert scans[i] == init[i];
          }
        }
      }
    }
  }

  /** Under the id of a file scanned first, the tally holds how many of that file's segments
      were reported: a later file with the same id leaves it alone. */
  lemma {:induction false} TallyCountsFirst(cat: Catalog, blobs: Blobs, scans: seq<FileScan>, i: nat)
    requires Listed(cat, scans)
    requires i < |scans|
    requires forall i' :: 0 <= i' < i ==> scans[i'].file.id != scans[i].file.id
    ensures scans[i].file.id in Tally(cat, blobs, scans)
    ensures Tally(cat, blobs, scans)[scans[i].file.id] == |FileEntries(cat, blobs, scans[i].file, scans[i].segments)|
  {
    var init := scans[..|scans| - 1];
    var id := scans[i].file.id;
    if i < |scans| - 1 {
      assert init[i] == scans[i];
      forall i' | 0 <= i' < i ensures init[i'].file.id != init[i].file.id {
        assert init[i'] == scans[i'];
      }
      TallyCountsFirst(cat, blobs, init, i);
    } else {
      forall i' | 0 <= i' < |init| ensures init[i'].file.id != id {
        assert init[i'] == scans[i'];
      }
      TallyKeys(cat, blobs, init, id);
    }
  }
}
