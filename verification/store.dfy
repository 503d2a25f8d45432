/** The metadata catalog and the per-node blob store, as the data manager uses them. The
    catalog's SQL statements are not modelled; a table becomes a map from primary key to row
    (the file table keeps its row order, which the name lookup depends on), and the node
    directories become one map from (node id, piece id) to the blob's bytes. */
module Store {
  import opened Ids
  import opened Records
  import opened Outcomes

  datatype SegmentRec = SegmentRec(index: int, fileId: Uuid)

  datatype PieceRec = PieceRec(index: int, segmentId: Uuid, nodeId: Uuid)

  datatype Catalog = Catalog(files: seq<FileRec>, segments: map<Uuid, SegmentRec>,
                             pieces: map<Uuid, PieceRec>)

  /** Blob contents keyed by (node id, piece id); a piece's path is built from exactly these
      two ids (see `Paths.PiecePathInjective`). */
  type Blobs = map<(Uuid, Uuid), Bytes>

  /** Every id in the catalog and the blob store was handed out by `g`, so ids `g` draws next
      collide with nothing stored. */
  predicate AllIssued(cat: Catalog, blobs: Blobs, g: IdGen)
  {
    && (forall i :: 0 <= i < |cat.files| ==> Issued(g, cat.files[i].id))
    && (forall u :: u in cat.segments ==> Issued(g, u))
    && (forall u :: u in cat.pieces ==> Issued(g, u))
    && (forall key :: key in blobs ==> Issued(g, key.1))
  }

  /** The column a file lookup selects on. */
  datatype FileKey = ByName(name: string) | ById(id: Uuid)

  predicate Matches(f: FileRec, key: FileKey)
  {
    match key
    case ByName(name) => f.name == name
    case ById(id) => f.id == id
  }

  /** The row a file lookup steps to: the first one, in table order, that matches. */
  function FirstMatch(files: seq<FileRec>, key: FileKey): (r: Option<nat>)
    ensures r.Some? ==> r.value < |files| && Matches(files[r.value], key)
    ensures r.Some? ==> forall j :: 0 <= j < r.value ==> !Matches(files[j], key)
    ensures r.None? <==> forall i :: 0 <= i < |files| ==> !Matches(files[i], key)
  {
    if |files| == 0 then None
    else if Matches(files[0], key) then Some(0)
    else
      var rest := FirstMatch(files[1..], key);
      assert forall i :: 1 <= i < |files| ==> files[i] == files[1..][i - 1];
      match rest
      case None => None
      case Some(i) => Some(i + 1)
  }

  /** `db_insert_file`: the `id` column is the table's primary key, so inserting a row whose
      id is already stored fails, and the caller ignores the failure; any other row is
      appended. The segment and piece tables are untouched. */
  function InsertFile(cat: Catalog, f: FileRec): (c: Catalog)
    ensures c.segments == cat.segments && c.pieces == cat.pieces
    ensures (exists i :: 0 <= i < |cat.files| && cat.files[i].id == f.id) ==> c.files == cat.files
    ensures (forall i :: 0 <= i < |cat.files| ==> cat.files[i].id != f.id) ==> c.files == cat.files + [f]
  {
    if FirstMatch(cat.files, ById(f.id)).Some? then cat else cat.(files := cat.files + [f])
  }

  /** Whether no two file rows share an id, as the primary key keeps the table. */
  predicate FileIdsUnique(files: seq<FileRec>)
  {
    forall i, j :: 0 <= i < j < |files| ==> files[i].id != files[j].id
  }

  /** Inserting a file row keeps the file ids unique. */
  lemma InsertFileKeepsIdsUnique(cat: Catalog, f: FileRec)
    requires FileIdsUnique(cat.files)
    ensures FileIdsUnique(InsertFile(cat, f).files)
  {
    if FirstMatch(cat.files, ById(f.id)).None? {
      var files := cat.files + [f];
      forall i, j | 0 <= i < j < |files| ensures files[i].id != files[j].id {
        if j == |cat.files| {
          assert !Matches(cat.files[i], ById(f.id));
        }
      }
    }
  }

  /** The file record a select hands back: the first matching row, or a default record when
      no row matches. */
  function SelectFile(cat: Catalog, key: FileKey): FileRec
  {
    match FirstMatch(cat.files, key)
    case Some(i) => cat.files[i]
    case None => DefaultFile
  }

  /** `upload_piece`: the blob is created exclusively, so an existing blob under the same key
      is left as it is; otherwise the whole payload is stored (the write loop itself is
      modelled in `Chunking`). */
  function UploadPiece(blobs: Blobs, nodeId: Uuid, pieceId: Uuid, data: Bytes): Blobs
  {
    if (nodeId, pieceId) in blobs then blobs else blobs[(nodeId, pieceId) := data]
  }

  /** `download_piece`: the catalog row of the piece with the blob's bytes attached, or with
      no bytes when the blob cannot be opened. The piece is returned either way. */
  function DownloadPiece(cat: Catalog, blobs: Blobs, pieceId: Uuid): Piece
    requires pieceId in cat.pieces
  {
    var rec := cat.pieces[pieceId];
    var data := if (rec.nodeId, pieceId) in blobs then blobs[(rec.nodeId, pieceId)] else [];
    Piece(pieceId, rec.index, rec.segmentId, rec.nodeId, data, [])
  }

  /** `audit_piece`: a piece passes when its blob can be opened; its contents are not
      checked. */
  predicate AuditPiece(cat: Catalog, blobs: Blobs, pieceId: Uuid)
    requires pieceId in cat.pieces
  {
    (cat.pieces[pieceId].nodeId, pieceId) in blobs
  }

  /** `remove_piece`: the blob is deleted if it exists, and the catalog row is deleted in
      either case. */
  function RemovePiece(cat: Catalog, blobs: Blobs, pieceId: Uuid): (r: (Catalog, Blobs))
    requires pieceId in cat.pieces
    ensures pieceId !in r.0.pieces
    ensures (cat.pieces[pieceId].nodeId, pieceId) !in r.1
    ensures r.0.files == cat.files && r.0.segments == cat.segments
    ensures forall u :: u in cat.pieces && u != pieceId ==> u in r.0.pieces && r.0.pieces[u] == cat.pieces[u]
    ensures forall u :: u in r.0.pieces ==> u in cat.pieces
    ensures forall key :: key in r.1 <==> key in blobs && key != (cat.pieces[pieceId].nodeId, pieceId)
    ensures forall key :: key in r.1 ==> r.1[key] == blobs[key]
  {
    var key := (cat.pieces[pieceId].nodeId, pieceId);
    var blobs' := if key in blobs then blobs - {key} else blobs;
    (cat.(pieces := cat.pieces - {pieceId}), blobs')
  }

  /** A piece uploaded under a fresh key and then recorded in the catalog downloads with
      exactly the bytes that were uploaded, and passes the audit. */
  lemma UploadThenDownload(cat: Catalog, blobs: Blobs, rec: PieceRec, pieceId: Uuid, data: Bytes)
    requires (rec.nodeId, pieceId) !in blobs
    ensures var cat' := cat.(pieces := cat.pieces[pieceId := rec]);
            var blobs' := UploadPiece(blobs, rec.nodeId, pieceId, data);
            && DownloadPiece(cat', blobs', pieceId).data == data
            && AuditPiece(cat', blobs', pieceId)
  {
  }

  /** A missing blob does not stop `remove_piece` from deleting the catalog row, and leaves
      the blob store as it was. */
  lemma RemoveWithoutBlob(cat: Catalog, blobs: Blobs, pieceId: Uuid)
    requires pieceId in cat.pieces
    requires !AuditPiece(cat, blobs, pieceId)
    ensures RemovePiece(cat, blobs, pieceId).0.pieces == cat.pieces - {pieceId}
    ensures RemovePiece(cat, blobs, pieceId).1 == blobs
  {
  }

  /** `init_storage_nodes`: the node table is topped up with fresh nodes until it holds
      `target` rows; a table that already holds that many is left alone. */
  method TopUpNodes(nodes: set<Uuid>, target: int, gen: IdGen) returns (pool: set<Uuid>, gen': IdGen)
    requires forall u :: u in nodes ==> Issued(gen, u)
    ensures nodes <= pool
    ensures |pool| == if |nodes| < target then target else |nodes|
    ensures forall u :: u in pool - nodes ==> !Issued(gen, u)
    ensures forall u :: u in pool ==> Issued(gen', u)
    ensures gen.last <= gen'.last
  {
    pool, gen' := nodes, gen;
    var i := |nodes|;
    while i < target
      invariant nodes <= pool
      invariant |pool| == i
      invariant i == |nodes| || i <= target
      invariant forall u :: u in pool ==> Issued(gen', u)
      invariant forall u :: u in pool - nodes ==> !Issued(gen, u)
      invariant gen.last <= gen'.last
    {
      var (u, g1) := Draw(gen');
      pool, gen' := pool + {u}, g1;
      i := i + 1;
    }
  }
}
