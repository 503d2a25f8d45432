/** Where blobs live: one directory per storage node under a base path, one file per piece
    inside its node's directory. */
module Paths {
  import opened Outcomes

  /** The directory of a node: the base path followed directly by the node id. */
  function NodePath(base: string, nodeId: string): string
  {
    base + nodeId
  }

  /** The file of a piece: its node's directory, a slash, the piece id. */
  function PiecePath(base: string, nodeId: string, pieceId: string): string
  {
    NodePath(base, nodeId) + "/" + pieceId
  }

  /** The position of the first slash in `s`, if any. */
  function FirstSlash(s: string): (r: Option<nat>)
    ensures r.Some? ==> r.value < |s| && s[r.value] == '/' && '/' !in s[..r.value]
    ensures r.None? ==> '/' !in s
  {
    if |s| == 0 then None
    else if s[0] == '/' then Some(0)
    else
      match FirstSlash(s[1..])
      case None => None
      case Some(k) =>
        assert s[..k + 1] == [s[0]] + s[1..][..k];
        Some(k + 1)
  }

  /** Reading a piece path back into its node id and piece id: strip the base, cut at the
      first slash. */
  function ParsePiecePath(base: string, path: string): Option<(string, string)>
  {
    if |base| <= |path| && path[..|base|] == base then
      var rest := path[|base|..];
      match FirstSlash(rest)
      case None => None
      case Some(k) => Some((rest[..k], rest[k + 1..]))
    else None
  }

  /** Node ids (rendered uuids) contain no slash, so a piece path determines the node and the
      piece it was built from. */
  lemma PiecePathRoundTrip(base: string, nodeId: string, pieceId: string)
    requires '/' !in nodeId
    ensures ParsePiecePath(base, PiecePath(base, nodeId, pieceId)) == Some((nodeId, pieceId))
  {
    var path := PiecePath(base, nodeId, pieceId);
    assert path[..|base|] == base;
    var rest := path[|base|..];
    assert rest == nodeId + "/" + pieceId;
    assert rest[..|nodeId|] == nodeId;
    assert rest[|nodeId|] == '/';
    assert rest[|nodeId| + 1..] == pieceId;
  }

  /** Hence two pieces get the same file only when they have the same node and the same id:
      keying the blob store by (node id, piece id) loses nothing. */
  lemma PiecePathInjective(base: string, n1: string, p1: string, n2: string, p2: string)
    requires '/' !in n1 && '/' !in n2
    requires PiecePath(base, n1, p1) == PiecePath(base, n2, p2)
    ensures n1 == n2 && p1 == p2
  {
    PiecePathRoundTrip(base, n1, p1);
    PiecePathRoundTrip(base, n2, p2);
  }
}
