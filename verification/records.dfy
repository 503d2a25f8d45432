/** The entities the data manager moves between the codec, the catalog and the node
    directories, and the codec itself, whose source is not part of this model. */
module Records {
  import opened Ids

  newtype Byte = b: int | 0 <= b < 256
  type Bytes = seq<Byte>

  /** The coding configuration of a file: sizes and the (k, m, n) parameters. */
  datatype Config = Config(fileSize: int, segmentSize: int, stripeSize: int, shareSize: int,
                           k: int, m: int, n: int)

  /** The file record of the catalog. */
  datatype FileRec = FileRec(id: Uuid, name: string, cfg: Config)

  /** A default-constructed configuration. Its field values come from headers that are not
      part of this model; only their presence matters here. */
  const DefaultConfig := Config(0, 0, 0, 0, 0, 0, 0)

  /** The record a lookup yields when no row matches: nil id, empty name. */
  const DefaultFile := FileRec(Nil, "", DefaultConfig)

  /** A segment with its index within the file and its (reconstructed) payload. */
  datatype Segment = Segment(id: Uuid, index: int, fileId: Uuid, data: Bytes)

  /** An erasure share, stamped with the id of the piece that holds it. */
  datatype Share = Share(xIndex: int, yIndex: int, pieceId: Uuid, data: Bytes)

  /** A piece as the data manager handles it in memory: its catalog fields, its payload and
      the shares it was merged from. */
  datatype Piece = Piece(id: Uuid, index: int, segmentId: Uuid, nodeId: Uuid, data: Bytes,
                         shares: seq<Share>)

  /** The erasure codec of one configuration. Every operation is uninterpreted: the model
      passes their results along and assumes nothing about them. */
  datatype Codec = Codec(
    splitFile: FileRec -> seq<Segment>,
    splitSegment: Segment -> seq<Bytes>,
    erasureEncode: Bytes -> seq<Share>,
    mergeToPieces: seq<seq<Share>> -> seq<Piece>,
    splitPiece: Piece -> seq<Share>,
    mergeToStripes: seq<seq<Share>> -> seq<Bytes>,
    mergeToSegment: seq<Bytes> -> Bytes)

  /** Constructing the codec from a configuration. */
  type Processor = Config -> Codec

  /** Encoding every stripe of a segment payload, in stripe order. */
  function EncodeStripes(dp: Codec, stripes: seq<Bytes>): seq<seq<Share>>
  {
    seq(|stripes|, y requires 0 <= y < |stripes| => dp.erasureEncode(stripes[y]))
  }
}
