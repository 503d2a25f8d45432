/** The write loop of `upload_piece`: a piece payload goes to its blob in writes of at most
    16 KiB, the last one shorter when the payload is not a multiple of 16 KiB. */
module Chunking {
  import opened Records
  import opened Seqs

  /** The write unit, 16 << 10 bytes. */
  const Unit: nat := 16 * 1024

  /** The largest value of the 32-bit signed loop counter. */
  const IntMax: int := 0x7fff_ffff

  function Min(a: int, b: int): int
  {
    if a <= b then a else b
  }

  /** The requests the loop issues: it starts at offset 0, requests `min(unit, size - i)`
      bytes at offset `i`, and steps `i` by a full unit. The counter is a 32-bit `int`, so
      the payload must leave room for the final step: the last offset the loop computes is
      the payload size rounded up to a multiple of the unit. */
  method ChunkWrites(data: Bytes) returns (writes: seq<Bytes>)
    requires |data| <= IntMax + 1 - Unit
    ensures Flatten(writes) == data
    ensures forall j :: 0 <= j < |writes| ==> 0 < |writes[j]| <= Unit
    ensures forall j :: 0 <= j < |writes| - 1 ==> |writes[j]| == Unit
    ensures |writes| == (|data| + Unit - 1) / Unit
  {
    writes := [];
    var i := 0;
    while i < |data|
      invariant i == Unit * |writes|
      invariant |writes| > 0 ==> i - Unit < |data|
      invariant Flatten(writes) == data[..Min(i, |data|)]
      invariant forall j :: 0 <= j < |writes| ==> 0 < |writes[j]| <= Unit
      invariant forall j :: 0 <= j < |writes| - 1 ==> |writes[j]| == Unit
      invariant i < |data| ==> forall j :: 0 <= j < |writes| ==> |writes[j]| == Unit
    {
      var n := Min(Unit, |data| - i);
      FlattenAppend(writes, data[i..i + n]);
      assert data[..i] + data[i..i + n] == data[..i + n];
      writes := writes + [data[i..i + n]];
      assert i + Unit <= IntMax;
      i := i + Unit;
    }
    assert Unit * |writes| >= |data| && Unit * (|writes| - 1) < |data|;
  }

  /** What a sequence of `write` calls leaves in the blob, and whether the loop saw no error.
      `ret(c, n)` is the value the `c`-th call returns when asked for `n` bytes: at most `n`
      bytes are written, and a value of zero or less is an error. */
  datatype WriteOutcome = WriteOutcome(stored: Bytes, ok: bool)

  /** The loop as written: after each successful call it steps the offset by a full unit,
      whatever number of bytes the call reports as written. */
  function WriteAsWritten(data: Bytes, ret: (nat, nat) -> int, call: nat, i: nat): WriteOutcome
    decreases |data| - i
  {
    if i >= |data| then WriteOutcome([], true)
    else
      var n := Min(Unit, |data| - i);
      var w := ret(call, n);
      if w <= 0 then WriteOutcome([], false)
      else
        var rest := WriteAsWritten(data, ret, call + 1, i + Unit);
        WriteOutcome(data[i..i + Min(w, n)] + rest.stored, rest.ok)
  }

  /** A short write goes unnoticed: a two-byte payload whose single write call stores one
      byte ends the loop without error, and the blob holds one byte. */
  lemma ShortWriteTruncatesBlob()
    ensures var o := WriteAsWritten([7, 9], (c: nat, n: nat) => 1, 0, 0);
            o.ok && o.stored == [7] && o.stored != [7, 9]
  {
    var data: Bytes := [7, 9];
    assert WriteAsWritten(data, (c: nat, n: nat) => 1, 1, Unit) == WriteOutcome([], true);
    assert data[0..1] == [7];
  }

  /** The loop as evidently intended: the offset advances by the number of bytes the call
      reports, so a short write is followed by a write of the remainder. Whenever this loop
      ends without error, the blob holds the whole payload from the starting offset on. */
  function WriteFully(data: Bytes, ret: (nat, nat) -> int, call: nat, i: nat): (o: WriteOutcome)
    requires i <= |data|
    ensures o.ok ==> o.stored == data[i..]
    ensures |o.stored| <= |data| - i
    decreases |data| - i
  {
    if i == |data| then WriteOutcome([], true)
    else
      var n := Min(Unit, |data| - i);
      var w := Min(ret(call, n), n);
      if w <= 0 then WriteOutcome([], false)
      else
        var rest := WriteFully(data, ret, call + 1, i + w);
        WriteOutcome(data[i..i + w] + rest.stored, rest.ok)
  }

  /** With the corrected loop, a payload whose write calls never fail ends in a blob equal to
      the payload, however short the individual writes are. */
  lemma {:induction false} WriteFullyStoresPayload(data: Bytes, ret: (nat, nat) -> int, call: nat, i: nat)
    requires i <= |data|
    requires forall c: nat, n: nat :: n > 0 ==> ret(c, n) > 0
    ensures WriteFully(data, ret, call, i).ok
    ensures WriteFully(data, ret, call, i).stored == data[i..]
    decreases |data| - i
  {
    if i < |data| {
      var n := Min(Unit, |data| - i);
      assert ret(call, n) > 0;
      var w := Min(ret(call, n), n);
      WriteFullyStoresPayload(data, ret, call + 1, i + w);
    }
  }
}
