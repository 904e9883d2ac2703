/**
 * Record lookup: a record offset is a position in the concatenation of all
 * decompressed record blocks.  The reader walks the blocks keeping the
 * running decompressed size, takes the first block whose range holds the
 * offset, reads and decompresses it, and cuts the record out of it.
 *
 * The dictionary copy (`MdxDictionary::read_record`) finds the block in
 * the file by summing the compressed sizes of the leading blocks whose
 * `offset` is below the block's own; the resource copy
 * (`MddResource::read_record`) keeps a running compressed size instead.
 * Both sums wrap as `u64` does.
 */
module Record {
  import opened Wrappers
  import opened Binary
  import opened Compression
  import opened Blocks

  /** The first block from `i` on whose range `[current, current + size)` (wrapping) holds `offset`, and that range's start. */
  function LocateFrom(blocks: seq<RecordBlockInfo>, i: nat, current: nat, offset: nat): (r: Option<(nat, nat)>)
    requires i <= |blocks|
    ensures r.Some? ==> i <= r.value.0 < |blocks| && r.value.1 <= offset
    decreases |blocks| - i
  {
    if i == |blocks| then None
    else if current <= offset < Wrap(current + blocks[i].decompressedSize) then Some((i, current))
    else LocateFrom(blocks, i + 1, Wrap(current + blocks[i].decompressedSize), offset)
  }

  function Locate(blocks: seq<RecordBlockInfo>, offset: nat): (r: Option<(nat, nat)>)
    ensures r.Some? ==> r.value.0 < |blocks| && r.value.1 <= offset
  {
    LocateFrom(blocks, 0, 0, offset)
  }

  /** Where the record blocks start in the file: after the header and all key blocks. */
  function RecordBlocksStart(a: Archive): nat
  {
    Wrap(a.header.dataOffset + Wrap(Sum(KeySizes(a.keyBlocks))))
  }

  /** The number of leading blocks whose `offset` is below `o` (`take_while`). */
  function TakeWhileLen(blocks: seq<RecordBlockInfo>, o: nat): (j: nat)
    ensures j <= |blocks|
    ensures forall k :: 0 <= k < j ==> blocks[k].offset < o
    ensures j < |blocks| ==> blocks[j].offset >= o
  {
    if |blocks| == 0 || blocks[0].offset >= o then 0
    else
      var j := 1 + TakeWhileLen(blocks[1..], o);
      assert forall k :: 1 <= k < |blocks| ==> blocks[k] == blocks[1..][k - 1];
      j
  }

  /** The compressed sizes of the leading blocks whose `offset` is below `o`, summed. */
  function TakeWhileSum(blocks: seq<RecordBlockInfo>, o: nat): nat
  {
    Sum(RecordSizes(blocks[..TakeWhileLen(blocks, o)]))
  }

  /** The dictionary copy's file position of block `i`. */
  function MdxBlockPosition(a: Archive, i: nat): nat
    requires i < |a.recordBlocks|
  {
    Wrap(RecordBlocksStart(a) + Wrap(TakeWhileSum(a.recordBlocks, a.recordBlocks[i].offset)))
  }

  /** The resource copy's file position of block `i`: its running compressed size. */
  function MddBlockPosition(a: Archive, i: nat): nat
    requires i <= |a.recordBlocks|
  {
    Wrap(RecordBlocksStart(a) + Wrap(Sum(RecordSizes(a.recordBlocks)[..i])))
  }

  /** The dictionary copy's cut: `[start..end]` when `end` fits, else `[start..]`; a slice out of order panics. */
  function SliceMdx(d: Bytes, start: nat, size: nat): Outcome<Bytes>
  {
    var end := Wrap(start + size);
    if end <= |d| then (if start <= end then Ok(d[start..end]) else Panic)
    else if start <= |d| then Ok(d[start..])
    else Panic
  }

  /** The resource copy's cut: `[start..min(end, len)]`. */
  function SliceMdd(d: Bytes, start: nat, size: nat): Outcome<Bytes>
  {
    var end := if Wrap(start + size) <= |d| then Wrap(start + size) else |d|;
    if start <= end then Ok(d[start..end]) else Panic
  }

  /** The block read from `position` and decompressed, then the record cut out of it. */
  function CutRecord(a: Archive, flavor: Flavor, position: nat, block: RecordBlockInfo, start: nat, size: nat)
    : Outcome<Bytes>
  {
    var raw := ReadAt(a.file, position, block.compressedSize);
    if !raw.Ok? then Fail(raw) else
    var d := Decompress(flavor, raw.value, a.header.v2, a.inflate);
    if !d.Ok? then Fail(d)
    else if flavor == Mdx then SliceMdx(d.value, start, size)
    else SliceMdd(d.value, start, size)
  }

  /** `MdxDictionary::read_record`: the record text (`decode` for `from_utf8_lossy`). */
  function RecordMdx(a: Archive, offset: nat, size: nat): Outcome<string>
  {
    match Locate(a.recordBlocks, offset)
    case None => Err(RecordNotFound(offset))
    case Some((i, current)) =>
      var bytes := CutRecord(a, Mdx, MdxBlockPosition(a, i), a.recordBlocks[i], offset - current, size);
      if bytes.Ok? then Ok(a.decode(bytes.value)) else Fail(bytes)
  }

  /** `MddResource::read_record`: the record bytes. */
  function RecordMdd(a: Archive, offset: nat, size: nat): Outcome<Bytes>
  {
    match Locate(a.recordBlocks, offset)
    case None => Err(RecordNotFound(offset))
    case Some((i, current)) =>
      CutRecord(a, Mdd, MddBlockPosition(a, i), a.recordBlocks[i], offset - current, size)
  }

  /** `MdxDictionary::read_record` as the reader runs it. */
  method ReadRecordMdx(a: Archive, offset: nat, size: nat) returns (r: Outcome<string>)
    ensures r == RecordMdx(a, offset, size)
  {
    var blocks := a.recordBlocks;
    var current: nat := 0;
    var i := 0;
    while i < |blocks|
      invariant i <= |blocks|
      invariant LocateFrom(blocks, i, current, offset) == Locate(blocks, offset)
    {
      var block := blocks[i];
      if current <= offset && offset < Wrap(current + block.decompressedSize) {
        RecordInFoundBlock(a, offset, size, i, current);
        var bytes := CutRecord(a, Mdx, MdxBlockPosition(a, i), block, offset - current, size);
        if !bytes.Ok? {
          return Fail(bytes);
        }
        return Ok(a.decode(bytes.value));
      }
      current := Wrap(current + block.decompressedSize);
      i := i + 1;
    }
    r := Err(RecordNotFound(offset));
  }

  /** `MddResource::read_record` as the reader runs it, with its running file offset. */
  method ReadRecordMdd(a: Archive, offset: nat, size: nat) returns (r: Outcome<Bytes>)
    ensures r == RecordMdd(a, offset, size)
  {
    var blocks := a.recordBlocks;
    var start := RecordBlocksStart(a);
    var current: nat := 0;
    var blockFileOffset: nat := 0;
    var i := 0;
    while i < |blocks|
      invariant i <= |blocks|
      invariant LocateFrom(blocks, i, current, offset) == Locate(blocks, offset)
      invariant blockFileOffset == Wrap(Sum(RecordSizes(blocks)[..i]))
    {
      var block := blocks[i];
      if current <= offset && offset < Wrap(current + block.decompressedSize) {
        RecordInFoundBlock(a, offset, size, i, current);
        var position := Wrap(start + blockFileOffset);
        assert position == MddBlockPosition(a, i);
        return CutRecord(a, Mdd, position, block, offset - current, size);
      }
      current := Wrap(current + block.decompressedSize);
      SumStep(RecordSizes(blocks), i);
      WrapAdd(Sum(RecordSizes(blocks)[..i]), block.compressedSize);
      blockFileOffset := Wrap(blockFileOffset + block.compressedSize);
      i := i + 1;
    }
    r := Err(RecordNotFound(offset));
  }

  /** Both readers cut the record out of the block `Locate` finds. */
  lemma RecordInFoundBlock(a: Archive, offset: nat, size: nat, i: nat, current: nat)
    requires Locate(a.recordBlocks, offset) == Some((i, current))
    ensures i < |a.recordBlocks| && current <= offset
    ensures var bytes := CutRecord(a, Mdx, MdxBlockPosition(a, i), a.recordBlocks[i], offset - current, size);
      RecordMdx(a, offset, size) == if bytes.Ok? then Ok(a.decode(bytes.value)) else Fail(bytes)
    ensures RecordMdd(a, offset, size) == CutRecord(a, Mdd, MddBlockPosition(a, i), a.recordBlocks[i], offset - current, size)
  {
  }

  // ---------------------------------------------------------------------
  // Properties
  // ---------------------------------------------------------------------

  /** The two ways of cutting the record out of the block are the same. */
  lemma SlicesAgree(d: Bytes, start: nat, size: nat)
    ensures SliceMdx(d, start, size) == SliceMdd(d, start, size)
  {
    if |d| < Wrap(start + size) && start <= |d| {
      assert d[start..] == d[start..|d|];
    }
  }

  /**
   * For `u64` operands the cut is at most `size` bytes from `start`,
   * truncated at the block end; it panics exactly when `start` is past the
   * block end or `start + size` wraps (the end then falls before the start).
   */
  lemma SliceIsTruncatedRange(d: Bytes, start: nat, size: nat)
    requires start < U64 && size < U64
    ensures SliceMdd(d, start, size).Ok? <==> start <= |d| && start + size < U64
    ensures SliceMdd(d, start, size).Ok? ==>
      SliceMdd(d, start, size).value == d[start..if start + size <= |d| then start + size else |d|]
  {
  }

  /** Nothing in the record tables wraps: the total decompressed and compressed sizes fit in a `u64`. */
  predicate NoOverflow(blocks: seq<RecordBlockInfo>)
  {
    Sum(DecompressedSizes(blocks)) < U64 && Sum(RecordSizes(blocks)) < U64
  }

  lemma {:induction false} SumPrefixMono(xs: seq<nat>, j: nat, i: nat)
    requires j <= i <= |xs|
    ensures Sum(xs[..j]) <= Sum(xs[..i])
    decreases i - j
  {
    if j < i {
      SumPrefixMono(xs, j, i - 1);
      SumStep(xs, i - 1);
    }
  }

  /**
   * Without wrap-around, the block found is the one whose range
   * `[Sum of earlier sizes, that + its size)` holds the offset, and there is
   * none exactly when the offset is past the total decompressed size.
   */
  lemma {:induction false} LocateByRanges(blocks: seq<RecordBlockInfo>, i: nat, offset: nat)
    requires i <= |blocks| && Sum(DecompressedSizes(blocks)) < U64
    ensures var ds := DecompressedSizes(blocks);
      var r := LocateFrom(blocks, i, Sum(ds[..i]), offset);
      (r.None? <==> offset < Sum(ds[..i]) || offset >= Sum(ds))
      && (r.Some? ==> r.value.1 == Sum(ds[..r.value.0]) && offset < r.value.1 + ds[r.value.0])
    decreases |blocks| - i
  {
    var ds := DecompressedSizes(blocks);
    assert ds[..|blocks|] == ds;
    if i < |blocks| {
      SumStep(ds, i);
      SumPrefixMono(ds, i + 1, |blocks|);
      LocateByRanges(blocks, i + 1, offset);
    }
  }

  /** Without wrap-around, `Locate` fails exactly when the offset is past the end of all records. */
  lemma LocateFailsPastEnd(blocks: seq<RecordBlockInfo>, offset: nat)
    requires Sum(DecompressedSizes(blocks)) < U64
    ensures Locate(blocks, offset).None? <==> offset >= Sum(DecompressedSizes(blocks))
    ensures Locate(blocks, offset).Some? ==>
      var (i, start) := Locate(blocks, offset).value;
      start == Sum(DecompressedSizes(blocks)[..i]) && start <= offset < start + blocks[i].decompressedSize
  {
    LocateByRanges(blocks, 0, offset);
  }

  /**
   * With running-sum offsets and no wrap-around, the leading blocks with a
   * smaller offset have the same total compressed size as all blocks before
   * block `i`: the two copies look for a block at the same file position.
   */
  lemma TakeWhileIsPrefixSum(blocks: seq<RecordBlockInfo>, i: nat)
    requires i < |blocks| && RecordOffsetsAreSums(blocks) && Sum(RecordSizes(blocks)) < U64
    ensures TakeWhileSum(blocks, blocks[i].offset) == Sum(RecordSizes(blocks)[..i])
  {
    var cs := RecordSizes(blocks);
    var j := TakeWhileLen(blocks, blocks[i].offset);
    assert cs[..|blocks|] == cs;
    SumPrefixMono(cs, i, |blocks|);
    assert blocks[i].offset == Sum(cs[..i]);
    assert RecordSizes(blocks[..j]) == cs[..j];
    assert j <= i;
    SumPrefixMono(cs, j, i);
    if j < i {
      SumPrefixMono(cs, j, |blocks|);
      assert blocks[j].offset == Sum(cs[..j]);
    }
  }

  /**
   * The dictionary copy returns the decoded text of what the resource copy
   * returns, for blocks the two `decompress` copies treat alike, whenever
   * the record tables do not wrap; their failures are the same.
   */
  lemma CopiesReadSameRecord(a: Archive, offset: nat, size: nat)
    requires RecordOffsetsAreSums(a.recordBlocks) && NoOverflow(a.recordBlocks)
    requires forall k :: 0 <= k < |a.recordBlocks| ==>
      !a.header.v2 || a.recordBlocks[k].compressedSize == 0 || a.recordBlocks[k].compressedSize > 4
    ensures RecordMdd(a, offset, size).Ok? ==> RecordMdx(a, offset, size) == Ok(a.decode(RecordMdd(a, offset, size).value))
    ensures !RecordMdd(a, offset, size).Ok? ==> RecordMdx(a, offset, size) == Fail(RecordMdd(a, offset, size))
  {
    var loc := Locate(a.recordBlocks, offset);
    if loc.Some? {
      var i, current := loc.value.0, loc.value.1;
      TakeWhileIsPrefixSum(a.recordBlocks, i);
      PositionsAgree(a, i);
      var block := a.recordBlocks[i];
      assert !a.header.v2 || block.compressedSize == 0 || block.compressedSize > 4;
      CutsAgree(a, MddBlockPosition(a, i), block, offset - current, size);
    }
  }

  /** Where the two sums agree, both copies read block `i` from the same file position. */
  lemma PositionsAgree(a: Archive, i: nat)
    requires i < |a.recordBlocks|
    requires TakeWhileSum(a.recordBlocks, a.recordBlocks[i].offset) == Sum(RecordSizes(a.recordBlocks)[..i])
    ensures MdxBlockPosition(a, i) == MddBlockPosition(a, i)
  {
  }

  /** Both copies cut the same bytes out of a block the two `decompress` copies treat alike. */
  lemma CutsAgree(a: Archive, position: nat, block: RecordBlockInfo, start: nat, size: nat)
    requires !a.header.v2 || block.compressedSize == 0 || block.compressedSize > 4
    ensures CutRecord(a, Mdx, position, block, start, size) == CutRecord(a, Mdd, position, block, start, size)
  {
    var raw := ReadAt(a.file, position, block.compressedSize);
    if raw.Ok? {
      CopiesAgree(raw.value, a.header.v2, a.inflate);
      var d := Decompress(Mdd, raw.value, a.header.v2, a.inflate);
      if d.Ok? {
        SlicesAgree(d.value, start, size);
      }
    }
  }
}
