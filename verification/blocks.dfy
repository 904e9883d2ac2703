/**
 * The block-info section after the header: how many key blocks there are
 * and, for each, its compressed and decompressed size, entry count and
 * first and last key; then the same for the record blocks.  Each block's
 * `offset` is the running (wrapping `u64`) sum of the compressed sizes of
 * the blocks before it.
 */
module Blocks {
  import opened Wrappers
  import opened Binary
  import opened Compression
  import opened Header

  datatype KeyBlockInfo = KeyBlockInfo(
    compressedSize: nat,
    decompressedSize: nat,
    numEntries: nat,
    firstKey: string,
    lastKey: string,
    offset: nat)

  datatype RecordBlockInfo = RecordBlockInfo(compressedSize: nat, decompressedSize: nat, offset: nat)

  function KeySizes(infos: seq<KeyBlockInfo>): (sizes: seq<nat>)
  {
    seq(|infos|, k requires 0 <= k < |infos| => infos[k].compressedSize)
  }

  /** Every block's offset is the wrapped sum of the compressed sizes of the blocks before it. */
  predicate KeyOffsetsAreSums(infos: seq<KeyBlockInfo>)
  {
    forall k :: 0 <= k < |infos| ==> infos[k].offset == Wrap(Sum(KeySizes(infos)[..k]))
  }

  /** The width of a key's length prefix: a big-endian `u16` from version 2.0 on, one byte before. */
  function LengthWidth(v2: bool): nat
  {
    if v2 then 2 else 1
  }

  /**
   * `read_key` and `read_key_entry`: a length prefix, that many bytes of
   * key text (decoded with `decode`), the key, and the position after it.
   */
  function ReadKeyText(data: Bytes, pos: nat, v2: bool, decode: Bytes -> string): (r: Outcome<(string, nat)>)
    ensures !r.Panic?
  {
    var len := ReadUInt(data, pos, LengthWidth(v2));
    if !len.Ok? then Fail(len)
    else
      var (n, p) := len.value;
      match Take(data, p, n)
      case Some(b) => Ok((decode(b), p + n))
      case None => Err(Eof)
  }

  /** `read_key`: a key of the block-info table, followed by 8 skipped bytes. */
  function ReadKey(data: Bytes, pos: nat, v2: bool, decode: Bytes -> string): (r: Outcome<(string, nat)>)
    ensures !r.Panic?
  {
    var k := ReadKeyText(data, pos, v2, decode);
    if !k.Ok? then Fail(k) else Ok((k.value.0, k.value.1 + 8))
  }

  /** One entry of the key-block info table, its offset still 0, and the position after it. */
  function KeyInfoAt(data: Bytes, pos: nat, v2: bool, decode: Bytes -> string): (r: Outcome<(KeyBlockInfo, nat)>)
    ensures !r.Panic?
    ensures r.Ok? ==> r.value.1 > pos && r.value.0.offset == 0
  {
    var c := ReadU64(data, pos);
    if !c.Ok? then Fail(c) else
    var d := ReadU64(data, c.value.1);
    if !d.Ok? then Fail(d) else
    var e := ReadU64(data, d.value.1);
    if !e.Ok? then Fail(e) else
    var first := ReadKey(data, e.value.1, v2, decode);
    if !first.Ok? then Fail(first) else
    var last := ReadKey(data, first.value.1, v2, decode);
    if !last.Ok? then Fail(last) else
    Ok((KeyBlockInfo(c.value.0, d.value.0, e.value.0, first.value.0, last.value.0, 0), last.value.1))
  }

  /** The first loop of `parse_key_block_info`: `n` entries read one after another from `pos`. */
  function KeyInfosFrom(data: Bytes, pos: nat, n: nat, v2: bool, decode: Bytes -> string): (r: Outcome<seq<KeyBlockInfo>>)
    ensures r.Ok? ==> |r.value| == n
  {
    ManyFrom(data, pos, n, KeyInfoStep(v2, decode))
  }

  function KeyInfoStep(v2: bool, decode: Bytes -> string): (Bytes, nat) -> Outcome<(KeyBlockInfo, nat)>
  {
    (d: Bytes, p: nat) => KeyInfoAt(d, p, v2, decode)
  }

  /** The blocks with their offsets filled in: each the wrapped sum of the sizes before it. */
  function WithOffsets(raw: seq<KeyBlockInfo>): (infos: seq<KeyBlockInfo>)
  {
    seq(|raw|, k requires 0 <= k < |raw| => raw[k].(offset := Wrap(Sum(KeySizes(raw)[..k]))))
  }

  /** `parse_key_block_info`. */
  function KeyBlockInfos(data: Bytes, n: nat, v2: bool, decode: Bytes -> string): (r: Outcome<seq<KeyBlockInfo>>)
    ensures r.Ok? ==> KeyOffsetsAreSums(r.value)
  {
    var raw := KeyInfosFrom(data, 0, n, v2, decode);
    if raw.Ok? then OffsetsStep(raw.value); Ok(WithOffsets(raw.value)) else Fail(raw)
  }

  /** `parse_key_block_info` as the reader runs it: a loop that reads, then a loop that sets the offsets. */
  method ParseKeyBlockInfo(data: Bytes, n: nat, v2: bool, decode: Bytes -> string)
    returns (r: Outcome<seq<KeyBlockInfo>>)
    ensures r == KeyBlockInfos(data, n, v2, decode)
    ensures r.Ok? ==> |r.value| == n
    ensures r.Ok? ==> RunningOffsets(r.value)
  {
    var raw := ReadMany(data, n, KeyInfoStep(v2, decode));
    if !raw.Ok? {
      return Fail(raw);
    }
    var infos := FillOffsets(raw.value);
    OffsetsStep(raw.value);
    r := Ok(infos);
  }

  /** The second loop of `parse_key_block_info`: each block gets the running sum, which then grows by its size. */
  method FillOffsets(raw: seq<KeyBlockInfo>) returns (infos: seq<KeyBlockInfo>)
    ensures infos == WithOffsets(raw)
  {
    infos := raw;
    var current := 0;
    var j := 0;
    while j < |infos|
      invariant j <= |infos| == |raw|
      invariant current == Wrap(Sum(KeySizes(raw)[..j]))
      invariant forall k :: 0 <= k < j ==> infos[k] == WithOffsets(raw)[k]
      invariant forall k :: j <= k < |infos| ==> infos[k] == raw[k]
    {
      infos := infos[j := infos[j].(offset := current)];
      SumStep(KeySizes(raw), j);
      WrapAdd(Sum(KeySizes(raw)[..j]), raw[j].compressedSize);
      current := Wrap(current + infos[j].compressedSize);
      j := j + 1;
    }
  }

  lemma WithOffsetsKeepsSizes(raw: seq<KeyBlockInfo>)
    ensures KeySizes(WithOffsets(raw)) == KeySizes(raw)
  {
  }

  /** The offsets as the loop computes them: 0 first, then each the previous one plus the previous size. */
  predicate RunningOffsets(infos: seq<KeyBlockInfo>)
  {
    (|infos| > 0 ==> infos[0].offset == 0)
    && forall k :: 0 <= k < |infos| - 1 ==>
      infos[k + 1].offset == Wrap(infos[k].offset + infos[k].compressedSize)
  }

  /** The offsets `WithOffsets` assigns are the running sums the loop keeps. */
  lemma OffsetsStep(raw: seq<KeyBlockInfo>)
    ensures RunningOffsets(WithOffsets(raw))
    ensures KeyOffsetsAreSums(WithOffsets(raw))
  {
    OffsetsRun(raw);
    WithOffsetsKeepsSizes(raw);
  }

  lemma OffsetsRun(raw: seq<KeyBlockInfo>)
    ensures RunningOffsets(WithOffsets(raw))
  {
    var infos := WithOffsets(raw);
    var sizes := KeySizes(raw);
    forall k | 0 <= k < |raw| - 1
      ensures infos[k + 1].offset == Wrap(infos[k].offset + infos[k].compressedSize)
    {
      SumStep(sizes, k);
      WrapAdd(Sum(sizes[..k]), sizes[k]);
    }
  }

  // ---------------------------------------------------------------------
  // Record blocks
  // ---------------------------------------------------------------------

  function RecordSizes(infos: seq<RecordBlockInfo>): (sizes: seq<nat>)
  {
    seq(|infos|, k requires 0 <= k < |infos| => infos[k].compressedSize)
  }

  function DecompressedSizes(infos: seq<RecordBlockInfo>): (sizes: seq<nat>)
  {
    seq(|infos|, k requires 0 <= k < |infos| => infos[k].decompressedSize)
  }

  predicate RecordOffsetsAreSums(infos: seq<RecordBlockInfo>)
  {
    forall k :: 0 <= k < |infos| ==> infos[k].offset == Wrap(Sum(RecordSizes(infos)[..k]))
  }

  /** One record-block entry: its compressed and decompressed size, and the position after it. */
  function RecordPairAt(data: Bytes, pos: nat): (r: Outcome<((nat, nat), nat)>)
  {
    var c := ReadU64(data, pos);
    if !c.Ok? then Fail(c) else
    var d := ReadU64(data, c.value.1);
    if !d.Ok? then Fail(d) else
    Ok(((c.value.0, d.value.0), d.value.1))
  }

  function Firsts(pairs: seq<(nat, nat)>): seq<nat>
  {
    seq(|pairs|, k requires 0 <= k < |pairs| => pairs[k].0)
  }

  /** The record blocks of the size pairs, each at the wrapped sum of the compressed sizes before it. */
  function RecordInfosOf(pairs: seq<(nat, nat)>): (infos: seq<RecordBlockInfo>)
  {
    seq(|pairs|, k requires 0 <= k < |pairs| =>
      RecordBlockInfo(pairs[k].0, pairs[k].1, Wrap(Sum(Firsts(pairs)[..k]))))
  }

  /** `parse_record_block_info`. */
  function RecordBlockInfos(data: Bytes, n: nat): (r: Outcome<seq<RecordBlockInfo>>)
    ensures r.Ok? ==> RecordOffsetsAreSums(r.value)
  {
    var pairs := ManyFrom(data, 0, n, RecordPairAt);
    if pairs.Ok? then RecordOffsets(pairs.value); Ok(RecordInfosOf(pairs.value)) else Fail(pairs)
  }

  /** `parse_record_block_info` as the reader runs it: one loop with a running offset. */
  method ParseRecordBlockInfo(data: Bytes, n: nat) returns (r: Outcome<seq<RecordBlockInfo>>)
    ensures r == RecordBlockInfos(data, n)
    ensures r.Ok? ==> |r.value| == n && RecordOffsetsAreSums(r.value)
  {
    var infos: seq<RecordBlockInfo> := [];
    ghost var pairs: seq<(nat, nat)> := [];
    var pos := 0;
    var current := 0;
    var i := 0;
    ExtendEmpty(ManyFrom(data, 0, n, RecordPairAt));
    while i < n
      invariant i <= n && |pairs| == i
      invariant infos == RecordInfosOf(pairs)
      invariant current == Wrap(Sum(Firsts(pairs)))
      invariant Extend(pairs, ManyFrom(data, pos, n - i, RecordPairAt)) == ManyFrom(data, 0, n, RecordPairAt)
    {
      var one := RecordPairAt(data, pos);
      if !one.Ok? {
        assert ManyFrom(data, pos, n - i, RecordPairAt) == Fail(one);
        return Fail(one);
      }
      var compressed := one.value.0.0;
      var decompressed := one.value.0.1;
      ExtendPrepend(pairs, one.value.0, ManyFrom(data, one.value.1, n - i - 1, RecordPairAt));
      RecordStep(pairs, one.value.0, infos, current);
      infos := infos + [RecordBlockInfo(compressed, decompressed, current)];
      pairs := pairs + [one.value.0];
      current := Wrap(current + compressed);
      pos := one.value.1;
      i := i + 1;
    }
    assert pairs + [] == pairs;
    assert ManyFrom(data, 0, n, RecordPairAt) == Ok(pairs);
    r := Ok(infos);
  }

  lemma FirstsSnoc(pairs: seq<(nat, nat)>, p: (nat, nat))
    ensures Firsts(pairs + [p]) == Firsts(pairs) + [p.0]
  {
  }

  /** One more block: the earlier ones keep their offsets, the new one sits at the sum so far. */
  lemma RecordInfosSnoc(pairs: seq<(nat, nat)>, p: (nat, nat))
    ensures RecordInfosOf(pairs + [p]) ==
      RecordInfosOf(pairs) + [RecordBlockInfo(p.0, p.1, Wrap(Sum(Firsts(pairs))))]
    ensures Wrap(Sum(Firsts(pairs + [p]))) == Wrap(Wrap(Sum(Firsts(pairs))) + p.0)
  {
    var ps := pairs + [p];
    var fs := Firsts(ps);
    FirstsSnoc(pairs, p);
    var lhs := RecordInfosOf(ps);
    var rhs := RecordInfosOf(pairs) + [RecordBlockInfo(p.0, p.1, Wrap(Sum(Firsts(pairs))))];
    forall k | 0 <= k < |lhs|
      ensures lhs[k] == rhs[k]
    {
      assert fs[..k] == Firsts(pairs)[..k];
    }
    RecordSumSnoc(pairs, p);
  }

  /** One step of the loop: the new block is pushed at the running offset, which then grows by its size. */
  lemma RecordStep(pairs: seq<(nat, nat)>, p: (nat, nat), infos: seq<RecordBlockInfo>, current: nat)
    requires infos == RecordInfosOf(pairs) && current == Wrap(Sum(Firsts(pairs)))
    ensures infos + [RecordBlockInfo(p.0, p.1, current)] == RecordInfosOf(pairs + [p])
    ensures Wrap(current + p.0) == Wrap(Sum(Firsts(pairs + [p])))
  {
    RecordInfosSnoc(pairs, p);
  }

  lemma RecordSumSnoc(pairs: seq<(nat, nat)>, p: (nat, nat))
    ensures Wrap(Sum(Firsts(pairs + [p]))) == Wrap(Wrap(Sum(Firsts(pairs))) + p.0)
  {
    var fs := Firsts(pairs + [p]);
    FirstsSnoc(pairs, p);
    assert fs[..|pairs|] + [fs[|pairs|]] == fs;
    WrapAdd(Sum(Firsts(pairs)), p.0);
  }

  /** Every record block's offset is the wrapped sum of the compressed sizes of the blocks before it. */
  lemma RecordOffsets(pairs: seq<(nat, nat)>)
    ensures RecordOffsetsAreSums(RecordInfosOf(pairs))
  {
    assert RecordSizes(RecordInfosOf(pairs)) == Firsts(pairs);
  }

  // ---------------------------------------------------------------------
  // The whole section
  // ---------------------------------------------------------------------

  /** The key blocks and record blocks a dictionary file describes. */
  datatype BlockTables = BlockTables(keyBlocks: seq<KeyBlockInfo>, recordBlocks: seq<RecordBlockInfo>)

  /** The 8-byte and 5-byte fields a version 2.0 file has after the entry count. */
  function SkipV2(file: Bytes, pos: nat, v2: bool): (r: Outcome<nat>)
    ensures !r.Panic?
  {
    if !v2 then Ok(pos)
    else
      var skipped := ReadU64(file, pos);
      if !skipped.Ok? then Fail(skipped)
      else if Take(file, skipped.value.1, 5).Some? then Ok(skipped.value.1 + 5)
      else Err(Eof)
  }

  /** `read_block_infos`: reading from the header's `data_offset` on. */
  function ReadBlockInfos(file: Bytes, h: DictionaryHeader, decode: Bytes -> string, inflate: Bytes -> Option<Bytes>)
    : (r: Outcome<BlockTables>)
    ensures r.Ok? ==> KeyOffsetsAreSums(r.value.keyBlocks) && RecordOffsetsAreSums(r.value.recordBlocks)
  {
    var numKeyBlocks := ReadU64(file, h.dataOffset);
    if !numKeyBlocks.Ok? then Fail(numKeyBlocks) else
    var numEntries := ReadU64(file, numKeyBlocks.value.1);
    if !numEntries.Ok? then Fail(numEntries) else
    var skip := SkipV2(file, numEntries.value.1, h.v2);
    if !skip.Ok? then Fail(skip) else
    var infoSize := ReadU64(file, skip.value);
    if !infoSize.Ok? then Fail(infoSize) else
    var blocksSize := ReadU64(file, infoSize.value.1);
    if !blocksSize.Ok? then Fail(blocksSize) else
    var p := blocksSize.value.1;
    match Take(file, p, infoSize.value.0)
    case None => Err(Eof)
    case Some(compressed) =>
      var infoData := DecompressMdx(compressed, h.v2, inflate);
      if !infoData.Ok? then Fail(infoData) else
      var keyBlocks := KeyBlockInfos(infoData.value, numKeyBlocks.value.0, h.v2, decode);
      if !keyBlocks.Ok? then Fail(keyBlocks) else
      var q := p + infoSize.value.0;
      var numRecordBlocks := ReadU64(file, q);
      if !numRecordBlocks.Ok? then Fail(numRecordBlocks) else
      var recordEntries := ReadU64(file, numRecordBlocks.value.1);
      if !recordEntries.Ok? then Fail(recordEntries) else
      var recordInfoSize := ReadU64(file, recordEntries.value.1);
      if !recordInfoSize.Ok? then Fail(recordInfoSize) else
      var recordBlocksSize := ReadU64(file, recordInfoSize.value.1);
      if !recordBlocksSize.Ok? then Fail(recordBlocksSize) else
      match Take(file, recordBlocksSize.value.1, recordInfoSize.value.0)
      case None => Err(Eof)
      case Some(recordInfo) =>
        var recordBlocks := RecordBlockInfos(recordInfo, numRecordBlocks.value.0);
        if !recordBlocks.Ok? then Fail(recordBlocks)
        else Ok(BlockTables(keyBlocks.value, recordBlocks.value))
  }

  /** An opened dictionary or resource file: its bytes, header and block tables, and the two foreign decoders. */
  datatype Archive = Archive(
    file: Bytes,
    header: DictionaryHeader,
    keyBlocks: seq<KeyBlockInfo>,
    recordBlocks: seq<RecordBlockInfo>,
    decode: Bytes -> string,
    inflate: Bytes -> Option<Bytes>)

  /** `MdxDictionary::new` and `MddResource::new` without the cache: the header, then the block tables. */
  function OpenArchive(file: Bytes, decode: Bytes -> string, inflate: Bytes -> Option<Bytes>): (r: Outcome<Archive>)
    ensures r.Ok? ==>
      r.value.header.dataOffset >= 8
      && KeyOffsetsAreSums(r.value.keyBlocks) && RecordOffsetsAreSums(r.value.recordBlocks)
  {
    var h := HeaderOfFile(file, decode);
    if !h.Ok? then Fail(h)
    else
      var tables := ReadBlockInfos(file, h.value, decode, inflate);
      if !tables.Ok? then Fail(tables)
      else Ok(Archive(file, h.value, tables.value.keyBlocks, tables.value.recordBlocks, decode, inflate))
  }
}
