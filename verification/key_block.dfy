/**
 * Key blocks: each decompresses to a run of entries, a length-prefixed key
 * followed by a big-endian `u64` record offset.  An entry's record starts
 * at the previous entry's offset (0 for the first) and its size is the
 * difference, or 0 when the offset does not grow.
 */
module KeyBlock {
  import opened Wrappers
  import opened Binary
  import opened Compression
  import opened Blocks

  datatype KeyEntry = KeyEntry(key: string, start: nat, size: nat)

  /** The file position of key block `idx`: the data offset plus the compressed sizes of the blocks before it. */
  function KeyBlockPosition(a: Archive, idx: nat): nat
    requires idx <= |a.keyBlocks|
  {
    Wrap(a.header.dataOffset + Wrap(Sum(KeySizes(a.keyBlocks[..idx]))))
  }

  /** The decompressed contents of key block `idx`, read with the given copy of `decompress`. */
  function KeyBlockData(a: Archive, flavor: Flavor, idx: nat): Outcome<Bytes>
    requires idx < |a.keyBlocks|
  {
    var raw := ReadAt(a.file, KeyBlockPosition(a, idx), a.keyBlocks[idx].compressedSize);
    if !raw.Ok? then Fail(raw) else Decompress(flavor, raw.value, a.header.v2, a.inflate)
  }

  /** One entry: `read_key_entry`, then the `u64` offset; the key, the offset and the next position. */
  function EntryAt(data: Bytes, pos: nat, v2: bool, decode: Bytes -> string): (r: Outcome<((string, nat), nat)>)
    ensures !r.Panic?
  {
    var key := ReadKeyText(data, pos, v2, decode);
    if !key.Ok? then Fail(key) else
    var offset := ReadU64(data, key.value.1);
    if !offset.Ok? then Fail(offset) else
    Ok(((key.value.0, offset.value.0), offset.value.1))
  }

  /** Reads one entry at a position: its key, its record offset, and the next position. */
  type EntryReader = (Bytes, nat) -> Outcome<((string, nat), nat)>

  /** The entry reader of an archive: `read_key_entry` with the archive's layout and decoding. */
  function Reader(v2: bool, decode: Bytes -> string): EntryReader
  {
    (d: Bytes, p: nat) => EntryAt(d, p, v2, decode)
  }

  /** The size of a record from the previous offset to this one, 0 when the offset does not grow. */
  function SizeBetween(last: nat, offset: nat): nat
  {
    if offset > last then offset - last else 0
  }

  /** `n` entries from `pos`, the previous offset being `last`: what `read_key_block_entries` lists. */
  function EntriesFrom(data: Bytes, pos: nat, n: nat, last: nat, read: EntryReader)
    : (r: Outcome<seq<KeyEntry>>)
    ensures r.Ok? ==> |r.value| == n
    decreases n
  {
    if n == 0 then Ok([])
    else
      var one := read(data, pos);
      if !one.Ok? then Fail(one)
      else
        var offset := one.value.0.1;
        Prepend(KeyEntry(one.value.0.0, last, SizeBetween(last, offset)), EntriesFrom(data, one.value.1, n - 1, offset, read))
  }

  /** The scan of `search_in_key_block`: the first of `n` entries whose key is `target`. */
  function SearchFrom(data: Bytes, pos: nat, n: nat, last: nat, target: string, read: EntryReader)
    : (r: Outcome<Option<KeyEntry>>)
    ensures r.Ok? && r.value.Some? ==> r.value.value.key == target
    decreases n
  {
    if n == 0 then Ok(None)
    else
      var one := read(data, pos);
      if !one.Ok? then Fail(one)
      else
        var offset := one.value.0.1;
        if one.value.0.0 == target then Ok(Some(KeyEntry(target, last, SizeBetween(last, offset))))
        else SearchFrom(data, one.value.1, n - 1, offset, target, read)
  }

  /** `read_key_block_entries` (dictionary copy). */
  function BlockEntries(a: Archive, idx: nat): Outcome<seq<KeyEntry>>
    requires idx < |a.keyBlocks|
  {
    var data := KeyBlockData(a, Mdx, idx);
    if !data.Ok? then Fail(data)
    else EntriesFrom(data.value, 0, a.keyBlocks[idx].numEntries, 0, Reader(a.header.v2, a.decode))
  }

  /** `search_in_key_block`, dictionary or resource copy. */
  function SearchBlock(a: Archive, flavor: Flavor, idx: nat, target: string): Outcome<Option<KeyEntry>>
    requires idx < |a.keyBlocks|
  {
    var data := KeyBlockData(a, flavor, idx);
    if !data.Ok? then Fail(data)
    else SearchFrom(data.value, 0, a.keyBlocks[idx].numEntries, 0, target, Reader(a.header.v2, a.decode))
  }

  /** `search_in_key_block` as the reader runs it. */
  method SearchInKeyBlock(a: Archive, flavor: Flavor, idx: nat, target: string) returns (r: Outcome<Option<KeyEntry>>)
    requires idx < |a.keyBlocks|
    ensures r == SearchBlock(a, flavor, idx, target)
  {
    var data := KeyBlockData(a, flavor, idx);
    if !data.Ok? {
      return Fail(data);
    }
    r := ScanEntries(data.value, a.keyBlocks[idx].numEntries, target, Reader(a.header.v2, a.decode));
  }

  /** The loop of `search_in_key_block`: entries read in order until one has the target key. */
  method ScanEntries(data: Bytes, n: nat, target: string, read: EntryReader)
    returns (r: Outcome<Option<KeyEntry>>)
    ensures r == SearchFrom(data, 0, n, 0, target, read)
  {
    var pos := 0;
    var last := 0;
    var i := 0;
    while i < n
      invariant i <= n
      invariant SearchFrom(data, pos, n - i, last, target, read) == SearchFrom(data, 0, n, 0, target, read)
    {
      var one := read(data, pos);
      if !one.Ok? {
        return Fail(one);
      }
      var key := one.value.0.0;
      var offset := one.value.0.1;
      if key == target {
        return Ok(Some(KeyEntry(key, last, SizeBetween(last, offset))));
      }
      last := offset;
      pos := one.value.1;
      i := i + 1;
    }
    r := Ok(None);
  }

  /** `read_key_block_entries` as the reader runs it. */
  method ReadKeyBlockEntries(a: Archive, idx: nat) returns (r: Outcome<seq<KeyEntry>>)
    requires idx < |a.keyBlocks|
    ensures r == BlockEntries(a, idx)
  {
    var data := KeyBlockData(a, Mdx, idx);
    if !data.Ok? {
      return Fail(data);
    }
    r := ListEntries(data.value, a.keyBlocks[idx].numEntries, Reader(a.header.v2, a.decode));
  }

  /** The loop of `read_key_block_entries`: `n` entries pushed in order, each paired with the previous offset. */
  method ListEntries(data: Bytes, n: nat, read: EntryReader) returns (r: Outcome<seq<KeyEntry>>)
    ensures r == EntriesFrom(data, 0, n, 0, read)
  {
    ghost var goal := EntriesFrom(data, 0, n, 0, read);
    var entries: seq<KeyEntry> := [];
    var pos := 0;
    var last := 0;
    var k := n;
    ExtendEmpty(goal);
    while k > 0
      invariant Extend(entries, EntriesFrom(data, pos, k, last, read)) == goal
    {
      var one := read(data, pos);
      if !one.Ok? {
        return Fail(one);
      }
      ListStep(data, pos, k, last, read, entries);
      var offset := one.value.0.1;
      entries := entries + [KeyEntry(one.value.0.0, last, SizeBetween(last, offset))];
      last := offset;
      pos := one.value.1;
      k := k - 1;
    }
    assert entries + [] == entries;
    r := Ok(entries);
  }

  /** One step of the listing loop: a read entry is pushed and the scan resumes after it. */
  lemma ListStep(data: Bytes, pos: nat, k: nat, last: nat, read: EntryReader, entries: seq<KeyEntry>)
    requires k > 0 && read(data, pos).Ok?
    ensures var one := read(data, pos).value;
      Extend(entries, EntriesFrom(data, pos, k, last, read)) ==
      Extend(entries + [KeyEntry(one.0.0, last, SizeBetween(last, one.0.1))], EntriesFrom(data, one.1, k - 1, one.0.1, read))
  {
    var one := read(data, pos).value;
    ExtendPrepend(entries, KeyEntry(one.0.0, last, SizeBetween(last, one.0.1)), EntriesFrom(data, one.1, k - 1, one.0.1, read));
  }

  // ---------------------------------------------------------------------
  // Properties
  // ---------------------------------------------------------------------

  /** The first entry with key `target`. */
  function FirstWithKey(es: seq<KeyEntry>, target: string): (r: Option<KeyEntry>)
    ensures r.None? <==> forall k :: 0 <= k < |es| ==> es[k].key != target
    ensures r.Some? ==>
      exists k :: 0 <= k < |es| && es[k] == r.value && es[k].key == target
        && forall j :: 0 <= j < k ==> es[j].key != target
  {
    if |es| == 0 then None
    else if es[0].key == target then Some(es[0])
    else
      var r := FirstWithKey(es[1..], target);
      assert forall k :: 1 <= k < |es| ==> es[k] == es[1..][k - 1];
      r
  }

  /**
   * The search returns the same entry, with the same start and size, as
   * the first entry with that key in the full listing; no match gives
   * `None`.  A search can succeed where the listing fails, when the block
   * goes bad only after the match.
   */
  lemma {:induction false} SearchIsFirstListed(data: Bytes, pos: nat, n: nat, last: nat, target: string, read: EntryReader)
    requires EntriesFrom(data, pos, n, last, read).Ok?
    ensures SearchFrom(data, pos, n, last, target, read) ==
      Ok(FirstWithKey(EntriesFrom(data, pos, n, last, read).value, target))
    decreases n
  {
    if n > 0 {
      var ((key, offset), next) := read(data, pos).value;
      var es := EntriesFrom(data, pos, n, last, read).value;
      SearchIsFirstListed(data, next, n - 1, offset, target, read);
      assert es[1..] == EntriesFrom(data, next, n - 1, offset, read).value;
    }
  }

  /** A search fails only if the listing fails too (it stops reading at the match). */
  lemma {:induction false} SearchFailsOnlyIfListingFails(data: Bytes, pos: nat, n: nat, last: nat, target: string, read: EntryReader)
    requires !SearchFrom(data, pos, n, last, target, read).Ok?
    ensures EntriesFrom(data, pos, n, last, read) == Fail(SearchFrom(data, pos, n, last, target, read))
    decreases n
  {
    var one := read(data, pos);
    if one.Ok? {
      var ((key, offset), next) := one.value;
      SearchFailsOnlyIfListingFails(data, next, n - 1, offset, target, read);
    }
  }

  function Max(a: nat, b: nat): nat
  {
    if a >= b then a else b
  }

  /**
   * The first entry starts at `last`; each entry's record ends where the
   * next one starts, unless the offsets go down, in which case it is empty.
   */
  lemma {:induction false} EntriesChain(data: Bytes, pos: nat, n: nat, last: nat, read: EntryReader)
    requires EntriesFrom(data, pos, n, last, read).Ok?
    ensures var es := EntriesFrom(data, pos, n, last, read).value;
      (n > 0 ==> es[0].start == last) && Chained(es)
    decreases n
  {
    EntriesStart(data, pos, n, last, read);
    if n > 0 {
      var one := read(data, pos).value;
      var e := KeyEntry(one.0.0, last, SizeBetween(last, one.0.1));
      var rest := EntriesFrom(data, one.1, n - 1, one.0.1, read);
      assert EntriesFrom(data, pos, n, last, read) == Prepend(e, rest);
      EntriesChain(data, one.1, n - 1, one.0.1, read);
      EntriesStart(data, one.1, n - 1, one.0.1, read);
      ChainCons(e, one.0.1, rest.value);
    }
  }

  lemma EntriesStart(data: Bytes, pos: nat, n: nat, last: nat, read: EntryReader)
    requires EntriesFrom(data, pos, n, last, read).Ok?
    ensures n > 0 ==> EntriesFrom(data, pos, n, last, read).value[0].start == last
  {
  }

  /** Each entry's record ends where the next one starts, or is empty when the next does not start later. */
  predicate Chained(es: seq<KeyEntry>)
  {
    forall k :: 0 <= k < |es| - 1 ==> es[k].start + es[k].size == Max(es[k].start, es[k + 1].start)
  }

  lemma ChainCons(e: KeyEntry, offset: nat, rest: seq<KeyEntry>)
    requires e.size == SizeBetween(e.start, offset)
    requires |rest| > 0 ==> rest[0].start == offset
    requires Chained(rest)
    ensures Chained([e] + rest)
  {
    var es := [e] + rest;
    forall k | 0 <= k < |es| - 1
      ensures es[k].start + es[k].size == Max(es[k].start, es[k + 1].start)
    {
      if k > 0 {
        assert es[k] == rest[k - 1] && es[k + 1] == rest[k];
      }
    }
  }

  /** The block search of either copy is the first listed entry with the key (dictionary copy for the listing). */
  lemma BlockSearchIsFirstListed(a: Archive, idx: nat, target: string)
    requires idx < |a.keyBlocks| && BlockEntries(a, idx).Ok?
    ensures SearchBlock(a, Mdx, idx, target) == Ok(FirstWithKey(BlockEntries(a, idx).value, target))
  {
    var data := KeyBlockData(a, Mdx, idx);
    SearchIsFirstListed(data.value, 0, a.keyBlocks[idx].numEntries, 0, target, Reader(a.header.v2, a.decode));
  }

  /** Where the offsets are the running sums, a key block sits at the data offset plus its own offset. */
  lemma PositionIsOffset(a: Archive, idx: nat)
    requires idx < |a.keyBlocks| && KeyOffsetsAreSums(a.keyBlocks)
    ensures KeyBlockPosition(a, idx) == Wrap(a.header.dataOffset + a.keyBlocks[idx].offset)
  {
    assert KeySizes(a.keyBlocks[..idx]) == KeySizes(a.keyBlocks)[..idx];
  }

  /** The two copies read the same entries except from blocks of 1 to 4 bytes in the version 2 layout. */
  lemma CopiesSearchAlike(a: Archive, idx: nat, target: string)
    requires idx < |a.keyBlocks|
    requires !a.header.v2 || a.keyBlocks[idx].compressedSize == 0 || a.keyBlocks[idx].compressedSize > 4
    ensures SearchBlock(a, Mdx, idx, target) == SearchBlock(a, Mdd, idx, target)
  {
    var raw := ReadAt(a.file, KeyBlockPosition(a, idx), a.keyBlocks[idx].compressedSize);
    if raw.Ok? {
      CopiesAgree(raw.value, a.header.v2, a.inflate);
    }
  }
}
