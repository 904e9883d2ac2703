/**
 * Block decompression.  A block starts with a small header whose last byte
 * (or, without a header, the first byte of the data) says how the rest is
 * stored: 0 stored as is, 1 LZO (not supported: empty result), 2 zlib.
 * The format has a 4-byte block header from version 2.0 on.
 *
 * The dictionary reader (`MdxDictionary::decompress`) and the resource
 * reader (`MddResource::decompress`) carry two copies that differ on blocks
 * no longer than their header; `Flavor` picks the copy.  zlib is the
 * parameter `inflate`, `None` standing for a stream that fails to decode.
 */
module Compression {
  import opened Wrappers
  import opened Binary

  datatype Flavor = Mdx | Mdd

  /** The block header size: 4 bytes from version 2.0 on, none before. */
  function HeaderSize(v2: bool): nat
  {
    if v2 then 4 else 0
  }

  /** The dispatch on the compression-type byte, once the payload is known. */
  function Dispatch(kind: byte, payload: Bytes, inflate: Bytes -> Option<Bytes>): Outcome<Bytes>
  {
    if kind == 0 then Ok(payload)
    else if kind == 1 then Ok([])
    else if kind == 2 then
      (match inflate(payload) case Some(out) => Ok(out) case None => Err(InflateFailed))
    else Err(UnknownCompression(kind))
  }

  /** `MdxDictionary::decompress`: reads the type byte at `hs - 1` whenever the data is non-empty. */
  function DecompressMdx(data: Bytes, v2: bool, inflate: Bytes -> Option<Bytes>): Outcome<Bytes>
  {
    var hs := HeaderSize(v2);
    if |data| == 0 then Ok([])
    else if hs > 0 && |data| < hs then Panic
    else
      var kind := if hs > 0 then data[hs - 1] else data[0];
      if hs > 0 && |data| > hs then Dispatch(kind, data[hs..], inflate)
      else if hs > 0 then Ok([])
      else Dispatch(kind, data, inflate)
  }

  /** `MddResource::decompress`: falls back to the first byte and the whole data for short blocks. */
  function DecompressMdd(data: Bytes, v2: bool, inflate: Bytes -> Option<Bytes>): Outcome<Bytes>
  {
    var hs := HeaderSize(v2);
    if hs > 0 && |data| > hs then Dispatch(data[hs - 1], data[hs..], inflate)
    else if |data| > 0 then Dispatch(data[0], data, inflate)
    else Ok([])
  }

  function Decompress(flavor: Flavor, data: Bytes, v2: bool, inflate: Bytes -> Option<Bytes>): Outcome<Bytes>
  {
    match flavor
    case Mdx => DecompressMdx(data, v2, inflate)
    case Mdd => DecompressMdd(data, v2, inflate)
  }

  // ---------------------------------------------------------------------
  // Properties
  // ---------------------------------------------------------------------

  lemma EmptyIsEmpty(flavor: Flavor, v2: bool, inflate: Bytes -> Option<Bytes>)
    ensures Decompress(flavor, [], v2, inflate) == Ok([])
  {
  }

  /**
   * For a block longer than its header both copies read the type byte just
   * before the payload and dispatch on it: stored data comes back unchanged,
   * LZO gives nothing, zlib is inflated, any other type is an error.
   */
  lemma DispatchOnType(flavor: Flavor, data: Bytes, v2: bool, inflate: Bytes -> Option<Bytes>)
    requires |data| > HeaderSize(v2)
    ensures var hs := HeaderSize(v2);
      var kind := if v2 then data[hs - 1] else data[0];
      var r := Decompress(flavor, data, v2, inflate);
      (kind == 0 ==> r == Ok(data[hs..]))
      && (kind == 1 ==> r == Ok([]))
      && (kind == 2 ==> (r.Ok? <==> inflate(data[hs..]).Some?))
      && (kind == 2 && r.Ok? ==> r.value == inflate(data[hs..]).value)
      && (kind > 2 ==> r == Err(UnknownCompression(kind)))
  {
    assert data[0..] == data;
  }

  /** Without a block header the type byte stays part of the payload handed on. */
  lemma NoHeaderKeepsTypeByte(flavor: Flavor, data: Bytes, inflate: Bytes -> Option<Bytes>)
    requires |data| > 0 && data[0] == 0
    ensures Decompress(flavor, data, false, inflate) == Ok(data)
  {
  }

  /** The two copies agree except on non-empty blocks no longer than their header. */
  lemma CopiesAgree(data: Bytes, v2: bool, inflate: Bytes -> Option<Bytes>)
    requires |data| == 0 || |data| > HeaderSize(v2) || !v2
    ensures DecompressMdx(data, v2, inflate) == DecompressMdd(data, v2, inflate)
  {
  }

  /**
   * On a non-empty block no longer than its header the dictionary copy
   * panics (shorter) or returns nothing (exactly as long), while the
   * resource copy dispatches on the first byte over the whole block.
   */
  lemma ShortBlocks(data: Bytes, inflate: Bytes -> Option<Bytes>)
    requires 0 < |data| <= 4
    ensures |data| < 4 ==> DecompressMdx(data, true, inflate) == Panic
    ensures |data| == 4 ==> DecompressMdx(data, true, inflate) == Ok([])
    ensures DecompressMdd(data, true, inflate) == Dispatch(data[0], data, inflate)
  {
  }

  /** A concrete block on which the copies disagree. */
  lemma CopiesDisagree(inflate: Bytes -> Option<Bytes>)
    ensures DecompressMdx([0, 1, 2, 3], true, inflate) == Ok([])
    ensures DecompressMdd([0, 1, 2, 3], true, inflate) == Ok([0, 1, 2, 3])
  {
  }
}
