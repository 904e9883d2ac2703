/**
 * The resource reader (`MddResource`): a companion archive of images and
 * sounds whose keys are `/`-rooted paths and whose records are raw bytes.
 * `locate` normalises the name, consults the resource cache, and otherwise
 * searches every key block in order (there is no first/last-key filter),
 * caching only a successful read.
 */
module Resource {
  import opened Wrappers
  import opened Binary
  import opened Compression
  import opened Blocks
  import opened KeyBlock
  import opened Record
  import opened Lru

  /** The name looked up: `/` in front unless it is already there. */
  function NormalizeName(name: string): (r: string)
    ensures |r| > 0 && r[0] == '/'
    ensures |name| > 0 && name[0] == '/' ==> r == name
    ensures !(|name| > 0 && name[0] == '/') ==> r == "/" + name
  {
    if |name| > 0 && name[0] == '/' then name else "/" + name
  }

  /** The search loop from block `idx` on: the first block whose search hits and whose record reads. */
  function ResourceFrom(a: Archive, name: string, idx: nat): Run<Option<Bytes>>
    requires idx <= |a.keyBlocks|
    decreases |a.keyBlocks| - idx
  {
    if idx == |a.keyBlocks| then Returns(None)
    else
      match SearchBlock(a, Mdd, idx, name)
      case Panic => Panics
      case Err(_) => ResourceFrom(a, name, idx + 1)
      case Ok(None) => ResourceFrom(a, name, idx + 1)
      case Ok(Some(e)) =>
        match RecordMdd(a, e.start, e.size)
        case Panic => Panics
        case Err(_) => ResourceFrom(a, name, idx + 1)
        case Ok(data) => Returns(Some(data))
  }

  /** What `locate` answers with an empty cache. */
  function LocateUncached(a: Archive, resourceName: string): Run<Option<Bytes>>
  {
    ResourceFrom(a, NormalizeName(resourceName), 0)
  }

  /**
   * The resource cache after `locate(resourceName)`: a cached name is
   * moved to the most-recent end; otherwise bytes found are stored under
   * the normalised name (the least recently used pair evicted when full),
   * and a miss, a failed read or a panic leaves the cache alone.
   */
  function CacheAfterLocate(a: Archive, es: seq<(string, Bytes)>, resourceName: string): seq<(string, Bytes)>
  {
    var name := NormalizeName(resourceName);
    if Find(es, name).Some? then Touch(es, name)
    else match ResourceFrom(a, name, 0)
      case Returns(Some(data)) => Insert(es, CacheSize, name, data)
      case _ => es
  }

  lemma CacheAfterLocateMiss(a: Archive, es: seq<(string, Bytes)>, resourceName: string)
    requires Find(es, NormalizeName(resourceName)).None?
    ensures var r := LocateUncached(a, resourceName);
      CacheAfterLocate(a, es, resourceName) ==
        if r.Returns? && r.value.Some? then Insert(es, CacheSize, NormalizeName(resourceName), r.value.value) else es
  {
  }

  class MddResource {
    const archive: Archive
    /** Resource bytes by normalised name. */
    const cache: LruCache<string, Bytes>

    /** Every cached pair is what an uncached search for its name answers. */
    ghost predicate Valid()
      reads cache
    {
      cache.Valid() && cache.capacity == CacheSize
      && forall p :: p in cache.entries ==> ResourceFrom(archive, p.0, 0) == Returns(Some(p.1))
    }

    constructor (archive: Archive)
      ensures Valid() && this.archive == archive && fresh(cache) && cache.entries == []
    {
      this.archive := archive;
      cache := new LruCache(CacheSize);
    }

    /** `MddResource::new`: the header and block tables of the file, and an empty cache. */
    static method Open(file: Bytes, decode: Bytes -> string, inflate: Bytes -> Option<Bytes>)
      returns (r: Outcome<MddResource>)
      ensures r.Ok? <==> OpenArchive(file, decode, inflate).Ok?
      ensures r.Ok? ==>
        fresh(r.value) && fresh(r.value.cache) && r.value.Valid()
        && r.value.archive == OpenArchive(file, decode, inflate).value && r.value.cache.entries == []
    {
      var a := OpenArchive(file, decode, inflate);
      if !a.Ok? {
        return Fail(a);
      }
      var m := new MddResource(a.value);
      r := Ok(m);
    }

    /**
     * `MddResource::locate`: not found and a failed read are both `None`.
     * Whatever the cache holds, the answer is the uncached one; only a
     * successful read is cached, under the normalised name.
     */
    method Locate(resourceName: string) returns (r: Run<Option<Bytes>>)
      requires Valid()
      modifies cache
      ensures Valid()
      ensures r == LocateUncached(archive, resourceName)
      ensures cache.entries == CacheAfterLocate(archive, old(cache.entries), resourceName)
      ensures r == Returns(None) || r.Panics? ==> cache.entries == old(cache.entries)
      ensures r.Returns? && r.value.Some? ==> (NormalizeName(resourceName), r.value.value) in cache.entries
    {
      var name := NormalizeName(resourceName);
      var hit := cache.Get(name);
      if hit.Some? {
        FindIsMembership(old(cache.entries), name, hit.value);
        assert (name, hit.value) in cache.entries;
        assert cache.entries == CacheAfterLocate(archive, old(cache.entries), resourceName);
        return Returns(Some(hit.value));
      }
      CacheAfterLocateMiss(archive, old(cache.entries), resourceName);
      var idx := 0;
      while idx < |archive.keyBlocks|
        invariant idx <= |archive.keyBlocks|
        invariant ResourceFrom(archive, name, idx) == LocateUncached(archive, resourceName)
        invariant cache.entries == old(cache.entries)
      {
        var found := SearchInKeyBlock(archive, Mdd, idx, name);
        if found.Panic? {
          return Panics;
        }
        if found.Ok? && found.value.Some? {
          var e := found.value.value;
          var data := ReadRecordMdd(archive, e.start, e.size);
          if data.Panic? {
            return Panics;
          }
          if data.Ok? {
            Remember(name, data.value);
            return Returns(Some(data.value));
          }
        }
        idx := idx + 1;
      }
      r := Returns(None);
    }

    /** The cache's `put` of a successful read: the pair is stored and every cached pair stays an uncached answer. */
    method Remember(name: string, data: Bytes)
      requires Valid() && ResourceFrom(archive, name, 0) == Returns(Some(data))
      modifies cache
      ensures Valid() && (name, data) in cache.entries
      ensures cache.entries == Insert(old(cache.entries), CacheSize, name, data)
    {
      cache.Put(name, data);
      FindAfterInsertSame(old(cache.entries), CacheSize, name, data);
      FindIsMembership(cache.entries, name, data);
    }
  }

  // ---------------------------------------------------------------------
  // Properties
  // ---------------------------------------------------------------------

  /** Normalising twice changes nothing. */
  lemma NormalizeIdempotent(name: string)
    ensures NormalizeName(NormalizeName(name)) == NormalizeName(name)
  {
  }

  /** `x.png` and `/x.png` name the same resource. */
  lemma RootedAndBareAgree(a: Archive, name: string)
    requires !(|name| > 0 && name[0] == '/')
    ensures LocateUncached(a, name) == LocateUncached(a, "/" + name)
  {
    assert ("/" + name)[0] == '/';
  }

  /** Block `i`'s search finds `name` and the record there reads as `data`. */
  predicate HitAt(a: Archive, name: string, i: nat, data: Bytes)
    requires i < |a.keyBlocks|
  {
    match SearchBlock(a, Mdd, i, name)
    case Ok(Some(k)) => k.key == name && RecordMdd(a, k.start, k.size) == Ok(data)
    case _ => false
  }

  /** Block `i`'s search finds the name and the record there reads. */
  predicate Hit(a: Archive, name: string, i: nat)
    requires i < |a.keyBlocks|
  {
    match SearchBlock(a, Mdd, i, name)
    case Ok(Some(k)) => RecordMdd(a, k.start, k.size).Ok?
    case _ => false
  }

  /** Block `i`'s search, or the record read after a hit, panics. */
  predicate PanicAt(a: Archive, name: string, i: nat)
    requires i < |a.keyBlocks|
  {
    match SearchBlock(a, Mdd, i, name)
    case Panic => true
    case Ok(Some(k)) => RecordMdd(a, k.start, k.size).Panic?
    case _ => false
  }

  /** Block `i` is the first hit from `idx` on, it yields `data`, and no block before it panics. */
  predicate FirstHitAt(a: Archive, name: string, idx: nat, i: nat, data: Bytes)
    requires idx <= i < |a.keyBlocks|
  {
    HitAt(a, name, i, data) && forall j :: idx <= j < i ==> !Hit(a, name, j) && !PanicAt(a, name, j)
  }

  /** One block of the search loop: a hit there is the answer; otherwise the answer comes from the blocks after it. */
  lemma ResourceStep(a: Archive, name: string, idx: nat)
    requires idx < |a.keyBlocks|
    ensures Hit(a, name, idx) ==>
      (ResourceFrom(a, name, idx).Returns? && ResourceFrom(a, name, idx).value.Some?
       && HitAt(a, name, idx, ResourceFrom(a, name, idx).value.value))
    ensures !Hit(a, name, idx) && !PanicAt(a, name, idx) ==> ResourceFrom(a, name, idx) == ResourceFrom(a, name, idx + 1)
    ensures PanicAt(a, name, idx) ==> ResourceFrom(a, name, idx).Panics?
  {
  }

  /** Bytes found come from the first block whose search hits and whose record reads, and no block before it panics. */
  lemma {:induction false} ResourceIsHit(a: Archive, name: string, idx: nat)
    requires idx <= |a.keyBlocks|
    requires ResourceFrom(a, name, idx).Returns? && ResourceFrom(a, name, idx).value.Some?
    ensures exists i :: idx <= i < |a.keyBlocks| && FirstHitAt(a, name, idx, i, ResourceFrom(a, name, idx).value.value)
    decreases |a.keyBlocks| - idx
  {
    var d := ResourceFrom(a, name, idx).value.value;
    ResourceStep(a, name, idx);
    if Hit(a, name, idx) {
      assert FirstHitAt(a, name, idx, idx, d);
    } else {
      ResourceIsHit(a, name, idx + 1);
      var i :| idx + 1 <= i < |a.keyBlocks| && FirstHitAt(a, name, idx + 1, i, d);
      forall j | idx <= j < i
        ensures !Hit(a, name, j) && !PanicAt(a, name, j)
      {
        if j != idx {
          assert idx + 1 <= j < i;
        }
      }
      assert FirstHitAt(a, name, idx, i, d);
    }
  }

  /**
   * A name the search finds but whose record does not read is passed
   * over: `locate` goes on to the next block, so a failed read and a
   * missing name both end in `None`.
   */
  lemma ReadFailureFallsThrough(a: Archive, name: string, idx: nat)
    requires idx < |a.keyBlocks|
    requires SearchBlock(a, Mdd, idx, name).Ok? && SearchBlock(a, Mdd, idx, name).value.Some?
    requires var k := SearchBlock(a, Mdd, idx, name).value.value; RecordMdd(a, k.start, k.size).Err?
    ensures ResourceFrom(a, name, idx) == ResourceFrom(a, name, idx + 1)
  {
  }

  /**
   * `locate` answers `None` exactly when no block from `idx` on both finds
   * the name and reads its record, and none of them panics.
   */
  lemma {:induction false} ResourceMissing(a: Archive, name: string, idx: nat)
    requires idx <= |a.keyBlocks|
    ensures ResourceFrom(a, name, idx) == Returns(None) <==>
      forall i :: idx <= i < |a.keyBlocks| ==> !Hit(a, name, i) && !PanicAt(a, name, i)
    decreases |a.keyBlocks| - idx
  {
    if idx < |a.keyBlocks| {
      ResourceMissing(a, name, idx + 1);
      ResourceStep(a, name, idx);
      if !Hit(a, name, idx) && !PanicAt(a, name, idx) {
        forall i | idx <= i < |a.keyBlocks| && (forall i' :: idx + 1 <= i' < |a.keyBlocks| ==> !Hit(a, name, i') && !PanicAt(a, name, i'))
          ensures !Hit(a, name, i) && !PanicAt(a, name, i)
        {
          if i != idx {
            assert idx + 1 <= i;
          }
        }
      }
    }
  }
}
