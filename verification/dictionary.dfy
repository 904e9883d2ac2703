/**
 * The dictionary reader (`MdxDictionary`): opening an archive, looking a
 * word up through the word cache, and the capped prefix search the
 * search box uses.
 */
module Dictionary {
  import opened Wrappers
  import opened Text
  import opened Binary
  import opened Compression
  import opened Blocks
  import opened KeyBlock
  import opened Record
  import opened Lru

  datatype DictionaryEntry = DictionaryEntry(word: string, definition: string)

  /** How many keys `prefix_search` returns at most. */
  const PrefixLimit: nat := 20

  /** The key searched for: trimmed and lower-cased when the dictionary strips keys, the word itself otherwise. */
  function LookupTarget(stripKey: bool, word: string): string
  {
    if stripKey then Lower(Trim(word)) else word
  }

  /** The first/last-key filter: only blocks whose key range holds the target are searched. */
  predicate InRange(b: KeyBlockInfo, target: string)
  {
    LexLe(b.firstKey, target) && LexLe(target, b.lastKey)
  }

  /** The lookup loop from block `idx` on: the first in-range block whose search hits and whose record reads. */
  function LookupFrom(a: Archive, target: string, idx: nat): (r: Run<Option<DictionaryEntry>>)
    requires idx <= |a.keyBlocks|
    ensures r.Returns? && r.value.Some? ==> r.value.value.word == target
    decreases |a.keyBlocks| - idx
  {
    if idx == |a.keyBlocks| then Returns(None)
    else if !InRange(a.keyBlocks[idx], target) then LookupFrom(a, target, idx + 1)
    else
      match SearchBlock(a, Mdx, idx, target)
      case Panic => Panics
      case Err(_) => LookupFrom(a, target, idx + 1)
      case Ok(None) => LookupFrom(a, target, idx + 1)
      case Ok(Some(e)) =>
        match RecordMdx(a, e.start, e.size)
        case Panic => Panics
        case Err(_) => LookupFrom(a, target, idx + 1)
        case Ok(definition) => Returns(Some(DictionaryEntry(e.key, definition)))
  }

  /** What `lookup` answers with an empty cache. */
  function LookupUncached(a: Archive, word: string): Run<Option<DictionaryEntry>>
  {
    LookupFrom(a, LookupTarget(a.header.stripKey, word), 0)
  }

  /**
   * The word cache after `lookup(word)`: a cached word is moved to the
   * most-recent end; otherwise a found entry is stored under its key (the
   * least recently used pair evicted when full), and a miss or a panic
   * leaves the cache alone.
   */
  function CacheAfterLookup(a: Archive, es: seq<(string, string)>, word: string): seq<(string, string)>
  {
    if Find(es, word).Some? then Touch(es, word)
    else match LookupUncached(a, word)
      case Returns(Some(e)) => Insert(es, CacheSize, e.word, e.definition)
      case _ => es
  }

  lemma CacheAfterLookupMiss(a: Archive, es: seq<(string, string)>, word: string)
    requires Find(es, word).None?
    ensures var r := LookupUncached(a, word);
      CacheAfterLookup(a, es, word) ==
        if r.Returns? && r.value.Some? then Insert(es, CacheSize, r.value.value.word, r.value.value.definition) else es
  {
  }

  /** `key.to_lowercase().starts_with(p)`. */
  predicate HasPrefix(key: string, p: string)
  {
    |p| <= |key| && Lower(key)[..|p|] == p
  }

  /** The keys of `es` whose lower-cased form starts with `p`, in order. */
  function Matches(es: seq<KeyEntry>, p: string): (r: seq<string>)
    ensures |r| <= |es|
    ensures forall k :: 0 <= k < |r| ==> HasPrefix(r[k], p)
  {
    if |es| == 0 then []
    else (if HasPrefix(es[0].key, p) then [es[0].key] else []) + Matches(es[1..], p)
  }

  lemma MatchesStep(es: seq<KeyEntry>, j: nat, p: string)
    requires j < |es|
    ensures Matches(es[j..], p) == (if HasPrefix(es[j].key, p) then [es[j].key] else []) + Matches(es[j + 1..], p)
  {
    assert es[j..][1..] == es[j + 1..];
  }

  function Cap(s: seq<string>): (r: seq<string>)
    ensures |r| <= PrefixLimit
  {
    if |s| >= PrefixLimit then s[..PrefixLimit] else s
  }

  /** The prefix-search loop from block `idx` on, with `found` collected so far: unreadable blocks are skipped, and it stops at the limit. */
  function PrefixFrom(a: Archive, p: string, idx: nat, found: seq<string>): (r: Run<seq<string>>)
    requires idx <= |a.keyBlocks| && |found| < PrefixLimit
    decreases |a.keyBlocks| - idx
  {
    if idx == |a.keyBlocks| then Returns(found)
    else
      match BlockEntries(a, idx)
      case Panic => Panics
      case Err(_) => PrefixFrom(a, p, idx + 1, found)
      case Ok(es) =>
        var m := found + Matches(es, p);
        if |m| >= PrefixLimit then Returns(m[..PrefixLimit]) else PrefixFrom(a, p, idx + 1, m)
  }

  /** Every match from block `idx` on, unreadable blocks skipped; `Panics` when reading any block panics. */
  function AllMatches(a: Archive, p: string, idx: nat): Run<seq<string>>
    requires idx <= |a.keyBlocks|
    decreases |a.keyBlocks| - idx
  {
    if idx == |a.keyBlocks| then Returns([])
    else
      var rest := AllMatches(a, p, idx + 1);
      match BlockEntries(a, idx)
      case Panic => Panics
      case Err(_) => rest
      case Ok(es) => if rest.Panics? then Panics else Returns(Matches(es, p) + rest.value)
  }

  /** The inner loop of `prefix_search`: matching keys of one block pushed after `found`, stopping at the limit. */
  method CollectMatches(es: seq<KeyEntry>, p: string, found: seq<string>) returns (results: seq<string>, full: bool)
    requires |found| < PrefixLimit
    ensures full <==> |found + Matches(es, p)| >= PrefixLimit
    ensures results == if full then (found + Matches(es, p))[..PrefixLimit] else found + Matches(es, p)
  {
    results := found;
    var j := 0;
    while j < |es|
      invariant j <= |es| && |results| < PrefixLimit
      invariant found + Matches(es, p) == results + Matches(es[j..], p)
    {
      MatchesStep(es, j, p);
      var key := es[j].key;
      if HasPrefix(key, p) {
        results := results + [key];
        if |results| >= PrefixLimit {
          assert (found + Matches(es, p))[..PrefixLimit] == results;
          return results, true;
        }
      }
      j := j + 1;
    }
    assert es[|es|..] == [];
    assert results + [] == results;
    full := false;
  }

  class MdxDictionary {
    const archive: Archive
    /** Definitions by found key. */
    const cache: LruCache<string, string>

    /** Every cached pair is what an uncached lookup of its key answers. */
    ghost predicate Valid()
      reads cache
    {
      cache.Valid() && cache.capacity == CacheSize
      && forall p :: p in cache.entries ==> LookupUncached(archive, p.0) == Returns(Some(DictionaryEntry(p.0, p.1)))
    }

    constructor (archive: Archive)
      ensures Valid() && this.archive == archive && fresh(cache) && cache.entries == []
    {
      this.archive := archive;
      cache := new LruCache(CacheSize);
    }

    /** `MdxDictionary::new`: the header and block tables of the file, and an empty cache. */
    static method Open(file: Bytes, decode: Bytes -> string, inflate: Bytes -> Option<Bytes>)
      returns (r: Outcome<MdxDictionary>)
      ensures r.Ok? <==> OpenArchive(file, decode, inflate).Ok?
      ensures r.Ok? ==>
        fresh(r.value) && fresh(r.value.cache) && r.value.Valid()
        && r.value.archive == OpenArchive(file, decode, inflate).value && r.value.cache.entries == []
    {
      var a := OpenArchive(file, decode, inflate);
      if !a.Ok? {
        return Fail(a);
      }
      var d := new MdxDictionary(a.value);
      r := Ok(d);
    }

    /**
     * `MdxDictionary::lookup`: the cache is consulted under the word as
     * given; on a miss the blocks are searched and a hit is cached under
     * the key found.  Whatever the cache holds, the answer is the uncached
     * one, and a miss leaves the cache as it was.
     */
    method Lookup(word: string) returns (r: Run<Option<DictionaryEntry>>)
      requires Valid()
      modifies cache
      ensures Valid()
      ensures r == LookupUncached(archive, word)
      ensures cache.entries == CacheAfterLookup(archive, old(cache.entries), word)
      ensures r == Returns(None) || r.Panics? ==> cache.entries == old(cache.entries)
      ensures r.Returns? && r.value.Some? ==> (r.value.value.word, r.value.value.definition) in cache.entries
    {
      var hit := cache.Get(word);
      if hit.Some? {
        FindIsMembership(old(cache.entries), word, hit.value);
        assert (word, hit.value) in cache.entries;
        assert cache.entries == CacheAfterLookup(archive, old(cache.entries), word);
        return Returns(Some(DictionaryEntry(word, hit.value)));
      }
      CacheAfterLookupMiss(archive, old(cache.entries), word);
      var target := LookupTarget(archive.header.stripKey, word);
      var idx := 0;
      while idx < |archive.keyBlocks|
        invariant idx <= |archive.keyBlocks|
        invariant LookupFrom(archive, target, idx) == LookupUncached(archive, word)
        invariant cache.entries == old(cache.entries)
      {
        var block := archive.keyBlocks[idx];
        if LexLe(block.firstKey, target) && LexLe(target, block.lastKey) {
          var found := SearchInKeyBlock(archive, Mdx, idx, target);
          if found.Panic? {
            return Panics;
          }
          if found.Ok? && found.value.Some? {
            var e := found.value.value;
            var definition := ReadRecordMdx(archive, e.start, e.size);
            if definition.Panic? {
              return Panics;
            }
            if definition.Ok? {
              TargetIdempotent(archive.header.stripKey, word);
              assert LookupUncached(archive, e.key) == LookupUncached(archive, word);
              Remember(e.key, definition.value);
              return Returns(Some(DictionaryEntry(e.key, definition.value)));
            }
          }
        }
        idx := idx + 1;
      }
      r := Returns(None);
    }

    /** The cache's `put` of a found definition: the pair is stored and every cached pair stays an uncached answer. */
    method Remember(word: string, definition: string)
      requires Valid() && LookupUncached(archive, word) == Returns(Some(DictionaryEntry(word, definition)))
      modifies cache
      ensures Valid() && (word, definition) in cache.entries
      ensures cache.entries == Insert(old(cache.entries), CacheSize, word, definition)
    {
      cache.Put(word, definition);
      FindAfterInsertSame(old(cache.entries), CacheSize, word, definition);
      FindIsMembership(cache.entries, word, definition);
    }

    /** `MdxDictionary::prefix_search`. */
    method PrefixSearch(prefix: string) returns (r: Run<seq<string>>)
      ensures r == PrefixFrom(archive, Lower(prefix), 0, [])
    {
      var p := Lower(prefix);
      var results: seq<string> := [];
      var idx := 0;
      while idx < |archive.keyBlocks|
        invariant idx <= |archive.keyBlocks| && |results| < PrefixLimit
        invariant PrefixFrom(archive, p, idx, results) == PrefixFrom(archive, p, 0, [])
      {
        var entries := ReadKeyBlockEntries(archive, idx);
        if entries.Panic? {
          return Panics;
        }
        if entries.Ok? {
          var full;
          results, full := CollectMatches(entries.value, p, results);
          if full {
            return Returns(results);
          }
        }
        idx := idx + 1;
      }
      r := Returns(results);
    }
  }

  // ---------------------------------------------------------------------
  // Properties
  // ---------------------------------------------------------------------

  /** Normalising a word twice changes nothing: a found key looks itself up. */
  lemma TargetIdempotent(stripKey: bool, word: string)
    ensures LookupTarget(stripKey, LookupTarget(stripKey, word)) == LookupTarget(stripKey, word)
  {
    if stripKey {
      var t := Trim(word);
      TrimLower(t);
      TrimIdempotent(word);
      LowerIdempotent(t);
    }
  }

  /** Block `i` is in range, its search finds `e`'s key, and the record there reads as `e`'s definition. */
  predicate HitAt(a: Archive, target: string, i: nat, e: DictionaryEntry)
    requires i < |a.keyBlocks|
  {
    InRange(a.keyBlocks[i], target)
    && match SearchBlock(a, Mdx, i, target)
       case Ok(Some(k)) => k.key == e.word && RecordMdx(a, k.start, k.size) == Ok(e.definition)
       case _ => false
  }

  /** Block `i` is in range, its search hits and the record there reads. */
  predicate Hit(a: Archive, target: string, i: nat)
    requires i < |a.keyBlocks|
  {
    InRange(a.keyBlocks[i], target)
    && match SearchBlock(a, Mdx, i, target)
       case Ok(Some(k)) => RecordMdx(a, k.start, k.size).Ok?
       case _ => false
  }

  /** Block `i` is in range and its search, or the record read after a hit, panics. */
  predicate PanicAt(a: Archive, target: string, i: nat)
    requires i < |a.keyBlocks|
  {
    InRange(a.keyBlocks[i], target)
    && match SearchBlock(a, Mdx, i, target)
       case Panic => true
       case Ok(Some(k)) => RecordMdx(a, k.start, k.size).Panic?
       case _ => false
  }

  /** Block `i` is the first hit from `idx` on, it yields `e`, and no block before it panics. */
  predicate FirstHitAt(a: Archive, target: string, idx: nat, i: nat, e: DictionaryEntry)
    requires idx <= i < |a.keyBlocks|
  {
    HitAt(a, target, i, e) && forall j :: idx <= j < i ==> !Hit(a, target, j) && !PanicAt(a, target, j)
  }

  /** A word found comes from an in-range block whose search and record read both succeed, and no block before it had such a hit. */
  lemma {:induction false} LookupIsFirstHit(a: Archive, target: string, idx: nat)
    requires idx <= |a.keyBlocks|
    requires LookupFrom(a, target, idx).Returns? && LookupFrom(a, target, idx).value.Some?
    ensures exists i :: idx <= i < |a.keyBlocks| && FirstHitAt(a, target, idx, i, LookupFrom(a, target, idx).value.value)
    decreases |a.keyBlocks| - idx
  {
    var e := LookupFrom(a, target, idx).value.value;
    LookupStep(a, target, idx);
    if Hit(a, target, idx) {
      assert FirstHitAt(a, target, idx, idx, e);
    } else {
      LookupIsFirstHit(a, target, idx + 1);
      var i :| idx + 1 <= i < |a.keyBlocks| && FirstHitAt(a, target, idx + 1, i, e);
      FirstHitShift(a, target, idx, i, e);
    }
  }

  lemma FirstHitShift(a: Archive, target: string, idx: nat, i: nat, e: DictionaryEntry)
    requires idx < i < |a.keyBlocks|
    requires !Hit(a, target, idx) && !PanicAt(a, target, idx) && FirstHitAt(a, target, idx + 1, i, e)
    ensures FirstHitAt(a, target, idx, i, e)
  {
    forall j | idx <= j < i
      ensures !Hit(a, target, j) && !PanicAt(a, target, j)
    {
      if j != idx {
        assert idx + 1 <= j < i;
      }
    }
  }

  /** One block of the lookup loop: a hit there is the answer, otherwise the answer comes from the blocks after it. */
  lemma LookupStep(a: Archive, target: string, idx: nat)
    requires idx < |a.keyBlocks|
    requires LookupFrom(a, target, idx).Returns? && LookupFrom(a, target, idx).value.Some?
    ensures Hit(a, target, idx) ==> HitAt(a, target, idx, LookupFrom(a, target, idx).value.value)
    ensures !Hit(a, target, idx) ==> !PanicAt(a, target, idx) && LookupFrom(a, target, idx) == LookupFrom(a, target, idx + 1)
  {
  }

  /**
   * A lookup finds nothing exactly when no block from `idx` on is an
   * in-range block whose search hits and whose record reads, and none of
   * them panics: blocks whose search or record read fails are skipped.
   */
  lemma {:induction false} LookupMissIsNoHit(a: Archive, target: string, idx: nat)
    requires idx <= |a.keyBlocks|
    ensures LookupFrom(a, target, idx) == Returns(None) <==>
      forall i :: idx <= i < |a.keyBlocks| ==> !Hit(a, target, i) && !PanicAt(a, target, i)
    decreases |a.keyBlocks| - idx
  {
    if idx < |a.keyBlocks| {
      LookupMissIsNoHit(a, target, idx + 1);
      MissStep(a, target, idx);
      MissShift(a, target, idx);
      Peel(LookupFrom(a, target, idx) == Returns(None),
        forall i :: idx <= i < |a.keyBlocks| ==> !Hit(a, target, i) && !PanicAt(a, target, i),
        !Hit(a, target, idx) && !PanicAt(a, target, idx),
        LookupFrom(a, target, idx + 1) == Returns(None),
        forall i :: idx + 1 <= i < |a.keyBlocks| ==> !Hit(a, target, i) && !PanicAt(a, target, i));
    }
  }

  /** Two conditions that peel to the same head and to equivalent tails are equivalent. */
  lemma Peel(p: bool, q: bool, head: bool, p': bool, q': bool)
    requires p == (head && p') && q == (head && q') && p' == q'
    ensures p == q
  {
  }

  /** One block of the lookup loop for a miss: the answer is `None` exactly when this block neither hits nor panics and the rest answers `None`. */
  lemma MissStep(a: Archive, target: string, idx: nat)
    requires idx < |a.keyBlocks|
    ensures LookupFrom(a, target, idx) == Returns(None) <==>
      !Hit(a, target, idx) && !PanicAt(a, target, idx) && LookupFrom(a, target, idx + 1) == Returns(None)
  {
  }

  /** "No block from `idx` on hits or panics", peeled by one block. */
  lemma MissShift(a: Archive, target: string, idx: nat)
    requires idx < |a.keyBlocks|
    ensures (forall i :: idx <= i < |a.keyBlocks| ==> !Hit(a, target, i) && !PanicAt(a, target, i)) <==>
      !Hit(a, target, idx) && !PanicAt(a, target, idx)
      && (forall i :: idx + 1 <= i < |a.keyBlocks| ==> !Hit(a, target, i) && !PanicAt(a, target, i))
  {
    if !Hit(a, target, idx) && !PanicAt(a, target, idx) {
      forall i | idx <= i < |a.keyBlocks| && (forall i' :: idx + 1 <= i' < |a.keyBlocks| ==> !Hit(a, target, i') && !PanicAt(a, target, i'))
        ensures !Hit(a, target, i) && !PanicAt(a, target, i)
      {
        if i != idx {
          assert idx + 1 <= i;
        }
      }
    }
  }

  /** When no block's key range holds the target, the lookup finds nothing. */
  lemma {:induction false} LookupOutsideAllRanges(a: Archive, target: string, idx: nat)
    requires idx <= |a.keyBlocks|
    requires forall i :: idx <= i < |a.keyBlocks| ==> !InRange(a.keyBlocks[i], target)
    ensures LookupFrom(a, target, idx) == Returns(None)
    decreases |a.keyBlocks| - idx
  {
    if idx < |a.keyBlocks| {
      LookupOutsideAllRanges(a, target, idx + 1);
    }
  }

  /** With stripped keys, words that differ only in case and surrounding space look up the same entry. */
  lemma StrippedLookupIgnoresCaseAndSpace(a: Archive, w1: string, w2: string)
    requires a.header.stripKey && Lower(Trim(w1)) == Lower(Trim(w2))
    ensures LookupUncached(a, w1) == LookupUncached(a, w2)
  {
  }

  /**
   * The prefix search returns the first `PrefixLimit` of all matches in
   * block-then-entry order, or all of them when there are fewer, whenever
   * no block read panics.
   */
  lemma {:induction false} PrefixIsCappedMatches(a: Archive, p: string, idx: nat, found: seq<string>)
    requires idx <= |a.keyBlocks| && |found| < PrefixLimit
    requires AllMatches(a, p, idx).Returns?
    ensures PrefixFrom(a, p, idx, found) == Returns(Cap(found + AllMatches(a, p, idx).value))
    decreases |a.keyBlocks| - idx
  {
    if idx < |a.keyBlocks| {
      var rest := AllMatches(a, p, idx + 1);
      match BlockEntries(a, idx)
      case Panic =>
      case Err(_) =>
        PrefixIsCappedMatches(a, p, idx + 1, found);
      case Ok(es) =>
        var m := found + Matches(es, p);
        CapAppend(found, Matches(es, p), rest.value);
        if |m| < PrefixLimit {
          PrefixIsCappedMatches(a, p, idx + 1, m);
        }
    } else {
      assert found + [] == found;
    }
  }

  lemma CapAppend(found: seq<string>, xs: seq<string>, rest: seq<string>)
    ensures found + (xs + rest) == (found + xs) + rest
    ensures |found + xs| >= PrefixLimit ==> Cap(found + (xs + rest)) == (found + xs)[..PrefixLimit]
  {
    assert found + (xs + rest) == (found + xs) + rest;
    if |found + xs| >= PrefixLimit {
      assert ((found + xs) + rest)[..PrefixLimit] == (found + xs)[..PrefixLimit];
    }
  }

  /** Every key the prefix search returns starts, lower-cased, with the prefix, and there are at most `PrefixLimit`. */
  lemma {:induction false} PrefixResultsMatch(a: Archive, p: string, idx: nat, found: seq<string>)
    requires idx <= |a.keyBlocks| && |found| < PrefixLimit
    requires forall k :: 0 <= k < |found| ==> HasPrefix(found[k], p)
    ensures PrefixFrom(a, p, idx, found).Returns? ==>
      var r := PrefixFrom(a, p, idx, found).value;
      |r| <= PrefixLimit && forall k :: 0 <= k < |r| ==> HasPrefix(r[k], p)
    decreases |a.keyBlocks| - idx
  {
    if idx < |a.keyBlocks| {
      match BlockEntries(a, idx)
      case Panic =>
      case Err(_) =>
        PrefixResultsMatch(a, p, idx + 1, found);
      case Ok(es) =>
        var m := found + Matches(es, p);
        ConcatPrefixed(found, Matches(es, p), p);
        if |m| < PrefixLimit {
          PrefixResultsMatch(a, p, idx + 1, m);
        } else {
          assert PrefixFrom(a, p, idx, found) == Returns(m[..PrefixLimit]);
        }
    }
  }

  lemma ConcatPrefixed(xs: seq<string>, ys: seq<string>, p: string)
    requires forall k :: 0 <= k < |xs| ==> HasPrefix(xs[k], p)
    requires forall k :: 0 <= k < |ys| ==> HasPrefix(ys[k], p)
    ensures forall k :: 0 <= k < |xs + ys| ==> HasPrefix((xs + ys)[k], p)
  {
  }
}
