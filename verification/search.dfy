/**
 * The search box's candidate list (`search_words`): local prefix-search
 * hits with their briefs come first; when there are fewer than three and
 * the query looks like an English word, the online candidates follow,
 * each only if no word already listed matches it case-insensitively; the
 * list is capped at ten.
 *
 * The online dictionary's answer arrives as a parameter (`None` when the
 * request or its decoding fails).
 */
module Search {
  import opened Wrappers
  import opened Text
  import opened Brief
  import opened Blocks
  import opened Dictionary

  /** At most this many candidates come back, and at most this many local ones. */
  const MaxResults: nat := 10

  /** The fallback is consulted only with fewer local results than this. */
  const FewLocal: nat := 3

  /** At most this many online entries become candidates. */
  const MaxOnline: nat := 3

  datatype Origin = Local | Online

  datatype SearchResult = SearchResult(word: string, brief: string, source: Origin)

  datatype Meaning = Meaning(partOfSpeech: string, definitions: seq<string>)

  /** One entry of the online dictionary's answer. */
  datatype OnlineEntry = OnlineEntry(word: string, meanings: seq<Meaning>)

  function Take<T>(s: seq<T>, n: nat): (r: seq<T>)
    ensures |r| <= n && |r| <= |s| && r == s[..|r|]
    ensures |s| <= n ==> r == s
  {
    if |s| <= n then s else s[..n]
  }

  /** The online candidate for an entry: the first meaning's part of speech and first definition, or empty ones. */
  function OnlineCandidate(e: OnlineEntry): (r: SearchResult)
    ensures r.word == e.word && r.source == Online
  {
    var pos := if |e.meanings| > 0 then e.meanings[0].partOfSpeech else "";
    var definition := if |e.meanings| > 0 && |e.meanings[0].definitions| > 0 then e.meanings[0].definitions[0] else "";
    SearchResult(e.word, OnlineBrief(pos, definition), Online)
  }

  /** `async_search_online`'s result list: the first three entries as candidates, in the answer's order. */
  function OnlineCandidates(entries: seq<OnlineEntry>): (r: seq<SearchResult>)
    ensures |r| <= MaxOnline && |r| <= |entries|
    ensures forall i :: 0 <= i < |r| ==> r[i] == OnlineCandidate(entries[i])
  {
    var firsts := Take(entries, MaxOnline);
    seq(|firsts|, i requires 0 <= i < |firsts| => OnlineCandidate(firsts[i]))
  }

  /** The query may go online: every character is an ASCII letter, `-` or `'`. */
  predicate WordLike(query: string)
  {
    forall i :: 0 <= i < |query| ==> IsAsciiAlpha(query[i]) || query[i] == '-' || query[i] == '\''
  }

  /** Some listed word equals `word` after lower-casing. */
  predicate Listed(results: seq<SearchResult>, word: string)
  {
    exists i :: 0 <= i < |results| && Lower(results[i].word) == Lower(word)
  }

  /** The online candidates pushed in order after `results`, each only if not already listed. */
  function AppendNew(results: seq<SearchResult>, items: seq<SearchResult>): (r: seq<SearchResult>)
    ensures |results| <= |r| <= |results| + |items| && r[..|results|] == results
    decreases |items|
  {
    if |items| == 0 then results
    else AppendNew(if Listed(results, items[0].word) then results else results + [items[0]], items[1..])
  }

  /** The candidate list from the local results and the online answer. */
  function Merge(query: string, local: seq<SearchResult>, online: Option<seq<OnlineEntry>>): seq<SearchResult>
  {
    var all :=
      if |local| < FewLocal && WordLike(query) && online.Some? then AppendNew(local, OnlineCandidates(online.value))
      else local;
    Take(all, MaxResults)
  }

  /** Each word with its brief from an uncached lookup (`get_word_brief`); a lookup that panics panics the search. */
  function Briefs(a: Archive, words: seq<string>, entities: string -> string): (r: Run<seq<SearchResult>>)
    ensures r.Returns? ==> |r.value| == |words|
    ensures r.Returns? ==> forall i :: 0 <= i < |words| ==> r.value[i].word == words[i] && r.value[i].source == Local
  {
    if |words| == 0 then Returns([])
    else
      var init := Briefs(a, words[..|words| - 1], entities);
      var w := words[|words| - 1];
      var found := LookupUncached(a, w);
      if init.Panics? || found.Panics? then Panics
      else
        var definition := if found.value.Some? then Some(found.value.value.definition) else None;
        Returns(init.value + [SearchResult(w, WordBrief(definition, entities), Local)])
  }

  /** The local results: the first ten prefix-search keys of the lower-cased query, with briefs. */
  function LocalResults(a: Archive, query: string, entities: string -> string): Run<seq<SearchResult>>
  {
    match PrefixFrom(a, Lower(query), 0, [])
    case Panics => Panics
    case Returns(words) => Briefs(a, Take(words, MaxResults), entities)
  }

  /** What `search_words` answers for a loaded dictionary (`None`: no dictionary). */
  function SearchOutcome(a: Option<Archive>, query: string, online: Option<seq<OnlineEntry>>, entities: string -> string)
    : Run<seq<SearchResult>>
  {
    if a.None? then Returns(Merge(query, [], online))
    else
      match LocalResults(a.value, query, entities)
      case Panics => Panics
      case Returns(local) => Returns(Merge(query, local, online))
  }

  /**
   * The word cache after looking up each word in turn, as the brief loop
   * does: every lookup updates it, and the first lookup that panics ends
   * the loop.
   */
  function CacheAfterBriefs(a: Archive, es: seq<(string, string)>, words: seq<string>): seq<(string, string)>
    decreases |words|
  {
    if |words| == 0 || LookupUncached(a, words[0]).Panics? then es
    else CacheAfterBriefs(a, CacheAfterLookup(a, es, words[0]), words[1..])
  }

  /** The word cache after `search_words`: the brief lookups of the first ten prefix-search keys, if that search returns. */
  function CacheAfterSearch(a: Archive, es: seq<(string, string)>, query: string): seq<(string, string)>
  {
    match PrefixFrom(a, Lower(query), 0, [])
    case Panics => es
    case Returns(words) => CacheAfterBriefs(a, es, Take(words, MaxResults))
  }

  function ArchiveOf(dict: MdxDictionary?): Option<Archive>
  {
    if dict == null then None else Some(dict.archive)
  }

  /** `search_words`, with the online answer passed in and the brief's entity decoder a parameter. */
  method SearchWords(query: string, dict: MdxDictionary?, online: Option<seq<OnlineEntry>>, entities: string -> string)
    returns (r: Run<seq<SearchResult>>)
    requires dict != null ==> dict.Valid()
    modifies if dict != null then {dict.cache} else {}
    ensures dict != null ==> dict.Valid()
    ensures dict != null ==> dict.cache.entries == CacheAfterSearch(dict.archive, old(dict.cache.entries), query)
    ensures r == SearchOutcome(ArchiveOf(dict), query, online, entities)
  {
    var results: seq<SearchResult> := [];
    if dict != null {
      var suggestions := dict.PrefixSearch(Lower(query));
      LowerIdempotent(query);
      if suggestions.Panics? {
        return Panics;
      }
      var local := LocalBriefs(dict, Take(suggestions.value, MaxResults), entities);
      if local.Panics? {
        return Panics;
      }
      results := local.value;
    }
    if |results| < FewLocal && WordLike(query) && online.Some? {
      results := PushOnline(results, OnlineCandidates(online.value));
    }
    r := Returns(Take(results, MaxResults));
  }

  /** The local loop of `search_words`: each word with the brief of its lookup. */
  method LocalBriefs(dict: MdxDictionary, words: seq<string>, entities: string -> string)
    returns (r: Run<seq<SearchResult>>)
    requires dict.Valid()
    modifies dict.cache
    ensures dict.Valid()
    ensures dict.cache.entries == CacheAfterBriefs(dict.archive, old(dict.cache.entries), words)
    ensures r == Briefs(dict.archive, words, entities)
  {
    var results: seq<SearchResult> := [];
    var i := 0;
    while i < |words|
      invariant i <= |words| && dict.Valid()
      invariant Briefs(dict.archive, words[..i], entities) == Returns(results)
      invariant CacheAfterBriefs(dict.archive, dict.cache.entries, words[i..])
        == CacheAfterBriefs(dict.archive, old(dict.cache.entries), words)
    {
      var w := words[i];
      assert words[..i + 1][..i] == words[..i];
      assert words[i..][1..] == words[i + 1..];
      var found := dict.Lookup(w);
      if found.Panics? {
        BriefsPanicPersists(dict.archive, words, i + 1, entities);
        return Panics;
      }
      var definition := if found.value.Some? then Some(found.value.value.definition) else None;
      results := results + [SearchResult(w, WordBrief(definition, entities), Local)];
      i := i + 1;
    }
    assert words[..|words|] == words;
    r := Returns(results);
  }

  /** A lookup that panics panics the whole list. */
  lemma {:induction false} BriefsPanicPersists(a: Archive, words: seq<string>, k: nat, entities: string -> string)
    requires k <= |words| && Briefs(a, words[..k], entities).Panics?
    ensures Briefs(a, words, entities).Panics?
    decreases |words| - k
  {
    if k < |words| {
      assert words[..k + 1][..k] == words[..k];
      BriefsPanicPersists(a, words, k + 1, entities);
    } else {
      assert words[..k] == words;
    }
  }

  /** The online loop of `search_words`: each candidate pushed unless its word is already listed. */
  method PushOnline(results: seq<SearchResult>, items: seq<SearchResult>) returns (r: seq<SearchResult>)
    ensures r == AppendNew(results, items)
  {
    r := results;
    var j := 0;
    while j < |items|
      invariant j <= |items|
      invariant AppendNew(r, items[j..]) == AppendNew(results, items)
    {
      assert items[j..][1..] == items[j + 1..];
      if !Listed(r, items[j].word) {
        r := r + [items[j]];
      }
      j := j + 1;
    }
  }

  // ---------------------------------------------------------------------
  // Properties
  // ---------------------------------------------------------------------

  /** At most ten candidates, and the local ones come first, in prefix-search order. */
  lemma MergeKeepsLocalFirst(query: string, local: seq<SearchResult>, online: Option<seq<OnlineEntry>>)
    requires |local| <= MaxResults
    ensures |Merge(query, local, online)| <= MaxResults
    ensures |Merge(query, local, online)| >= |local|
    ensures Merge(query, local, online)[..|local|] == local
  {
  }

  /** Without the guard (fewer than three local results and a word-like query) nothing online is added. */
  lemma OnlineOnlyWhenGuarded(query: string, local: seq<SearchResult>, online: Option<seq<OnlineEntry>>)
    requires |local| <= MaxResults
    requires !(|local| < FewLocal && WordLike(query))
    ensures Merge(query, local, online) == local
  {
  }

  /**
   * Every candidate appended after `results` comes from `items` and matches
   * no word before it case-insensitively, and every item is represented by
   * a listed word.
   */
  lemma {:induction false} AppendNewDeduplicates(results: seq<SearchResult>, items: seq<SearchResult>)
    ensures var r := AppendNew(results, items);
      forall j :: |results| <= j < |r| ==> r[j] in items && !Listed(r[..j], r[j].word)
    ensures forall k :: 0 <= k < |items| ==> Listed(AppendNew(results, items), items[k].word)
    decreases |items|
  {
    if |items| > 0 {
      var next := if Listed(results, items[0].word) then results else results + [items[0]];
      var r := AppendNew(results, items);
      assert r == AppendNew(next, items[1..]);
      AppendNewDeduplicates(next, items[1..]);
      assert r[..|next|] == next;
      forall j | |results| <= j < |r|
        ensures r[j] in items && !Listed(r[..j], r[j].word)
      {
        if j < |next| {
          assert r[..j] == results && r[j] == items[0];
        } else {
          assert r[j] in items[1..];
        }
      }
      forall k | 0 <= k < |items|
        ensures Listed(r, items[k].word)
      {
        if k == 0 {
          ListedGrows(next, r, items[0].word);
          if !Listed(results, items[0].word) {
            assert Lower(next[|results|].word) == Lower(items[0].word);
          }
          ListedGrows(results, next, items[0].word);
        } else {
          assert items[k] == items[1..][k - 1];
        }
      }
    }
  }

  /**
   * The reference definition of the online dedup: the items in answer order,
   * each kept exactly when no word before it (in `seen` or among the earlier
   * items, kept or not) matches it case-insensitively, so the first
   * case-variant wins.
   */
  function KeptFrom(seen: seq<SearchResult>, items: seq<SearchResult>): seq<SearchResult>
    decreases |items|
  {
    if |items| == 0 then []
    else (if Listed(seen, items[0].word) then [] else [items[0]]) + KeptFrom(seen + [items[0]], items[1..])
  }

  /** Pushing onto `results` appends exactly the first-wins selection of the online candidates, in answer order. */
  lemma AppendNewKeepsFirst(results: seq<SearchResult>, items: seq<SearchResult>)
    ensures AppendNew(results, items) == results + KeptFrom(results, items)
  {
    AppendNewIsFirstWins(results, results, items);
  }

  /** `AppendNew` on a list `g` equals the reference selection against any `s` listing the same words. */
  lemma {:induction false} AppendNewIsFirstWins(g: seq<SearchResult>, s: seq<SearchResult>, items: seq<SearchResult>)
    requires forall w :: Listed(g, w) <==> Listed(s, w)
    ensures AppendNew(g, items) == g + KeptFrom(s, items)
    decreases |items|
  {
    if |items| == 0 {
      assert g + [] == g;
    } else {
      var x := items[0];
      var g' := if Listed(g, x.word) then g else g + [x];
      var s' := s + [x];
      PushKeepsSameListed(g, s, x);
      AppendNewIsFirstWins(g', s', items[1..]);
      assert AppendNew(g, items) == AppendNew(g', items[1..]);
      var head := if Listed(s, x.word) then [] else [x];
      assert KeptFrom(s, items) == head + KeptFrom(s', items[1..]);
      ConcatAssoc(g, head, KeptFrom(s', items[1..]));
    }
  }

  lemma ConcatAssoc(a: seq<SearchResult>, b: seq<SearchResult>, c: seq<SearchResult>)
    ensures a + (b + c) == (a + b) + c
    ensures a + [] == a
  {
  }

  /** After one candidate, the pushed list and the list of all words seen still list the same words. */
  lemma PushKeepsSameListed(g: seq<SearchResult>, s: seq<SearchResult>, x: SearchResult)
    requires forall w :: Listed(g, w) <==> Listed(s, w)
    ensures var g' := if Listed(g, x.word) then g else g + [x];
      forall w :: Listed(g', w) <==> Listed(s + [x], w)
  {
    var g' := if Listed(g, x.word) then g else g + [x];
    forall w
      ensures Listed(g', w) <==> Listed(s + [x], w)
    {
      ListedSnoc(s, x, w);
      if Listed(g, x.word) {
        if Lower(x.word) == Lower(w) {
          var i :| 0 <= i < |g| && Lower(g[i].word) == Lower(x.word);
          assert Lower(g[i].word) == Lower(w);
        }
      } else {
        ListedSnoc(g, x, w);
      }
    }
  }

  lemma ListedSnoc(t: seq<SearchResult>, x: SearchResult, w: string)
    ensures Listed(t + [x], w) <==> Listed(t, w) || Lower(x.word) == Lower(w)
  {
    if Listed(t + [x], w) {
      var i :| 0 <= i < |t + [x]| && Lower((t + [x])[i].word) == Lower(w);
      if i < |t| {
        assert t[i] == (t + [x])[i];
      }
    }
    if Listed(t, w) {
      var i :| 0 <= i < |t| && Lower(t[i].word) == Lower(w);
      assert (t + [x])[i] == t[i];
    }
    if Lower(x.word) == Lower(w) {
      assert (t + [x])[|t|] == x;
    }
  }

  lemma ListedGrows(a: seq<SearchResult>, b: seq<SearchResult>, word: string)
    requires |a| <= |b| && b[..|a|] == a
    ensures Listed(a, word) ==> Listed(b, word)
  {
    if Listed(a, word) {
      var i :| 0 <= i < |a| && Lower(a[i].word) == Lower(word);
      assert b[i] == a[i];
    }
  }

  /** The local results are the first ten prefix-search keys, in order, each from the local dictionary. */
  lemma LocalResultsAreFirstKeys(a: Archive, query: string, entities: string -> string)
    requires LocalResults(a, query, entities).Returns?
    ensures PrefixFrom(a, Lower(query), 0, []).Returns?
    ensures var words := PrefixFrom(a, Lower(query), 0, []).value;
      var local := LocalResults(a, query, entities).value;
      |local| <= MaxResults && |local| == |Take(words, MaxResults)|
      && forall i :: 0 <= i < |local| ==> local[i].word == words[i] && local[i].source == Local
  {
  }
}
