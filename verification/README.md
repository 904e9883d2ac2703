# QuickDict (rdict) core in Dafny

QuickDict is a desktop pop-up dictionary. Its back end has two parts that
this project models.

- **`mdict.rs`** reads MDict files:
  - `.mdx` dictionaries map a headword to an HTML definition;
  - `.mdd` archives map a resource name to image or audio bytes.
  - The reader parses the header, decompresses the key-block and
    record-block tables, scans key blocks for a word, and cuts a record out
    of its record block.
  - Lookups and resource reads go through a 100-entry LRU cache.
- **`main.rs`** holds the logic behind the search box and the lookup
  window:
  - the merge of local prefix-search hits with online candidates;
  - the one-line briefs shown next to each candidate;
  - the rewrite of relative image and audio references to the
    `mdd-resource://` scheme;
  - the parser for the global hotkey setting.

## How it is modelled

- The dictionary file is a byte sequence (`Binary.Bytes`).
  - A read that `read_exact` or `seek` would reject is an `Err`.
  - A slice out of range is an explicit `Panic` outcome
    (`Binary.Outcome`, `Wrappers.Run`).
- `u64` sums wrap modulo 2^64, as in a release build (`Binary.Wrap`). The
  clean properties are proved under a no-overflow hypothesis.
- Three foreign functions are parameters:
  - zlib `inflate`;
  - `String::from_utf8_lossy`, as `decode`;
  - `html_escape::decode_html_entities`, as `entities`.
- The version attribute, an `f32`, is modelled as the boolean "version ≥ 2"
  (`Header.VersionAtLeast2`).
- Loops that push into a `Vec` are methods. Each is proved equal to a
  recursive specification function, and the properties are proved about
  that function. Examples: `Blocks.ParseKeyBlockInfo`,
  `KeyBlock.ListEntries`, `Search.SearchWords`.
- The two readers are classes whose methods update an `Lru.LruCache`.
  - Their invariant is cache transparency: every cached pair is what an
    uncached read returns.
  - So `Lookup` and `Locate` return the uncached answer whatever the cache
    holds.
  - Their new cache is stated exactly: `get` moves a hit to the
    most-recent end, and `put` stores a found value, evicting the least
    recent pair when full.
- Each of the two regular expressions of `process_resource_links` is a
  hand-written scanner. It is proved to pick the match the regex engine
  picks: the leftmost start, then the last attribute position that lets
  the rest of the pattern match.

## Model

| member | source | states |
|---|---|---|
| Binary.BeRoundTrip | rdict/src-tauri/src/mdict.rs:234-258 | a big-endian number read back from its own byte spelling is the number itself |
| Binary.ReadUInt | rdict/src-tauri/src/mdict.rs:235-237 | a big-endian read of `width` bytes succeeds exactly when they are present, never panics, returns a number below 256^width and moves the position by `width` |
| Binary.Seek | rdict/src-tauri/src/mdict.rs:349 | seeking succeeds exactly for positions below 2^63 and lands there |
| Binary.ReadMany | rdict/src-tauri/src/mdict.rs:234-251 | the cursor loop that reads `n` items and stops at the first failure returns the recursive listing `ManyFrom` |
| Binary.WrapAdd | rdict/src-tauri/src/mdict.rs:284-297 | a running sum wrapped at each step equals the wrapped true sum |
| Compression.EmptyIsEmpty | rdict/src-tauri/src/mdict.rs:189-191 | both copies of `decompress` turn empty input into empty output |
| Compression.DispatchOnType | rdict/src-tauri/src/mdict.rs:193-223 | after the header, type 0 gives the rest unchanged, 1 gives empty, 2 gives what inflate gives and fails when it fails, any other type is an unknown-compression error |
| Compression.NoHeaderKeepsTypeByte | rdict/src-tauri/src/mdict.rs:193-206 | without a header, a type-0 block is returned whole, type byte included |
| Compression.CopiesAgree | rdict/src-tauri/src/mdict.rs:188-224 | the dictionary and resource copies of `decompress` agree on every input except non-empty ones no longer than the header |
| Compression.ShortBlocks | rdict/src-tauri/src/mdict.rs:624-651 | on 1 to 4 bytes with a 4-byte header, the dictionary copy panics below 4 bytes and gives empty at 4, while the resource copy dispatches on the first byte over the whole input |
| Compression.CopiesDisagree | rdict/src-tauri/src/mdict.rs:624-651 | a concrete 4-byte block that the two copies decompress differently |
| Header.AttrShapeIsMatch | rdict/src-tauri/src/mdict.rs:117-118 | the scanner finds `name="value"` at a position exactly when the pattern `(\w+)="([^"]*)"` with a non-empty value matches there, and in only one way |
| Header.CollectAttrs | rdict/src-tauri/src/mdict.rs:117-121 | the capture loop builds the map of inserting every match in order |
| Header.AttrsWellFormed | rdict/src-tauri/src/mdict.rs:117-121 | every collected attribute has a non-empty word-character name and a non-empty value without quotes |
| Header.InsertAllLastWins | rdict/src-tauri/src/mdict.rs:119-121 | a name is in the map exactly when some attribute has it, and its value is the one of its last occurrence |
| Header.AttrOfText | rdict/src-tauri/src/mdict.rs:117-121 | an attribute is in the map built from a header text exactly when the text has an occurrence of it, and its value is that of the last occurrence |
| Header.YesFlags | rdict/src-tauri/src/mdict.rs:117-130 | for a header text, StripKey, KeyCaseSensitive, Compact and Left2Right are set exactly when the last occurrence of that attribute in the text has the value "Yes"; an absent attribute leaves the flag off |
| Header.Defaults | rdict/src-tauri/src/mdict.rs:117-135 | for any header text, a Format, Encoding or Title the text does not name is "Html", "UTF-8" or "Dictionary", and a named one takes its last value; without an engine version the version-2 layout is used |
| Header.HeaderLayout | rdict/src-tauri/src/mdict.rs:89-110 | the header text is the 4-byte big-endian length and that many bytes; reading fails exactly when they are missing; `data_offset` is length + 8 |
| Header.ReadHeader | rdict/src-tauri/src/mdict.rs:89-110 | the header reader returns `HeaderOfFile`, which never panics and puts the data at offset 8 or more |
| Header.DecimalVersion | rdict/src-tauri/src/mdict.rs:124-126 | a decimal version `w.f` counts as version 2 exactly when its value rounded to `f32` is at least 2.0: a whole part of 2 or more, or 1 with a fraction of at least 1 − 2^-24; a whole part of 0 never does |
| Header.VersionRounding | rdict/src-tauri/src/mdict.rs:124-126 | "1.99999999" rounds to 2.0 and selects the version-2 layout, while "1.9999999" does not |
| Header.SpecialVersions | rdict/src-tauri/src/mdict.rs:124-126 | "NaN" and "-inf" parse as below 2, and an empty version does not parse |
| Blocks.ParseKeyBlockInfo | rdict/src-tauri/src/mdict.rs:226-261 | the key-block-info loop returns one entry per block, in order, each with offset the sum of the compressed sizes before it |
| Blocks.FillOffsets | rdict/src-tauri/src/mdict.rs:252-258 | the offset loop assigns each block its running offset |
| Blocks.WithOffsetsKeepsSizes | rdict/src-tauri/src/mdict.rs:252-258 | filling in offsets changes no compressed size |
| Blocks.OffsetsStep | rdict/src-tauri/src/mdict.rs:252-258 | after the offset loop each block's offset is the wrapped sum of the earlier compressed sizes, the first 0 |
| Blocks.ParseRecordBlockInfo | rdict/src-tauri/src/mdict.rs:279-298 | the record-block-info loop returns `n` entries in order, each with offset the wrapped sum of the compressed sizes before it |
| Blocks.RecordOffsets | rdict/src-tauri/src/mdict.rs:284-297 | the record-block table built from the size pairs has running-sum offsets |
| Blocks.ReadBlockInfos | rdict/src-tauri/src/mdict.rs:146-186 | a table read that succeeds has running-sum offsets in both the key and record tables |
| Blocks.OpenArchive | rdict/src-tauri/src/mdict.rs:73-87 | an opened dictionary has its data past the header and running-sum offsets in both tables |
| KeyBlock.ScanEntries | rdict/src-tauri/src/mdict.rs:358-377 | the key-block scan loop returns the recursive search `SearchFrom`, whose hit always carries the target key |
| KeyBlock.SearchInKeyBlock | rdict/src-tauri/src/mdict.rs:342-380 | `search_in_key_block` (either copy) reads the block at its running position, decompresses it and returns the scan's answer |
| KeyBlock.ListEntries | rdict/src-tauri/src/mdict.rs:471-484 | the listing loop returns `num_entries` entries, each paired with the previous offset and the size to its own |
| KeyBlock.ReadKeyBlockEntries | rdict/src-tauri/src/mdict.rs:457-485 | `read_key_block_entries` returns that listing for the block |
| KeyBlock.SearchIsFirstListed | rdict/src-tauri/src/mdict.rs:342-393 | when the block lists, the search returns the first listed entry with the target key, with the same start and size, and `None` when no key matches |
| KeyBlock.SearchFailsOnlyIfListingFails | rdict/src-tauri/src/mdict.rs:457-485 | a search that fails makes the listing fail with the same error |
| KeyBlock.EntriesChain | rdict/src-tauri/src/mdict.rs:476-481 | the first entry starts at 0; each entry ends where the next starts, or is empty when the offsets do not grow |
| KeyBlock.BlockSearchIsFirstListed | rdict/src-tauri/src/mdict.rs:342-380 | for a whole block, the dictionary search equals the first entry with the key in `read_key_block_entries` |
| KeyBlock.PositionIsOffset | rdict/src-tauri/src/mdict.rs:347-349 | where offsets are running sums, a key block is read at the data offset plus its own offset, wrapped to 64 bits |
| KeyBlock.CopiesSearchAlike | rdict/src-tauri/src/mdict.rs:541-574 | the two copies of `search_in_key_block` answer alike on every block longer than 4 bytes or empty, and on all blocks of version-1 files |
| Record.ReadRecordMdx | rdict/src-tauri/src/mdict.rs:395-434 | the dictionary's record loop returns `RecordMdx`: locate the block, read and decompress it, cut the record |
| Record.ReadRecordMdd | rdict/src-tauri/src/mdict.rs:576-609 | the resource's record loop returns `RecordMdd` |
| Record.SliceIsTruncatedRange | rdict/src-tauri/src/mdict.rs:599-602 | for `u64` operands the cut succeeds exactly when it starts inside the block and the end does not wrap; it is at most `size` bytes from the start, truncated at the block end |
| Record.SlicesAgree | rdict/src-tauri/src/mdict.rs:421-427 | the dictionary copy's two-branch cut equals the resource copy's `min(end, len)` cut |
| Record.LocateFailsPastEnd | rdict/src-tauri/src/mdict.rs:399-418 | with no overflow, no block is found exactly when the offset is past the total decompressed size; otherwise the block's cumulative range holds the offset |
| Record.TakeWhileIsPrefixSum | rdict/src-tauri/src/mdict.rs:404-410 | summing the sizes of blocks with offset below block `i`'s gives the sum of the blocks before `i` |
| Record.CopiesReadSameRecord | rdict/src-tauri/src/mdict.rs:576-609 | where offsets are running sums, nothing wraps and no block is 1 to 4 bytes in a version-2 file, the dictionary's record is the decoding of the resource copy's bytes, and both fail alike |
| Lru.LruCache.constructor | rdict/src-tauri/src/mdict.rs:13 | a new cache is empty, with the given capacity |
| Lru.LruCache.Get | rdict/src-tauri/src/mdict.rs:304-306 | `get` returns the value stored under the key and moves a hit to the most recent end; the stored pairs are unchanged as a multiset |
| Lru.LruCache.Put | rdict/src-tauri/src/mdict.rs:330-331 | `put` stores the pair as most recent, replacing the key's old pair or evicting the least recent one when full; keys stay distinct within capacity |
| Lru.FindIsMembership | rdict/src-tauri/src/mdict.rs:304-306 | with distinct keys, the value found under a key is `v` exactly when the pair is stored |
| Lru.TouchMovesToBack | rdict/src-tauri/src/mdict.rs:304-306 | after a hit the pair is the most recently used |
| Lru.FindAfterInsert | rdict/src-tauri/src/mdict.rs:330-331 | after `put(k, v)`, `k` maps to `v`; the least recent key is gone when a new key enters a full cache; every other key keeps its value |
| Dictionary.MdxDictionary.Open | rdict/src-tauri/src/mdict.rs:73-87 | `MdxDictionary::new` succeeds exactly when the archive opens, with an empty cache |
| Dictionary.MdxDictionary.Lookup | rdict/src-tauri/src/mdict.rs:300-340 | `lookup` returns what an uncached lookup returns; the new cache is `CacheAfterLookup`: a cached word moves to the most-recent end, a found entry is stored under its key (evicting the least recent pair when full), and a miss or panic leaves the cache as it was |
| Dictionary.MdxDictionary.Remember | rdict/src-tauri/src/mdict.rs:330-331 | storing a found definition keeps every cached pair an uncached answer and leaves the cache as `put` of that pair |
| Dictionary.MdxDictionary.PrefixSearch | rdict/src-tauri/src/mdict.rs:436-455 | `prefix_search` returns the capped scan of the lower-cased prefix |
| Dictionary.CollectMatches | rdict/src-tauri/src/mdict.rs:443-449 | the inner loop appends the block's matching keys and reports a full list exactly when 20 are reached, then holds the first 20 |
| Dictionary.LookupFrom | rdict/src-tauri/src/mdict.rs:319-337 | a found entry's word is the normalised target |
| Dictionary.LookupIsFirstHit | rdict/src-tauri/src/mdict.rs:319-337 | a found entry comes from an in-range block whose search and record read succeed, and no earlier block had such a hit or panicked |
| Dictionary.LookupMissIsNoHit | rdict/src-tauri/src/mdict.rs:319-339 | the lookup answers `None` exactly when no in-range block both finds the key and reads its record, and none panics; blocks whose search or read fails are skipped |
| Dictionary.LookupOutsideAllRanges | rdict/src-tauri/src/mdict.rs:320-323 | when no block's first and last keys bracket the target, nothing is found |
| Dictionary.StrippedLookupIgnoresCaseAndSpace | rdict/src-tauri/src/mdict.rs:313-317 | with StripKey set, words equal after trimming and lower-casing look up the same entry |
| Dictionary.TargetIdempotent | rdict/src-tauri/src/mdict.rs:313-317 | normalising a target twice is normalising it once |
| Dictionary.PrefixIsCappedMatches | rdict/src-tauri/src/mdict.rs:436-455 | when every block lists, the prefix search is all matching keys in block-then-entry order, cut to 20 |
| Dictionary.PrefixResultsMatch | rdict/src-tauri/src/mdict.rs:436-455 | the prefix search returns at most 20 keys, each starting with the lower-cased prefix after lower-casing |
| Resource.NormalizeName | rdict/src-tauri/src/mdict.rs:511-515 | the key always starts with `/`; a rooted name is kept and a bare one gets `/` in front |
| Resource.NormalizeIdempotent | rdict/src-tauri/src/mdict.rs:511-515 | normalising twice is normalising once |
| Resource.RootedAndBareAgree | rdict/src-tauri/src/mdict.rs:509-537 | "x.png" and "/x.png" locate the same bytes |
| Resource.MddResource.Open | rdict/src-tauri/src/mdict.rs:489-503 | `MddResource::new` succeeds exactly when the archive opens, with an empty cache |
| Resource.MddResource.Locate | rdict/src-tauri/src/mdict.rs:509-537 | `locate` returns what an uncached search returns; the new cache is `CacheAfterLocate`: a cached name moves to the most-recent end, bytes found are stored under the normalised name (evicting the least recent pair when full), and a miss, failed read or panic leaves the cache as it was |
| Resource.MddResource.Remember | rdict/src-tauri/src/mdict.rs:529-530 | storing located bytes keeps every cached pair an uncached answer and leaves the cache as `put` of that pair |
| Resource.ResourceIsHit | rdict/src-tauri/src/mdict.rs:525-533 | located bytes come from the first block whose search finds the name and whose record reads, and no earlier block panicked |
| Resource.ResourceMissing | rdict/src-tauri/src/mdict.rs:525-536 | `locate` answers `None` exactly when no block both finds the name and reads its record, and none panics |
| Resource.ReadFailureFallsThrough | rdict/src-tauri/src/mdict.rs:527-533 | a name found in a block whose record read fails is passed over for the next block, so a failed read and a missing name both end in `None` |
| Brief.WordBrief | rdict/src-tauri/src/main.rs:245-263 | an absent word gives ""; otherwise the first sentence, with entities decoded and control characters made spaces, trimmed; if longer than 100 bytes, a char-boundary cut of at most 100 bytes plus "..." |
| Brief.OnlineBrief | rdict/src-tauri/src/main.rs:589-593 | "pos. " and a cut of at most 60 bytes of the definition when there is a part of speech, otherwise a cut of at most 80 bytes; a short definition is kept whole |
| Brief.WordBriefAgrees | rdict/src-tauri/src/main.rs:245-263 | whenever the source's brief does not panic, it equals the corrected brief |
| Brief.OnlineBriefAgrees | rdict/src-tauri/src/main.rs:589-593 | whenever the source's online brief does not panic, it equals the corrected one |
| Brief.FloorPrefixIsByteCut | rdict/src-tauri/src/main.rs:256 | the char-boundary cut is the longest prefix within the byte budget, and the whole text when it fits |
| Brief.FirstSentenceIsPrefix | rdict/src-tauri/src/main.rs:250-252 | the first sentence is a terminator-free prefix of the text, followed by a terminator or the end of the text |
| Brief.NoTerminator | rdict/src-tauri/src/main.rs:249-250 | text without 。 . ; or ； is its own first sentence |
| ResourceLinks.FindTag | rdict/src-tauri/src/main.rs:370-371 | a match found starts at or after the scan position and is a full occurrence of the pattern, with the last possible attribute position |
| ResourceLinks.CandidateIsMatch | rdict/src-tauri/src/main.rs:370-371 | the computed occurrence test holds exactly when the pattern matches with that attribute, closing quote and `>` |
| ResourceLinks.FindTagIsLeftmostFirst | rdict/src-tauri/src/main.rs:370-371 | the match found is a real match, no match starts earlier, and no later attribute position matches from the same start; when nothing is found, no match starts anywhere from the scan position |
| ResourceLinks.ReplaceMatches | rdict/src-tauri/src/main.rs:371-382 | the `replace_all` loop returns the text between matches with each match replaced by its rewrite |
| ResourceLinks.ProcessResourceLinks | rdict/src-tauri/src/main.rs:366-400 | the result is the image pass followed by the audio pass |
| ResourceLinks.RewriteSkipped | rdict/src-tauri/src/main.rs:373-381 | an absolute, inline-data or already rewritten reference leaves its tag as it was |
| ResourceLinks.RewriteRelativeImage | rdict/src-tauri/src/main.rs:373-378 | a relative image source is replaced in its tag by "mdd-resource://" and its file name, the rest of the tag kept |
| ResourceLinks.ProcessKeepsSkipped | rdict/src-tauri/src/main.rs:366-400 | markup whose every reference is skipped passes through both passes unchanged |
| ResourceLinks.ProcessWithoutTags | rdict/src-tauri/src/main.rs:366-400 | markup with no image or audio occurrence is unchanged |
| ResourceLinks.TargetIsSkipped | rdict/src-tauri/src/main.rs:373-378 | every rewritten reference is in the resource scheme, so both passes skip it on a second run, and it carries the resource name |
| ResourceLinks.FileNameIsPlain | rdict/src-tauri/src/main.rs:374-377 | the file-name component contains no `/` and is neither "." nor ".."; a plain name is its own file name |
| ResourceLinks.FileNameIgnoresDirectory | rdict/src-tauri/src/main.rs:374-377 | references that differ only in directory get the same target |
| ResourceLinks.FileNameIdempotent | rdict/src-tauri/src/main.rs:374-377 | taking the file name of a file name changes nothing |
| Hotkey.ParseHotkey | rdict/src-tauri/src/main.rs:608-629 | the parse loop returns `HotkeyOf`: `+`-separated trimmed parts, modifiers folded into a set, the key from the last non-modifier part; any key returned is a recognised code |
| Hotkey.KeyCodeCharacterised | rdict/src-tauri/src/main.rs:631-687 | `parse_key_code` accepts a string exactly when its upper-case form names a recognised key (A–Z, 0–9, F1–F12, SPACE, ESCAPE, ENTER, TAB), and returns that key |
| Hotkey.KeyNameRoundTrip | rdict/src-tauri/src/main.rs:631-687 | every recognised key's name parses back to the key, in upper or lower case |
| Hotkey.ModifierOrderIrrelevant | rdict/src-tauri/src/main.rs:614-621 | swapping two modifier parts does not change the shortcut |
| Hotkey.LastKeyPartSkipsModifiers | rdict/src-tauri/src/main.rs:613-624 | modifier parts do not affect which part names the key |
| Hotkey.ModifiersOnly | rdict/src-tauri/src/main.rs:628 | a hotkey of modifiers only has no key |
| Hotkey.DefaultHotkey | rdict/src-tauri/src/config.rs:39 | the default "Alt+M" parses to Alt with the M key |
| Search.OnlineCandidates | rdict/src-tauri/src/main.rs:581-600 | at most 3 online candidates, in the answer's order, each from its entry with source "online" |
| Search.AppendNew | rdict/src-tauri/src/main.rs:187-191 | appending online candidates keeps the list before them as it was |
| Search.AppendNewDeduplicates | rdict/src-tauri/src/main.rs:187-191 | every appended candidate comes from the online list and was not yet listed case-insensitively; every online word is listed afterwards |
| Search.AppendNewKeepsFirst | rdict/src-tauri/src/main.rs:187-191 | pushing the online candidates appends exactly `KeptFrom`: the candidates in answer order, each kept only when no word before it (local, or any earlier candidate) matches it case-insensitively, so the first case-variant wins |
| Search.AppendNewIsFirstWins | rdict/src-tauri/src/main.rs:187-191 | the push on a list equals the first-wins selection checked against any list naming the same words, the induction behind `AppendNewKeepsFirst` |
| Search.PushOnline | rdict/src-tauri/src/main.rs:187-191 | the push loop returns `AppendNew` |
| Search.SearchWords | rdict/src-tauri/src/main.rs:162-196 | `search_words` returns `SearchOutcome`: local results with briefs, then the guarded online candidates, capped at 10; the word cache ends as after looking up each listed local word in turn |
| Search.LocalBriefs | rdict/src-tauri/src/main.rs:172-182 | the brief loop returns `Briefs` of the words, and leaves the cache as after their lookups in order, stopping at the first panic |
| Search.Briefs | rdict/src-tauri/src/main.rs:173-181 | one result per word, in order, each with its own word and source "local" |
| Search.MergeKeepsLocalFirst | rdict/src-tauri/src/main.rs:185-195 | the merged list has at most 10 entries and starts with all the local results, in order |
| Search.OnlineOnlyWhenGuarded | rdict/src-tauri/src/main.rs:185 | with 3 or more local results, or a query that is not all ASCII letters, `-` and `'`, the list is the local results alone |
| Search.LocalResultsAreFirstKeys | rdict/src-tauri/src/main.rs:172-181 | the local results are the first (at most 10) prefix-search keys of the lower-cased query, in order, with source "local" |
| Text.SplitJoin | rdict/src-tauri/src/main.rs:609 | joining the pieces of a split with the separator gives back the text |
| Text.TrimIdempotent | rdict/src-tauri/src/main.rs:609 | trimming a trimmed string changes nothing |
| Text.ReplaceAllOnce | rdict/src-tauri/src/main.rs:378 | `str::replace` on text with a single occurrence swaps exactly that occurrence |

## Left out

- Tauri wiring is not part of this model: the `AppState` mutexes, lazy
  `init_dictionary`, config commands, tray and window handling, shortcut
  registration and the clipboard thread. It is UI and OS integration.
- The HTTP request of the online search is not modelled. Its decoded
  answer is a parameter of `Search.SearchWords`, and `None` stands for a
  failed request.
- The HTML templates (`format_definition`, `format_online_result`,
  `format_not_found`, `format_online_error`) are not modelled. They are
  string formatting around foreign escaping.
- config.rs persistence and lib.rs re-exports are not part of this model.
  Only the default hotkey string is used.
- File handling is reduced to a byte sequence. `File::open` failures and
  allocation failures of `vec![0u8; n]` are not modelled.
- Three foreign functions are opaque parameters: zlib inflate,
  `from_utf8_lossy` and `decode_html_entities`. LZO (type 1) returns
  empty, as the source does.
- Case mapping is ASCII-only. The Unicode `to_lowercase`/`to_uppercase`
  of non-ASCII letters is not modelled. `trim` uses the full Unicode
  White_Space set.
- `\w` in the header pattern is ASCII letters, digits and `_`. The regex
  crate's `\w` also matches non-ASCII word characters.
- `Path::file_name` is modelled with `/` as the only separator.
- The `f32` version is not modelled as a float. Only the question
  "version ≥ 2" is answered, after rounding to `f32`.
  - The parser reads decimals with an optional sign, and `inf`,
    `infinity` and `nan` in any case.
  - Exponent forms such as `2e0` are refused, while `str::parse::<f32>`
    accepts them; the version then falls back to 2.0.
  - Unparseable versions default to 2.0, as the source does.
- The stylesheet attribute and the unused header fields are not carried.
- u64 overflow panics of a debug build are not modelled; sums wrap, as
  in a release build.
- The `lru` crate is modelled by its documented contract, not its code.
- The model's callers use the corrected briefs (see Findings). The
  as-written briefs are kept beside them.
- ResourceLinks.RewriteRelativeImage: stated only for a source value that
  occurs once in its tag. `str::replace` over the whole tag also rewrites
  any other occurrence of the same text, for example in an `alt`
  attribute. `ResourceLinks.Rewrite` models that behaviour.
- ResourceLinks.Rewrite: the audio rebuild,
  `<a{before}href="mdd-resource://{name}"{after} data-audio="true">`, is
  its definition. No separate lemma restates it.
- Record.CopiesReadSameRecord: stated only where the block sums do not
  wrap and no version-2 block is 1 to 4 bytes. On those blocks the two
  copies of `decompress` differ (`Compression.CopiesDisagree`).
- Search.Briefs: a brief that panics is not propagated. The model uses
  the corrected brief.

## Findings

| source | as written | input that shows it | evidently intended | confidence | as-written member | corrected member |
|---|---|---|---|---|---|---|
| rdict/src-tauri/src/main.rs:256 | `&text[..100]` cuts the brief at byte 100 whatever the characters | a definition of 34 × "中" (102 bytes, byte 100 inside a character) | cut at the last character boundary within 100 bytes, then "..." | not executed | Brief.WordBriefPanicsOnCjk | Brief.WordBrief |
| rdict/src-tauri/src/main.rs:590-592 | `&definition[..definition.len().min(60)]` (and `min(80)`) cut at a byte index | part of speech "noun", definition 59 × "a" followed by "—" (byte 60 inside the dash) | cut at the last character boundary within 60 (or 80) bytes | not executed | Brief.OnlineBriefPanicsOnDash | Brief.OnlineBrief |
