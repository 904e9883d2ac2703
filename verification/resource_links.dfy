/**
 * Rewriting of relative image and audio references in definition markup
 * to the `mdd-resource://` scheme that the resource locator serves.
 *
 * Each of the two regular expressions of the source is modelled by a
 * hand-written scanner.  `TagMatch` states the shape an occurrence of the
 * pattern has; `FindTag` is proved to return the occurrence the regex
 * engine picks (leftmost start, then the greedy `[^>]+` taking the last
 * attribute position that still lets the rest of the pattern match).
 *
 *   image:  <img[^>]+src=["']([^"']+)["'][^>]*>
 *   audio:  <a([^>]+)href=["']([^"']*\.(mp3|wav|ogg))["']([^>]*)>
 */
module ResourceLinks {
  import opened Wrappers
  import opened Text

  const SCHEME: string := "mdd-resource://"

  datatype Tag = Img | Audio

  /** The literal text each pattern starts with. */
  function Opener(t: Tag): string
  {
    match t
    case Img => "<img"
    case Audio => "<a"
  }

  /** The attribute whose value is captured. */
  function Attr(t: Tag): string
  {
    match t
    case Img => "src="
    case Audio => "href="
  }

  predicate HasAudioExtension(v: string)
  {
    |v| >= 4 && (v[|v| - 4..] == ".mp3" || v[|v| - 4..] == ".wav" || v[|v| - 4..] == ".ogg")
  }

  /** What the captured value must look like: non-empty, or ending in an audio extension. */
  predicate CaptureOk(t: Tag, v: string)
  {
    match t
    case Img => |v| > 0
    case Audio => HasAudioExtension(v)
  }

  predicate IsQuote(c: char)
  {
    c == '"' || c == '\''
  }

  predicate NoGt(s: string, a: nat, b: nat)
    requires a <= b <= |s|
  {
    forall x :: a <= x < b ==> s[x] != '>'
  }

  /** The first quote at or after `from`, or the end of `s`. */
  function QuoteFrom(s: string, from: nat): (r: nat)
    requires from <= |s|
    ensures from <= r <= |s|
    ensures forall x :: from <= x < r ==> !IsQuote(s[x])
    ensures r < |s| ==> IsQuote(s[r])
    decreases |s| - from
  {
    if from == |s| || IsQuote(s[from]) then from else QuoteFrom(s, from + 1)
  }

  /** Start of the captured value of an attribute at `i`. */
  function ValueStart(t: Tag, i: nat): nat
  {
    i + |Attr(t)| + 1
  }

  /** The opener at `p`, followed by a non-empty run without `>` up to `i`. */
  predicate Lead(t: Tag, s: string, p: nat, i: nat)
  {
    p + |Opener(t)| < i <= |s| && s[p..p + |Opener(t)|] == Opener(t) && NoGt(s, p + |Opener(t)|, i)
  }

  /** The attribute name and an opening quote at `i`. */
  predicate AttrAt(t: Tag, s: string, i: nat)
  {
    ValueStart(t, i) <= |s| && s[i..i + |Attr(t)|] == Attr(t) && IsQuote(s[i + |Attr(t)|])
  }

  /** The captured value runs from the start of the value to the quote at `j`. */
  predicate ValueTo(t: Tag, s: string, i: nat, j: nat)
  {
    ValueStart(t, i) <= j < |s|
    && (forall x :: ValueStart(t, i) <= x < j ==> !IsQuote(s[x]))
    && IsQuote(s[j])
    && CaptureOk(t, s[ValueStart(t, i)..j])
  }

  /** After the closing quote at `j`, a run without `>` up to the `>` at `k`. */
  predicate CloseAt(s: string, j: nat, k: nat)
  {
    j < k < |s| && NoGt(s, j + 1, k) && s[k] == '>'
  }

  /**
   * One occurrence of the pattern for `t`: the opener at `p`, a non-empty
   * run without `>` up to the attribute at `i`, a quote, the captured value
   * up to the quote at `j`, and a run without `>` up to the `>` at `k`.
   */
  predicate TagMatch(t: Tag, s: string, p: nat, i: nat, j: nat, k: nat)
  {
    Lead(t, s, p, i) && AttrAt(t, s, i) && ValueTo(t, s, i, j) && CloseAt(s, j, k)
  }

  /** Once the attribute at `i` is fixed, the value and the tag close as the pattern requires. */
  predicate ClosesFrom(t: Tag, s: string, i: nat)
    requires ValueStart(t, i) <= |s|
  {
    var j := QuoteFrom(s, ValueStart(t, i));
    j < |s| && CaptureOk(t, s[ValueStart(t, i)..j]) && IndexFrom(s, '>', j + 1) < |s|
  }

  /** The pattern matches at `p` with its attribute at `i` (computed form of `TagMatch`). */
  predicate Candidate(t: Tag, s: string, p: nat, i: nat)
  {
    Lead(t, s, p, i) && AttrAt(t, s, i) && ClosesFrom(t, s, i)
  }

  /** The largest position below `hi` satisfying `P`: the choice a greedy repetition makes. */
  function LastBelow(P: nat -> bool, hi: nat): (r: Option<nat>)
    ensures r.Some? ==> r.value < hi && P(r.value)
    ensures r.Some? ==> forall i :: r.value < i < hi ==> !P(i)
    ensures r.None? ==> forall i: nat :: i < hi ==> !P(i)
  {
    if hi == 0 then None
    else if P(hi - 1) then Some(hi - 1)
    else LastBelow(P, hi - 1)
  }

  /** The largest attribute position at which the pattern matches from `p`. */
  function LastCandidate(t: Tag, s: string, p: nat): (r: Option<nat>)
    ensures r.Some? ==> Candidate(t, s, p, r.value)
  {
    LastBelow((i: nat) => Candidate(t, s, p, i), |s|)
  }

  /** Nothing above the answer of `LastCandidate` matches, and `None` means nothing matches at `p`. */
  lemma LastCandidateIsLast(t: Tag, s: string, p: nat)
    ensures LastCandidate(t, s, p).Some? ==>
      forall i :: LastCandidate(t, s, p).value < i ==> !Candidate(t, s, p, i)
    ensures LastCandidate(t, s, p).None? ==> forall i: nat :: !Candidate(t, s, p, i)
  {
    var P := i => Candidate(t, s, p, i);
    assert forall i: nat :: P(i) == Candidate(t, s, p, i);
  }

  /** The first position in `from..hi` satisfying `P`: the leftmost start the regex engine tries. */
  function FirstFrom(P: nat -> bool, from: nat, hi: nat): (r: Option<nat>)
    ensures r.Some? ==> from <= r.value < hi && P(r.value)
    ensures r.Some? ==> forall q :: from <= q < r.value ==> !P(q)
    ensures r.None? ==> forall q :: from <= q < hi ==> !P(q)
    decreases hi - from
  {
    if from >= hi then None
    else if P(from) then Some(from)
    else FirstFrom(P, from + 1, hi)
  }

  /** The leftmost occurrence at or after `from`: its start and attribute position. */
  function FindTag(t: Tag, s: string, from: nat): (r: Option<(nat, nat)>)
    ensures r.Some? ==> from <= r.value.0 < |s| && Candidate(t, s, r.value.0, r.value.1)
    ensures r.Some? ==> LastCandidate(t, s, r.value.0) == Some(r.value.1)
  {
    match FirstFrom((q: nat) => LastCandidate(t, s, q).Some?, from, |s|)
    case None => None
    case Some(p) => Some((p, LastCandidate(t, s, p).value))
  }

  // ---------------------------------------------------------------------
  // Resource names
  // ---------------------------------------------------------------------

  /** The last path component that is neither empty nor ".". */
  function LastComponent(parts: seq<string>): Option<string>
  {
    if |parts| == 0 then None
    else if parts[|parts| - 1] != "" && parts[|parts| - 1] != "." then Some(parts[|parts| - 1])
    else LastComponent(parts[..|parts| - 1])
  }

  /** Rust's `Path::file_name` with `/` as separator: none for "", "/", "." or a path ending in "..". */
  function FileName(path: string): Option<string>
  {
    match LastComponent(Split(path, '/'))
    case None => None
    case Some(c) => if c == ".." then None else Some(c)
  }

  /** The resource name of a reference: its file name, or the whole reference when it has none. */
  function ResourceName(path: string): string
  {
    match FileName(path)
    case Some(n) => n
    case None => path
  }

  /** The rewritten reference. */
  function Target(path: string): string
  {
    SCHEME + ResourceName(path)
  }

  /** References left alone: absolute, inline data (images only) and already rewritten ones. */
  predicate Skipped(t: Tag, v: string)
  {
    "http" <= v || (t == Img && "data:" <= v) || SCHEME <= v
  }

  /** The captured value of the occurrence whose attribute is at `i`. */
  function Value(t: Tag, s: string, i: nat): string
    requires AttrAt(t, s, i)
  {
    s[ValueStart(t, i)..QuoteFrom(s, ValueStart(t, i))]
  }

  /** End (exclusive) of the occurrence whose attribute is at `i`. */
  function MatchEnd(t: Tag, s: string, i: nat): (e: nat)
    requires AttrAt(t, s, i) && ClosesFrom(t, s, i)
    ensures i < e <= |s|
  {
    IndexFrom(s, '>', QuoteFrom(s, ValueStart(t, i)) + 1) + 1
  }

  /**
   * The replacement of one occurrence `s[p..MatchEnd(t, s, i)]`.  For an
   * image the value is replaced with `str::replace` over the whole tag
   * text; for audio the tag is rebuilt around the new value with
   * `data-audio="true"` added.
   */
  function Rewrite(t: Tag, s: string, p: nat, i: nat): string
    requires Candidate(t, s, p, i)
  {
    var v := Value(t, s, i);
    var j := QuoteFrom(s, ValueStart(t, i));
    var e := MatchEnd(t, s, i);
    if Skipped(t, v) then s[p..e]
    else
      match t
      case Img => ReplaceAll(s[p..e], v, Target(v))
      case Audio => "<a" + s[p + 2..i] + "href=\"" + Target(v) + "\"" + s[j + 1..e - 1] + " data-audio=\"true\">"
  }

  /** A match the regex engine reports, with the text its replacer returns for it. */
  datatype Replaced = Replaced(start: nat, end: nat, text: string)

  /** Every match `find` reports from `from` on lies in `s[from..]` and is non-empty. */
  ghost predicate Advances(s: string, find: nat -> Option<Replaced>)
  {
    forall from: nat {:trigger find(from)} :: from <= |s| && find(from).Some? ==>
      from <= find(from).value.start < find(from).value.end <= |s|
  }

  /**
   * `Regex::replace_all` from position `from` on: the text before each
   * match, then the match's replacement, resuming after the match.
   */
  function ReplaceMatchesFrom(s: string, find: nat -> Option<Replaced>, from: nat): string
    requires from <= |s| && Advances(s, find)
    decreases |s| - from
  {
    match find(from)
    case None => s[from..]
    case Some(m) => s[from..m.start] + m.text + ReplaceMatchesFrom(s, find, m.end)
  }

  /** `Regex::replace_all`: copies the text between matches and appends each replacement. */
  method ReplaceMatches(s: string, find: nat -> Option<Replaced>) returns (out: string)
    requires Advances(s, find)
    ensures out == ReplaceMatchesFrom(s, find, 0)
  {
    out := "";
    var from := 0;
    while true
      invariant from <= |s|
      invariant out + ReplaceMatchesFrom(s, find, from) == ReplaceMatchesFrom(s, find, 0)
      decreases |s| - from
    {
      var m := find(from);
      if m.None? {
        out := out + s[from..];
        return;
      }
      var piece := s[from..m.value.start] + m.value.text;
      assert out + ReplaceMatchesFrom(s, find, from) == (out + piece) + ReplaceMatchesFrom(s, find, m.value.end);
      out := out + piece;
      from := m.value.end;
    }
  }

  /** Replacing every match with the text it matched gives back the text. */
  lemma {:induction false} ReplaceMatchesIdentity(s: string, find: nat -> Option<Replaced>, from: nat)
    requires from <= |s| && Advances(s, find)
    requires forall x: nat {:trigger find(x)} :: x <= |s| && find(x).Some? ==>
      find(x).value.text == s[find(x).value.start..find(x).value.end]
    ensures ReplaceMatchesFrom(s, find, from) == s[from..]
    decreases |s| - from
  {
    var m := find(from);
    if m.Some? {
      ReplaceMatchesIdentity(s, find, m.value.end);
      SuffixPieces(s, from, m.value.start, m.value.end);
    }
  }

  /** The next occurrence of the pattern for `t` at or after `from`, with its rewritten text. */
  function NextTag(t: Tag, s: string, from: nat): (r: Option<Replaced>)
    ensures r.Some? ==> from <= r.value.start < r.value.end <= |s|
  {
    match FindTag(t, s, from)
    case None => None
    case Some((p, i)) => Some(Replaced(p, MatchEnd(t, s, i), Rewrite(t, s, p, i)))
  }

  lemma NextTagAdvances(t: Tag, s: string)
    ensures Advances(s, (from: nat) => NextTag(t, s, from))
  {
  }

  /** One regex pass of `process_resource_links` over `s`. */
  function Pass(t: Tag, s: string): string
  {
    NextTagAdvances(t, s);
    ReplaceMatchesFrom(s, (from: nat) => NextTag(t, s, from), 0)
  }

  /** `process_resource_links`: the image pass, then the audio pass over its result. */
  method ProcessResourceLinks(html: string) returns (result: string)
    ensures result == Pass(Audio, Pass(Img, html))
  {
    result := html;
    NextTagAdvances(Img, result);
    result := ReplaceMatches(result, (from: nat) => NextTag(Img, result, from));
    NextTagAdvances(Audio, result);
    result := ReplaceMatches(result, (from: nat) => NextTag(Audio, result, from));
  }

  // ---------------------------------------------------------------------
  // Proofs
  // ---------------------------------------------------------------------

  /** The first quote at or after `from` is the one the pattern's value ends at. */
  lemma QuoteFromAt(s: string, from: nat, j: nat)
    requires from <= j < |s|
    ensures (IsQuote(s[j]) && forall x :: from <= x < j ==> !IsQuote(s[x])) <==> QuoteFrom(s, from) == j
  {
  }

  lemma GtAt(s: string, from: nat, k: nat)
    requires from <= k < |s|
    ensures (s[k] == '>' && forall x :: from <= x < k ==> s[x] != '>') <==> IndexFrom(s, '>', from) == k
  {
  }

  /** The scanner's computed form and the pattern's shape describe the same occurrences. */
  lemma CandidateIsMatch(t: Tag, s: string, p: nat, i: nat, j: nat, k: nat)
    ensures TagMatch(t, s, p, i, j, k) <==>
      Candidate(t, s, p, i) && j == QuoteFrom(s, ValueStart(t, i)) && k == IndexFrom(s, '>', j + 1)
  {
    if AttrAt(t, s, i) && ValueStart(t, i) <= j < |s| {
      QuoteFromAt(s, ValueStart(t, i), j);
      if j + 1 <= k < |s| {
        GtAt(s, j + 1, k);
      }
    }
  }

  /** No occurrence of the pattern starts at `p`. */
  ghost predicate NoMatchAt(t: Tag, s: string, p: nat)
  {
    forall i, j, k :: !TagMatch(t, s, p, i, j, k)
  }

  /** No occurrence starts between `from` and the one `FindTag` returns, or after `from` at all. */
  lemma FindTagLeftmost(t: Tag, s: string, from: nat)
    ensures FindTag(t, s, from).Some? ==>
      forall q :: from <= q < FindTag(t, s, from).value.0 ==> LastCandidate(t, s, q).None?
    ensures FindTag(t, s, from).None? ==> forall q :: from <= q < |s| ==> LastCandidate(t, s, q).None?
  {
    var P := (q: nat) => LastCandidate(t, s, q).Some?;
    var r := FirstFrom(P, from, |s|);
    assert FindTag(t, s, from).Some? <==> r.Some?;
    if r.Some? {
      assert FindTag(t, s, from).value.0 == r.value;
    }
    forall q: nat | from <= q < |s| && !P(q) ensures LastCandidate(t, s, q).None? {
    }
  }

  lemma NoCandidateNoMatch(t: Tag, s: string, p: nat)
    requires LastCandidate(t, s, p).None?
    ensures NoMatchAt(t, s, p)
  {
    LastCandidateIsLast(t, s, p);
    forall i: nat, j: nat, k: nat ensures !TagMatch(t, s, p, i, j, k) {
      CandidateIsMatch(t, s, p, i, j, k);
    }
  }

  /**
   * `FindTag` returns the occurrence the regex engine reports: no
   * occurrence starts between `from` and the one returned, none at that
   * start has a later attribute position, and `None` means there is none.
   */
  lemma FindTagIsLeftmostFirst(t: Tag, s: string, from: nat)
    ensures FindTag(t, s, from).Some? ==>
      var (p, i) := FindTag(t, s, from).value;
      && TagMatch(t, s, p, i, QuoteFrom(s, ValueStart(t, i)), IndexFrom(s, '>', QuoteFrom(s, ValueStart(t, i)) + 1))
      && (forall p' :: from <= p' < p ==> NoMatchAt(t, s, p'))
      && (forall i', j', k' :: i < i' ==> !TagMatch(t, s, p, i', j', k'))
    ensures FindTag(t, s, from).None? ==> forall p' :: from <= p' ==> NoMatchAt(t, s, p')
  {
    var r := FindTag(t, s, from);
    FindTagLeftmost(t, s, from);
    if r.Some? {
      var (p, i) := r.value;
      var j := QuoteFrom(s, ValueStart(t, i));
      CandidateIsMatch(t, s, p, i, j, IndexFrom(s, '>', j + 1));
      LastCandidateIsLast(t, s, p);
      forall i': nat, j': nat, k': nat | i < i' ensures !TagMatch(t, s, p, i', j', k') {
        CandidateIsMatch(t, s, p, i', j', k');
      }
      forall p': nat | from <= p' < p ensures NoMatchAt(t, s, p') {
        NoCandidateNoMatch(t, s, p');
      }
    } else {
      forall p': nat | from <= p' ensures NoMatchAt(t, s, p') {
        if p' < |s| {
          NoCandidateNoMatch(t, s, p');
        }
      }
    }
  }

  /** Every occurrence of the pattern for `t` in `s` holds a skipped reference. */
  ghost predicate AllSkipped(t: Tag, s: string)
  {
    forall p, i :: Candidate(t, s, p, i) ==> Skipped(t, Value(t, s, i))
  }

  lemma RewriteSkipped(t: Tag, s: string, p: nat, i: nat)
    requires Candidate(t, s, p, i) && Skipped(t, Value(t, s, i))
    ensures Rewrite(t, s, p, i) == s[p..MatchEnd(t, s, i)]
  {
  }

  /**
   * A relative image reference that occurs once in its tag: the rewrite is
   * the tag with exactly that value replaced by its resource-scheme target.
   * (When the same text occurs again in the tag, `str::replace` rewrites
   * that occurrence too.)
   */
  lemma RewriteRelativeImage(s: string, p: nat, i: nat)
    requires Candidate(Img, s, p, i) && !Skipped(Img, Value(Img, s, i))
    requires OnlyAt(s[p..MatchEnd(Img, s, i)], Value(Img, s, i), ValueStart(Img, i) - p)
    ensures Rewrite(Img, s, p, i) ==
      s[p..ValueStart(Img, i)] + Target(Value(Img, s, i)) + s[QuoteFrom(s, ValueStart(Img, i))..MatchEnd(Img, s, i)]
  {
    var v := Value(Img, s, i);
    var vs := ValueStart(Img, i);
    var e := MatchEnd(Img, s, i);
    assert Rewrite(Img, s, p, i) == ReplaceAll(s[p..e], v, Target(v));
    ReplaceAllOnceIn(s, p, e, vs, v, Target(v));
  }

  /** A pass over markup whose every occurrence is skipped leaves it exactly as it was. */
  lemma PassKeepsSkipped(t: Tag, s: string)
    requires AllSkipped(t, s)
    ensures Pass(t, s) == s
  {
    var find := (from: nat) => NextTag(t, s, from);
    NextTagAdvances(t, s);
    forall x: nat | x <= |s| && find(x).Some?
      ensures find(x).value.text == s[find(x).value.start..find(x).value.end]
    {
      var (p, i) := FindTag(t, s, x).value;
      RewriteSkipped(t, s, p, i);
    }
    ReplaceMatchesIdentity(s, find, 0);
  }

  /**
   * Markup with no relative reference left (every image and audio
   * occurrence absolute, inline or already rewritten) passes through both
   * passes unchanged.
   */
  lemma ProcessKeepsSkipped(html: string)
    requires AllSkipped(Img, html) && AllSkipped(Audio, html)
    ensures Pass(Audio, Pass(Img, html)) == html
  {
    PassKeepsSkipped(Img, html);
    PassKeepsSkipped(Audio, html);
  }

  /** Markup without any occurrence of either pattern is unchanged. */
  lemma ProcessWithoutTags(html: string)
    requires forall p, i :: !Candidate(Img, html, p, i) && !Candidate(Audio, html, p, i)
    ensures Pass(Audio, Pass(Img, html)) == html
  {
    ProcessKeepsSkipped(html);
  }

  /**
   * Every rewritten reference is in the resource scheme, so both passes
   * skip it: rewriting a rewritten reference leaves it as it is.
   */
  lemma TargetIsSkipped(t: Tag, path: string)
    ensures SCHEME <= Target(path)
    ensures Skipped(Img, Target(path)) && Skipped(Audio, Target(path))
    ensures Target(path)[|SCHEME|..] == ResourceName(path)
  {
  }

  lemma {:induction false} LastComponentSnoc(parts: seq<string>, n: string)
    requires n != "" && n != "."
    ensures LastComponent(parts + [n]) == Some(n)
  {
    assert (parts + [n])[|parts|] == n;
  }

  lemma {:induction false} LastComponentIsPart(parts: seq<string>)
    ensures LastComponent(parts).Some? ==>
      exists x :: 0 <= x < |parts| && parts[x] == LastComponent(parts).value
    ensures LastComponent(parts).Some? ==> LastComponent(parts).value != "" && LastComponent(parts).value != "."
  {
    if |parts| > 0 && (parts[|parts| - 1] == "" || parts[|parts| - 1] == ".") {
      LastComponentIsPart(parts[..|parts| - 1]);
      if LastComponent(parts).Some? {
        var x :| 0 <= x < |parts| - 1 && parts[..|parts| - 1][x] == LastComponent(parts).value;
        assert parts[x] == LastComponent(parts).value;
      }
    }
  }

  /** A file name is a single non-empty component other than "." and "..". */
  predicate IsPlainName(n: string)
  {
    n != "" && n != "." && n != ".." && '/' !in n
  }

  /** `Path::file_name` yields a plain name, and a plain name is its own file name. */
  lemma FileNameIsPlain(path: string)
    ensures FileName(path).Some? ==> IsPlainName(FileName(path).value)
    ensures IsPlainName(path) ==> FileName(path) == Some(path)
  {
    var parts := Split(path, '/');
    SplitJoin(path, '/');
    LastComponentIsPart(parts);
    if IsPlainName(path) {
      SplitNoSep(path, '/');
      assert parts == [] + [path];
      LastComponentSnoc([], path);
    }
  }

  /**
   * The directory part of a reference does not matter: `dir/name` and
   * `name` have the same file name and the same target, whatever `dir` is.
   */
  lemma FileNameIgnoresDirectory(dir: string, name: string)
    requires IsPlainName(name)
    ensures FileName(dir + "/" + name) == Some(name)
    ensures Target(dir + "/" + name) == Target(name)
  {
    SplitSnoc(dir, '/', name);
    LastComponentSnoc(Split(dir, '/'), name);
    FileNameIsPlain(name);
  }

  /** Taking the file name twice changes nothing. */
  lemma FileNameIdempotent(path: string)
    ensures FileName(path).Some? ==> FileName(FileName(path).value) == FileName(path)
    ensures FileName(path).Some? ==> ResourceName(ResourceName(path)) == ResourceName(path)
  {
    FileNameIsPlain(path);
    if FileName(path).Some? {
      FileNameIsPlain(FileName(path).value);
    }
  }
}
