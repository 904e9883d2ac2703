/**
 * The pieces of Rust's `str` and `char` API that the dictionary code relies
 * on, over Dafny strings (sequences of Unicode scalar values).  Byte lengths
 * are the UTF-8 lengths Rust's `str::len` reports.
 */
module Text {

  /** The first `c` at or after `from`, or the end of `s`. */
  function IndexFrom(s: string, c: char, from: nat): (r: nat)
    requires from <= |s|
    ensures from <= r <= |s|
    ensures forall x :: from <= x < r ==> s[x] != c
    ensures r < |s| ==> s[r] == c
    decreases |s| - from
  {
    if from == |s| || s[from] == c then from else IndexFrom(s, c, from + 1)
  }

  /** Rust's `char::is_whitespace`: the Unicode White_Space property. */
  predicate IsWhitespace(c: char)
  {
    ('\U{9}' <= c <= '\U{D}') || c == ' ' || c == '\U{85}' || c == '\U{A0}' ||
    c == '\U{1680}' || ('\U{2000}' <= c <= '\U{200A}') || c == '\U{2028}' ||
    c == '\U{2029}' || c == '\U{202F}' || c == '\U{205F}' || c == '\U{3000}'
  }

  /** Rust's `char::is_ascii_control`: U+0000 to U+001F and U+007F. */
  predicate IsAsciiControl(c: char)
  {
    c <= '\U{1F}' || c == '\U{7F}'
  }

  /** Rust's `char::is_ascii_alphabetic`. */
  predicate IsAsciiAlpha(c: char)
  {
    ('a' <= c <= 'z') || ('A' <= c <= 'Z')
  }

  /** Lower-case mapping, ASCII letters only. */
  function LowerChar(c: char): char
  {
    if 'A' <= c <= 'Z' then (c as int + 32) as char else c
  }

  /** Upper-case mapping, ASCII letters only. */
  function UpperChar(c: char): char
  {
    if 'a' <= c <= 'z' then (c as int - 32) as char else c
  }

  function Lower(s: string): string
  {
    seq(|s|, i requires 0 <= i < |s| => LowerChar(s[i]))
  }

  function Upper(s: string): string
  {
    seq(|s|, i requires 0 <= i < |s| => UpperChar(s[i]))
  }

  function TrimStart(s: string): string
  {
    if |s| > 0 && IsWhitespace(s[0]) then TrimStart(s[1..]) else s
  }

  function TrimEnd(s: string): string
  {
    if |s| > 0 && IsWhitespace(s[|s| - 1]) then TrimEnd(s[..|s| - 1]) else s
  }

  /** Rust's `str::trim`: drops leading and trailing whitespace. */
  function Trim(s: string): string
  {
    TrimEnd(TrimStart(s))
  }

  /** `s` has no whitespace at either end. */
  predicate Trimmed(s: string)
  {
    |s| == 0 || (!IsWhitespace(s[0]) && !IsWhitespace(s[|s| - 1]))
  }

  /**
   * Rust's `str::split(sep)` for a single character: always at least one
   * part, one more than there are separators.
   */
  function Split(s: string, sep: char): (parts: seq<string>)
    ensures |parts| >= 1
  {
    if |s| == 0 then [""]
    else
      var rest := Split(s[1..], sep);
      if s[0] == sep then [""] + rest else [[s[0]] + rest[0]] + rest[1..]
  }

  /** The inverse of `Split`: the parts glued back with the separator. */
  function Join(parts: seq<string>, sep: char): string
  {
    if |parts| == 0 then ""
    else if |parts| == 1 then parts[0]
    else parts[0] + [sep] + Join(parts[1..], sep)
  }

  /** Number of bytes of `c` in UTF-8. */
  function Utf8Len(c: char): nat
  {
    if c < '\U{80}' then 1 else if c < '\U{800}' then 2 else if c < '\U{10000}' then 3 else 4
  }

  /** Rust's `str::len`: the length in UTF-8 bytes. */
  function ByteLen(s: string): nat
  {
    if |s| == 0 then 0 else ByteLen(s[..|s| - 1]) + Utf8Len(s[|s| - 1])
  }

  /**
   * The order of Rust's `String` comparison operators (byte-wise over UTF-8,
   * which is the same as code-point order): `a <= b`.
   */
  predicate LexLe(a: string, b: string)
  {
    |a| == 0 || (|b| > 0 && (a[0] < b[0] || (a[0] == b[0] && LexLe(a[1..], b[1..]))))
  }

  /** Rust's `str::replace(pat, rep)` for a non-empty pattern: every
      non-overlapping occurrence, scanning from the left. */
  function ReplaceAll(s: string, pat: string, rep: string): string
    requires |pat| > 0
    decreases |s|
  {
    if |s| < |pat| then s
    else if pat <= s then rep + ReplaceAll(s[|pat|..], pat, rep)
    else [s[0]] + ReplaceAll(s[1..], pat, rep)
  }

  // ---------------------------------------------------------------------
  // Facts about these operations
  // ---------------------------------------------------------------------

  /** `pat` occurs in `s` starting at position `m`. */
  predicate OccursAt(s: string, pat: string, m: nat)
  {
    m + |pat| <= |s| && pat <= s[m..]
  }

  /** `pat` occurs in `s` at position `k` and nowhere else. */
  ghost predicate OnlyAt(s: string, pat: string, k: nat)
  {
    OccursAt(s, pat, k) && forall m: nat :: m != k ==> !OccursAt(s, pat, m)
  }

  /** Without an occurrence of the pattern, `replace` changes nothing. */
  lemma {:induction false} ReplaceAllAbsent(s: string, pat: string, rep: string)
    requires |pat| > 0
    requires forall m: nat :: !OccursAt(s, pat, m)
    ensures ReplaceAll(s, pat, rep) == s
    decreases |s|
  {
    if |s| >= |pat| {
      assert !OccursAt(s, pat, 0);
      assert s[0..] == s;
      forall m: nat
        ensures !OccursAt(s[1..], pat, m)
      {
        if m + |pat| <= |s| - 1 {
          assert s[1..][m..] == s[m + 1..];
          assert !OccursAt(s, pat, m + 1);
        }
      }
      ReplaceAllAbsent(s[1..], pat, rep);
      assert s == [s[0]] + s[1..];
    }
  }

  /** With a single occurrence of the pattern, `replace` swaps exactly that occurrence. */
  lemma {:induction false} ReplaceAllOnce(s: string, pat: string, rep: string, k: nat)
    requires |pat| > 0 && OnlyAt(s, pat, k)
    ensures ReplaceAll(s, pat, rep) == s[..k] + rep + s[k + |pat|..]
    decreases |s|
  {
    assert s[0..] == s;
    if k == 0 {
      assert pat <= s;
      AbsentAfter(s, pat, k, s[|pat|..]);
      ReplaceAllAbsent(s[|pat|..], pat, rep);
    } else {
      assert !OccursAt(s, pat, 0);
      OnlyAtDrop(s, pat, k);
      ReplaceAllOnce(s[1..], pat, rep, k - 1);
      ConsPieces(s, k, |pat|, rep);
    }
  }

  lemma ConsPieces(s: string, k: nat, n: nat, rep: string)
    requires 0 < k && k + n <= |s|
    ensures [s[0]] + (s[1..][..k - 1] + rep + s[1..][k - 1 + n..]) == s[..k] + rep + s[k + n..]
  {
    assert s[..k] == [s[0]] + s[1..][..k - 1];
    assert s[1..][k - 1 + n..] == s[k + n..];
  }

  /** `ReplaceAllOnce` on a slice `s[a..b]` whose single occurrence starts at `k`. */
  lemma ReplaceAllOnceIn(s: string, a: nat, b: nat, k: nat, pat: string, rep: string)
    requires a <= k && k + |pat| <= b <= |s| && |pat| > 0
    requires OnlyAt(s[a..b], pat, k - a)
    ensures ReplaceAll(s[a..b], pat, rep) == s[a..k] + rep + s[k + |pat|..b]
  {
    var x := s[a..b];
    ReplaceAllOnce(x, pat, rep, k - a);
    assert x[..k - a] == s[a..k];
    assert x[k - a + |pat|..] == s[k + |pat|..b];
  }

  lemma AbsentAfter(s: string, pat: string, k: nat, t: string)
    requires |pat| > 0 && OnlyAt(s, pat, k) && t == s[k + |pat|..]
    ensures forall m: nat :: !OccursAt(t, pat, m)
  {
    forall m: nat
      ensures !OccursAt(t, pat, m)
    {
      if m + |pat| <= |t| {
        assert t[m..] == s[m + k + |pat|..];
        assert !OccursAt(s, pat, m + k + |pat|);
      }
    }
  }

  lemma OnlyAtDrop(s: string, pat: string, k: nat)
    requires 0 < k && OnlyAt(s, pat, k)
    ensures OnlyAt(s[1..], pat, k - 1)
  {
    var t := s[1..];
    assert t[k - 1..] == s[k..];
    forall m: nat | m != k - 1
      ensures !OccursAt(t, pat, m)
    {
      if m + |pat| <= |t| {
        assert t[m..] == s[m + 1..];
        assert !OccursAt(s, pat, m + 1);
      }
    }
  }

  /** Putting a character in front of the first part puts it in front of the joined text. */
  lemma JoinConsFirst(c: char, parts: seq<string>, sep: char)
    requires |parts| >= 1
    ensures Join([[c] + parts[0]] + parts[1..], sep) == [c] + Join(parts, sep)
  {
    var ps := [[c] + parts[0]] + parts[1..];
    if |parts| > 1 {
      assert ps[1..] == parts[1..];
      assert Join(ps, sep) == ([c] + parts[0]) + [sep] + Join(parts[1..], sep);
    }
  }

  lemma {:induction false} SplitJoin(s: string, sep: char)
    ensures Join(Split(s, sep), sep) == s
    ensures forall k :: 0 <= k < |Split(s, sep)| ==> sep !in Split(s, sep)[k]
  {
    if |s| > 0 {
      SplitJoin(s[1..], sep);
      var rest := Split(s[1..], sep);
      if s[0] == sep {
        assert Split(s, sep) == [""] + rest;
        assert ([""] + rest)[1..] == rest;
        assert s == [] + [sep] + s[1..];
      } else {
        JoinConsFirst(s[0], rest, sep);
        assert s == [s[0]] + s[1..];
      }
    }
  }

  /** A separator-free piece followed by the separator splits off as the first part. */
  lemma {:induction false} SplitCons(a: string, sep: char, rest: string)
    requires sep !in a
    ensures Split(a + [sep] + rest, sep) == [a] + Split(rest, sep)
    decreases |a|
  {
    if |a| == 0 {
      assert a + [sep] + rest == [sep] + rest;
      assert ([sep] + rest)[1..] == rest;
    } else {
      var s := a + [sep] + rest;
      assert s[0] == a[0];
      assert s[1..] == a[1..] + [sep] + rest;
      SplitCons(a[1..], sep, rest);
      assert [a[0]] + a[1..] == a;
    }
  }

  /** A string without the separator is its own single part. */
  lemma {:induction false} SplitNoSep(s: string, sep: char)
    requires sep !in s
    ensures Split(s, sep) == [s]
  {
    if |s| > 0 {
      SplitNoSep(s[1..], sep);
      assert [s[0]] + s[1..] == s;
    }
  }

  /** A separator-free piece after the last separator is the last part. */
  lemma {:induction false} SplitSnoc(d: string, sep: char, n: string)
    requires sep !in n
    ensures Split(d + [sep] + n, sep) == Split(d, sep) + [n]
    decreases |d|
  {
    if |d| == 0 {
      SplitCons(d, sep, n);
      SplitNoSep(n, sep);
      assert d + [sep] + n == [] + [sep] + n;
    } else {
      var s := d + [sep] + n;
      assert s[0] == d[0];
      assert s[1..] == d[1..] + [sep] + n;
      SplitSnoc(d[1..], sep, n);
    }
  }

  lemma LowerIdempotent(s: string)
    ensures Lower(Lower(s)) == Lower(s)
  {
  }

  lemma LowerAppend(a: string, b: string)
    ensures Lower(a + b) == Lower(a) + Lower(b)
  {
  }

  lemma LowerPreservesWhitespace(c: char)
    ensures IsWhitespace(LowerChar(c)) == IsWhitespace(c)
  {
  }

  lemma {:induction false} TrimStartLower(s: string)
    ensures TrimStart(Lower(s)) == Lower(TrimStart(s))
  {
    if |s| > 0 {
      assert Lower(s)[0] == LowerChar(s[0]);
      LowerPreservesWhitespace(s[0]);
      if IsWhitespace(s[0]) {
        assert Lower(s)[1..] == Lower(s[1..]);
        TrimStartLower(s[1..]);
      }
    }
  }

  lemma {:induction false} TrimEndLower(s: string)
    ensures TrimEnd(Lower(s)) == Lower(TrimEnd(s))
  {
    if |s| > 0 {
      assert Lower(s)[|s| - 1] == LowerChar(s[|s| - 1]);
      LowerPreservesWhitespace(s[|s| - 1]);
      if IsWhitespace(s[|s| - 1]) {
        assert Lower(s)[..|s| - 1] == Lower(s[..|s| - 1]);
        TrimEndLower(s[..|s| - 1]);
      }
    }
  }

  lemma {:induction false} TrimStartNoLead(s: string)
    ensures |TrimStart(s)| <= |s|
    ensures |TrimStart(s)| == 0 || !IsWhitespace(TrimStart(s)[0])
  {
    if |s| > 0 && IsWhitespace(s[0]) {
      TrimStartNoLead(s[1..]);
    }
  }

  lemma {:induction false} TrimEndKeepsStart(s: string)
    ensures |TrimEnd(s)| <= |s| && TrimEnd(s) == s[..|TrimEnd(s)|]
    ensures |TrimEnd(s)| == 0 || !IsWhitespace(TrimEnd(s)[|TrimEnd(s)| - 1])
  {
    if |s| > 0 && IsWhitespace(s[|s| - 1]) {
      TrimEndKeepsStart(s[..|s| - 1]);
    }
  }

  /** `Trim` yields a string with no whitespace at either end. */
  lemma TrimShape(s: string)
    ensures Trimmed(Trim(s))
  {
    var t := TrimStart(s);
    TrimStartNoLead(s);
    TrimEndKeepsStart(t);
    if |Trim(s)| > 0 {
      assert Trim(s)[0] == t[0];
    }
  }

  lemma {:induction false} TrimOfTrimmed(s: string)
    requires Trimmed(s)
    ensures Trim(s) == s
  {
    if |s| > 0 {
      assert TrimStart(s) == s;
      assert TrimEnd(s) == s;
    }
  }

  lemma TrimIdempotent(s: string)
    ensures Trim(Trim(s)) == Trim(s)
  {
    TrimShape(s);
    TrimOfTrimmed(Trim(s));
  }

  lemma TrimLower(s: string)
    ensures Trim(Lower(s)) == Lower(Trim(s))
  {
    TrimStartLower(s);
    TrimEndLower(TrimStart(s));
  }

  lemma {:induction false} ByteLenAppend(a: string, b: string)
    ensures ByteLen(a + b) == ByteLen(a) + ByteLen(b)
    decreases |b|
  {
    if |b| > 0 {
      assert (a + b)[..|a + b| - 1] == a + b[..|b| - 1];
      ByteLenAppend(a, b[..|b| - 1]);
    } else {
      assert a + b == a;
    }
  }

  lemma {:induction false} ByteLenAtLeastLength(s: string)
    ensures ByteLen(s) >= |s|
  {
    if |s| > 0 {
      ByteLenAtLeastLength(s[..|s| - 1]);
    }
  }

  lemma {:induction false} ByteLenPrefix(s: string, k: nat)
    requires k <= |s|
    ensures ByteLen(s[..k]) <= ByteLen(s)
  {
    assert s == s[..k] + s[k..];
    ByteLenAppend(s[..k], s[k..]);
  }

  /** Strings made of ASCII characters have one byte per character. */
  lemma {:induction false} ByteLenAscii(s: string)
    requires forall i :: 0 <= i < |s| ==> s[i] < '\U{80}'
    ensures ByteLen(s) == |s|
  {
    if |s| > 0 {
      ByteLenAscii(s[..|s| - 1]);
    }
  }

  /** A suffix is the concatenation of its pieces. */
  lemma SuffixPieces<T>(s: seq<T>, a: nat, b: nat, c: nat)
    requires a <= b <= c <= |s|
    ensures s[a..] == s[a..b] + s[b..c] + s[c..]
  {
  }
}
