/**
 * The one-line "brief" shown next to each search candidate: for a local
 * word, the first sentence of its definition; for an online candidate, the
 * part of speech and the start of the first definition.
 */
module Brief {
  import opened Wrappers
  import opened Text

  /** Byte budget of a local brief before "..." is added. */
  const LOCAL_BRIEF_BYTES: nat := 100
  /** Byte budgets of an online brief's excerpt, with and without a part of speech. */
  const ONLINE_BRIEF_BYTES_WITH_POS: nat := 60
  const ONLINE_BRIEF_BYTES: nat := 80

  /** Every ASCII control character becomes a space. */
  function ControlToSpace(s: string): string
  {
    seq(|s|, i requires 0 <= i < |s| => if IsAsciiControl(s[i]) then ' ' else s[i])
  }

  /** The characters a brief's first sentence ends at. */
  predicate IsTerminator(c: char)
  {
    c == '。' || c == '.' || c == ';' || c == '；'
  }

  /** The first piece of `s` split at terminators. */
  function FirstSentence(s: string): string
  {
    if |s| == 0 || IsTerminator(s[0]) then "" else [s[0]] + FirstSentence(s[1..])
  }

  /** The longest prefix of `s` that fits in `n` UTF-8 bytes. */
  function FloorPrefix(s: string, n: nat): string
  {
    if |s| == 0 || Utf8Len(s[0]) > n then "" else [s[0]] + FloorPrefix(s[1..], n - Utf8Len(s[0]))
  }

  /**
   * Rust's `&s[..n]`: the prefix of exactly `n` bytes, which panics when
   * `n` is past the end or falls inside a character.
   */
  function SliceTo(s: string, n: nat): Run<string>
  {
    var p := FloorPrefix(s, n);
    if ByteLen(p) == n then Returns(p) else Panics
  }

  /** The text a local brief is cut from: the trimmed first sentence. */
  function Sentence(definition: string, entities: string -> string): string
  {
    Trim(FirstSentence(ControlToSpace(entities(definition))))
  }

  /**
   * `get_word_brief` as written (main.rs:245-263): `&text[..100]` panics
   * when byte 100 is not a character boundary.
   */
  function WordBriefAsWritten(definition: Option<string>, entities: string -> string): Run<string>
  {
    match definition
    case None => Returns("")
    case Some(d) =>
      var text := Sentence(d, entities);
      if ByteLen(text) > LOCAL_BRIEF_BYTES then
        match SliceTo(text, LOCAL_BRIEF_BYTES)
        case Returns(p) => Returns(p + "...")
        case Panics => Panics
      else Returns(text)
  }

  /**
   * `get_word_brief` with the cut moved back to the last character boundary
   * within 100 bytes: "" for an absent word, else the trimmed text before
   * the first terminator, cut to at most 100 bytes plus "..." when longer.
   */
  function WordBrief(definition: Option<string>, entities: string -> string): (r: string)
    ensures definition.None? ==> r == ""
    ensures definition.Some? ==>
      var text := Sentence(definition.value, entities);
      if ByteLen(text) <= LOCAL_BRIEF_BYTES then r == text
      else exists body :: r == body + "..." && IsByteCut(text, body, LOCAL_BRIEF_BYTES)
  {
    match definition
    case None => ""
    case Some(d) =>
      var text := Sentence(d, entities);
      if ByteLen(text) > LOCAL_BRIEF_BYTES then
        FloorPrefixIsByteCut(text, LOCAL_BRIEF_BYTES);
        FloorPrefix(text, LOCAL_BRIEF_BYTES) + "..."
      else text
  }

  /**
   * `body` is `text` cut at a character boundary to at most `n` bytes,
   * keeping every character that still fits.
   */
  predicate IsByteCut(text: string, body: string, n: nat)
  {
    && body <= text
    && ByteLen(body) <= n
    && (|body| < |text| ==> ByteLen(body) + Utf8Len(text[|body|]) > n)
  }

  /** The brief of an online candidate as written (main.rs:589-593). */
  function OnlineBriefAsWritten(partOfSpeech: string, definition: string): Run<string>
  {
    if partOfSpeech != "" then
      match SliceTo(definition, Min(ByteLen(definition), ONLINE_BRIEF_BYTES_WITH_POS))
      case Returns(p) => Returns(partOfSpeech + ". " + p)
      case Panics => Panics
    else SliceTo(definition, Min(ByteLen(definition), ONLINE_BRIEF_BYTES))
  }

  /**
   * The online brief with each cut at a character boundary: "pos. " and at
   * most 60 bytes of the definition, or at most 80 bytes without a part of
   * speech; a definition that fits is kept whole.
   */
  function OnlineBrief(partOfSpeech: string, definition: string): (r: string)
    ensures partOfSpeech != "" ==>
      exists ex :: r == partOfSpeech + ". " + ex && IsByteCut(definition, ex, ONLINE_BRIEF_BYTES_WITH_POS)
    ensures partOfSpeech == "" ==> IsByteCut(definition, r, ONLINE_BRIEF_BYTES)
    ensures partOfSpeech == "" && ByteLen(definition) <= ONLINE_BRIEF_BYTES ==> r == definition
  {
    FloorPrefixIsByteCut(definition, ONLINE_BRIEF_BYTES_WITH_POS);
    FloorPrefixIsByteCut(definition, ONLINE_BRIEF_BYTES);
    if partOfSpeech != "" then partOfSpeech + ". " + FloorPrefix(definition, ONLINE_BRIEF_BYTES_WITH_POS)
    else FloorPrefix(definition, ONLINE_BRIEF_BYTES)
  }

  function Min(a: nat, b: nat): nat
  {
    if a <= b then a else b
  }

  // ---------------------------------------------------------------------
  // Proofs
  // ---------------------------------------------------------------------

  lemma ByteLenCons(c: char, t: string)
    ensures ByteLen([c] + t) == Utf8Len(c) + ByteLen(t)
  {
    ByteLenAppend([c], t);
    assert [c][..0] == [];
  }

  lemma {:induction false} FloorPrefixIsByteCut(s: string, n: nat)
    ensures IsByteCut(s, FloorPrefix(s, n), n)
    ensures ByteLen(s) <= n ==> FloorPrefix(s, n) == s
  {
    if |s| > 0 {
      ByteLenCons(s[0], s[1..]);
      assert [s[0]] + s[1..] == s;
      if Utf8Len(s[0]) <= n {
        var m := n - Utf8Len(s[0]);
        FloorPrefixIsByteCut(s[1..], m);
        var t := FloorPrefix(s[1..], m);
        ByteLenCons(s[0], t);
        assert FloorPrefix(s, n) == [s[0]] + t;
        if |t| < |s[1..]| {
          assert s[|[s[0]] + t|] == s[1..][|t|];
        }
      } else {
        assert ByteLen([]) == 0;
      }
    }
  }

  /** Where the as-written brief does not panic, it equals the corrected one. */
  lemma WordBriefAgrees(definition: Option<string>, entities: string -> string)
    ensures WordBriefAsWritten(definition, entities).Returns? ==>
      WordBriefAsWritten(definition, entities).value == WordBrief(definition, entities)
  {
  }

  /** Where the as-written online brief does not panic, it equals the corrected one. */
  lemma {:induction false} OnlineBriefAgrees(partOfSpeech: string, definition: string)
    ensures OnlineBriefAsWritten(partOfSpeech, definition).Returns? ==>
      OnlineBriefAsWritten(partOfSpeech, definition).value == OnlineBrief(partOfSpeech, definition)
  {
    FloorPrefixAtEnd(definition, ONLINE_BRIEF_BYTES_WITH_POS);
    FloorPrefixAtEnd(definition, ONLINE_BRIEF_BYTES);
  }

  /** Cutting at a byte count beyond the end keeps the whole string. */
  lemma FloorPrefixAtEnd(s: string, n: nat)
    ensures FloorPrefix(s, Min(ByteLen(s), n)) == FloorPrefix(s, n)
  {
    FloorPrefixIsByteCut(s, ByteLen(s));
    FloorPrefixIsByteCut(s, n);
    if ByteLen(s) <= n {
      assert FloorPrefix(s, n) == s;
    }
  }

  /** A run of three-byte characters, such as CJK ideographs. */
  predicate AllThreeByte(s: string)
  {
    forall i :: 0 <= i < |s| ==> Utf8Len(s[i]) == 3
  }

  lemma {:induction false} ThreeByteLen(s: string)
    requires AllThreeByte(s)
    ensures ByteLen(s) == 3 * |s|
  {
    if |s| > 0 {
      ThreeByteLen(s[..|s| - 1]);
    }
  }

  lemma {:induction false} ThreeByteFloor(s: string, n: nat)
    requires AllThreeByte(s) && n <= 3 * |s|
    ensures |FloorPrefix(s, n)| == n / 3
  {
    if |s| > 0 && n >= 3 {
      ThreeByteFloor(s[1..], n - 3);
    }
  }

  /**
   * The panic, exhibited: a definition of 34 CJK ideographs with no
   * terminator is 102 bytes long, and byte 100 falls inside the 34th.
   */
  lemma WordBriefPanicsOnCjk()
    ensures WordBriefAsWritten(Some(seq(34, _ => '中')), s => s).Panics?
    ensures WordBrief(Some(seq(34, _ => '中')), s => s) == seq(33, _ => '中') + "..."
  {
    var d: string := seq(34, _ => '中');
    assert ControlToSpace(d) == d;
    NoTerminator(d);
    assert Trimmed(d);
    TrimOfTrimmed(d);
    assert Sentence(d, s => s) == d;
    ThreeByteLen(d);
    ThreeByteFloor(d, 100);
    var p := FloorPrefix(d, 100);
    FloorPrefixIsByteCut(d, 100);
    assert p == d[..33];
    ThreeByteLen(p);
    assert d[..33] == seq(33, _ => '中');
  }

  /**
   * The first sentence is the longest terminator-free prefix: it contains
   * no terminator and is followed by one or by the end of the text.
   */
  lemma {:induction false} FirstSentenceIsPrefix(s: string)
    ensures var r := FirstSentence(s);
      r <= s && (forall i :: 0 <= i < |r| ==> !IsTerminator(r[i]))
      && (|r| == |s| || IsTerminator(s[|r|]))
  {
    if |s| > 0 && !IsTerminator(s[0]) {
      FirstSentenceIsPrefix(s[1..]);
      var r := FirstSentence(s);
      assert r == [s[0]] + FirstSentence(s[1..]);
      assert forall i :: 1 <= i < |r| ==> r[i] == FirstSentence(s[1..])[i - 1];
    }
  }

  lemma {:induction false} NoTerminator(s: string)
    requires forall i :: 0 <= i < |s| ==> !IsTerminator(s[i])
    ensures FirstSentence(s) == s
  {
    if |s| > 0 {
      NoTerminator(s[1..]);
    }
  }

  /**
   * The same panic in the online brief: 59 ASCII letters and an em dash
   * put byte 60 inside the dash.
   */
  lemma OnlineBriefPanicsOnDash()
    ensures OnlineBriefAsWritten("noun", seq(59, _ => 'a') + "—").Panics?
  {
    var d: string := seq(59, _ => 'a') + "—";
    ByteLenAscii(seq(59, _ => 'a'));
    ByteLenAppend(seq(59, _ => 'a'), "—");
    assert ByteLen("—") == 3 by { assert "—"[..0] == []; }
    AsciiFloor(d, 60);
  }

  lemma {:induction false} AsciiFloor(s: string, n: nat)
    requires 59 < |s| && forall i :: 0 <= i < 59 ==> s[i] == 'a'
    requires Utf8Len(s[59]) == 3 && n == 60
    ensures FloorPrefix(s, n) == s[..59]
  {
    AsciiFloorFrom(s, 0, n);
  }

  lemma {:induction false} AsciiFloorFrom(s: string, k: nat, n: nat)
    requires 59 < |s| && forall i :: 0 <= i < 59 ==> s[i] == 'a'
    requires Utf8Len(s[59]) == 3 && k <= 59 && n == 60 - k
    ensures FloorPrefix(s[k..], n) == s[k..59]
    decreases 59 - k
  {
    if k < 59 {
      assert s[k..][0] == 'a';
      assert s[k..][1..] == s[k + 1..];
      AsciiFloorFrom(s, k + 1, n - 1);
      assert s[k..59] == [s[k]] + s[k + 1..59];
    } else {
      assert s[k..][0] == s[59];
    }
  }
}
