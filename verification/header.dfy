/**
 * The dictionary header: a big-endian 32-bit length, that many bytes of
 * attribute text (`Name="value"` pairs inside an XML element), and a 4-byte
 * checksum, after which the block-info section starts.
 *
 * The attribute pattern `(\w+)="([^"]+)"` is modelled by a scanner:
 * `AttrAt` computes the unique occurrence starting at a position and
 * `AttrShapeIsMatch` proves it is exactly the pattern's shape.
 */
module Header {
  import opened Wrappers
  import opened Text
  import opened Binary

  /** The header as the reader keeps it.  `v2` is "version >= 2.0". */
  datatype DictionaryHeader = DictionaryHeader(
    v2: bool,
    engineVersion: string,
    format: string,
    keyCaseSensitive: bool,
    stripKey: bool,
    encryption: string,
    encoding: string,
    creationDate: string,
    compact: bool,
    left2Right: bool,
    dataOffset: nat,
    title: string,
    description: string)

  /** `\w`, for ASCII text: letters, digits and `_`. */
  predicate IsWordChar(c: char)
  {
    IsAsciiAlpha(c) || ('0' <= c <= '9') || c == '_'
  }

  /** The end of the run of word characters starting at `i`. */
  function WordEnd(s: string, i: nat): (e: nat)
    requires i <= |s|
    ensures i <= e <= |s|
    ensures forall x :: i <= x < e ==> IsWordChar(s[x])
    ensures e < |s| ==> !IsWordChar(s[e])
    decreases |s| - i
  {
    if i == |s| || !IsWordChar(s[i]) then i else WordEnd(s, i + 1)
  }

  /** One occurrence of the pattern: the name is `s[i..e]`, the value `s[e + 2..q]`. */
  predicate AttrShape(s: string, i: nat, e: nat, q: nat)
  {
    i < e && e + 2 < q < |s|
    && (forall x :: i <= x < e ==> IsWordChar(s[x]))
    && s[e] == '=' && s[e + 1] == '"'
    && (forall x :: e + 2 <= x < q ==> s[x] != '"')
    && s[q] == '"'
  }

  /** The occurrence starting at `i`, if any: the name's end and the closing quote. */
  function AttrAt(s: string, i: nat): (r: Option<(nat, nat)>)
    requires i <= |s|
    ensures r.Some? ==> AttrShape(s, i, r.value.0, r.value.1)
  {
    var e := WordEnd(s, i);
    if i < e && e + 2 < |s| && s[e] == '=' && s[e + 1] == '"' then
      var q := IndexFrom(s, '"', e + 2);
      if e + 2 < q < |s| then Some((e, q)) else None
    else None
  }

  /** The pattern matches at `i` in exactly one way, the one `AttrAt` computes. */
  lemma AttrShapeIsMatch(s: string, i: nat, e: nat, q: nat)
    requires i <= |s|
    ensures AttrShape(s, i, e, q) <==> AttrAt(s, i) == Some((e, q))
  {
    if AttrShape(s, i, e, q) {
      assert WordEnd(s, i) == e;
      assert IndexFrom(s, '"', e + 2) == q;
    }
  }

  /** `captures_iter`: the (name, value) pairs of the successive leftmost occurrences from `from`. */
  function AttrsFrom(s: string, from: nat): (ps: seq<(string, string)>)
    requires from <= |s|
    decreases |s| - from
  {
    if from == |s| then []
    else
      var r := AttrAt(s, from);
      if r.Some? then [(s[from..r.value.0], s[r.value.0 + 2..r.value.1])] + AttrsFrom(s, r.value.1 + 1)
      else AttrsFrom(s, from + 1)
  }

  /** Inserting the pairs one after another into `m`: a later duplicate overrides. */
  function InsertAll(ps: seq<(string, string)>, m: map<string, string>): map<string, string>
  {
    if |ps| == 0 then m else InsertAll(ps[1..], m[ps[0].0 := ps[0].1])
  }

  /** The attribute map `parse_header_attrs` builds. */
  function Attrs(s: string): map<string, string>
  {
    InsertAll(AttrsFrom(s, 0), map[])
  }

  /** Inserting the pairs still ahead of `pos` into `m` gives the whole attribute map. */
  predicate CollectsTo(s: string, pos: nat, m: map<string, string>)
    requires pos <= |s|
  {
    InsertAll(AttrsFrom(s, pos), m) == Attrs(s)
  }

  /** The loop of `parse_header_attrs` filling its `HashMap`. */
  method CollectAttrs(s: string) returns (attrs: map<string, string>)
    ensures attrs == Attrs(s)
  {
    attrs := map[];
    var pos := 0;
    while pos < |s|
      invariant pos <= |s|
      invariant CollectsTo(s, pos, attrs)
      decreases |s| - pos
    {
      var found := AttrAt(s, pos);
      if found.Some? {
        var e, q := found.value.0, found.value.1;
        InsertAllHit(s, pos, e, q, attrs);
        attrs := attrs[s[pos..e] := s[e + 2..q]];
        pos := q + 1;
      } else {
        InsertAllMiss(s, pos, attrs);
        pos := pos + 1;
      }
    }
  }

  /** One step of the attribute loop at an occurrence: its pair is inserted and the scan resumes after it. */
  lemma InsertAllHit(s: string, pos: nat, e: nat, q: nat, m: map<string, string>)
    requires pos < |s| && AttrAt(s, pos) == Some((e, q))
    requires CollectsTo(s, pos, m)
    ensures q + 1 <= |s| && pos <= e <= q
    ensures CollectsTo(s, q + 1, m[s[pos..e] := s[e + 2..q]])
  {
    AttrsFromHit(s, pos, e, q);
    var ps := AttrsFrom(s, pos);
    assert ps[1..] == AttrsFrom(s, q + 1);
  }

  /** A match at `pos` contributes one pair and scanning resumes after its closing quote. */
  lemma AttrsFromHit(s: string, pos: nat, e: nat, q: nat)
    requires pos < |s| && AttrAt(s, pos) == Some((e, q))
    ensures q + 1 <= |s| && pos <= e <= q
    ensures AttrsFrom(s, pos) == [(s[pos..e], s[e + 2..q])] + AttrsFrom(s, q + 1)
  {
  }

  /** One step of the attribute loop where nothing matches. */
  lemma InsertAllMiss(s: string, pos: nat, m: map<string, string>)
    requires pos < |s| && AttrAt(s, pos).None?
    requires CollectsTo(s, pos, m)
    ensures CollectsTo(s, pos + 1, m)
  {
  }

  // ---------------------------------------------------------------------
  // The version attribute
  // ---------------------------------------------------------------------

  predicate AllDigits(s: string)
  {
    forall x :: 0 <= x < |s| ==> '0' <= s[x] <= '9'
  }

  function DigitsValue(s: string): nat
    requires AllDigits(s)
  {
    if |s| == 0 then 0 else 10 * DigitsValue(s[..|s| - 1]) + (s[|s| - 1] as int - '0' as int)
  }

  /** The index of the first `.`, or the length. */
  function DotAt(s: string): (d: nat)
    ensures d <= |s| && (d < |s| ==> s[d] == '.') && forall x :: 0 <= x < d ==> s[x] != '.'
  {
    if |s| == 0 || s[0] == '.' then 0 else 1 + DotAt(s[1..])
  }

  /**
   * `str::parse::<f32>` followed by `>= 2.0`, for decimal text (an
   * optional sign, digits, an optional fraction) and the special values
   * `inf`, `infinity` and `nan`.  `None` when the text does not parse.
   */
  function VersionAtLeast2(v: string): Option<bool>
  {
    var neg := |v| > 0 && v[0] == '-';
    var body := if |v| > 0 && (v[0] == '+' || v[0] == '-') then v[1..] else v;
    var word := Lower(body);
    if word == "nan" then Some(false)
    else if word == "inf" || word == "infinity" then Some(!neg)
    else
      var d := DotAt(body);
      var whole := body[..d];
      var fraction := if d < |body| then body[d + 1..] else "";
      if AllDigits(whole) && AllDigits(fraction) && |whole| + |fraction| > 0 then
        Some(!neg && RoundsToAtLeast2(whole, fraction))
      else None
  }

  function Pow10(n: nat): (r: nat)
    ensures r >= 1
  {
    if n == 0 then 1 else 10 * Pow10(n - 1)
  }

  /**
   * The decimal `w.f` parsed as an `f32` (round to nearest, ties to even)
   * is at least 2.0: its exact value is at least 2 - 2^-24, the midpoint
   * between 2.0 and the largest `f32` below it, which rounds to 2.0.
   */
  predicate RoundsToAtLeast2(w: string, f: string)
    requires AllDigits(w) && AllDigits(f)
  {
    DigitsValue(w) >= 2
    || (DigitsValue(w) == 1 && DigitsValue(f) * 0x100_0000 >= 0xFF_FFFF * Pow10(|f|))
  }

  /** The header a parsed attribute map stands for, at `dataOffset`. */
  function HeaderOf(attrs: map<string, string>, dataOffset: nat): DictionaryHeader
  {
    var get := (k: string, default: string) => if k in attrs then attrs[k] else default;
    var yes := (k: string) => k in attrs && attrs[k] == "Yes";
    var version := "GeneratedByEngineVersion";
    DictionaryHeader(
      v2 := if version in attrs && VersionAtLeast2(attrs[version]).Some?
            then VersionAtLeast2(attrs[version]).value else true,
      engineVersion := get(version, ""),
      format := get("Format", "Html"),
      keyCaseSensitive := yes("KeyCaseSensitive"),
      stripKey := yes("StripKey"),
      encryption := get("Encryption", ""),
      encoding := get("Encoding", "UTF-8"),
      creationDate := get("CreationDate", ""),
      compact := yes("Compact"),
      left2Right := yes("Left2Right"),
      dataOffset := dataOffset,
      title := get("Title", "Dictionary"),
      description := get("Description", ""))
  }

  /** The header text: a 4-byte big-endian length, then that many bytes. */
  function HeaderText(file: Bytes): Option<Bytes>
  {
    match ReadUInt(file, 0, 4)
    case Ok((len, next)) => Take(file, next, len)
    case _ => None
  }

  /** `read_header`: the header of the file, with `decode` for `String::from_utf8_lossy`. */
  function HeaderOfFile(file: Bytes, decode: Bytes -> string): (r: Outcome<DictionaryHeader>)
    ensures !r.Panic?
    ensures r.Ok? ==> r.value.dataOffset >= 8
  {
    match HeaderText(file)
    case Some(text) => Ok(HeaderOf(Attrs(decode(text)), |text| + 8))
    case None => Err(Eof)
  }

  /** `read_header` as the reader runs it. */
  method ReadHeader(file: Bytes, decode: Bytes -> string) returns (r: Outcome<DictionaryHeader>)
    ensures r == HeaderOfFile(file, decode)
  {
    var read := ReadUInt(file, 0, 4);
    if read.Ok? {
      var len := read.value.0;
      var text := Take(file, read.value.1, len);
      if text.Some? {
        var attrs := CollectAttrs(decode(text.value));
        r := Ok(HeaderOf(attrs, len + 8));
      } else {
        r := Err(Eof);
      }
    } else {
      r := Err(Eof);
    }
  }

  // ---------------------------------------------------------------------
  // Properties
  // ---------------------------------------------------------------------

  /** Every captured name is a non-empty run of word characters, every value non-empty and free of `"`. */
  lemma {:induction false} AttrsWellFormed(s: string, from: nat)
    requires from <= |s|
    ensures forall k :: 0 <= k < |AttrsFrom(s, from)| ==>
      var (n, v) := AttrsFrom(s, from)[k];
      |n| > 0 && |v| > 0 && '"' !in v && (forall x :: 0 <= x < |n| ==> IsWordChar(n[x]))
    decreases |s| - from
  {
    if from < |s| {
      match AttrAt(s, from)
      case Some((e, q)) =>
        AttrsWellFormed(s, q + 1);
        var v := s[e + 2..q];
        assert forall x :: 0 <= x < |v| ==> v[x] == s[e + 2 + x];
      case None =>
        AttrsWellFormed(s, from + 1);
    }
  }

  /** After inserting the pairs, a name maps to the value of its last pair, and other names keep their value. */
  lemma {:induction false} InsertAllLastWins(ps: seq<(string, string)>, m: map<string, string>, k: string)
    ensures k in InsertAll(ps, m) <==> k in m || exists x :: 0 <= x < |ps| && ps[x].0 == k
    ensures forall x :: 0 <= x < |ps| && ps[x].0 == k && (forall y :: x < y < |ps| ==> ps[y].0 != k) ==>
      InsertAll(ps, m)[k] == ps[x].1
    ensures (forall x :: 0 <= x < |ps| ==> ps[x].0 != k) && k in m ==> InsertAll(ps, m)[k] == m[k]
  {
    if |ps| > 0 {
      var m' := m[ps[0].0 := ps[0].1];
      InsertAllLastWins(ps[1..], m', k);
      assert forall x :: 1 <= x < |ps| ==> ps[x] == ps[1..][x - 1];
      if exists x :: 0 <= x < |ps| && ps[x].0 == k {
        var x :| 0 <= x < |ps| && ps[x].0 == k;
        if x > 0 {
          assert ps[1..][x - 1].0 == k;
        }
      }
    }
  }

  /** The value of the last pair named `k`, if any. */
  function LastValue(ps: seq<(string, string)>, k: string): (r: Option<string>)
    ensures r.None? <==> forall x :: 0 <= x < |ps| ==> ps[x].0 != k
    ensures r.Some? ==> exists x :: 0 <= x < |ps| && ps[x] == (k, r.value) && forall y :: x < y < |ps| ==> ps[y].0 != k
  {
    if |ps| == 0 then None
    else if ps[|ps| - 1].0 == k then Some(ps[|ps| - 1].1)
    else LastValue(ps[..|ps| - 1], k)
  }

  /** The header text's attribute `k`: present in the map exactly when the text has it, with the value of its last occurrence. */
  lemma AttrOfText(s: string, k: string)
    ensures k in Attrs(s) <==> LastValue(AttrsFrom(s, 0), k).Some?
    ensures k in Attrs(s) ==> Attrs(s)[k] == LastValue(AttrsFrom(s, 0), k).value
  {
    var ps := AttrsFrom(s, 0);
    InsertAllLastWins(ps, map[], k);
    if LastValue(ps, k).Some? {
      var x :| 0 <= x < |ps| && ps[x] == (k, LastValue(ps, k).value) && forall y :: x < y < |ps| ==> ps[y].0 != k;
      assert ps[x].0 == k;
    }
  }

  /**
   * The four yes/no flags of a header text: each is set exactly when the
   * last occurrence of its attribute in the text has the value "Yes"; an
   * absent attribute leaves it off.
   */
  lemma YesFlags(s: string, offset: nat)
    ensures var h := HeaderOf(Attrs(s), offset); var ps := AttrsFrom(s, 0);
      (h.stripKey <==> LastValue(ps, "StripKey") == Some("Yes"))
      && (h.keyCaseSensitive <==> LastValue(ps, "KeyCaseSensitive") == Some("Yes"))
      && (h.compact <==> LastValue(ps, "Compact") == Some("Yes"))
      && (h.left2Right <==> LastValue(ps, "Left2Right") == Some("Yes"))
  {
    AttrOfText(s, "StripKey");
    AttrOfText(s, "KeyCaseSensitive");
    AttrOfText(s, "Compact");
    AttrOfText(s, "Left2Right");
  }

  /**
   * The defaults of a header text, whatever else it holds: a Format,
   * Encoding or Title that no attribute names is "Html", "UTF-8" or
   * "Dictionary", and one that is named takes its last value; without
   * an engine version the version-2 layout is used.
   */
  lemma Defaults(s: string, offset: nat)
    ensures var h := HeaderOf(Attrs(s), offset); var ps := AttrsFrom(s, 0);
      && h.format == (if LastValue(ps, "Format").Some? then LastValue(ps, "Format").value else "Html")
      && h.encoding == (if LastValue(ps, "Encoding").Some? then LastValue(ps, "Encoding").value else "UTF-8")
      && h.title == (if LastValue(ps, "Title").Some? then LastValue(ps, "Title").value else "Dictionary")
      && (LastValue(ps, "GeneratedByEngineVersion").None? ==> h.v2 && h.engineVersion == "")
  {
    AttrOfText(s, "Format");
    AttrOfText(s, "Encoding");
    AttrOfText(s, "Title");
    AttrOfText(s, "GeneratedByEngineVersion");
  }

  /**
   * The header text is the `n` bytes after the 4-byte length `n`, and the
   * block-info section starts 8 bytes after it (past the length field and
   * the checksum); a file too short for either is an end-of-file error.
   */
  lemma HeaderLayout(file: Bytes, decode: Bytes -> string)
    ensures HeaderText(file) ==
      if |file| >= 4 && 4 + BeNat(file[..4]) <= |file| then Some(file[4..4 + BeNat(file[..4])]) else None
    ensures HeaderOfFile(file, decode).Ok? <==> HeaderText(file).Some?
    ensures HeaderOfFile(file, decode).Err? <==> HeaderText(file).None?
    ensures HeaderOfFile(file, decode).Ok? ==> HeaderOfFile(file, decode).value.dataOffset == 4 + BeNat(file[..4]) + 4
  {
    if |file| >= 4 {
      assert file[0..4] == file[..4];
      assert ReadUInt(file, 0, 4) == Ok((BeNat(file[..4]), 4));
      var len := BeNat(file[..4]);
      assert HeaderText(file) == Take(file, 4, len);
      if len == 0 {
        assert file[4..4 + len] == [];
      }
    } else {
      assert ReadUInt(file, 0, 4).Err?;
    }
  }

  lemma {:induction false} DotAfterDigits(w: string, f: string)
    requires AllDigits(w)
    ensures DotAt(w + "." + f) == |w|
  {
    if |w| > 0 {
      assert (w + "." + f)[1..] == w[1..] + "." + f;
      DotAfterDigits(w[1..], f);
    }
  }

  /**
   * A plain decimal `w.f` counts as version 2 or later exactly when its
   * value, rounded to `f32`, is at least 2.0: a whole part of 2 or more,
   * or a whole part of 1 with a fraction of at least 1 - 2^-24.
   */
  lemma DecimalVersion(w: string, f: string)
    requires |w| > 0 && AllDigits(w) && AllDigits(f)
    ensures VersionAtLeast2(w + "." + f) == Some(RoundsToAtLeast2(w, f))
    ensures DigitsValue(w) >= 2 ==> VersionAtLeast2(w + "." + f) == Some(true)
    ensures DigitsValue(w) == 0 ==> VersionAtLeast2(w + "." + f) == Some(false)
  {
    DecimalParse(w, f);
  }

  lemma DecimalParse(w: string, f: string)
    requires |w| > 0 && AllDigits(w) && AllDigits(f)
    ensures VersionAtLeast2(w + "." + f) == Some(RoundsToAtLeast2(w, f))
  {
    var v := w + "." + f;
    assert Lower(v)[0] == v[0];
    DotAfterDigits(w, f);
    assert v[..|w|] == w && v[|w| + 1..] == f;
  }

  /** `n` nines. */
  function Nines(n: nat): (r: string)
    ensures |r| == n && AllDigits(r)
  {
    if n == 0 then "" else Nines(n - 1) + "9"
  }

  lemma {:induction false} NinesValue(n: nat)
    ensures DigitsValue(Nines(n)) + 1 == Pow10(n)
  {
    if n > 0 {
      var f := Nines(n);
      assert f[..n - 1] == Nines(n - 1);
      NinesValue(n - 1);
    }
  }

  /** "1." followed by `n` nines reaches 2.0 exactly when `n` nines come closer to 1 than 2^-24. */
  lemma OneAndNines(v: string, n: nat)
    requires v == "1" + "." + Nines(n)
    ensures VersionAtLeast2(v) == Some(Pow10(n) >= 0x100_0000)
  {
    DigitsOne();
    DecimalVersion("1", Nines(n));
    NinesRound(n);
  }

  lemma DigitsOne()
    ensures AllDigits("1") && DigitsValue("1") == 1
  {
    assert "1"[..0] == "";
  }

  /** A fraction of `n` nines after a whole part of 1 rounds to 2.0 exactly when 10^n is at least 2^24. */
  lemma NinesRound(n: nat)
    ensures DigitsValue("1") == 1 ==> (RoundsToAtLeast2("1", Nines(n)) <==> Pow10(n) >= 0x100_0000)
  {
    NinesValue(n);
  }

  lemma Pow10Values()
    ensures Pow10(7) == 10_000_000 && Pow10(8) == 100_000_000
  {
    assert Pow10(2) == 100;
    assert Pow10(4) == 10_000;
    assert Pow10(6) == 1_000_000;
  }

  /**
   * `f32` rounding at the boundary: eight nines after "1." round up to
   * 2.0 (the version-2 layout), seven do not.
   */
  lemma VersionRounding()
    ensures VersionAtLeast2("1.99999999") == Some(true)
    ensures VersionAtLeast2("1.9999999") == Some(false)
  {
    Pow10Values();
    assert "1" + "." + Nines(8) == "1.99999999";
    assert "1" + "." + Nines(7) == "1.9999999";
    OneAndNines("1.99999999", 8);
    OneAndNines("1.9999999", 7);
  }

  /** Special values follow `f32`: "NaN" is below 2.0 (so the layout is the old one), text that is no number is refused. */
  lemma SpecialVersions()
    ensures VersionAtLeast2("NaN") == Some(false)
    ensures VersionAtLeast2("-inf") == Some(false)
    ensures VersionAtLeast2("") == None
  {
  }
}
