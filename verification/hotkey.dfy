/**
 * Parsing of the global-hotkey setting (`"Alt+M"`, `"Ctrl + Shift + F5"`)
 * into a shortcut: a set of modifiers and one key.
 */
module Hotkey {
  import opened Wrappers
  import opened Text

  datatype Modifier = Control | Meta | Alt | Shift

  /** The keys the parser knows: A-Z, 0-9, F1-F12, Space, Escape, Enter, Tab. */
  datatype Code = Letter(c: char) | Digit(d: nat) | Function(n: nat) | Space | Escape | Enter | Tab

  datatype Shortcut = Shortcut(modifiers: set<Modifier>, key: Code)

  predicate ValidCode(k: Code)
  {
    match k
    case Letter(c) => 'A' <= c <= 'Z'
    case Digit(d) => d < 10
    case Function(n) => 1 <= n <= 12
    case _ => true
  }

  function DigitChar(d: nat): char
    requires d < 10
  {
    ('0' as int + d) as char
  }

  /** The upper-case spelling under which the parser recognises a key. */
  function KeyName(k: Code): string
    requires ValidCode(k)
  {
    match k
    case Letter(c) => [c]
    case Digit(d) => [DigitChar(d)]
    case Function(n) => if n < 10 then ['F', DigitChar(n)] else ['F', '1', DigitChar(n - 10)]
    case Space => "SPACE"
    case Escape => "ESCAPE"
    case Enter => "ENTER"
    case Tab => "TAB"
  }

  /** F1 to F12, on an already upper-cased token. */
  function FunctionKey(u: string): Option<Code>
  {
    if |u| == 2 && u[0] == 'F' && '1' <= u[1] <= '9' then Some(Function(u[1] as int - '0' as int))
    else if |u| == 3 && u[0] == 'F' && u[1] == '1' && '0' <= u[2] <= '2' then Some(Function(10 + (u[2] as int - '0' as int)))
    else None
  }

  /** `parse_key_code`: the key named by `key`, compared in upper case. */
  function ParseKeyCode(key: string): Option<Code>
  {
    var u := Upper(key);
    if |u| == 1 && 'A' <= u[0] <= 'Z' then Some(Letter(u[0]))
    else if |u| == 1 && '0' <= u[0] <= '9' then Some(Digit(u[0] as int - '0' as int))
    else if u == "SPACE" then Some(Space)
    else if u == "ESCAPE" then Some(Escape)
    else if u == "ENTER" then Some(Enter)
    else if u == "TAB" then Some(Tab)
    else FunctionKey(u)
  }

  /** The modifier a lower-cased token names, if any. */
  function ModifierOf(lower: string): Option<Modifier>
  {
    if lower == "ctrl" || lower == "control" then Some(Control)
    else if lower == "cmd" || lower == "command" || lower == "meta" then Some(Meta)
    else if lower == "alt" || lower == "option" then Some(Alt)
    else if lower == "shift" then Some(Shift)
    else None
  }

  predicate IsModifier(part: string)
  {
    ModifierOf(Lower(part)).Some?
  }

  /** The `+`-separated parts of the setting, each trimmed. */
  function Parts(hotkey: string): seq<string>
  {
    var raw := Split(hotkey, '+');
    seq(|raw|, i requires 0 <= i < |raw| => Trim(raw[i]))
  }

  /** The modifiers named anywhere among `parts`. */
  function ModifiersIn(parts: seq<string>): set<Modifier>
  {
    set i | 0 <= i < |parts| && IsModifier(parts[i]) :: ModifierOf(Lower(parts[i])).value
  }

  /** The last part that is not a modifier name. */
  function LastKeyPart(parts: seq<string>): Option<string>
  {
    if |parts| == 0 then None
    else if !IsModifier(parts[|parts| - 1]) then Some(parts[|parts| - 1])
    else LastKeyPart(parts[..|parts| - 1])
  }

  /** The key named by the last non-modifier part, if that part names one. */
  function KeyIn(parts: seq<string>): Option<Code>
  {
    match LastKeyPart(parts)
    case None => None
    case Some(p) => ParseKeyCode(p)
  }

  /**
   * What `parse_hotkey` promises: the key comes from the last non-modifier
   * part, the modifiers are the set named by the modifier parts, and there is
   * no shortcut when that part is missing or names no key.
   */
  function HotkeyOf(hotkey: string): Option<Shortcut>
  {
    var parts := Parts(hotkey);
    match KeyIn(parts)
    case None => None
    case Some(k) => Some(Shortcut(ModifiersIn(parts), k))
  }

  /** `parse_hotkey`: folds modifier parts into a set, and lets each other part overwrite the key. */
  method ParseHotkey(hotkey: string) returns (r: Option<Shortcut>)
    ensures r == HotkeyOf(hotkey)
    ensures r.Some? ==> ValidCode(r.value.key)
  {
    var parts := Parts(hotkey);
    var modifiers: set<Modifier> := {};
    var key: Option<Code> := None;
    for i := 0 to |parts|
      invariant modifiers == ModifiersIn(parts[..i])
      invariant key == KeyIn(parts[..i])
    {
      var part := parts[i];
      assert parts[..i + 1] == parts[..i] + [part];
      ModifiersInSnoc(parts[..i], part);
      KeyInSnoc(parts[..i], part);
      var m := ModifierOf(Lower(part));
      if m.Some? {
        modifiers := modifiers + {m.value};
      } else {
        key := ParseKeyCode(part);
      }
    }
    assert parts[..|parts|] == parts;
    if key.Some? {
      r := Some(Shortcut(modifiers, key.value));
      KeyCodeCharacterised(LastKeyPart(parts).value, key.value);
    } else {
      r := None;
    }
  }

  lemma KeyInSnoc(parts: seq<string>, part: string)
    ensures KeyIn(parts + [part]) == if IsModifier(part) then KeyIn(parts) else ParseKeyCode(part)
  {
    var ps := parts + [part];
    assert ps[|ps| - 1] == part;
    assert ps[..|ps| - 1] == parts;
  }

  lemma ModifiersInSnoc(parts: seq<string>, part: string)
    ensures ModifiersIn(parts + [part]) ==
      ModifiersIn(parts) + (if IsModifier(part) then {ModifierOf(Lower(part)).value} else {})
  {
    var ps := parts + [part];
    forall m | m in ModifiersIn(ps)
      ensures m in ModifiersIn(parts) + (if IsModifier(part) then {ModifierOf(Lower(part)).value} else {})
    {
      var i :| 0 <= i < |ps| && IsModifier(ps[i]) && ModifierOf(Lower(ps[i])).value == m;
      if i < |parts| {
        assert ps[i] == parts[i];
      }
    }
    forall m | m in ModifiersIn(parts) ensures m in ModifiersIn(ps) {
      var i :| 0 <= i < |parts| && IsModifier(parts[i]) && ModifierOf(Lower(parts[i])).value == m;
      assert ps[i] == parts[i];
    }
    if IsModifier(part) {
      assert ps[|parts|] == part;
    }
  }

  /**
   * A token names a key exactly when its upper-case form is that key's
   * name: both directions of `parse_key_code`'s table.
   */
  lemma KeyCodeCharacterised(s: string, k: Code)
    ensures ParseKeyCode(s) == Some(k) <==> ValidCode(k) && Upper(s) == KeyName(k)
  {
    var u := Upper(s);
    if ValidCode(k) && u == KeyName(k) {
      match k
      case Letter(c) =>
      case Digit(d) =>
      case Function(n) =>
      case Space => assert u != "TAB" && u != "ENTER" && u != "ESCAPE";
      case Escape => assert u != "TAB" && u != "ENTER" && u != "SPACE";
      case Enter => assert u != "TAB" && u != "ESCAPE" && u != "SPACE";
      case Tab => assert u != "ESCAPE" && u != "ENTER" && u != "SPACE";
    }
    if ParseKeyCode(s) == Some(k) {
      if u == "SPACE" || u == "ESCAPE" || u == "ENTER" || u == "TAB" {
      } else if |u| == 3 && u[0] == 'F' && u[1] == '1' && '0' <= u[2] <= '2' {
        assert KeyName(k) == ['F', '1', u[2]];
      } else if |u| == 2 && u[0] == 'F' && '1' <= u[1] <= '9' {
        assert KeyName(k) == ['F', u[1]];
      } else {
        assert |u| == 1;
      }
    }
  }

  /** Every key's name, in any letter case, parses back to that key. */
  lemma KeyNameRoundTrip(k: Code)
    requires ValidCode(k)
    ensures ParseKeyCode(KeyName(k)) == Some(k)
    ensures ParseKeyCode(Lower(KeyName(k))) == Some(k)
  {
    KeyCodeCharacterised(KeyName(k), k);
    var n := KeyName(k);
    assert Upper(n) == n;
    assert Upper(Lower(n)) == n;
    KeyCodeCharacterised(Lower(KeyName(k)), k);
  }

  lemma PartsCons(a: string, rest: string)
    requires '+' !in a
    ensures Parts(a + "+" + rest) == [Trim(a)] + Parts(rest)
  {
    SplitCons(a, '+', rest);
  }

  lemma ModifiersSwap(x: string, y: string, T: seq<string>)
    ensures ModifiersIn([x, y] + T) == ModifiersIn([y, x] + T)
  {
    var P1 := [x, y] + T;
    var P2 := [y, x] + T;
    forall m ensures m in ModifiersIn(P1) ==> m in ModifiersIn(P2) {
      if m in ModifiersIn(P1) {
        var i :| 0 <= i < |P1| && IsModifier(P1[i]) && ModifierOf(Lower(P1[i])).value == m;
        var j := if i == 0 then 1 else if i == 1 then 0 else i;
        assert P2[j] == P1[i];
      }
    }
    forall m ensures m in ModifiersIn(P2) ==> m in ModifiersIn(P1) {
      if m in ModifiersIn(P2) {
        var i :| 0 <= i < |P2| && IsModifier(P2[i]) && ModifierOf(Lower(P2[i])).value == m;
        var j := if i == 0 then 1 else if i == 1 then 0 else i;
        assert P1[j] == P2[i];
      }
    }
  }

  lemma PartsOfTwo(a: string, b: string, rest: string)
    requires '+' !in a && '+' !in b
    ensures Parts(a + "+" + b + "+" + rest) == [Trim(a), Trim(b)] + Parts(rest)
  {
    assert a + "+" + b + "+" + rest == a + "+" + (b + "+" + rest);
    PartsCons(a, b + "+" + rest);
    PartsCons(b, rest);
  }

  /**
   * Modifier order does not matter: swapping two modifier tokens in front
   * of the rest of the setting gives the same shortcut.
   */
  lemma ModifierOrderIrrelevant(a: string, b: string, rest: string)
    requires '+' !in a && '+' !in b
    requires IsModifier(Trim(a)) && IsModifier(Trim(b))
    ensures HotkeyOf(a + "+" + b + "+" + rest) == HotkeyOf(b + "+" + a + "+" + rest)
  {
    var T := Parts(rest);
    PartsOfTwo(a, b, rest);
    PartsOfTwo(b, a, rest);
    LastKeyPartSkipsModifiers([Trim(a), Trim(b)], T);
    LastKeyPartSkipsModifiers([Trim(b), Trim(a)], T);
    ModifiersSwap(Trim(a), Trim(b), T);
  }

  lemma {:induction false} LastKeyPartSkipsModifiers(mods: seq<string>, rest: seq<string>)
    requires forall i :: 0 <= i < |mods| ==> IsModifier(mods[i])
    ensures LastKeyPart(mods + rest) == LastKeyPart(rest)
    decreases |rest|
  {
    if |rest| == 0 {
      assert mods + rest == mods;
      ModifiersOnly(mods);
    } else {
      var ps := mods + rest;
      assert ps[|ps| - 1] == rest[|rest| - 1];
      assert ps[..|ps| - 1] == mods + rest[..|rest| - 1];
      LastKeyPartSkipsModifiers(mods, rest[..|rest| - 1]);
    }
  }

  lemma {:induction false} ModifiersOnly(mods: seq<string>)
    requires forall i :: 0 <= i < |mods| ==> IsModifier(mods[i])
    ensures LastKeyPart(mods) == None
  {
    if |mods| > 0 {
      ModifiersOnly(mods[..|mods| - 1]);
    }
  }

  /** A setting without `+` is a single part. */
  lemma PartsSingle(a: string)
    requires '+' !in a
    ensures Parts(a) == [Trim(a)]
  {
    SplitNoSep(a, '+');
  }

  lemma AltIsModifier()
    ensures Trim("Alt") == "Alt" && ModifierOf(Lower("Alt")) == Some(Alt)
  {
    TrimOfTrimmed("Alt");
    assert Lower("Alt") == "alt";
  }

  lemma MIsKey()
    ensures Trim("M") == "M" && !IsModifier("M") && ParseKeyCode("M") == Some(Letter('M'))
  {
    TrimOfTrimmed("M");
    assert Lower("M") == "m";
    assert Upper("M") == "M";
  }

  /** The shipped default setting, `Alt+M`. */
  lemma DefaultHotkey()
    ensures HotkeyOf("Alt+M") == Some(Shortcut({Alt}, Letter('M')))
  {
    assert "Alt+M" == "Alt" + "+" + "M";
    PartsCons("Alt", "M");
    PartsSingle("M");
    AltIsModifier();
    MIsKey();
    var P := Parts("Alt+M");
    assert P == ["Alt"] + ["M"];
    KeyInSnoc(["Alt"], "M");
    assert KeyIn(P) == Some(Letter('M'));
    ModifiersInSnoc([], "Alt");
    assert [] + ["Alt"] == ["Alt"];
    assert ModifiersIn([]) == {};
    assert ModifiersIn(["Alt"]) == {Alt};
    ModifiersInSnoc(["Alt"], "M");
    assert ModifiersIn(P) == {Alt};
  }
}
