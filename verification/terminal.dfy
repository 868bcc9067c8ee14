/**
 The key codec of `src/terminal.rs`: `KeyInput` turns a logical key event
 (a key code and a modifier set) into the bytes sent to the shell, and decides
 whether the event matches a textual key-combination pattern such as
 `"ctrl+;"`. The `Terminal` wrapper around crossterm is I/O and is not modelled.
 */
module Terminal {
  import opened Wrappers
  import opened Text

  type Byte = b: int | 0 <= b < 256

  /** crossterm's `KeyCode`. `Media` and `Modifier` carry their sub-enum as an index. */
  datatype KeyCode =
    | Backspace | Enter | Left | Right | Up | Down | Home | End | PageUp | PageDown
    | Tab | BackTab | Delete | Insert | F(n: Byte) | Char(c: char) | Null | Esc
    | CapsLock | ScrollLock | NumLock | PrintScreen | Pause | Menu | KeypadBegin
    | Media(media: nat) | Modifier(modifier: nat)

  /** crossterm's `KeyModifiers` bit set, one flag per bit. */
  datatype Modifiers = Modifiers(shift: bool, control: bool, alt: bool, superKey: bool, hyper: bool, meta: bool)

  const NoModifiers := Modifiers(false, false, false, false, false, false)
  const Ctrl := NoModifiers.(control := true)
  const Alt := NoModifiers.(alt := true)

  /** A key event together with the bytes it encodes to, fixed at construction. */
  datatype KeyInput = KeyInput(code: KeyCode, modifiers: Modifiers, rawBytes: seq<Byte>)

  // ---------------------------------------------------------------------------
  // Encoding (`key_to_bytes`).
  // ---------------------------------------------------------------------------

  /** `c as u8`: a `char` cast to `u8` keeps the low eight bits of its scalar value. */
  function AsByte(c: char): Byte
  {
    (c as int) % 256
  }

  /** `(c.to_ascii_uppercase() as u8) - b'A' + 1` with wrapping `u8` arithmetic, which is what
      a release build computes. A debug build panics instead when the subtraction underflows,
      see `CtrlByteUnderflows`. */
  function CtrlByte(c: char): Byte
  {
    (AsByte(UpperChar(c)) - 'A' as int + 1) % 256
  }

  /** The ctrl subtraction goes below zero: an overflow panic in a debug build. */
  predicate CtrlByteUnderflows(c: char)
  {
    AsByte(UpperChar(c)) < 'A' as int
  }

  predicate IsAsciiLetter(c: char)
  {
    'a' <= c <= 'z' || 'A' <= c <= 'Z'
  }

  /** Key codes the encoding table has no entry for. */
  predicate Unencodable(code: KeyCode)
  {
    match code
    case F(n) => n < 1 || 12 < n
    case Char(_) => false
    case Enter => false
    case Tab => false
    case Backspace => false
    case Esc => false
    case Up => false
    case Down => false
    case Right => false
    case Left => false
    case Home => false
    case End => false
    case PageUp => false
    case PageDown => false
    case Delete => false
    case Insert => false
    case _ => true
  }

  /** The bytes a key event is forwarded to the shell as; empty means "drop the key". */
  function KeyToBytes(code: KeyCode, modifiers: Modifiers): (r: seq<Byte>)
    ensures r == [] <==> Unencodable(code)
    ensures |r| <= 5
    ensures |r| > 1 ==> r[0] == 27
  {
    match code
    case Char(c) =>
      if modifiers.control then [CtrlByte(c)]
      else if modifiers.alt then [27, AsByte(c)]
      else [AsByte(c)]
    case Enter => [13]
    case Tab => [9]
    case Backspace => [127]
    case Esc => [27]
    case Up => [27, 91, 65]
    case Down => [27, 91, 66]
    case Right => [27, 91, 67]
    case Left => [27, 91, 68]
    case Home => [27, 91, 72]
    case End => [27, 91, 70]
    case PageUp => [27, 91, 53, 126]
    case PageDown => [27, 91, 54, 126]
    case Delete => [27, 91, 51, 126]
    case Insert => [27, 91, 50, 126]
    case F(n) =>
      if 1 <= n <= 4 then [27, 79, 80 + (n - 1)]
      else if 5 <= n <= 12 then [27, 91, 49, 53 + (n - 5), 126]
      else []
    case _ => []
  }

  /** `KeyInput::new`: the raw bytes are the encoding of the code and modifiers. */
  function NewKeyInput(code: KeyCode, modifiers: Modifiers): (k: KeyInput)
    ensures k.code == code && k.modifiers == modifiers
    ensures k.rawBytes == KeyToBytes(code, modifiers)
    ensures k.rawBytes == [] <==> Unencodable(code)
    ensures |k.rawBytes| <= 5
  {
    KeyInput(code, modifiers, KeyToBytes(code, modifiers))
  }

  /** ctrl with an ASCII letter of either case sends the letter's position in the alphabet. */
  lemma CtrlLetterIsAlphabetPosition(c: char, modifiers: Modifiers)
    requires modifiers.control && IsAsciiLetter(c)
    ensures var r := KeyToBytes(Char(c), modifiers);
            |r| == 1 && 1 <= r[0] <= 26 && r[0] == LowerChar(c) as int - 'a' as int + 1
    ensures KeyToBytes(Char(c), modifiers) == KeyToBytes(Char(UpperChar(c)), modifiers)
    ensures KeyToBytes(Char(c), modifiers) == KeyToBytes(Char(LowerChar(c)), modifiers)
    ensures !CtrlByteUnderflows(c)
  {
  }

  /** With CONTROL held, ALT and SHIFT (and the other modifiers) make no difference. */
  lemma CtrlWins(c: char, modifiers: Modifiers)
    requires modifiers.control
    ensures KeyToBytes(Char(c), modifiers) == KeyToBytes(Char(c), Ctrl)
    ensures |KeyToBytes(Char(c), modifiers)| == 1
  {
  }

  /** Without CONTROL a character is sent as its byte, behind an ESC when ALT is held;
      SHIFT never changes it. */
  lemma PlainAndAltChars(c: char, modifiers: Modifiers)
    requires !modifiers.control
    ensures modifiers.alt ==> KeyToBytes(Char(c), modifiers) == [27, AsByte(c)]
    ensures !modifiers.alt ==> KeyToBytes(Char(c), modifiers) == [AsByte(c)]
    ensures KeyToBytes(Char(c), modifiers) == KeyToBytes(Char(c), modifiers.(shift := !modifiers.shift))
    ensures c as int < 256 ==> KeyToBytes(Char(c), modifiers)[|KeyToBytes(Char(c), modifiers)| - 1] == c as int
  {
  }

  /** Every key other than a character encodes the same whatever modifiers are held. */
  lemma NonCharIgnoresModifiers(code: KeyCode, m1: Modifiers, m2: Modifiers)
    requires !code.Char?
    ensures KeyToBytes(code, m1) == KeyToBytes(code, m2)
  {
  }

  /** Function keys: F1-F4 are `ESC O` plus one byte, F5-F12 are `ESC [ 1 x ~`, the rest nothing. */
  lemma FunctionKeyShapes(n: Byte, modifiers: Modifiers)
    ensures 1 <= n <= 4 ==> KeyToBytes(F(n), modifiers) == [27, 79, 79 + n]
    ensures 5 <= n <= 12 ==> KeyToBytes(F(n), modifiers) == [27, 91, 49, 48 + n, 126]
    ensures (n < 1 || 12 < n) ==> KeyToBytes(F(n), modifiers) == []
    ensures 1 <= n <= 4 ==> |KeyToBytes(F(n), modifiers)| == 3
    ensures 5 <= n <= 12 ==> |KeyToBytes(F(n), modifiers)| == 5
  {
  }

  /** The shapes of the named keys: single bytes for Enter, Tab, Backspace and Esc, three
      bytes `ESC [ x` for the arrows, Home and End, four bytes `ESC [ x ~` for the rest. */
  lemma NamedKeyShapes(modifiers: Modifiers)
    ensures KeyToBytes(Enter, modifiers) == [13]
    ensures KeyToBytes(Tab, modifiers) == [9]
    ensures KeyToBytes(Backspace, modifiers) == [127]
    ensures KeyToBytes(Esc, modifiers) == [27]
    ensures forall code :: code in {Up, Down, Right, Left, Home, End} ==>
      var r := KeyToBytes(code, modifiers); |r| == 3 && r[..2] == [27, 91]
    ensures forall code :: code in {PageUp, PageDown, Delete, Insert} ==>
      var r := KeyToBytes(code, modifiers); |r| == 4 && r[..2] == [27, 91] && r[3] == 126
  {
  }

  /** The ctrl arithmetic underflows for characters below 'A' once uppercased. A debug build
      panics on ctrl+';' and ctrl+' '; a release build sends the wrapped byte modelled here. */
  lemma CtrlPunctuationWraps()
    ensures CtrlByteUnderflows(';') && KeyToBytes(Char(';'), Ctrl) == [251]
    ensures CtrlByteUnderflows(' ') && KeyToBytes(Char(' '), Ctrl) == [224]
    ensures CtrlByteUnderflows('@') && KeyToBytes(Char('@'), Ctrl) == [0]
    ensures !CtrlByteUnderflows('A') && KeyToBytes(Char('A'), Ctrl) == [1]
  {
  }

  /** F9 to F12 come out as `ESC [ 1 9 ~`, `ESC [ 1 : ~`, `ESC [ 1 ; ~` and `ESC [ 1 < ~`. */
  lemma HighFunctionKeys()
    ensures KeyToBytes(F(9), NoModifiers) == [27, 91, 49, '9' as int, 126]
    ensures KeyToBytes(F(10), NoModifiers) == [27, 91, 49, ':' as int, 126]
    ensures KeyToBytes(F(11), NoModifiers) == [27, 91, 49, ';' as int, 126]
    ensures KeyToBytes(F(12), NoModifiers) == [27, 91, 49, '<' as int, 126]
  {
  }

  /** Concrete encodings: most are the repository's tests; ctrl+'A' and ctrl+alt+'a' follow
      from the code. */
  lemma EncodingExamples()
    ensures KeyToBytes(Char('a'), Ctrl) == [1]
    ensures KeyToBytes(Char('A'), Ctrl) == [1]
    ensures KeyToBytes(Char('c'), Ctrl) == [3]
    ensures KeyToBytes(Char('a'), Alt) == [27, 97]
    ensures KeyToBytes(Char('a'), Ctrl.(alt := true)) == [1]
    ensures KeyToBytes(Up, NoModifiers) == [27, 91, 65]
    ensures KeyToBytes(F(1), NoModifiers) == [27, 79, 80]
    ensures KeyToBytes(F(5), NoModifiers) == [27, 91, 49, 53, 126]
    ensures KeyToBytes(Delete, NoModifiers) == [27, 91, 51, 126]
  {
  }

  // ---------------------------------------------------------------------------
  // An inverse for the named-key part of the table.
  // ---------------------------------------------------------------------------

  /** Recognises the byte sequences of the non-character rows of the table. */
  function DecodeNamedKey(b: seq<Byte>): Option<KeyCode>
  {
    if b == [13] then Some(Enter)
    else if b == [9] then Some(Tab)
    else if b == [127] then Some(Backspace)
    else if b == [27] then Some(Esc)
    else if b == [27, 91, 65] then Some(Up)
    else if b == [27, 91, 66] then Some(Down)
    else if b == [27, 91, 67] then Some(Right)
    else if b == [27, 91, 68] then Some(Left)
    else if b == [27, 91, 72] then Some(Home)
    else if b == [27, 91, 70] then Some(End)
    else if b == [27, 91, 53, 126] then Some(PageUp)
    else if b == [27, 91, 54, 126] then Some(PageDown)
    else if b == [27, 91, 51, 126] then Some(Delete)
    else if b == [27, 91, 50, 126] then Some(Insert)
    else if |b| == 3 && b[0] == 27 && b[1] == 79 && 80 <= b[2] <= 83 then Some(F(b[2] - 79))
    else if |b| == 5 && b[0] == 27 && b[1] == 91 && b[2] == 49 && 53 <= b[3] <= 60 && b[4] == 126
    then Some(F(b[3] - 48))
    else None
  }

  /** Every encodable non-character key is recovered from its bytes, so no two of them share
      an encoding. */
  lemma NamedKeyRoundTrip(code: KeyCode, modifiers: Modifiers)
    requires !code.Char? && !Unencodable(code)
    ensures DecodeNamedKey(KeyToBytes(code, modifiers)) == Some(code)
  {
    if code.F? {
      if code.n <= 4 {
        assert KeyToBytes(code, modifiers) == [27, 79, 80 + (code.n - 1)];
      } else {
        assert KeyToBytes(code, modifiers) == [27, 91, 49, 53 + (code.n - 5), 126];
      }
    }
  }

  /** Whatever the decoder recognises is exactly the encoding of the key it names. */
  lemma DecodeNamedKeySound(b: seq<Byte>, modifiers: Modifiers)
    requires DecodeNamedKey(b).Some?
    ensures var code := DecodeNamedKey(b).value;
            !code.Char? && !Unencodable(code) && KeyToBytes(code, modifiers) == b
  {
    if |b| == 5 && b[0] == 27 && b[1] == 91 && b[2] == 49 && 53 <= b[3] <= 60 && b[4] == 126 {
      assert b == [27, 91, 49, b[3], 126];
    } else if |b| == 3 && b[0] == 27 && b[1] == 79 && 80 <= b[2] <= 83 {
      assert b == [27, 79, b[2]];
    }
  }

  // ---------------------------------------------------------------------------
  // Pattern matching (`matches_pattern`).
  // ---------------------------------------------------------------------------

  const ModifierNames: set<string> := {"ctrl", "alt", "shift"}

  /** The modifier set the leading tokens of a pattern denote, or `None` when one of them is
      not a modifier name. */
  function ParseModifiers(tokens: seq<string>): (r: Option<Modifiers>)
    ensures r.Some? <==> forall i :: 0 <= i < |tokens| ==> tokens[i] in ModifierNames
    ensures r.Some? ==> !r.value.superKey && !r.value.hyper && !r.value.meta
    ensures r.Some? ==> (r.value.control <==> "ctrl" in tokens)
    ensures r.Some? ==> (r.value.alt <==> "alt" in tokens)
    ensures r.Some? ==> (r.value.shift <==> "shift" in tokens)
    decreases |tokens|
  {
    if |tokens| == 0 then Some(NoModifiers)
    else
      var init := tokens[..|tokens| - 1];
      var last := tokens[|tokens| - 1];
      assert tokens == init + [last];
      match ParseModifiers(init)
      case None => None
      case Some(m) =>
        if last == "ctrl" then Some(m.(control := true))
        else if last == "alt" then Some(m.(alt := true))
        else if last == "shift" then Some(m.(shift := true))
        else None
  }

  /** The key tokens `matches_pattern` recognises: the named keys, or one single-byte
      character. Any other last token falls to the closing `false`. */
  predicate KnownKeyToken(name: string)
  {
    name in {";", "enter", "tab", "space", "esc", "backspace"} || ByteLen(name) == 1
  }

  /** Whether the (lowercased) key token of a pattern names `code`. */
  predicate KeyNameMatches(name: string, code: KeyCode)
  {
    if name == ";" then code == Char(';')
    else if name == "enter" then code == Enter
    else if name == "tab" then code == Tab
    else if name == "space" then code == Char(' ')
    else if name == "esc" then code == Esc
    else if name == "backspace" then code == Backspace
    else if ByteLen(name) == 1 then code.Char? && LowerChar(code.c) == name[0]
    else false
  }

  /** A key token that names a key is a known token, and when it holds no '+' it names a
      key the canonical pattern writer can spell. */
  lemma KeyTokenFacts(name: string, code: KeyCode)
    requires KeyNameMatches(name, code)
    ensures KnownKeyToken(name)
    ensures '+' !in name ==> KeyName(code).Some?
  {
  }

  /** `KeyInput::matches_pattern`. Only a key the pattern grammar can describe is ever
      matched. */
  predicate MatchesPattern(key: KeyInput, pattern: string)
    ensures MatchesPattern(key, pattern) ==> Describable(key)
  {
    var parts := Split(Lower(pattern), '+');
    if |parts| < 2 then false
    else
      match ParseModifiers(parts[..|parts| - 1])
      case None => false
      case Some(expected) =>
        if key.modifiers != expected then false
        else if KeyNameMatches(parts[|parts| - 1], key.code) then
          KeyTokenFacts(parts[|parts| - 1], key.code);
          true
        else false
  }

  /** The two codes a pattern's key token cannot tell apart: equal, or the same character
      up to ASCII case. */
  predicate SameKey(a: KeyCode, b: KeyCode)
  {
    a == b || (a.Char? && b.Char? && LowerChar(a.c) == LowerChar(b.c))
  }

  /** A pattern with no '+' (a key name alone, such as "esc") matches nothing, and a matched
      key never holds SUPER, HYPER or META. */
  lemma MatchNeedsModifierPart(key: KeyInput, pattern: string)
    requires MatchesPattern(key, pattern)
    ensures '+' in pattern
    ensures !key.modifiers.superKey && !key.modifiers.hyper && !key.modifiers.meta
    ensures key.modifiers.control || key.modifiers.alt || key.modifiers.shift
  {
    var parts := Split(Lower(pattern), '+');
    assert parts[..|parts| - 1][0] in ModifierNames;
    SplitSeveralIffSep(Lower(pattern), '+');
    var i :| 0 <= i < |Lower(pattern)| && Lower(pattern)[i] == '+';
    assert pattern[i] == '+';
  }

  /** Any token before the last that is not ctrl, alt or shift makes the pattern match nothing. */
  lemma UnknownModifierNeverMatches(key: KeyInput, pattern: string, j: nat)
    requires var parts := Split(Lower(pattern), '+'); j < |parts| - 1 && parts[j] !in ModifierNames
    ensures !MatchesPattern(key, pattern)
  {
    var parts := Split(Lower(pattern), '+');
    assert parts[..|parts| - 1][j] == parts[j];
  }

  /** Two keys that match the same pattern hold exactly the same modifiers and the same key,
      up to the case of a letter: modifier sets are compared for equality, not containment. */
  lemma MatchingKeysAgree(k1: KeyInput, k2: KeyInput, pattern: string)
    requires MatchesPattern(k1, pattern) && MatchesPattern(k2, pattern)
    ensures k1.modifiers == k2.modifiers
    ensures SameKey(k1.code, k2.code)
  {
  }

  /** Case does not matter in a pattern. */
  lemma MatchIgnoresPatternCase(key: KeyInput, pattern: string)
    ensures MatchesPattern(key, Upper(pattern)) == MatchesPattern(key, pattern)
    ensures MatchesPattern(key, Lower(pattern)) == MatchesPattern(key, pattern)
  {
    LowerUpper(pattern);
    LowerIdentity(Lower(pattern));
  }

  // ---------------------------------------------------------------------------
  // Canonical patterns: writing a key down and reading it back.
  // ---------------------------------------------------------------------------

  /** The modifier tokens of a canonical pattern, in the order ctrl, alt, shift. */
  function ModifierTokens(m: Modifiers): seq<string>
  {
    (if m.control then ["ctrl"] else []) + (if m.alt then ["alt"] else []) + (if m.shift then ["shift"] else [])
  }

  /** The key token a canonical pattern uses for `code`, if the pattern grammar can name it. */
  function KeyName(code: KeyCode): Option<string>
  {
    match code
    case Enter => Some("enter")
    case Tab => Some("tab")
    case Esc => Some("esc")
    case Backspace => Some("backspace")
    case Char(c) =>
      if c == ' ' then Some("space")
      else if c as int < 0x80 && c != '+' then Some([LowerChar(c)])
      else None
    case _ => None
  }

  /** Keys a pattern can describe: at least one of ctrl/alt/shift, no other modifier, and a
      key with a name. */
  predicate Describable(key: KeyInput)
  {
    && (key.modifiers.control || key.modifiers.alt || key.modifiers.shift)
    && !key.modifiers.superKey && !key.modifiers.hyper && !key.modifiers.meta
    && KeyName(key.code).Some?
  }

  /** The canonical `mod+...+key` pattern of a describable key. */
  function FormatPattern(key: KeyInput): string
    requires Describable(key)
  {
    Join(ModifierTokens(key.modifiers) + [KeyName(key.code).value], '+')
  }

  lemma ParseModifierTokens(m: Modifiers)
    requires !m.superKey && !m.hyper && !m.meta
    ensures ParseModifiers(ModifierTokens(m)) == Some(m)
  {
    var ts := ModifierTokens(m);
    assert "ctrl" in ts <==> m.control;
    assert "alt" in ts <==> m.alt;
    assert "shift" in ts <==> m.shift;
  }

  /** Every token of a canonical pattern is free of upper-case letters and of '+'. */
  lemma CanonicalTokensClean(key: KeyInput)
    requires Describable(key)
    ensures var tokens := ModifierTokens(key.modifiers) + [KeyName(key.code).value];
            forall i :: 0 <= i < |tokens| ==> NoUpper(tokens[i]) && '+' !in tokens[i]
  {
    var mods := ModifierTokens(key.modifiers);
    assert forall i :: 0 <= i < |mods| ==> mods[i] in ModifierNames;
  }

  /** The name of a key reads back as that key. */
  lemma KeyNameMatchesItself(code: KeyCode)
    requires KeyName(code).Some?
    ensures KeyNameMatches(KeyName(code).value, code)
  {
  }

  /** A describable key matches its canonical pattern. */
  lemma FormatPatternMatches(key: KeyInput)
    requires Describable(key)
    ensures MatchesPattern(key, FormatPattern(key))
  {
    var name := KeyName(key.code).value;
    var mods := ModifierTokens(key.modifiers);
    var tokens := mods + [name];
    var pattern := FormatPattern(key);
    CanonicalTokensClean(key);
    JoinNoUpper(tokens, '+');
    LowerIdentity(pattern);
    SplitJoin(tokens, '+');
    assert Split(Lower(pattern), '+') == tokens;
    assert tokens[..|tokens| - 1] == mods;
    ParseModifierTokens(key.modifiers);
    KeyNameMatchesItself(key.code);
  }

  /** A key matches the canonical pattern of a describable key exactly when it is the same
      key with the same modifiers, up to the case of a letter. */
  lemma FormatPatternDenotesKey(key: KeyInput, other: KeyInput)
    requires Describable(key)
    ensures MatchesPattern(other, FormatPattern(key)) <==>
              other.modifiers == key.modifiers && SameKey(other.code, key.code)
  {
    FormatPatternMatches(key);
    if MatchesPattern(other, FormatPattern(key)) {
      MatchingKeysAgree(other, key, FormatPattern(key));
    }
  }

  /** A pattern matches only when its last token is a key token the matcher knows: "ctrl+up"
      or "ctrl+f1" names no key and matches nothing. */
  lemma MatchedKeyTokenIsKnown(key: KeyInput, pattern: string)
    requires MatchesPattern(key, pattern)
    ensures var parts := Split(Lower(pattern), '+'); KnownKeyToken(parts[|parts| - 1])
  {
    var parts := Split(Lower(pattern), '+');
    KeyTokenFacts(parts[|parts| - 1], key.code);
  }

  /** The parts of a lower-case two-token pattern. */
  lemma SplitLowerPair(a: string, b: string)
    requires NoUpper(a) && NoUpper(b) && '+' !in a && '+' !in b
    ensures Split(Lower(a + "+" + b), '+') == [a, b]
  {
    JoinPair(a, b, '+');
    JoinNoUpper([a, b], '+');
    LowerIdentity(a + "+" + b);
    SplitJoin([a, b], '+');
  }

  /** A two-token pattern whose key token is unknown matches no key. */
  lemma UnknownKeyTokenNeverMatches(key: KeyInput, modifier: string, name: string, pattern: string)
    requires NoUpper(modifier) && NoUpper(name) && '+' !in modifier && '+' !in name
    requires !KnownKeyToken(name) && pattern == modifier + "+" + name
    ensures !MatchesPattern(key, pattern)
  {
    SplitLowerPair(modifier, name);
    if MatchesPattern(key, pattern) {
      MatchedKeyTokenIsKnown(key, pattern);
    }
  }

  lemma UnknownKeyTokenExamples(key: KeyInput)
    ensures !MatchesPattern(key, "ctrl+up")
    ensures !MatchesPattern(key, "ctrl+f1")
  {
    assert ByteLen("up") == 2 && ByteLen("f1") == 2;
    UnknownKeyTokenNeverMatches(key, "ctrl", "up", "ctrl+up");
    UnknownKeyTokenNeverMatches(key, "ctrl", "f1", "ctrl+f1");
  }

  /** A key token names the same codes up to ASCII letter case. */
  lemma KeyNameSameKey(name: string, a: KeyCode, b: KeyCode)
    requires KeyNameMatches(name, a) && SameKey(a, b)
    ensures KeyNameMatches(name, b)
  {
  }

  /** Any pattern that matches a key denotes exactly the keys that key's canonical pattern
      denotes: every accepted spelling is equivalent to the one `FormatPattern` writes. */
  lemma MatchedPatternIsCanonical(key: KeyInput, pattern: string, other: KeyInput)
    requires MatchesPattern(key, pattern)
    ensures Describable(key)
    ensures MatchesPattern(other, pattern) <==> MatchesPattern(other, FormatPattern(key))
  {
    FormatPatternDenotesKey(key, other);
    if MatchesPattern(other, pattern) {
      MatchingKeysAgree(other, key, pattern);
    }
    if other.modifiers == key.modifiers && SameKey(other.code, key.code) {
      var parts := Split(Lower(pattern), '+');
      KeyNameSameKey(parts[|parts| - 1], key.code, other.code);
    }
  }

  /** The canonical pattern of a key with one modifier, spelled out. */
  lemma FormatOneModifier(key: KeyInput, modifier: string)
    requires Describable(key)
    requires ModifierTokens(key.modifiers) == [modifier]
    ensures FormatPattern(key) == modifier + "+" + KeyName(key.code).value
  {
    assert ModifierTokens(key.modifiers) + [KeyName(key.code).value] == [modifier, KeyName(key.code).value];
    JoinPair(modifier, KeyName(key.code).value, '+');
  }

  /** A key with one modifier matches the pattern "modifier+name" for its key name. */
  lemma OneModifierMatches(key: KeyInput, modifier: string, name: string, pattern: string)
    requires Describable(key) && ModifierTokens(key.modifiers) == [modifier]
    requires KeyName(key.code) == Some(name) && pattern == modifier + "+" + name
    ensures MatchesPattern(key, pattern)
  {
    FormatOneModifier(key, modifier);
    FormatPatternMatches(key);
  }

  /** The keys the pattern "modifier+name" matches: the same single modifier and the same
      key, up to the case of a letter. */
  lemma OneModifierDenotes(key: KeyInput, modifier: string, name: string, pattern: string, other: KeyInput)
    requires Describable(key) && ModifierTokens(key.modifiers) == [modifier]
    requires KeyName(key.code) == Some(name) && pattern == modifier + "+" + name
    ensures MatchesPattern(other, pattern) <==> other.modifiers == key.modifiers && SameKey(other.code, key.code)
  {
    FormatOneModifier(key, modifier);
    FormatPatternDenotesKey(key, other);
  }

  /** ctrl+';' matches "ctrl+;" ... */
  lemma SemicolonPatternExample()
    ensures MatchesPattern(NewKeyInput(Char(';'), Ctrl), "ctrl+;")
  {
    OneModifierMatches(NewKeyInput(Char(';'), Ctrl), "ctrl", ";", "ctrl+;");
  }

  /** ... but neither "alt+;" nor "ctrl+a". */
  lemma SemicolonMismatchExamples()
    ensures !MatchesPattern(NewKeyInput(Char(';'), Ctrl), "alt+;")
    ensures !MatchesPattern(NewKeyInput(Char(';'), Ctrl), "ctrl+a")
  {
    var k := NewKeyInput(Char(';'), Ctrl);
    OneModifierDenotes(NewKeyInput(Char(';'), Alt), "alt", ";", "alt+;", k);
    OneModifierDenotes(NewKeyInput(Char('a'), Ctrl), "ctrl", "a", "ctrl+a", k);
  }

  /** Letters match case-insensitively. */
  lemma LetterCaseExample()
    ensures MatchesPattern(NewKeyInput(Char('A'), Ctrl), "ctrl+a")
  {
    OneModifierMatches(NewKeyInput(Char('A'), Ctrl), "ctrl", "a", "ctrl+a");
  }

  lemma FormatCtrlShiftC()
    ensures FormatPattern(NewKeyInput(Char('c'), Ctrl.(shift := true))) == "ctrl+shift+c"
  {
    var k := NewKeyInput(Char('c'), Ctrl.(shift := true));
    assert ModifierTokens(k.modifiers) == ["ctrl", "shift"];
    assert ModifierTokens(k.modifiers) + [KeyName(k.code).value] == ["ctrl", "shift", "c"];
    JoinTriple("ctrl", "shift", "c", '+');
    assert "ctrl" + "+" + "shift" + "+" + "c" == "ctrl+shift+c";
  }

  /** The modifier set must be equal, not a superset: ctrl+'c' does not match "ctrl+shift+c". */
  lemma ModifierEqualityExample()
    ensures MatchesPattern(NewKeyInput(Char('c'), Ctrl.(shift := true)), "ctrl+shift+c")
    ensures !MatchesPattern(NewKeyInput(Char('c'), Ctrl), "ctrl+shift+c")
  {
    var k := NewKeyInput(Char('c'), Ctrl.(shift := true));
    FormatCtrlShiftC();
    FormatPatternDenotesKey(k, k);
    FormatPatternDenotesKey(k, NewKeyInput(Char('c'), Ctrl));
  }

  /** The named key tokens enter, tab and space. */
  lemma AltEnterExample()
    ensures MatchesPattern(NewKeyInput(Enter, Alt), "alt+enter")
  {
    OneModifierMatches(NewKeyInput(Enter, Alt), "alt", "enter", "alt+enter");
  }

  lemma CtrlTabExample()
    ensures MatchesPattern(NewKeyInput(Tab, Ctrl), "ctrl+tab")
  {
    OneModifierMatches(NewKeyInput(Tab, Ctrl), "ctrl", "tab", "ctrl+tab");
  }

  lemma CtrlSpaceExample()
    ensures MatchesPattern(NewKeyInput(Char(' '), Ctrl), "ctrl+space")
  {
    OneModifierMatches(NewKeyInput(Char(' '), Ctrl), "ctrl", "space", "ctrl+space");
  }

  /** The code returns false for a pattern with no '+', so a bare "esc" does not match Esc,
      although a test in the repository expects it to. */
  lemma BareKeyPatternNeverMatches(key: KeyInput)
    ensures !MatchesPattern(key, "esc")
  {
    if MatchesPattern(key, "esc") {
      MatchNeedsModifierPart(key, "esc");
    }
  }
}
