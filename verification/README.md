# chatshell key handling, hooks and popups, in Dafny

chatshell is a transparent shell wrapper. It forwards every keystroke to a shell running in a
pseudo-terminal, except for key combinations bound to hooks, and it shows popups over the
shell. This project models the three pieces of pure logic in that design and proves what they
promise:

- **The key codec** (`terminal.dfy`, module `Terminal`). `KeyInput::new` turns a key code and a
  modifier set into the bytes sent to the shell: control codes, `ESC`-prefixed ALT characters,
  and xterm `ESC [` / `ESC O` sequences. `matches_pattern` decides whether a key event matches a
  textual combination such as `"ctrl+shift+c"`.
- **The hook registry** (`hooks.dfy`, module `Hooks`). A hook binds a pattern to an action
  string (`cmd:`, `fn:`, `builtin:`). The `HookManager` keeps hooks by name. For each key it
  scans them until one matches and consumes the key.
- **Popups** (`window.dfy`, module `Window`). This covers the size and centring arithmetic of
  `show_popup` and `show_input_popup`, and the line editor behind `handle_input`. The editor is
  a step function over key events.

Two support modules hold the parts of Rust's standard library the code relies on:

- `text.dfy` (module `Text`): ASCII case mapping, `str::split` on one character and its inverse,
  the UTF-8 byte length that `str::len` returns, and `str::lines`. `Lines` takes the pieces
  between newlines, drops one '\r' from the end of each piece a newline ended, and adds no
  empty line after a final newline, as the standard library does.
- `wrappers.dfy` (module `Wrappers`): `Option`.

Choices made to keep the model faithful:

- **Character casts.** `c as u8` keeps the low eight bits of the scalar value (`AsByte`).
- **The ctrl byte.** It is `(upper(c) as u8) - b'A' + 1` computed modulo 256, which is what a
  release build produces. For characters below `'A'` once uppercased, such as `';'` and `' '`,
  that subtraction overflows, and a debug build panics. The predicate
  `Terminal.CtrlByteUnderflows` names exactly those characters.
- **F6–F12.** The formula `53 + (n - 5)` is kept as written. It sends `ESC [ 1 6 ~` through
  `ESC [ 1 < ~`. For F6 to F12 these are not xterm's codes: xterm skips 16, so F7 to F9 get
  the codes xterm gives F6 to F8, and F9 to F12 end in ':', ';' and '<' rather than digits.
- **Lengths.** `str::len` counts UTF-8 bytes (`Text.ByteLen`), not characters.
  - Popup widths are therefore byte counts.
  - The editor's "room left" test compares bytes. A buffer can end up to three bytes over its
    capacity while never holding more characters than the capacity (`Window.Fits`).
- **Scan order.** `process_key` iterates a `HashMap`, whose order is unspecified. The model
  takes the order as a parameter: any enumeration of the registered names. It proves the
  answer equals an order-free statement, "some hook would consume the key".
- **Action side effects.** Running `/bin/sh`, printing and reading the clock are replaced by
  the outcome the action reports: consumed, not consumed, or failed.
  - Whether a command can be spawned is a parameter, `spawns`.
  - A command consumes the key once it has been spawned, whatever its exit status.
- **A bare key name never matches.** A pattern must contain a `'+'`, so `"esc"` on its own
  matches nothing (`Terminal.BareKeyPatternNeverMatches`). A repository test
  (tests/integration_tests.rs:373-374) expects `"esc"` to match the Esc key. The model follows
  the code.

## Model

| member | source | states |
|---|---|---|
| Terminal.KeyToBytes | src/terminal.rs:82-119 | The encoding is empty exactly for key codes the table has no row for. It is at most five bytes long, and every multi-byte encoding starts with ESC (27). |
| Terminal.NewKeyInput | src/terminal.rs:24-30 | A key input keeps its code and modifiers, and its raw bytes are exactly `key_to_bytes` of them: empty exactly when the code has no encoding, and at most five bytes. |
| Terminal.CtrlLetterIsAlphabetPosition | src/terminal.rs:84-87 | ctrl with an ASCII letter of either case sends one byte, the letter's position in the alphabet (1..26). Upper and lower case give the same byte, and the subtraction does not underflow. |
| Terminal.CtrlWins | src/terminal.rs:83-87 | With CONTROL held, ALT, SHIFT and the other modifiers make no difference, and the encoding is a single byte. |
| Terminal.PlainAndAltChars | src/terminal.rs:89-95 | Without CONTROL, a character is sent as its byte, prefixed by ESC when ALT is held. SHIFT never changes it, and for a character below U+0100 the last byte is the character's code point. |
| Terminal.NonCharIgnoresModifiers | src/terminal.rs:96-118 | Every key other than a character encodes the same whatever modifiers are held. |
| Terminal.FunctionKeyShapes | src/terminal.rs:110-116 | F1–F4 send `ESC O` plus `79 + n` (three bytes). F5–F12 send `ESC [ 1`, `48 + n`, `~` (five bytes). Any other function key sends nothing. |
| Terminal.NamedKeyShapes | src/terminal.rs:96-109 | Enter, Tab, Backspace and Esc send 13, 9, 127 and 27. Arrows, Home and End send three bytes starting `ESC [`. PageUp, PageDown, Delete and Insert send four bytes starting `ESC [` and ending `~`. |
| Terminal.CtrlPunctuationWraps | src/terminal.rs:84-87 | ctrl+';' and ctrl+' ' underflow the ctrl subtraction; the wrapped bytes are 251 and 224. ctrl+'@' underflows too and wraps to 0, while ctrl+'A' does not and gives 1. |
| Terminal.HighFunctionKeys | src/terminal.rs:113 | F9 to F12 send the digit bytes for '9', ':', ';' and '<' after `ESC [ 1`. |
| Terminal.EncodingExamples | tests/integration_tests.rs:52-93 | The encodings the repository's tests expect hold: ctrl+'a' = [1], ctrl+'c' = [3], alt+'a' = [27, 97], Up, F1, F5 and Delete. Two more follow from the code rather than from a test: ctrl+'A' = [1], and ctrl+alt+'a' = [1] (the tests only ask that it be non-empty). |
| Terminal.NamedKeyRoundTrip | src/terminal.rs:96-117 | Every encodable non-character key is recovered from its bytes by `DecodeNamedKey`, so no two of those keys share an encoding, whatever the modifiers. |
| Terminal.DecodeNamedKeySound | src/terminal.rs:96-117 | Whatever the decoder recognises is exactly the encoding of the key it returns. |
| Terminal.ParseModifiers | src/terminal.rs:45-57 | The leading tokens parse exactly when each is ctrl, alt or shift. The resulting set holds each of CONTROL, ALT and SHIFT exactly when its token occurs, and never SUPER, HYPER or META. |
| Terminal.MatchesPattern | src/terminal.rs:36-80 | Only a key the pattern grammar can describe is ever matched: it holds at least one of ctrl/alt/shift and no other modifier, and its key has a canonical name. |
| Terminal.MatchNeedsModifierPart | src/terminal.rs:40-61 | A key that matches a pattern implies the pattern has a '+'. The key holds at least one of ctrl/alt/shift and none of the other modifiers. |
| Terminal.UnknownModifierNeverMatches | src/terminal.rs:50-57 | A token before the last that is not ctrl, alt or shift makes the pattern match no key. |
| Terminal.MatchedKeyTokenIsKnown | src/terminal.rs:63-78 | A pattern matches only when its last token is one of ;, enter, tab, space, esc, backspace or a single one-byte character. Any other token falls to the closing `false`. |
| Terminal.UnknownKeyTokenNeverMatches | src/terminal.rs:63-78 | A two-token pattern whose key token the matcher does not know matches no key. |
| Terminal.UnknownKeyTokenExamples | src/terminal.rs:63-78 | "ctrl+up" and "ctrl+f1" match no key. |
| Terminal.MatchingKeysAgree | src/terminal.rs:59-79 | Two keys matching one pattern have equal modifier sets and the same key, up to the case of a letter. Modifier sets are compared for equality, not containment. |
| Terminal.MatchIgnoresPatternCase | src/terminal.rs:37 | Uppercasing or lowercasing a pattern does not change which keys it matches. |
| Terminal.ParseModifierTokens | src/terminal.rs:45-57 | Writing a modifier set as ctrl/alt/shift tokens and parsing them back gives the same set. |
| Terminal.FormatPatternMatches | src/terminal.rs:36-80 | Every key the pattern grammar can describe matches its canonical `mod+…+key` pattern. |
| Terminal.FormatPatternDenotesKey | src/terminal.rs:36-80 | A key matches the canonical pattern of a describable key if and only if it has the same modifiers and the same key, up to a letter's case. |
| Terminal.MatchedPatternIsCanonical | src/terminal.rs:36-80 | Any pattern that matches a key matches exactly the same keys as that key's canonical pattern. Every accepted spelling is equivalent to the canonical one. |
| Terminal.OneModifierDenotes | src/terminal.rs:36-80 | The keys `"modifier+name"` matches are exactly those with that single modifier and that key. |
| Terminal.SemicolonPatternExample | src/terminal.rs:209-211 | ctrl+';' matches "ctrl+;". |
| Terminal.SemicolonMismatchExamples | src/terminal.rs:212-213 | ctrl+';' matches neither "alt+;" nor "ctrl+a". |
| Terminal.LetterCaseExample | tests/integration_tests.rs:359-361 | ctrl+'A' matches "ctrl+a". |
| Terminal.ModifierEqualityExample | src/terminal.rs:59-61 | ctrl+shift+'c' matches "ctrl+shift+c", and ctrl+'c' alone does not. |
| Terminal.AltEnterExample | tests/integration_tests.rs:367-369 | alt+Enter matches "alt+enter". |
| Terminal.CtrlTabExample | tests/integration_tests.rs:370-371 | ctrl+Tab matches "ctrl+tab". |
| Terminal.CtrlSpaceExample | tests/integration_tests.rs:376-378 | ctrl+' ' matches "ctrl+space". |
| Terminal.BareKeyPatternNeverMatches | src/terminal.rs:40-43 | The pattern "esc" matches no key, because it has fewer than two parts. |
| Text.Split | src/terminal.rs:40 | Splitting gives at least one piece, and no piece contains the separator. |
| Text.JoinSplit | src/terminal.rs:40 | Joining the pieces of a split with the separator gives the original string back. |
| Text.SplitJoin | src/terminal.rs:40 | Splitting a join of separator-free pieces gives the pieces back. |
| Text.SplitSeveralIffSep | src/terminal.rs:40-43 | A split yields two or more pieces if and only if the separator occurs. |
| Text.ByteLen | src/window.rs:34-35 | The UTF-8 length lies between one and four bytes per character. It equals the character count exactly when the text is ASCII. |
| Text.Lines | src/window.rs:34 | There is at least one line exactly when the text is non-empty. |
| Text.LinesHaveNoNewline | src/window.rs:34 | No line contains a newline. |
| Text.JoinLines | src/window.rs:34 | For text without carriage returns, joining the lines with newlines gives the text back, apart from a final newline. |
| Text.LinesCount | src/window.rs:34 | There is one line per newline, plus one for an unterminated last line. |
| Hooks.ParseAction | src/hooks.rs:33-44 | A `cmd:`, `fn:` or `builtin:` prefix selects Command, Function or Builtin of the rest of the string. A string with none of them is a Command of the whole string. |
| Hooks.ParseActionString | src/hooks.rs:33-44 | Parsing inverts writing an action with its prefix. |
| Hooks.ActionStringParse | src/hooks.rs:33-44 | Writing a parsed action back gives the original string when it had a prefix, and the string behind `cmd:` when it had none. |
| Hooks.ParseActionExamples | src/hooks.rs:258-295 | "cmd:ls -la", "fn:show_help" and "builtin:clear_screen" (the action-parsing test at lines 287-295) parse to Command("ls -la"), Function("show_help") and Builtin("clear_screen"), and "echo test" (the hook-matching test's action at line 258) parses to Command("echo test"). The repository test checks only the variant; the lemma also fixes each argument. |
| Hooks.NewHook | src/hooks.rs:28-31 | A new hook keeps its config, and its action is the config's action string parsed. |
| Hooks.Matches | src/hooks.rs:46-51 | A hook matches only while it is enabled, and only keys the pattern grammar can describe. |
| Hooks.EnabledFlagGatesMatching | src/hooks.rs:46-51 | A disabled hook matches no key. An enabled hook matches exactly the keys its pattern matches. |
| Hooks.HookMatchingExample | src/hooks.rs:253-266 | An enabled hook with pattern "ctrl+;" and action "echo test" has the action Command("echo test") and matches ctrl+';'. |
| Hooks.Execute | src/hooks.rs:53-136 | Only a command whose process cannot be spawned fails, and a command never reports "not consumed". A function consumes exactly when it is show_help or show_time. A builtin consumes exactly when it is clear_screen or show_config; toggle_hook and unknown names do not. |
| Hooks.GetHook | src/hooks.rs:164-166 | The lookup finds a hook exactly when the name is registered, and returns that hook. |
| Hooks.AddHook | src/hooks.rs:155-158 | The hook is stored under its config's name, replacing any hook of that name. Every other name looks up as before, the name set grows by exactly that name, and the registry invariant is kept. |
| Hooks.RemoveHook | src/hooks.rs:160-162 | The result is true exactly when the name was present. Afterwards the name is absent and every other hook is unchanged. |
| Hooks.EnableHook | src/hooks.rs:172-179 | The result is true exactly when the name exists. Only that hook's enabled flag changes; its action and every other hook stay as they were. |
| Hooks.AddGetRemoveExample | src/hooks.rs:270-284 | After adding a hook it can be looked up, removing it reports true, and then it can no longer be looked up. |
| Hooks.FromConfigs | src/hooks.rs:147-153 | The registry built from a config list keeps every hook under its own name, with its parsed action. |
| Hooks.FromConfigsNames | src/hooks.rs:147-158 | The registered names are exactly the names of the configs. |
| Hooks.FromConfigsKeepsLast | src/hooks.rs:147-158 | Of several configs with one name, the last one wins. |
| Hooks.ProcessKey | src/hooks.rs:181-198 | The answer is true if and only if some registered hook matches the key and its action consumes it, in every iteration order. The scan stops at the first consumer and skips hooks whose action declines or fails. |
| Hooks.NoMatchPassesThrough | src/hooks.rs:181-198 | A key that no enabled hook matches is not consumed. |
| Hooks.UnmodifiedKeyPassesThrough | src/hooks.rs:181-198 | A key held with no modifier is never consumed, whatever hooks are registered. |
| Hooks.ListEnabledHooks | src/hooks.rs:204-210 | The listing holds exactly the configs of the registered hooks whose enabled flag is set, one entry per enabled hook. |
| Hooks.CreateDefaultHooks | src/hooks.rs:214-245 | There are four defaults with distinct names: help (ctrl+;, enabled), time and clear (disabled), and config_info (ctrl+shift+c, enabled). |
| Hooks.DefaultHooksBehaviour | tests/integration_tests.rs:155-179 | With the default hooks, ctrl+';' is consumed. 'x' without modifiers and ctrl+'t' (whose hook is disabled) are not consumed. |
| Window.TruncateU16 | src/window.rs:37-38 | The `as u16` cast is the identity below 65536 and subtracts 65536 just above it. |
| Window.MaxLineWidth | src/window.rs:35 | The result is at least the byte length of every line and equal to one of them, or 0 when there are no lines. |
| Window.CenterOffset | src/window.rs:42-43 | A span that fits gets equal margins up to one cell, and a span wider than the screen is placed at 0. |
| Window.NaturalWidth | src/window.rs:35-37 | The uncast width is four more than the widest of the title and the lines, and no narrower than either. |
| Window.PopupGeometry | src/window.rs:32-43 | The width is a popup width for the title and lines, and the height is the line count plus 4, whenever these fit in 16 bits. The popup is centred on both axes. |
| Window.InputPopupGeometry | src/window.rs:61-72 | The width is 60 when the natural width is below 60, and the natural width otherwise (when it fits in 16 bits). The height is the line count plus 6, and the popup is centred. |
| Window.PopupWidthWraps | src/window.rs:37 | A natural width of exactly 65536 wraps to a popup width of 0. |
| Window.PopupHeightCountsNewlines | src/window.rs:34-38 | For short content, the height is the number of newlines, plus one for an unterminated last line, plus 4. |
| Window.Step | src/window.rs:299-331 | Only Enter, Esc, ctrl+'c' and a read error end the editor. Enter submits the buffer as it is, Esc and ctrl+'c' cancel, and a read error fails. Any other event edits only the end of the buffer: it leaves it alone, drops its last character, or appends one character while there is room. The capacity bound is kept. |
| Window.Run | src/window.rs:299-332 | An editor still running has seen no ending event. Its buffer, and any submitted text, stay within the capacity. |
| Window.HandleInput | src/window.rs:287-333 | The loop agrees with running the step function from an empty buffer, with capacity `width ⊖ 11`. It stops right after the first ending event, and whatever it returns respects the capacity. |
| Window.BackspaceRemovesLast | src/window.rs:309-314 | Backspace on an empty buffer leaves it unchanged; otherwise it removes exactly the last character. |
| Window.EndingKeys | src/window.rs:301-330 | Enter submits the buffer, and Esc and ctrl+'c' cancel, whatever else is held. A non-key event or any other non-character key leaves the buffer unchanged. |
| Window.CtrlUpperCIsTyped | src/window.rs:317-326 | Only a lower-case 'c' cancels: ctrl+'C' is typed like any character. |
| Window.TypingStopsAtCapacity | src/window.rs:322-326 | A character is appended while the buffer's byte length is below the capacity, and dropped once it is not. |
| Window.TypeThenEnter | src/window.rs:301-326 | Typing ASCII text and pressing Enter submits the buffer followed by the typed text, cut at the capacity. |

## Left out

- `src/pty.rs` (fork, exec, window-size ioctl, signals) is operating-system process plumbing and is not part of this model.
- The `Terminal` struct in src/terminal.rs (raw mode, alternate screen, event reads) only wraps I/O.
- `KeyInput::from_event` is not modelled. It only forwards a crossterm event's code and modifiers to `KeyInput::new`, which is modelled.
- Drawing is I/O and is left out: `draw_window`, `draw_input_window`, `clear_window`, `redraw_input_line` and the cursor positioning in `handle_input`. Errors from writing to the terminal are not modelled; only a failing event read is (`ReadError`).
- `wait_for_close` is a loop that reads events until Esc and has no result; it is left out.
- `HookManager::list_hooks` and `get_hook_mut` are left out. They only expose the map (`GetHook` covers lookup).
- What hook actions print, the `/bin/sh` child process and the clock are side effects. Only the outcome they report is modelled.
- `process_key` always returns `Ok`: hook errors are reported on stderr and skipped. The model returns the boolean only.
- Terminal.MatchesPattern: both `str::to_lowercase` on the pattern and `char::to_lowercase` on the key's character are modelled by ASCII lowercasing. Letters outside ASCII therefore compare case-sensitively in the model. For example, Rust lowers the Kelvin sign in "ctrl+\u{212A}" to 'k', and the model does not.
- Terminal.KeyCode: crossterm's `Media` and `Modifier` sub-enums are carried as plain indices, since the encoder and matcher treat them all alike. The key event kind (press, repeat, release) is not represented; `handle_input` ignores it.
- `src/llm.rs`, `src/config.rs` beyond the `HookConfig` record, `src/main.rs` and the benchmark tests are not part of this model.
- Window.PopupGeometry: the width and height facts are stated for sizes below 65536. Above that, `Window.TruncateU16` and `Window.PopupWidthWraps` describe the wrap-around.
- Window.InputPopupGeometry: likewise, the width is stated only for natural widths below 65536 and the height only for line counts below 65530. Above that, the `as u16` casts wrap as `Window.TruncateU16` describes.
- Text.JoinLines: the round trip is stated only for text without '\r'. `lines()` drops a '\r' in front of each '\n', so the lines of "a\r\nb" and "a\nb" are the same.
