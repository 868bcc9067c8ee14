/**
 The arithmetic and key handling of `src/window.rs`: where a popup goes and how
 big it is, and the line editor behind the input popup. Drawing and the
 blocking event reads are I/O; the editor is a step function over key events.
 */
module Window {
  import opened Text
  import opened Terminal

  type U16 = x: int | 0 <= x < 0x1_0000

  /** `x as u16` for a `usize`: keeps the low sixteen bits. */
  function TruncateU16(x: nat): (r: U16)
    ensures x < 0x1_0000 ==> r == x
    ensures 0x1_0000 <= x < 0x2_0000 ==> r == x - 0x1_0000
  {
    x % 0x1_0000
  }

  /** `u16::saturating_sub`. */
  function SaturatingSub(a: U16, b: U16): U16
  {
    if a >= b then a - b else 0
  }

  function Max(a: int, b: int): int
  {
    if a >= b then a else b
  }

  /** Position and size of a popup, as in the `Window` struct. */
  datatype Geometry = Geometry(x: U16, y: U16, width: U16, height: U16)

  /** The widest line in bytes, 0 when there are no lines. */
  function MaxLineWidth(lines: seq<string>): (w: nat)
    ensures forall i :: 0 <= i < |lines| ==> ByteLen(lines[i]) <= w
    ensures |lines| == 0 ==> w == 0
    ensures |lines| > 0 ==> exists i :: 0 <= i < |lines| && ByteLen(lines[i]) == w
    decreases |lines|
  {
    if |lines| == 0 then 0
    else
      var rest := MaxLineWidth(lines[1..]);
      assert forall i :: 1 <= i < |lines| ==> lines[i] == lines[1..][i - 1];
      if ByteLen(lines[0]) >= rest then ByteLen(lines[0]) else rest
  }

  /** An offset that centres a span of `size` in `total`, as the saturating arithmetic gives
      it: equal margins up to one cell when the span fits, flush left when it does not. */
  predicate Centered(total: U16, size: U16, offset: U16)
  {
    && (size <= total ==> offset + size <= total && 0 <= total - size - 2 * offset <= 1)
    && (size > total ==> offset == 0)
  }

  /** `(total.saturating_sub(size)) / 2`. */
  function CenterOffset(total: U16, size: U16): (offset: U16)
    ensures Centered(total, size, offset)
  {
    SaturatingSub(total, size) / 2
  }

  /** The popup width before the `u16` cast: four more than the widest of the title and the
      content lines. */
  predicate IsPopupWidth(w: int, title: string, lines: seq<string>)
  {
    && w >= ByteLen(title) + 4
    && (forall i :: 0 <= i < |lines| ==> w >= ByteLen(lines[i]) + 4)
    && (w == ByteLen(title) + 4 || exists i :: 0 <= i < |lines| && w == ByteLen(lines[i]) + 4)
  }

  /** The popup width before the cast: the larger of the widest line and the title, plus
      four for the borders and padding. */
  function NaturalWidth(title: string, lines: seq<string>): (w: nat)
    ensures IsPopupWidth(w, title, lines)
  {
    Max(MaxLineWidth(lines) + 4, ByteLen(title) + 4)
  }

  /** A popup of the given size before the `u16` casts, centred on the screen. */
  function Place(cols: U16, rows: U16, width: nat, height: nat): (g: Geometry)
    ensures width < 0x1_0000 ==> g.width == width
    ensures height < 0x1_0000 ==> g.height == height
    ensures Centered(cols, g.width, g.x) && Centered(rows, g.height, g.y)
  {
    var w := TruncateU16(width);
    var h := TruncateU16(height);
    Geometry(CenterOffset(cols, w), CenterOffset(rows, h), w, h)
  }

  /** The size and position `show_popup` computes for a terminal of `cols` by `rows`. */
  function PopupGeometry(cols: U16, rows: U16, title: string, content: string): (g: Geometry)
    ensures NaturalWidth(title, Lines(content)) < 0x1_0000 ==> IsPopupWidth(g.width, title, Lines(content))
    ensures |Lines(content)| + 4 < 0x1_0000 ==> g.height == |Lines(content)| + 4
    ensures Centered(cols, g.width, g.x) && Centered(rows, g.height, g.y)
  {
    var lines := Lines(content);
    Place(cols, rows, NaturalWidth(title, lines), |lines| + 4)
  }

  /** The size and position `show_input_popup` computes: at least 60 columns wide, and two
      more rows than a plain popup for the input line. */
  function InputPopupGeometry(cols: U16, rows: U16, title: string, content: string): (g: Geometry)
    ensures NaturalWidth(title, Lines(content)) < 60 ==> g.width == 60
    ensures 60 <= NaturalWidth(title, Lines(content)) < 0x1_0000 ==> IsPopupWidth(g.width, title, Lines(content))
    ensures |Lines(content)| + 6 < 0x1_0000 ==> g.height == |Lines(content)| + 6
    ensures Centered(cols, g.width, g.x) && Centered(rows, g.height, g.y)
  {
    var lines := Lines(content);
    Place(cols, rows, Max(NaturalWidth(title, lines), 60), |lines| + 6)
  }

  /** The casts wrap: a popup whose natural width is 65536 columns gets width 0. */
  lemma PopupWidthWraps(cols: U16, rows: U16, title: string)
    requires ByteLen(title) == 0x1_0000 - 4
    ensures PopupGeometry(cols, rows, title, "").width == 0
  {
    assert Lines("") == [];
  }

  /** The number of content rows is the number of newlines, plus one for an unterminated
      last line. */
  lemma PopupHeightCountsNewlines(cols: U16, rows: U16, title: string, content: string)
    requires |content| < 0x1_0000 - 5
    ensures PopupGeometry(cols, rows, title, content).height
            == Count(content, '\n') + (if |content| > 0 && content[|content| - 1] != '\n' then 1 else 0) + 4
  {
    LinesCount(content);
    assert Count(content, '\n') <= |content| by { CountBound(content, '\n'); }
  }

  lemma {:induction false} CountBound(s: string, c: char)
    ensures Count(s, c) <= |s|
    decreases |s|
  {
    if |s| > 0 {
      CountBound(s[1..], c);
    }
  }

  // ---------------------------------------------------------------------------
  // The input line editor (`handle_input`).
  // ---------------------------------------------------------------------------

  /** What `crossterm::event::read` delivers to the editor: a key event (of any kind), some
      other event, or a read error. */
  datatype InputEvent = Key(code: KeyCode, modifiers: Modifiers) | NonKey | ReadError

  /** The editor while it runs, and the three ways it ends. */
  datatype Editor = Editing(buffer: string) | Submitted(text: string) | Cancelled | Failed

  /** `window.width.saturating_sub(11)`: room for the text after the borders and "Input: ". */
  function InputCapacity(width: U16): nat
  {
    SaturatingSub(width, 11)
  }

  /** The buffer bound the editor keeps: no more characters than the capacity, and at most
      three bytes over it, since the length test counts bytes and a typed character may take
      up to four of them. */
  predicate Fits(capacity: nat, buffer: string)
  {
    |buffer| <= capacity && ByteLen(buffer) <= capacity + 3
  }

  /** An event that ends the editor. */
  predicate Ends(ev: InputEvent)
  {
    match ev
    case Key(code, modifiers) =>
      code == Enter || code == Esc || (code == Char('c') && modifiers.control)
    case NonKey => false
    case ReadError => true
  }

  /** Backspace: drops the last character, if any. */
  function Erase(buffer: string): (r: string)
    ensures |buffer| == 0 ==> r == buffer
    ensures |buffer| > 0 ==> r == buffer[..|buffer| - 1]
    ensures ByteLen(r) <= ByteLen(buffer)
  {
    if |buffer| > 0 then
      assert ByteLen(buffer[..|buffer| - 1]) <= ByteLen(buffer) by {
        ByteLenAppend(buffer[..|buffer| - 1], buffer[|buffer| - 1]);
        assert buffer[..|buffer| - 1] + [buffer[|buffer| - 1]] == buffer;
      }
      buffer[..|buffer| - 1]
    else buffer
  }

  /** A typed character: appended while the buffer's byte length is under the capacity. */
  function Type(capacity: nat, buffer: string, c: char): (r: string)
    ensures ByteLen(buffer) < capacity ==> r == buffer + [c]
    ensures ByteLen(buffer) >= capacity ==> r == buffer
    ensures r == buffer || (|r| == |buffer| + 1 && r[..|buffer|] == buffer && ByteLen(buffer) < capacity)
    ensures Fits(capacity, buffer) ==> Fits(capacity, r)
  {
    if ByteLen(buffer) < capacity then
      ByteLenAppend(buffer, c);
      assert (buffer + [c])[..|buffer|] == buffer;
      buffer + [c]
    else buffer
  }

  /** One turn of the `handle_input` loop. Editing only ever touches the end of the buffer,
      keeps it within the capacity, and only the ending events leave the editing state. */
  function Step(capacity: nat, buffer: string, ev: InputEvent): (e: Editor)
    ensures e.Editing? <==> !Ends(ev)
    ensures e.Submitted? ==> e.text == buffer
    ensures ev.Key? && ev.code == Enter ==> e == Submitted(buffer)
    ensures ev.Key? && (ev.code == Esc || (ev.code == Char('c') && ev.modifiers.control)) ==> e == Cancelled
    ensures e.Failed? <==> ev.ReadError?
    ensures e.Editing? ==>
              || e.buffer == buffer
              || (|buffer| > 0 && e.buffer == buffer[..|buffer| - 1])
              || (|e.buffer| == |buffer| + 1 && e.buffer[..|buffer|] == buffer && ByteLen(buffer) < capacity)
    ensures e.Editing? && Fits(capacity, buffer) ==> Fits(capacity, e.buffer)
  {
    match ev
    case ReadError => Failed
    case NonKey => Editing(buffer)
    case Key(code, modifiers) =>
      match code
      case Enter => Submitted(buffer)
      case Esc => Cancelled
      case Backspace => Editing(Erase(buffer))
      case Char(c) =>
        if modifiers.control && c == 'c' then Cancelled
        else Editing(Type(capacity, buffer, c))
      case _ => Editing(buffer)
  }

  /** Feeding events to the editor until it ends or the events run out. */
  function Run(capacity: nat, buffer: string, events: seq<InputEvent>): (e: Editor)
    ensures e.Editing? ==> forall i :: 0 <= i < |events| ==> !Ends(events[i])
    ensures Fits(capacity, buffer) && e.Editing? ==> Fits(capacity, e.buffer)
    ensures Fits(capacity, buffer) && e.Submitted? ==> Fits(capacity, e.text)
    decreases |events|
  {
    if |events| == 0 then Editing(buffer)
    else
      match Step(capacity, buffer, events[0])
      case Editing(b) => Run(capacity, b, events[1..])
      case other => other
  }

  /** `handle_input` over a finite stream of events: the editor outcome, and how many events
      it read. It stops at the first ending event; when the events run out first the result
      is still `Editing`. Whatever it returns respects the capacity. */
  method HandleInput(width: U16, events: seq<InputEvent>) returns (e: Editor, used: nat)
    ensures e == Run(InputCapacity(width), "", events)
    ensures used <= |events|
    ensures forall i :: 0 <= i < used - 1 ==> !Ends(events[i])
    ensures e.Editing? ==> used == |events| && Fits(InputCapacity(width), e.buffer)
    ensures !e.Editing? ==> used > 0 && Ends(events[used - 1])
    ensures e.Submitted? ==> Fits(InputCapacity(width), e.text)
  {
    var capacity := InputCapacity(width);
    var buffer := "";
    used := 0;
    while used < |events|
      invariant used <= |events|
      invariant Fits(capacity, buffer)
      invariant Run(capacity, buffer, events[used..]) == Run(capacity, "", events)
      invariant forall i :: 0 <= i < used ==> !Ends(events[i])
      decreases |events| - used
    {
      var ev := events[used];
      assert events[used..][0] == ev && events[used..][1..] == events[used + 1..];
      used := used + 1;
      var next := Step(capacity, buffer, ev);
      if !next.Editing? {
        e := next;
        return;
      }
      buffer := next.buffer;
    }
    e := Editing(buffer);
  }

  /** Backspace removes exactly the last character, and does nothing to an empty buffer. */
  lemma BackspaceRemovesLast(capacity: nat, buffer: string, modifiers: Modifiers)
    ensures |buffer| == 0 ==> Step(capacity, buffer, Key(Backspace, modifiers)) == Editing(buffer)
    ensures |buffer| > 0 ==>
              Step(capacity, buffer, Key(Backspace, modifiers)) == Editing(buffer[..|buffer| - 1])
              && buffer[..|buffer| - 1] + [buffer[|buffer| - 1]] == buffer
  {
  }

  /** Enter submits the buffer, Esc and ctrl+'c' cancel, and any other event that is not a
      typed character leaves the buffer as it is. */
  lemma EndingKeys(capacity: nat, buffer: string, modifiers: Modifiers)
    ensures Step(capacity, buffer, Key(Enter, modifiers)) == Submitted(buffer)
    ensures Step(capacity, buffer, Key(Esc, modifiers)) == Cancelled
    ensures Step(capacity, buffer, Key(Char('c'), modifiers.(control := true))) == Cancelled
    ensures Step(capacity, buffer, NonKey) == Editing(buffer)
    ensures forall code: KeyCode :: !code.Char? && code !in {Enter, Esc, Backspace} ==>
              Step(capacity, buffer, Key(code, modifiers)) == Editing(buffer)
  {
  }

  /** Only a lower-case 'c' cancels: ctrl+'C' is typed into the buffer like any character. */
  lemma CtrlUpperCIsTyped(capacity: nat, buffer: string)
    requires ByteLen(buffer) < capacity
    ensures Step(capacity, buffer, Key(Char('C'), Ctrl)) == Editing(buffer + ['C'])
  {
  }

  /** A character is typed while the buffer is shorter than the capacity and dropped once
      it is full. */
  lemma TypingStopsAtCapacity(capacity: nat, buffer: string, c: char, modifiers: Modifiers)
    requires !(modifiers.control && c == 'c')
    ensures ByteLen(buffer) < capacity ==> Step(capacity, buffer, Key(Char(c), modifiers)) == Editing(buffer + [c])
    ensures ByteLen(buffer) >= capacity ==> Step(capacity, buffer, Key(Char(c), modifiers)) == Editing(buffer)
  {
  }

  /** The key events for typing `s` without modifiers. */
  function Typing(s: string): (evs: seq<InputEvent>)
    ensures |evs| == |s|
    ensures forall i :: 0 <= i < |s| ==> evs[i] == Key(Char(s[i]), NoModifiers)
  {
    seq(|s|, i requires 0 <= i < |s| => Key(Char(s[i]), NoModifiers))
  }

  /** Typing the first character of `s` moves it into an ASCII buffer unless the buffer is full. */
  lemma TypeFirst(capacity: nat, buffer: string, s: string, last: InputEvent)
    requires IsAscii(buffer) && |s| > 0
    ensures var b := if |buffer| < capacity then buffer + [s[0]] else buffer;
            Run(capacity, buffer, Typing(s) + [last]) == Run(capacity, b, Typing(s[1..]) + [last])
  {
    var evs := Typing(s) + [last];
    assert evs[0] == Key(Char(s[0]), NoModifiers);
    assert evs[1..] == Typing(s[1..]) + [last];
    TypingStopsAtCapacity(capacity, buffer, s[0], NoModifiers);
  }

  /** Once an ASCII buffer is full, typed characters are dropped and Enter submits it. */
  lemma {:induction false} TypeWhenFull(capacity: nat, buffer: string, s: string)
    requires IsAscii(buffer) && |buffer| >= capacity
    ensures Run(capacity, buffer, Typing(s) + [Key(Enter, NoModifiers)]) == Submitted(buffer)
    decreases |s|
  {
    if |s| == 0 {
      assert Typing(s) + [Key(Enter, NoModifiers)] == [Key(Enter, NoModifiers)];
    } else {
      TypeFirst(capacity, buffer, s, Key(Enter, NoModifiers));
      TypeWhenFull(capacity, buffer, s[1..]);
    }
  }

  lemma MoveFirst(a: string, s: string)
    requires |s| > 0
    ensures (a + [s[0]]) + s[1..] == a + s
    ensures |a + [s[0]]| + |s[1..]| == |a| + |s|
  {
    assert s == [s[0]] + s[1..];
  }

  lemma AsciiMoveFirst(a: string, s: string)
    requires IsAscii(a) && IsAscii(s) && |s| > 0
    ensures IsAscii(a + [s[0]]) && IsAscii(s[1..])
  {
  }

  /** The typed text, cut at the capacity. */
  function Cut(capacity: nat, buffer: string, s: string): (r: string)
    requires |buffer| <= capacity
    ensures |r| <= capacity && buffer <= r && r <= buffer + s
    ensures |buffer| + |s| <= capacity ==> r == buffer + s
    ensures |buffer| + |s| > capacity ==> |r| == capacity
  {
    var n := if |buffer| + |s| <= capacity then |buffer| + |s| else capacity;
    assert (buffer + s)[..|buffer|] == buffer;
    (buffer + s)[..n]
  }

  lemma CutStep(capacity: nat, buffer: string, s: string)
    requires |buffer| < capacity && |s| > 0
    ensures Cut(capacity, buffer + [s[0]], s[1..]) == Cut(capacity, buffer, s)
  {
    MoveFirst(buffer, s);
  }

  /** Typing ASCII text and pressing Enter submits what was typed, cut at the capacity. */
  lemma {:induction false} TypeThenEnter(capacity: nat, buffer: string, s: string)
    requires IsAscii(buffer) && IsAscii(s) && |buffer| <= capacity
    ensures Run(capacity, buffer, Typing(s) + [Key(Enter, NoModifiers)]) == Submitted(Cut(capacity, buffer, s))
    decreases |s|
  {
    if |buffer| == capacity {
      TypeWhenFull(capacity, buffer, s);
      assert (buffer + s)[..capacity] == buffer;
    } else if |s| == 0 {
      assert Typing(s) + [Key(Enter, NoModifiers)] == [Key(Enter, NoModifiers)];
      assert buffer + s == buffer;
    } else {
      TypeFirst(capacity, buffer, s, Key(Enter, NoModifiers));
      AsciiMoveFirst(buffer, s);
      TypeThenEnter(capacity, buffer + [s[0]], s[1..]);
      CutStep(capacity, buffer, s);
    }
  }
}
