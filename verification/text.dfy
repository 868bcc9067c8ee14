/**
 String helpers shared by the key matcher and the popup code: ASCII case
 mapping, `str::split` on one character and its inverse, the UTF-8 byte length
 that Rust's `str::len` returns, and Rust's `str::lines`.
 */
module Text {

  /** `char::to_ascii_lowercase`. */
  function LowerChar(c: char): char
  {
    if 'A' <= c <= 'Z' then (c as int + 32) as char else c
  }

  /** `char::to_ascii_uppercase`. */
  function UpperChar(c: char): char
  {
    if 'a' <= c <= 'z' then (c as int - 32) as char else c
  }

  predicate IsUpper(c: char)
  {
    'A' <= c <= 'Z'
  }

  predicate NoUpper(s: string)
  {
    forall i :: 0 <= i < |s| ==> !IsUpper(s[i])
  }

  predicate IsAscii(s: string)
  {
    forall i :: 0 <= i < |s| ==> s[i] as int < 0x80
  }

  /** Lowercases every ASCII letter of `s` and leaves every other character alone. */
  function Lower(s: string): (r: string)
    ensures |r| == |s|
    ensures forall i :: 0 <= i < |s| ==> r[i] == LowerChar(s[i])
    ensures NoUpper(r)
  {
    seq(|s|, i requires 0 <= i < |s| => LowerChar(s[i]))
  }

  function Upper(s: string): (r: string)
    ensures |r| == |s|
    ensures forall i :: 0 <= i < |s| ==> r[i] == UpperChar(s[i])
  {
    seq(|s|, i requires 0 <= i < |s| => UpperChar(s[i]))
  }

  /** Lowercasing is the identity on text that holds no upper-case letter. */
  lemma LowerIdentity(s: string)
    requires NoUpper(s)
    ensures Lower(s) == s
  {
  }

  /** Lowercasing forgets whatever an earlier uppercasing did. */
  lemma LowerUpper(s: string)
    ensures Lower(Upper(s)) == Lower(s)
  {
    assert forall i :: 0 <= i < |s| ==> LowerChar(UpperChar(s[i])) == LowerChar(s[i]);
  }

  // ---------------------------------------------------------------------------
  // Splitting on a separator (`str::split(char)`) and joining back.
  // ---------------------------------------------------------------------------

  /** The pieces of `s` between occurrences of `sep`, as `s.split(sep)` yields them:
      always at least one piece, empty pieces kept. */
  function Split(s: string, sep: char): (parts: seq<string>)
    ensures |parts| >= 1
    ensures forall i :: 0 <= i < |parts| ==> sep !in parts[i]
    decreases |s|
  {
    if |s| == 0 then [""]
    else
      var rest := Split(s[1..], sep);
      if s[0] == sep then [""] + rest
      else [[s[0]] + rest[0]] + rest[1..]
  }

  /** The pieces separated by `sep`: the inverse of `Split`. */
  function Join(parts: seq<string>, sep: char): string
    requires |parts| >= 1
    decreases |parts|
  {
    if |parts| == 1 then parts[0] else parts[0] + [sep] + Join(parts[1..], sep)
  }

  lemma JoinPair(a: string, b: string, sep: char)
    ensures Join([a, b], sep) == a + [sep] + b
  {
    assert [a, b][1..] == [b];
  }

  lemma JoinTriple(a: string, b: string, c: string, sep: char)
    ensures Join([a, b, c], sep) == a + [sep] + b + [sep] + c
  {
    assert [a, b, c][1..] == [b, c];
    JoinPair(b, c, sep);
  }

  lemma JoinConsChar(c: char, ps: seq<string>, sep: char)
    requires |ps| >= 1
    ensures Join([[c] + ps[0]] + ps[1..], sep) == [c] + Join(ps, sep)
  {
    var qs := [[c] + ps[0]] + ps[1..];
    assert qs[1..] == ps[1..];
  }

  /** Joining the pieces of a split gives the original string back. */
  lemma {:induction false} JoinSplit(s: string, sep: char)
    ensures Join(Split(s, sep), sep) == s
    decreases |s|
  {
    if |s| > 0 {
      var rest := Split(s[1..], sep);
      JoinSplit(s[1..], sep);
      if s[0] == sep {
        assert ([""] + rest)[1..] == rest;
        assert s == [sep] + s[1..];
      } else {
        JoinConsChar(s[0], rest, sep);
        assert s == [s[0]] + s[1..];
      }
    }
  }

  lemma {:induction false} SplitNoSep(a: string, sep: char)
    requires sep !in a
    ensures Split(a, sep) == [a]
    decreases |a|
  {
    if |a| > 0 {
      assert sep !in a[1..];
      SplitNoSep(a[1..], sep);
      assert a == [a[0]] + a[1..];
    }
  }

  lemma {:induction false} SplitPrefix(a: string, t: string, sep: char)
    requires sep !in a
    ensures Split(a + [sep] + t, sep) == [a] + Split(t, sep)
    decreases |a|
  {
    var s := a + [sep] + t;
    if |a| == 0 {
      assert s == [sep] + t;
      assert s[1..] == t;
    } else {
      assert s[1..] == a[1..] + [sep] + t;
      assert sep !in a[1..];
      SplitPrefix(a[1..], t, sep);
      assert [a[0]] + a[1..] == a;
    }
  }

  /** Splitting a join of separator-free pieces gives the pieces back. */
  lemma {:induction false} SplitJoin(parts: seq<string>, sep: char)
    requires |parts| >= 1
    requires forall i :: 0 <= i < |parts| ==> sep !in parts[i]
    ensures Split(Join(parts, sep), sep) == parts
    decreases |parts|
  {
    if |parts| == 1 {
      SplitNoSep(parts[0], sep);
    } else {
      SplitJoin(parts[1..], sep);
      SplitPrefix(parts[0], Join(parts[1..], sep), sep);
      assert parts == [parts[0]] + parts[1..];
    }
  }

  /** A split yields two or more pieces exactly when the separator occurs. */
  lemma {:induction false} SplitSeveralIffSep(s: string, sep: char)
    ensures |Split(s, sep)| >= 2 <==> sep in s
    decreases |s|
  {
    if |s| > 0 {
      SplitSeveralIffSep(s[1..], sep);
      assert s == [s[0]] + s[1..];
      assert sep in s <==> s[0] == sep || sep in s[1..];
    }
  }

  /** The pieces of a join are free of upper-case letters when every piece is. */
  lemma {:induction false} JoinNoUpper(parts: seq<string>, sep: char)
    requires |parts| >= 1
    requires !IsUpper(sep)
    requires forall i :: 0 <= i < |parts| ==> NoUpper(parts[i])
    ensures NoUpper(Join(parts, sep))
    decreases |parts|
  {
    if |parts| > 1 {
      JoinNoUpper(parts[1..], sep);
    }
  }

  // ---------------------------------------------------------------------------
  // UTF-8 byte length (`str::len`).
  // ---------------------------------------------------------------------------

  /** Number of bytes UTF-8 uses for one scalar value. */
  function Utf8Width(c: char): (w: nat)
    ensures 1 <= w <= 4
    ensures w == 1 <==> c as int < 0x80
  {
    if c as int < 0x80 then 1
    else if c as int < 0x800 then 2
    else if c as int < 0x1_0000 then 3
    else 4
  }

  /** Length of `s` in UTF-8 bytes, which is what Rust's `str::len` counts. */
  function ByteLen(s: string): (n: nat)
    ensures |s| <= n <= 4 * |s|
    ensures IsAscii(s) ==> n == |s|
    ensures n == |s| ==> IsAscii(s)
    decreases |s|
  {
    if |s| == 0 then 0
    else
      assert IsAscii(s) ==> IsAscii(s[..|s| - 1]);
      assert (forall i :: 0 <= i < |s| - 1 ==> s[..|s| - 1][i] == s[i]);
      ByteLen(s[..|s| - 1]) + Utf8Width(s[|s| - 1])
  }

  lemma ByteLenAppend(s: string, c: char)
    ensures ByteLen(s + [c]) == ByteLen(s) + Utf8Width(c)
  {
    assert (s + [c])[..|s|] == s;
  }

  // ---------------------------------------------------------------------------
  // `str::lines`: the pieces between '\n's, one '\r' stripped from every piece a
  // '\n' ended, and no empty line after a final '\n'.
  // ---------------------------------------------------------------------------

  /** Number of occurrences of `c` in `s`. */
  function Count(s: string, c: char): nat
    decreases |s|
  {
    if |s| == 0 then 0 else (if s[0] == c then 1 else 0) + Count(s[1..], c)
  }

  /** A split has one piece more than the text has separators. */
  lemma {:induction false} SplitCount(s: string, sep: char)
    ensures |Split(s, sep)| == Count(s, sep) + 1
    decreases |s|
  {
    if |s| > 0 {
      SplitCount(s[1..], sep);
    }
  }

  /** The last piece of a split is empty exactly when the text is empty or ends with the
      separator. */
  lemma {:induction false} SplitLastEmpty(s: string, sep: char)
    ensures var parts := Split(s, sep); parts[|parts| - 1] == [] <==> |s| == 0 || s[|s| - 1] == sep
    decreases |s|
  {
    if |s| > 0 {
      var rest := Split(s[1..], sep);
      SplitLastEmpty(s[1..], sep);
      SplitSeveralIffSep(s[1..], sep);
      if |s| > 1 {
        assert s[1..][|s| - 2] == s[|s| - 1];
      }
    }
  }

  /** A character the text does not hold is in none of its pieces. */
  lemma {:induction false} SplitPiecesAvoid(s: string, sep: char, x: char)
    requires x !in s
    ensures forall k :: 0 <= k < |Split(s, sep)| ==> x !in Split(s, sep)[k]
    decreases |s|
  {
    if |s| > 0 {
      assert x !in s[1..] by {
        forall j | 0 <= j < |s| - 1 ensures s[1..][j] != x { assert s[1..][j] == s[j + 1]; }
      }
      SplitPiecesAvoid(s[1..], sep, x);
      assert s[0] != x;
    }
  }

  lemma JoinCons(first: string, rest: seq<string>, sep: char)
    requires |rest| >= 1
    ensures Join([first] + rest, sep) == first + [sep] + Join(rest, sep)
  {
    assert ([first] + rest)[1..] == rest;
  }

  /** Joining with one more piece at the end. */
  lemma {:induction false} JoinSnoc(parts: seq<string>, last: string, sep: char)
    requires |parts| >= 1
    ensures Join(parts + [last], sep) == Join(parts, sep) + [sep] + last
    decreases |parts|
  {
    if |parts| == 1 {
      JoinPair(parts[0], last, sep);
    } else {
      JoinSnoc(parts[1..], last, sep);
      assert (parts + [last])[1..] == parts[1..] + [last];
      JoinCons(parts[0], parts[1..] + [last], sep);
    }
  }

  function StripCarriageReturn(line: string): (r: string)
    ensures r <= line
  {
    if |line| > 0 && line[|line| - 1] == '\r' then line[..|line| - 1] else line
  }

  lemma StripNothing(line: string)
    requires '\r' !in line
    ensures StripCarriageReturn(line) == line
  {
    if |line| > 0 {
      assert line[|line| - 1] in line;
    }
  }

  /** The lines of `s` as `s.lines()` yields them: there are lines exactly when the text is
      non-empty. */
  function Lines(s: string): (ls: seq<string>)
    ensures |ls| > 0 <==> |s| > 0
  {
    var parts := Split(s, '\n');
    var last := parts[|parts| - 1];
    SplitLastEmpty(s, '\n');
    SplitSeveralIffSep(s, '\n');
    assert |s| > 0 && s[|s| - 1] == '\n' ==> '\n' in s;
    seq(|parts| - 1, k requires 0 <= k < |parts| - 1 => StripCarriageReturn(parts[k]))
      + (if last == [] then [] else [last])
  }

  /** No line holds a newline. */
  lemma LinesHaveNoNewline(s: string)
    ensures forall i :: 0 <= i < |Lines(s)| ==> '\n' !in Lines(s)[i]
  {
    var parts := Split(s, '\n');
    forall i | 0 <= i < |Lines(s)| ensures '\n' !in Lines(s)[i] {
      if i < |parts| - 1 {
        var r := StripCarriageReturn(parts[i]);
        assert Lines(s)[i] == r;
        forall j | 0 <= j < |r| ensures r[j] != '\n' {
          assert r[j] == parts[i][j];
        }
      }
    }
  }

  /** `lines()` yields one line per newline, plus one for an unterminated last line. */
  lemma LinesCount(s: string)
    ensures |Lines(s)| == Count(s, '\n') + (if |s| > 0 && s[|s| - 1] != '\n' then 1 else 0)
  {
    SplitCount(s, '\n');
    SplitLastEmpty(s, '\n');
  }

  /** Without carriage returns, the lines are the pieces, less an empty last one. */
  lemma LinesAreParts(s: string)
    requires '\r' !in s
    ensures var parts := Split(s, '\n');
            Lines(s) == parts[..|parts| - 1] + (if parts[|parts| - 1] == [] then [] else [parts[|parts| - 1]])
  {
    var parts := Split(s, '\n');
    var n := |parts|;
    SplitPiecesAvoid(s, '\n', '\r');
    var front := seq(n - 1, k requires 0 <= k < n - 1 => StripCarriageReturn(parts[k]));
    forall k | 0 <= k < n - 1 ensures front[k] == parts[k] {
      StripNothing(parts[k]);
    }
    assert front == parts[..n - 1];
  }

  /** Without carriage returns, joining the lines with '\n' gives the text back, less the
      final newline when there is one. */
  lemma JoinLines(s: string)
    requires |s| > 0 && '\r' !in s
    ensures Join(Lines(s), '\n') + (if s[|s| - 1] == '\n' then "\n" else "") == s
  {
    var parts := Split(s, '\n');
    var n := |parts|;
    LinesAreParts(s);
    SplitLastEmpty(s, '\n');
    JoinSplit(s, '\n');
    if parts[n - 1] == [] {
      assert parts == parts[..n - 1] + [[]];
      assert Lines(s) == parts[..n - 1];
      JoinSnoc(parts[..n - 1], [], '\n');
      assert Join(parts, '\n') == Join(Lines(s), '\n') + "\n";
    } else {
      assert parts == parts[..n - 1] + [parts[n - 1]];
    }
  }
}
