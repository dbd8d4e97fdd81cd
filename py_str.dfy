/** Python's built-in string operations as the selection rules of the chat
    pipeline use them: str.isspace / str.strip, str.split with a one-character
    separator, str.join, str.lower (on ASCII letters), str.endswith, str(int)
    for a non-negative int, slicing s[:n], and the line iteration of
    io.StringIO, plus Count, the reference count of one character that the
    number of lines is stated by. Python strings are sequences of code points;
    so is Dafny's `string`. */
module PyStr {

  // ---------------------------------------------------------------------------
  // Whitespace and str.strip()
  // ---------------------------------------------------------------------------

  /** Python's str.isspace() on one character: the ASCII controls TAB..CR and
      FS..US, the space, NEL, NO-BREAK SPACE and the Unicode space separators
      and line/paragraph separators. */
  predicate IsSpace(c: char) {
    var n := c as int;
    (0x09 <= n <= 0x0D) || (0x1C <= n <= 0x20) || n == 0x85 || n == 0xA0
    || n == 0x1680 || (0x2000 <= n <= 0x200A) || n == 0x2028 || n == 0x2029
    || n == 0x202F || n == 0x205F || n == 0x3000
  }

  predicate AllSpace(s: string) {
    forall k :: 0 <= k < |s| ==> IsSpace(s[k])
  }

  /** str.lstrip(). */
  function TrimStart(s: string): string
  {
    if s != [] && IsSpace(s[0]) then TrimStart(s[1..]) else s
  }

  /** str.rstrip(). */
  function TrimEnd(s: string): string
  {
    if s != [] && IsSpace(s[|s| - 1]) then TrimEnd(s[..|s| - 1]) else s
  }

  /** lstrip drops the leading whitespace and nothing else. */
  lemma {:induction false} TrimStartSpec(s: string)
    ensures var r := TrimStart(s);
      && |r| <= |s| && r == s[|s| - |r|..]
      && AllSpace(s[..|s| - |r|])
      && (r == [] || !IsSpace(r[0]))
  {
    if s != [] && IsSpace(s[0]) {
      TrimStartSpec(s[1..]);
      var r := TrimStart(s);
      var u := s[..|s| - |r|];
      forall k | 0 <= k < |u| ensures IsSpace(u[k]) {
        if k > 0 { assert u[k] == s[1..][..|s| - 1 - |r|][k - 1]; }
      }
    }
  }

  /** rstrip drops the trailing whitespace and nothing else. */
  lemma {:induction false} TrimEndSpec(s: string)
    ensures var r := TrimEnd(s);
      && |r| <= |s| && r == s[..|r|]
      && AllSpace(s[|r|..])
      && (r == [] || !IsSpace(r[|r| - 1]))
  {
    if s != [] && IsSpace(s[|s| - 1]) {
      var n := |s| - 1;
      TrimEndSpec(s[..n]);
      var r := TrimEnd(s);
      var u := s[|r|..];
      forall k | 0 <= k < |u| ensures IsSpace(u[k]) {
        if k < |u| - 1 { assert u[k] == s[..n][|r|..][k]; }
      }
    }
  }

  /** str.strip() with no argument. */
  function Strip(s: string): (r: string)
  {
    TrimEnd(TrimStart(s))
  }

  /** Dropping the leading whitespace leaves s[i..] when i is where it ends. */
  lemma {:induction false} TrimStartAt(s: string, i: nat)
    requires i <= |s| && AllSpace(s[..i])
    requires i < |s| ==> !IsSpace(s[i])
    ensures TrimStart(s) == s[i..]
  {
    if i > 0 {
      assert IsSpace(s[0]) by { assert s[..i][0] == s[0]; }
      var u := s[1..][..i - 1];
      assert AllSpace(u) by {
        forall k | 0 <= k < i - 1 ensures IsSpace(u[k]) {
          assert u[k] == s[..i][k + 1];
        }
      }
      TrimStartAt(s[1..], i - 1);
      assert s[1..][i - 1..] == s[i..];
    }
  }

  /** Dropping the trailing whitespace leaves s[..j] when j is where it starts. */
  lemma {:induction false} TrimEndAt(s: string, j: nat)
    requires j <= |s| && AllSpace(s[j..])
    requires j > 0 ==> !IsSpace(s[j - 1])
    ensures TrimEnd(s) == s[..j]
    decreases |s| - j
  {
    if j < |s| {
      var n := |s| - 1;
      assert IsSpace(s[n]) by { assert s[j..][n - j] == s[n]; }
      var u := s[..n][j..];
      assert AllSpace(u) by {
        forall k | 0 <= k < n - j ensures IsSpace(u[k]) {
          assert u[k] == s[j..][k];
        }
      }
      TrimEndAt(s[..n], j);
      assert s[..n][..j] == s[..j];
    } else {
      assert s[..j] == s;
    }
  }

  lemma StripOfSpaces(s: string)
    requires AllSpace(s)
    ensures Strip(s) == []
  {
    assert s[..|s|] == s;
    TrimStartAt(s, |s|);
  }

  /** Any way of cutting `s` into whitespace, a middle that neither starts nor
      ends with whitespace, and whitespace, has Strip(s) as its middle. */
  lemma {:induction false} StripIsUnique(s: string, i: nat, j: nat)
    requires i <= j <= |s|
    requires AllSpace(s[..i]) && AllSpace(s[j..])
    requires i == j || (!IsSpace(s[i]) && !IsSpace(s[j - 1]))
    ensures Strip(s) == s[i..j]
  {
    if i == j {
      SpacesAround(s, i);
      StripOfSpaces(s);
    } else {
      StripOfMiddle(s, i, j);
    }
  }

  lemma SpacesAround(s: string, i: nat)
    requires i <= |s| && AllSpace(s[..i]) && AllSpace(s[i..])
    ensures AllSpace(s)
  {
    forall k | 0 <= k < |s| ensures IsSpace(s[k]) {
      if k < i { assert s[k] == s[..i][k]; } else { assert s[k] == s[i..][k - i]; }
    }
  }

  lemma StripOfMiddle(s: string, i: nat, j: nat)
    requires i < j <= |s|
    requires AllSpace(s[..i]) && AllSpace(s[j..])
    requires !IsSpace(s[i]) && !IsSpace(s[j - 1])
    ensures Strip(s) == s[i..j]
  {
    TrimStartAt(s, i);
    var t := s[i..];
    assert t[j - i..] == s[j..];
    assert t[j - i - 1] == s[j - 1];
    TrimEndAt(t, j - i);
    assert t[..j - i] == s[i..j];
  }

  /** A stripped string is empty exactly when the input is all whitespace, and
      otherwise neither starts nor ends with whitespace. */
  lemma StripEmptyIff(s: string)
    ensures Strip(s) == [] <==> AllSpace(s)
    ensures Strip(s) != [] ==> !IsSpace(Strip(s)[0]) && !IsSpace(Strip(s)[|Strip(s)| - 1])
  {
    var t := TrimStart(s);
    TrimStartSpec(s);
    TrimEndSpec(t);
    var r := TrimEnd(t);
    if r == [] {
      assert t[0..] == t;
      assert s[..|s|] == s;
    } else {
      assert r[0] == t[0] == s[|s| - |t|];
    }
  }

  // ---------------------------------------------------------------------------
  // str.split(sep) and sep.join(parts)
  // ---------------------------------------------------------------------------

  /** str.split(sep) for a one-character separator: every piece between two
      separators, including empty ones; "".split(",") is [""]. */
  function Split(s: string, sep: char): (parts: seq<string>)
    ensures |parts| >= 1
    ensures forall k :: 0 <= k < |parts| ==> sep !in parts[k]
  {
    if s == [] then [[]]
    else
      var rest := Split(s[1..], sep);
      if s[0] == sep then [[]] + rest
      else [[s[0]] + rest[0]] + rest[1..]
  }

  /** sep.join(parts). */
  function Join(parts: seq<string>, sep: string): string
  {
    if |parts| == 0 then []
    else if |parts| == 1 then parts[0]
    else parts[0] + sep + Join(parts[1..], sep)
  }

  /** Joining the pieces of a split with the separator gives the input back. */
  lemma {:induction false} JoinSplit(s: string, sep: char)
    ensures Join(Split(s, sep), [sep]) == s
  {
    if s != [] {
      var rest := Split(s[1..], sep);
      JoinSplit(s[1..], sep);
      if s[0] == sep {
        assert Split(s, sep) == [[]] + rest;
        assert ([[]] + rest)[1..] == rest;
        assert s == [sep] + s[1..];
      } else if |rest| == 1 {
        assert Split(s, sep) == [[s[0]] + rest[0]];
        assert s == [s[0]] + s[1..];
      } else {
        var parts := [[s[0]] + rest[0]] + rest[1..];
        assert parts[1..] == rest[1..];
        assert Join(rest, [sep]) == rest[0] + [sep] + Join(rest[1..], [sep]);
        assert s == [s[0]] + s[1..];
      }
    }
  }

  lemma {:induction false} SplitAfterPiece(a: string, t: string, sep: char)
    requires sep !in a
    ensures Split(a + t, sep) == [a + Split(t, sep)[0]] + Split(t, sep)[1..]
  {
    var st := Split(t, sep);
    if a == [] {
      assert a + t == t;
      assert a + st[0] == st[0];
      assert [st[0]] + st[1..] == st;
    } else {
      var at := a + t;
      assert at[0] == a[0] && at[0] != sep by { assert a[0] in a; }
      assert at[1..] == a[1..] + t;
      var rest := Split(a[1..] + t, sep);
      assert Split(at, sep) == [[a[0]] + rest[0]] + rest[1..];
      SplitAfterPiece(a[1..], t, sep);
      assert rest == [a[1..] + st[0]] + st[1..];
      assert [a[0]] + (a[1..] + st[0]) == a + st[0];
    }
  }

  /** Splitting pieces joined by a separator they do not contain gives the
      pieces back. */
  lemma {:induction false} SplitJoin(parts: seq<string>, sep: char)
    requires |parts| >= 1
    requires forall k :: 0 <= k < |parts| ==> sep !in parts[k]
    ensures Split(Join(parts, [sep]), sep) == parts
  {
    if |parts| == 1 {
      SplitAfterPiece(parts[0], [], sep);
      assert parts[0] + [] == parts[0];
    } else {
      var tail := Join(parts[1..], [sep]);
      SplitJoin(parts[1..], sep);
      assert Join(parts, [sep]) == parts[0] + ([sep] + tail);
      SplitAfterPiece(parts[0], [sep] + tail, sep);
      assert ([sep] + tail)[1..] == tail;
      assert Split([sep] + tail, sep) == [[]] + parts[1..];
      assert parts[0] + [] == parts[0];
    }
  }

  // ---------------------------------------------------------------------------
  // str.lower() on ASCII letters, str.endswith(), s[:n], and a character count
  // ---------------------------------------------------------------------------

  /** Lower-cases the ASCII letters A..Z and keeps every other character. */
  function LowerChar(c: char): char
  {
    if 'A' <= c <= 'Z' then (c as int - 'A' as int + 'a' as int) as char else c
  }

  /** str.lower() on ASCII letters, character by character. */
  function Lower(s: string): (r: string)
    ensures |r| == |s|
    ensures forall k :: 0 <= k < |s| ==> r[k] == LowerChar(s[k])
  {
    if s == [] then [] else [LowerChar(s[0])] + Lower(s[1..])
  }

  /** str.endswith(suffix): case-sensitive comparison of the last characters. */
  predicate EndsWith(s: string, suffix: string) {
    |suffix| <= |s| && s[|s| - |suffix|..] == suffix
  }

  /** s[:n] for n >= 0: the first at most n characters. */
  function Take(s: string, n: nat): (r: string)
    ensures r <= s
    ensures |r| == if |s| <= n then |s| else n
  {
    if |s| <= n then s else s[..n]
  }

  /** The number of occurrences of c in s: the reference count against which
      the number of lines, and so the row count, is stated. */
  function Count(s: string, c: char): nat
  {
    if s == [] then 0 else (if s[0] == c then 1 else 0) + Count(s[1..], c)
  }

  // ---------------------------------------------------------------------------
  // str(n) for n >= 0 and its inverse on digit strings
  // ---------------------------------------------------------------------------

  predicate IsDigit(c: char) {
    '0' <= c <= '9'
  }

  predicate AllDigits(s: string) {
    forall k :: 0 <= k < |s| ==> IsDigit(s[k])
  }

  function DigitChar(d: nat): (c: char)
    requires d < 10
    ensures IsDigit(c) && c as int - '0' as int == d
  {
    ('0' as int + d) as char
  }

  /** Decimal notation without sign or leading zeros, as str() writes it. */
  function Decimal(n: nat): (r: string)
    ensures |r| >= 1 && AllDigits(r)
    ensures r[0] == '0' ==> n == 0
  {
    if n < 10 then [DigitChar(n)] else Decimal(n / 10) + [DigitChar(n % 10)]
  }

  /** The number a string of decimal digits denotes. */
  function DigitsValue(s: string): nat
    requires AllDigits(s)
  {
    if s == [] then 0
    else DigitsValue(s[..|s| - 1]) * 10 + (s[|s| - 1] as int - '0' as int)
  }

  /** Reading back the decimal notation of n gives n. */
  lemma {:induction false} DecimalRoundTrip(n: nat)
    ensures DigitsValue(Decimal(n)) == n
  {
    if n >= 10 {
      DecimalRoundTrip(n / 10);
      var r := Decimal(n);
      assert r[..|r| - 1] == Decimal(n / 10);
    }
  }

  // ---------------------------------------------------------------------------
  // Iterating over io.StringIO(text)
  // ---------------------------------------------------------------------------

  function Concat(lines: seq<string>): string
  {
    if lines == [] then [] else lines[0] + Concat(lines[1..])
  }

  /** The lines `for line in io.StringIO(text)` yields. A StringIO created with
      its default newline='\n' ends a line at '\n' only and keeps it; a last
      line without '\n' is still yielded. */
  function Lines(text: string): seq<string>
  {
    if text == [] then []
    else
      var rest := Lines(text[1..]);
      if text[0] == '\n' || rest == [] then [[text[0]]] + rest
      else [[text[0]] + rest[0]] + rest[1..]
  }

  /** A non-empty line with no '\n' before its last character. */
  predicate IsLine(line: string)
  {
    line != [] && forall j :: 0 <= j < |line| - 1 ==> line[j] != '\n'
  }

  /** The lines put back together give the text. */
  lemma {:induction false} LinesConcat(text: string)
    ensures Concat(Lines(text)) == text
  {
    if text != [] {
      var rest := Lines(text[1..]);
      LinesConcat(text[1..]);
      assert text == [text[0]] + text[1..];
      if !(text[0] == '\n' || rest == []) {
        assert Concat(rest) == rest[0] + Concat(rest[1..]);
      }
    }
  }

  /** Every line is non-empty and holds '\n' at most at its end. */
  lemma {:induction false} LinesAreLines(text: string)
    ensures forall k :: 0 <= k < |Lines(text)| ==> IsLine(Lines(text)[k])
  {
    if text != [] {
      var rest := Lines(text[1..]);
      LinesAreLines(text[1..]);
      var lines := Lines(text);
      if text[0] == '\n' || rest == [] {
        assert lines == [[text[0]]] + rest;
        forall k | 1 <= k < |lines| ensures IsLine(lines[k]) {
          assert lines[k] == rest[k - 1];
        }
      } else {
        var first := [text[0]] + rest[0];
        assert lines == [first] + rest[1..];
        forall k | 1 <= k < |lines| ensures IsLine(lines[k]) {
          assert lines[k] == rest[k];
        }
        assert IsLine(rest[0]);
        forall j | 0 <= j < |first| - 1 ensures first[j] != '\n' {
          if j > 0 { assert first[j] == rest[0][j - 1]; }
        }
      }
    }
  }

  /** A suffix survives putting a character in front. */
  lemma EndsWithCons(c: char, s: string, suffix: string)
    requires EndsWith(s, suffix)
    ensures EndsWith([c] + s, suffix)
  {
    assert ([c] + s)[|s| + 1 - |suffix|..] == s[|s| - |suffix|..];
  }

  /** Every line but the last ends with '\n'. */
  lemma {:induction false} LinesTerminated(text: string)
    ensures forall k :: 0 <= k < |Lines(text)| - 1 ==> EndsWith(Lines(text)[k], "\n")
  {
    if text != [] {
      var rest := Lines(text[1..]);
      LinesTerminated(text[1..]);
      var lines := Lines(text);
      if text[0] == '\n' || rest == [] {
        assert lines == [[text[0]]] + rest;
        forall k | 0 <= k < |lines| - 1 ensures EndsWith(lines[k], "\n") {
          if k > 0 { assert lines[k] == rest[k - 1]; }
        }
      } else {
        var first := [text[0]] + rest[0];
        assert lines == [first] + rest[1..];
        forall k | 0 <= k < |lines| - 1 ensures EndsWith(lines[k], "\n") {
          if k > 0 {
            assert lines[k] == rest[k];
          } else {
            EndsWithCons(text[0], rest[0], "\n");
          }
        }
      }
    }
  }

  /** The number of lines is the number of '\n' characters, plus one for a
      last line that does not end in '\n'. */
  lemma {:induction false} LinesCount(text: string)
    ensures |Lines(text)| == Count(text, '\n') + (if text != [] && text[|text| - 1] != '\n' then 1 else 0)
  {
    if text != [] {
      LinesCount(text[1..]);
      if text[1..] != [] {
        assert text[|text| - 1] == text[1..][|text[1..]| - 1];
      }
    }
  }
}
