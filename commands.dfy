/** The command the session loop reads from the terminal (7z-edit.py, line 68):
    the line is stripped of surrounding whitespace, lower-cased, and compared
    with "wq", "q" and "p". */
module Commands {

  /** The characters Python's `str.strip()` removes: those for which
      `str.isspace()` holds (tab to carriage return, the four information
      separators, the space characters of Unicode and the line and paragraph
      separators). */
  predicate IsSpace(c: char) {
    || c == ' '
    || '\t' <= c <= '\r'
    || '\U{1C}' <= c <= '\U{1F}'
    || c == '\U{85}' || c == '\U{A0}' || c == '\U{1680}'
    || '\U{2000}' <= c <= '\U{200A}'
    || c == '\U{2028}' || c == '\U{2029}' || c == '\U{202F}' || c == '\U{205F}' || c == '\U{3000}'
  }

  predicate AllSpace(s: string) {
    forall i :: 0 <= i < |s| ==> IsSpace(s[i])
  }

  /** `str.lstrip()`: drops the leading whitespace. */
  function TrimLeft(s: string): string {
    if s != [] && IsSpace(s[0]) then TrimLeft(s[1..]) else s
  }

  /** `str.rstrip()`: drops the trailing whitespace. */
  function TrimRight(s: string): string {
    if s != [] && IsSpace(s[|s| - 1]) then TrimRight(s[..|s| - 1]) else s
  }

  /** `str.strip()`. */
  function Strip(s: string): string {
    TrimRight(TrimLeft(s))
  }

  /** `str.lower()` on the characters that can make up a command: the ASCII
      capitals map to their small letters, every other character is kept. */
  function LowerChar(c: char): char {
    if 'A' <= c <= 'Z' then (c as int + 32) as char else c
  }

  function Lower(s: string): string {
    if s == [] then [] else [LowerChar(s[0])] + Lower(s[1..])
  }

  /** Lower-casing maps each character on its own and keeps the length. */
  lemma {:induction false} LowerSpec(s: string)
    ensures |Lower(s)| == |s|
    ensures forall i :: 0 <= i < |s| ==> Lower(s)[i] == LowerChar(s[i])
    decreases |s|
  {
    if s != [] {
      LowerSpec(s[1..]);
    }
  }

  /** Lower-casing twice is lower-casing once. */
  lemma LowerIdempotent(s: string)
    ensures Lower(Lower(s)) == Lower(s)
  {
    LowerSpec(s);
    LowerSpec(Lower(s));
  }

  datatype Command = SaveAndExit | ExitWithoutSaving | ChangePassword | Unrecognised

  /** `input(":").strip().lower()` (line 68). */
  function Normalize(line: string): string {
    Lower(Strip(line))
  }

  /** The comparisons of lines 69, 79 and 82 applied to the normalised token. */
  function CommandOfToken(token: string): Command {
    if token == "wq" then SaveAndExit
    else if token == "q" then ExitWithoutSaving
    else if token == "p" then ChangePassword
    else Unrecognised
  }

  /** The command a terminal line stands for. Whitespace is peeled off one
      end at a time and the remaining token is compared with "wq", "q" and
      "p" a character at a time, ignoring case; `ParseCommandSpec` proves
      this is `CommandOfToken(Normalize(line))`. */
  function ParseCommand(line: string): Command
    decreases |line|
  {
    if line != [] && IsSpace(line[0]) then ParseCommand(line[1..])
    else if line != [] && IsSpace(line[|line| - 1]) then ParseCommand(line[..|line| - 1])
    else if |line| == 2 && LowerChar(line[0]) == 'w' && LowerChar(line[1]) == 'q' then SaveAndExit
    else if |line| == 1 && LowerChar(line[0]) == 'q' then ExitWithoutSaving
    else if |line| == 1 && LowerChar(line[0]) == 'p' then ChangePassword
    else Unrecognised
  }

  /** `lstrip` removes a prefix made only of whitespace, and stops at the
      first character that is not whitespace. */
  lemma {:induction false} TrimLeftSpec(s: string)
    ensures |TrimLeft(s)| <= |s| && TrimLeft(s) == s[|s| - |TrimLeft(s)|..]
    ensures AllSpace(s[..|s| - |TrimLeft(s)|])
    ensures TrimLeft(s) == [] || !IsSpace(TrimLeft(s)[0])
    decreases |s|
  {
    if s != [] && IsSpace(s[0]) {
      TrimLeftSpec(s[1..]);
      var n := |s| - |TrimLeft(s)|;
      assert s[..n] == [s[0]] + s[1..][..n - 1];
    }
  }

  /** `rstrip` removes a suffix made only of whitespace, and stops at the
      last character that is not whitespace. */
  lemma {:induction false} TrimRightSpec(s: string)
    ensures |TrimRight(s)| <= |s| && TrimRight(s) == s[..|TrimRight(s)|]
    ensures AllSpace(s[|TrimRight(s)|..])
    ensures TrimRight(s) == [] || !IsSpace(TrimRight(s)[|TrimRight(s)| - 1])
    decreases |s|
  {
    if s != [] && IsSpace(s[|s| - 1]) {
      TrimRightSpec(s[..|s| - 1]);
      var n := |TrimRight(s)|;
      assert s[n..] == s[..|s| - 1][n..] + [s[|s| - 1]];
    }
  }

  /** `strip` leaves a slice of `s` that neither starts nor ends with
      whitespace, with only whitespace on either side of it. */
  lemma StripSpec(s: string) returns (i: nat)
    ensures i + |Strip(s)| <= |s| && Strip(s) == s[i..i + |Strip(s)|]
    ensures AllSpace(s[..i]) && AllSpace(s[i + |Strip(s)|..])
    ensures Strip(s) == [] || (!IsSpace(Strip(s)[0]) && !IsSpace(Strip(s)[|Strip(s)| - 1]))
  {
    var left := TrimLeft(s);
    TrimLeftSpec(s);
    TrimRightSpec(left);
    var r := TrimRight(left);
    i := |s| - |left|;
    assert s[i..i + |r|] == r;
    assert s[i + |r|..] == left[|r|..];
  }

  lemma {:induction false} TrimLeftDropsSpaces(a: string, s: string)
    requires AllSpace(a)
    ensures TrimLeft(a + s) == TrimLeft(s)
    decreases |a|
  {
    if a == [] {
      assert a + s == s;
    } else {
      assert (a + s)[1..] == a[1..] + s;
      TrimLeftDropsSpaces(a[1..], s);
    }
  }

  lemma {:induction false} TrimRightDropsSpaces(s: string, b: string)
    requires AllSpace(b)
    ensures TrimRight(s + b) == TrimRight(s)
    decreases |b|
  {
    if b == [] {
      assert s + b == s;
    } else {
      assert (s + b)[..|s + b| - 1] == s + b[..|b| - 1];
      TrimRightDropsSpaces(s, b[..|b| - 1]);
    }
  }

  lemma {:induction false} TrimLeftAppend(s: string, b: string)
    ensures TrimLeft(s) != [] ==> TrimLeft(s + b) == TrimLeft(s) + b
    ensures TrimLeft(s) == [] ==> TrimLeft(s + b) == TrimLeft(b)
    decreases |s|
  {
    if s != [] && IsSpace(s[0]) {
      assert (s + b)[1..] == s[1..] + b;
      TrimLeftAppend(s[1..], b);
    } else if s == [] {
      assert s + b == b;
    }
  }

  /** Whitespace around a line never changes what it strips to. */
  lemma StripIgnoresPadding(a: string, t: string, b: string)
    requires AllSpace(a) && AllSpace(b)
    ensures Strip(a + t + b) == Strip(t)
  {
    assert a + t + b == a + (t + b);
    TrimLeftDropsSpaces(a, t + b);
    TrimLeftAppend(t, b);
    if TrimLeft(t) != [] {
      TrimRightDropsSpaces(TrimLeft(t), b);
    } else {
      TrimLeftSpec(b);
      assert TrimLeft(b) == [];
    }
  }

  lemma SpaceIgnoresCase(c: char)
    ensures IsSpace(LowerChar(c)) == IsSpace(c)
  {
  }

  lemma {:induction false} TrimLeftLower(s: string)
    ensures TrimLeft(Lower(s)) == Lower(TrimLeft(s))
    decreases |s|
  {
    if s != [] {
      assert Lower(s)[1..] == Lower(s[1..]);
      SpaceIgnoresCase(s[0]);
      TrimLeftLower(s[1..]);
    }
  }

  lemma {:induction false} TrimRightLower(s: string)
    ensures TrimRight(Lower(s)) == Lower(TrimRight(s))
    decreases |s|
  {
    if s != [] {
      LowerSpec(s);
      LowerSpec(s[..|s| - 1]);
      assert Lower(s)[..|s| - 1] == Lower(s[..|s| - 1]);
      SpaceIgnoresCase(s[|s| - 1]);
      TrimRightLower(s[..|s| - 1]);
    }
  }

  /** Lower-casing commutes with stripping: no letter is whitespace. */
  lemma StripLower(s: string)
    ensures Strip(Lower(s)) == Lower(Strip(s))
  {
    TrimLeftLower(s);
    TrimRightLower(TrimLeft(s));
  }

  /** A token that neither starts nor ends with whitespace is its own strip. */
  lemma StripTrimmed(s: string)
    requires s == [] || (!IsSpace(s[0]) && !IsSpace(s[|s| - 1]))
    ensures Strip(s) == s
  {
  }

  /** The comparison with a token, one lower-cased character at a time. */
  lemma LowerEqualsToken(s: string)
    ensures Lower(s) == "wq" <==> |s| == 2 && LowerChar(s[0]) == 'w' && LowerChar(s[1]) == 'q'
    ensures Lower(s) == "q" <==> |s| == 1 && LowerChar(s[0]) == 'q'
    ensures Lower(s) == "p" <==> |s| == 1 && LowerChar(s[0]) == 'p'
  {
    LowerSpec(s);
    if |s| == 2 && LowerChar(s[0]) == 'w' && LowerChar(s[1]) == 'q' {
      assert Lower(s) == "wq";
    }
  }

  /** The session reads exactly the command the script's comparisons of
      `strip().lower()` select. */
  lemma {:induction false} ParseCommandSpec(line: string)
    ensures ParseCommand(line) == CommandOfToken(Normalize(line))
    decreases |line|
  {
    if line != [] && IsSpace(line[0]) {
      assert TrimLeft(line) == TrimLeft(line[1..]);
      ParseCommandSpec(line[1..]);
    } else if line != [] && IsSpace(line[|line| - 1]) {
      var init := line[..|line| - 1];
      assert TrimLeft(line) == line;
      assert TrimLeft(init) == init by {
        if init != [] { assert init[0] == line[0]; }
      }
      assert TrimRight(line) == TrimRight(init);
      ParseCommandSpec(init);
    } else {
      StripTrimmed(line);
      LowerEqualsToken(line);
    }
  }

  /** Lines that agree once lower-cased are the same command. */
  lemma ParseIgnoresCase(s: string, t: string)
    requires Lower(s) == Lower(t)
    ensures ParseCommand(s) == ParseCommand(t)
  {
    ParseCommandSpec(s);
    ParseCommandSpec(t);
    StripLower(s);
    StripLower(t);
    LowerIdempotent(Strip(s));
    LowerIdempotent(Strip(t));
  }

  /** Lines that differ only by surrounding whitespace are the same command. */
  lemma ParseIgnoresPadding(a: string, t: string, b: string)
    requires AllSpace(a) && AllSpace(b)
    ensures ParseCommand(a + t + b) == ParseCommand(t)
  {
    ParseCommandSpec(a + t + b);
    ParseCommandSpec(t);
    StripIgnoresPadding(a, t, b);
  }
}
