/** The handful of Python `str` operations the batch upload and the locale test rely on:
    `isspace`/`strip`, `splitlines`, `lower` and the decimal rendering of an `int`. */
module PyText {

  import Common

  /** Python's `str.isspace` for one character: the code points Python counts as
      whitespace, those of general category Zs or of bidirectional class WS, B or S. */
  predicate IsSpace(c: char) {
    ('\U{9}' <= c <= '\U{D}') || ('\U{1C}' <= c <= '\U{20}') || c == '\U{85}' || c == '\U{A0}'
    || c == '\U{1680}' || ('\U{2000}' <= c <= '\U{200A}') || c == '\U{2028}' || c == '\U{2029}'
    || c == '\U{202F}' || c == '\U{205F}' || c == '\U{3000}'
  }

  /** The characters `str.splitlines` breaks on (`\r\n` additionally counts as one break). */
  predicate IsLineBoundary(c: char) {
    c == '\n' || c == '\r' || c == '\U{B}' || c == '\U{C}' || ('\U{1C}' <= c <= '\U{1E}')
    || c == '\U{85}' || c == '\U{2028}' || c == '\U{2029}'
  }

  // ---------------------------------------------------------------------------
  // strip

  /** Number of whitespace characters at the front of `s`. */
  function LeadingSpaces(s: string): (n: nat)
    ensures n <= |s|
    decreases |s|
  {
    if s != [] && IsSpace(s[0]) then 1 + LeadingSpaces(s[1..]) else 0
  }

  /** `LeadingSpaces` counts the whole whitespace prefix and no more. */
  lemma {:induction false} LeadingSpacesSpec(s: string)
    ensures forall k :: 0 <= k < LeadingSpaces(s) ==> IsSpace(s[k])
    ensures LeadingSpaces(s) < |s| ==> !IsSpace(s[LeadingSpaces(s)])
    decreases |s|
  {
    if s != [] && IsSpace(s[0]) {
      LeadingSpacesSpec(s[1..]);
      forall k | 0 < k < LeadingSpaces(s) ensures IsSpace(s[k]) {
        assert s[k] == s[1..][k - 1];
      }
    }
  }

  /** Number of whitespace characters at the back of `s`. */
  function TrailingSpaces(s: string): (n: nat)
    ensures n <= |s|
    decreases |s|
  {
    if s != [] && IsSpace(s[|s| - 1]) then 1 + TrailingSpaces(s[..|s| - 1]) else 0
  }

  /** `TrailingSpaces` counts the whole whitespace suffix and no more. */
  lemma {:induction false} TrailingSpacesSpec(s: string)
    ensures forall k :: |s| - TrailingSpaces(s) <= k < |s| ==> IsSpace(s[k])
    ensures TrailingSpaces(s) < |s| ==> !IsSpace(s[|s| - 1 - TrailingSpaces(s)])
    decreases |s|
  {
    if s != [] && IsSpace(s[|s| - 1]) {
      var front := s[..|s| - 1];
      TrailingSpacesSpec(front);
      forall k | |s| - TrailingSpaces(s) <= k < |s| - 1 ensures IsSpace(s[k]) {
        assert s[k] == front[k];
      }
      if TrailingSpaces(s) < |s| {
        assert s[|s| - 1 - TrailingSpaces(s)] == front[|front| - 1 - TrailingSpaces(front)];
      }
    }
  }

  /** Python's `s.strip()`: `s` without its leading and trailing whitespace. */
  function Strip(s: string): string {
    var rest := s[LeadingSpaces(s)..];
    rest[..|rest| - TrailingSpaces(rest)]
  }

  /** `strip` keeps the longest slice of `s` that neither starts nor ends with whitespace,
      everything around it being whitespace. */
  lemma StripSlice(s: string)
    ensures LeadingSpaces(s) + |Strip(s)| <= |s|
    ensures Strip(s) == s[LeadingSpaces(s)..LeadingSpaces(s) + |Strip(s)|]
    ensures forall k :: 0 <= k < LeadingSpaces(s) ==> IsSpace(s[k])
    ensures forall k :: LeadingSpaces(s) + |Strip(s)| <= k < |s| ==> IsSpace(s[k])
    ensures Strip(s) != [] ==> !IsSpace(Strip(s)[0]) && !IsSpace(Strip(s)[|Strip(s)| - 1])
  {
    StripIsSlice(s);
    LeadingSpacesSpec(s);
    StripDropsTrailing(s);
    StripEnds(s);
  }

  lemma StripIsSlice(s: string)
    ensures LeadingSpaces(s) + |Strip(s)| <= |s|
    ensures Strip(s) == s[LeadingSpaces(s)..LeadingSpaces(s) + |Strip(s)|]
  {
    var a := LeadingSpaces(s);
    var rest := s[a..];
    assert Strip(s) == rest[..|rest| - TrailingSpaces(rest)];
  }

  lemma StripDropsTrailing(s: string)
    ensures forall k :: LeadingSpaces(s) + |Strip(s)| <= k < |s| ==> IsSpace(s[k])
  {
    var a := LeadingSpaces(s);
    var rest := s[a..];
    TrailingSpacesSpec(rest);
    assert |Strip(s)| == |rest| - TrailingSpaces(rest);
    forall k | a + |Strip(s)| <= k < |s| ensures IsSpace(s[k]) {
      assert s[k] == rest[k - a];
    }
  }

  lemma StripEnds(s: string)
    ensures Strip(s) != [] ==> !IsSpace(Strip(s)[0]) && !IsSpace(Strip(s)[|Strip(s)| - 1])
  {
    var a := LeadingSpaces(s);
    var rest := s[a..];
    var n := TrailingSpaces(rest);
    var r := rest[..|rest| - n];
    assert Strip(s) == r;
    if r != [] {
      LeadingSpacesSpec(s);
      TrailingSpacesSpec(rest);
      assert r[0] == s[a];
      assert r[|r| - 1] == rest[|rest| - 1 - n];
    }
  }

  /** A line is blank when it is made of whitespace only. */
  predicate IsBlank(s: string) {
    forall k :: 0 <= k < |s| ==> IsSpace(s[k])
  }

  /** `strip` yields the empty string exactly for blank lines. */
  lemma StripEmptyIffBlank(s: string)
    ensures Strip(s) == [] <==> IsBlank(s)
  {
    StripSlice(s);
    if Strip(s) != [] {
      assert !IsSpace(s[LeadingSpaces(s)]);
    }
  }

  /** A string that neither starts nor ends with whitespace is left as it is. */
  lemma StripUnchanged(s: string)
    requires s != [] && !IsSpace(s[0]) && !IsSpace(s[|s| - 1])
    ensures Strip(s) == s
  {
    assert LeadingSpaces(s) == 0 && s[0..] == s;
    assert TrailingSpaces(s) == 0 && s[..|s|] == s;
  }

  /** Stripping twice is the same as stripping once. */
  lemma StripIdempotent(s: string)
    ensures Strip(Strip(s)) == Strip(s)
  {
    StripSlice(s);
    if Strip(s) != [] {
      StripUnchanged(Strip(s));
    }
  }

  // ---------------------------------------------------------------------------
  // splitlines

  /** A line as produced by `splitlines`: it holds no line boundary. */
  predicate NoBoundary(l: string) {
    forall k :: 0 <= k < |l| ==> !IsLineBoundary(l[k])
  }

  /** Index of the first line boundary in `s`, or `|s|` when there is none. */
  function LineLength(s: string): (n: nat)
    ensures n <= |s|
    decreases |s|
  {
    if s == [] || IsLineBoundary(s[0]) then 0 else 1 + LineLength(s[1..])
  }

  /** `LineLength` stops at the first boundary: none comes before it. */
  lemma {:induction false} LineLengthSpec(s: string)
    ensures NoBoundary(s[..LineLength(s)])
    ensures LineLength(s) < |s| ==> IsLineBoundary(s[LineLength(s)])
    decreases |s|
  {
    if s != [] && !IsLineBoundary(s[0]) {
      LineLengthSpec(s[1..]);
      var m := LineLength(s[1..]);
      assert s[..1 + m] == [s[0]] + s[1..][..m];
    }
  }

  /** Length of the break that starts at `n`: `\r\n` is one break of two characters. */
  function BreakLength(s: string, n: nat): (k: nat)
    requires n < |s|
    ensures 1 <= k <= 2 && n + k <= |s|
  {
    if s[n] == '\r' && n + 1 < |s| && s[n + 1] == '\n' then 2 else 1
  }

  /** Python's `s.splitlines()`: the lines of `s` without their terminators; a final
      terminator does not start an extra empty line. */
  function SplitLines(s: string): seq<string>
    decreases |s|
  {
    if s == [] then []
    else
      var n := LineLength(s);
      if n == |s| then [s]
      else [s[..n]] + SplitLines(s[n + BreakLength(s, n)..])
  }

  /** No line returned by `splitlines` holds a boundary, and only `""` has no lines. */
  lemma {:induction false} SplitLinesNoBoundary(s: string)
    ensures forall j :: 0 <= j < |SplitLines(s)| ==> NoBoundary(SplitLines(s)[j])
    ensures s == [] <==> SplitLines(s) == []
    decreases |s|
  {
    if s != [] {
      var n := LineLength(s);
      LineLengthSpec(s);
      if n < |s| {
        SplitLinesNoBoundary(s[n + BreakLength(s, n)..]);
      }
    }
  }

  /** The text obtained by writing every line followed by the terminator `t`. */
  function Terminated(lines: seq<string>, t: string): string
    decreases |lines|
  {
    if lines == [] then [] else lines[0] + t + Terminated(lines[1..], t)
  }

  /** A terminator `splitlines` recognises as exactly one break. */
  predicate IsTerminator(t: string) {
    t == "\r\n" || (|t| == 1 && IsLineBoundary(t[0]))
  }

  /** What follows a terminated line never continues a `\r` into `\r\n`,
      unless the terminator itself is `\r\n`. */
  lemma {:induction false} TerminatedHead(lines: seq<string>, t: string)
    requires IsTerminator(t)
    requires forall j :: 0 <= j < |lines| ==> NoBoundary(lines[j])
    requires Terminated(lines, t) != []
    ensures Terminated(lines, t)[0] == '\n' ==> t[0] == '\n'
  {
    var s := Terminated(lines, t);
    if lines[0] == [] {
      assert s[0] == t[0];
    } else {
      assert s[0] == lines[0][0];
    }
  }

  /** `splitlines` undoes writing each line followed by one terminator: the round trip
      for every terminator it recognises, `\r\n` included. */
  lemma {:induction false} SplitTerminated(lines: seq<string>, t: string)
    requires IsTerminator(t)
    requires forall j :: 0 <= j < |lines| ==> NoBoundary(lines[j])
    ensures SplitLines(Terminated(lines, t)) == lines
    decreases |lines|
  {
    if lines != [] {
      var tail := lines[1..];
      var rest := Terminated(tail, t);
      assert Terminated(lines, t) == lines[0] + t + rest;
      if rest != [] {
        TerminatedHead(tail, t);
      }
      SplitFirstLine(lines[0], t, rest);
      SplitTerminated(tail, t);
      assert [lines[0]] + tail == lines;
    }
  }

  /** Splitting a boundary-free line, a terminator and the rest yields that line
      followed by the lines of the rest, provided the rest does not extend a lone
      `\r` terminator into `\r\n`. */
  lemma SplitFirstLine(l: string, t: string, rest: string)
    requires NoBoundary(l) && IsTerminator(t)
    requires rest != [] && rest[0] == '\n' ==> t != "\r"
    ensures SplitLines(l + t + rest) == [l] + SplitLines(rest)
  {
    var s := l + t + rest;
    assert s == l + (t + rest);
    LineLengthOfLine(l, t + rest);
    assert s[|l|] == t[0];
    if |t| == 1 && |l| + 1 < |s| {
      assert s[|l| + 1] == rest[0];
    }
    assert BreakLength(s, |l|) == |t|;
    assert s[..|l|] == l;
    assert s[|l| + |t|..] == rest;
  }

  /** The text obtained by writing line `i` followed by its own terminator `ts[i]`. */
  function Written(lines: seq<string>, ts: seq<string>): string
    requires |ts| == |lines|
    decreases |lines|
  {
    if lines == [] then [] else lines[0] + ts[0] + Written(lines[1..], ts[1..])
  }

  /** No lone `\r` terminator is followed by an empty line ended by `\n`: written out,
      the two would read as one `\r\n` break. */
  predicate NoCrJoin(lines: seq<string>, ts: seq<string>)
    requires |ts| == |lines|
  {
    forall i :: 0 <= i < |lines| - 1 ==> !(ts[i] == "\r" && lines[i + 1] == [] && ts[i + 1] == "\n")
  }

  /** A boundary-free text is one line, or none when it is empty. */
  lemma SplitUnterminated(l: string)
    requires NoBoundary(l)
    ensures SplitLines(l) == (if l == [] then [] else [l])
  {
    if l != [] {
      LineLengthSpec(l);
    }
  }

  /** A written text followed by an unterminated last line can only start with `\n`
      when its first line is empty and ended by `\n`. */
  lemma WrittenHead(lines: seq<string>, ts: seq<string>, last: string)
    requires |ts| == |lines|
    requires forall j :: 0 <= j < |lines| ==> NoBoundary(lines[j]) && IsTerminator(ts[j])
    requires NoBoundary(last)
    requires Written(lines, ts) + last != [] && (Written(lines, ts) + last)[0] == '\n'
    ensures lines != [] && lines[0] == [] && ts[0] == "\n"
  {
    var s := Written(lines, ts) + last;
    if lines == [] {
      assert s == last;
      assert IsLineBoundary(last[0]);
    } else if lines[0] != [] {
      assert s[0] == lines[0][0];
      assert IsLineBoundary(lines[0][0]);
    } else {
      assert s[0] == ts[0][0];
    }
  }

  /** The general round trip: lines written with terminators of any kinds, mixed, and
      an optional last line with no terminator come back from `splitlines` as they were. */
  lemma {:induction false} SplitWritten(lines: seq<string>, ts: seq<string>, last: string)
    requires |ts| == |lines|
    requires forall j :: 0 <= j < |lines| ==> NoBoundary(lines[j]) && IsTerminator(ts[j])
    requires NoCrJoin(lines, ts)
    requires NoBoundary(last)
    ensures SplitLines(Written(lines, ts) + last) == lines + (if last == [] then [] else [last])
    decreases |lines|
  {
    if lines == [] {
      assert Written(lines, ts) + last == last;
      SplitUnterminated(last);
    } else {
      var tail, tts := lines[1..], ts[1..];
      var rest := Written(tail, tts) + last;
      assert Written(lines, ts) + last == lines[0] + ts[0] + rest;
      if rest != [] && rest[0] == '\n' {
        WrittenHead(tail, tts, last);
      }
      SplitFirstLine(lines[0], ts[0], rest);
      forall i | 0 <= i < |tail| - 1
        ensures !(tts[i] == "\r" && tail[i + 1] == [] && tts[i + 1] == "\n")
      {
        assert tts[i] == ts[i + 1] && tail[i + 1] == lines[i + 2] && tts[i + 1] == ts[i + 2];
      }
      SplitWritten(tail, tts, last);
      assert [lines[0]] + tail == lines;
    }
  }

  /** Mixed breaks and a last line without one: `"a\r\n\nb\rc".splitlines()` is
      `["a", "", "b", "c"]`. */
  lemma SplitLinesMixedExample()
    ensures SplitLines("a\r\n\nb\rc") == ["a", "", "b", "c"]
  {
    var lines, ts := ["a", "", "b"], ["\r\n", "\n", "\r"];
    assert Written(lines[2..], ts[2..]) == "b\r";
    assert Written(lines[1..], ts[1..]) == "\nb\r";
    assert Written(lines, ts) + "c" == "a\r\n\nb\rc";
    assert NoBoundary("a") && NoBoundary("b") && NoBoundary("c");
    SplitWritten(lines, ts, "c");
  }

  /** `\r\n` is one break, an empty line between two breaks is kept, and a final break
      adds no line: `"a\r\n\r\nb\r\n".splitlines() == ["a", "", "b"]`. */
  lemma SplitLinesExample()
    ensures SplitLines("a\r\n\r\nb\r\n") == ["a", "", "b"]
  {
    var lines := ["a", "", "b"];
    assert Terminated(lines[2..], "\r\n") == "b\r\n";
    assert Terminated(lines[1..], "\r\n") == "\r\nb\r\n";
    assert Terminated(lines, "\r\n") == "a\r\n\r\nb\r\n";
    assert NoBoundary("a") && NoBoundary("b");
    SplitTerminated(lines, "\r\n");
  }

  /** The first line of `l + u` is `l` when `l` holds no boundary and `u` starts with one. */
  lemma {:induction false} LineLengthOfLine(l: string, u: string)
    requires NoBoundary(l)
    requires u != [] && IsLineBoundary(u[0])
    ensures LineLength(l + u) == |l|
    decreases |l|
  {
    if l != [] {
      assert (l + u)[1..] == l[1..] + u;
      LineLengthOfLine(l[1..], u);
    }
  }

  // ---------------------------------------------------------------------------
  // lower

  /** Lower-casing of one character; only the ASCII letters are mapped. */
  function LowerChar(c: char): char {
    if 'A' <= c <= 'Z' then (c as int + 32) as char else c
  }

  /** Python's `s.lower()`, character by character. */
  function Lower(s: string): (r: string)
    ensures |r| == |s|
    ensures forall k :: 0 <= k < |s| ==> r[k] == LowerChar(s[k])
  {
    seq(|s|, k requires 0 <= k < |s| => LowerChar(s[k]))
  }

  /** `"fr" in s.lower()` holds exactly when `s` holds `fr` in any mix of cases. */
  lemma LowerContainsFr(s: string)
    ensures Common.Contains(Lower(s), "fr") <==> exists i :: FrAt(s, i)
  {
    var r := Lower(s);
    Common.ContainsIff(r, "fr");
    if Common.Contains(r, "fr") {
      var i :| Common.OccursAt(r, "fr", i);
      assert r[i..i + 2][0] == r[i] && r[i..i + 2][1] == r[i + 1];
      assert FrAt(s, i);
    }
    if i :| FrAt(s, i) {
      assert r[i..i + 2] == [r[i], r[i + 1]];
      assert Common.OccursAt(r, "fr", i);
    }
  }

  /** `s` holds `f` or `F` at `i`, directly followed by `r` or `R`. */
  predicate FrAt(s: string, i: int) {
    0 <= i < |s| - 1 && (s[i] == 'f' || s[i] == 'F') && (s[i + 1] == 'r' || s[i + 1] == 'R')
  }

  // ---------------------------------------------------------------------------
  // decimal rendering of an int, as in f"{n}"

  predicate IsDigit(c: char) {
    '0' <= c <= '9'
  }

  function DigitChar(d: nat): (c: char)
    requires d < 10
    ensures IsDigit(c)
  {
    ('0' as int + d) as char
  }

  /** `str(n)` for a non-negative `n`: its decimal digits, without leading zeros. */
  function Decimal(n: nat): (s: string)
    ensures s != [] && forall k :: 0 <= k < |s| ==> IsDigit(s[k])
    ensures s[0] == '0' ==> n == 0
    decreases n
  {
    if n < 10 then [DigitChar(n)] else Decimal(n / 10) + [DigitChar(n % 10)]
  }

  /** Reading a string of decimal digits back as a number (`int(s)`). */
  function ParseDecimal(s: string): nat
    requires forall k :: 0 <= k < |s| ==> IsDigit(s[k])
    decreases |s|
  {
    if s == [] then 0
    else
      assert IsDigit(s[|s| - 1]);
      10 * ParseDecimal(s[..|s| - 1]) + (s[|s| - 1] as int - '0' as int)
  }

  /** `int(str(n)) == n`. */
  lemma {:induction false} ParseDecimalInverse(n: nat)
    ensures ParseDecimal(Decimal(n)) == n
    decreases n
  {
    if n >= 10 {
      var s := Decimal(n);
      assert s[..|s| - 1] == Decimal(n / 10);
      ParseDecimalInverse(n / 10);
    }
  }

  /** Different numbers have different decimal renderings. */
  lemma DecimalInjective(a: nat, b: nat)
    ensures Decimal(a) == Decimal(b) ==> a == b
  {
    ParseDecimalInverse(a);
    ParseDecimalInverse(b);
  }
}
