/** The string primitives the snippet extractor relies on: JavaScript's `split` and `join`
    on a one-character separator, `split` on the pattern `\r?\n`, `includes`, and the decimal
    rendering of a line number in a template literal. */
module Text {

  /** JavaScript `s.split(sep)` for a one-character separator: the pieces between separators,
      so `""` gives `[""]` and a trailing separator gives a trailing empty piece. */
  function Split(s: string, sep: char): (parts: seq<string>)
    ensures |parts| >= 1
    ensures forall i :: 0 <= i < |parts| ==> sep !in parts[i]
  {
    if |s| == 0 then [""]
    else
      var rest := Split(s[1..], sep);
      if s[0] == sep then [""] + rest else [[s[0]] + rest[0]] + rest[1..]
  }

  /** JavaScript `parts.join(sep)`: both `[]` and `[""]` give `""`. */
  function Join(parts: seq<string>, sep: char): (r: string) {
    if |parts| == 0 then ""
    else if |parts| == 1 then parts[0]
    else parts[0] + [sep] + Join(parts[1..], sep)
  }

  /** Joining the pieces of a split with the same separator gives back the original string. */
  lemma {:induction false} JoinSplit(s: string, sep: char)
    ensures Join(Split(s, sep), sep) == s
  {
    if |s| > 0 {
      JoinSplit(s[1..], sep);
      var rest := Split(s[1..], sep);
      if s[0] == sep {
        assert ([""] + rest)[1..] == rest;
      } else {
        JoinConsChar(s[0], rest, sep);
      }
    }
  }

  lemma JoinConsChar(c: char, parts: seq<string>, sep: char)
    requires |parts| >= 1
    ensures Join([[c] + parts[0]] + parts[1..], sep) == [c] + Join(parts, sep)
  {
    var q := [[c] + parts[0]] + parts[1..];
    if |parts| > 1 {
      assert q[1..] == parts[1..];
    }
  }

  /** A separator-free prefix glues onto the first piece of what follows it. */
  lemma {:induction false} SplitPrefix(a: string, t: string, sep: char)
    requires sep !in a
    ensures Split(a + t, sep) == [a + Split(t, sep)[0]] + Split(t, sep)[1..]
  {
    if |a| == 0 {
      assert a + t == t;
      assert a + Split(t, sep)[0] == Split(t, sep)[0];
      assert Split(t, sep) == [Split(t, sep)[0]] + Split(t, sep)[1..];
    } else {
      assert (a + t)[1..] == a[1..] + t;
      SplitPrefix(a[1..], t, sep);
      assert [a[0]] + (a[1..] + Split(t, sep)[0]) == a + Split(t, sep)[0];
    }
  }

  /** Splitting a join of separator-free pieces gives back the pieces. */
  lemma {:induction false} SplitJoin(parts: seq<string>, sep: char)
    requires |parts| >= 1
    requires forall i :: 0 <= i < |parts| ==> sep !in parts[i]
    ensures Split(Join(parts, sep), sep) == parts
  {
    if |parts| == 1 {
      SplitPrefix(parts[0], "", sep);
      assert parts[0] + "" == parts[0];
    } else {
      var t := [sep] + Join(parts[1..], sep);
      assert Join(parts, sep) == parts[0] + t;
      SplitJoin(parts[1..], sep);
      assert t[1..] == Join(parts[1..], sep);
      SplitPrefix(parts[0], t, sep);
      assert parts[0] + "" == parts[0];
    }
  }

  /** JavaScript `s.split(/\r?\n/)`: the pieces between line breaks, where a line break is
      `"\r\n"` or a lone `"\n"`, the pattern being tried at each position from left to right. */
  function SplitLines(s: string): (lines: seq<string>)
    ensures |lines| >= 1
    ensures forall i :: 0 <= i < |lines| ==> '\n' !in lines[i]
  {
    if |s| == 0 then [""]
    else if s[0] == '\n' then [""] + SplitLines(s[1..])
    else if s[0] == '\r' && |s| >= 2 && s[1] == '\n' then [""] + SplitLines(s[2..])
    else
      var rest := SplitLines(s[1..]);
      [[s[0]] + rest[0]] + rest[1..]
  }

  /** The line breaks `SplitLines` consumes, in order. */
  function LineBreaks(s: string): (r: seq<string>) {
    if |s| == 0 then []
    else if s[0] == '\n' then ["\n"] + LineBreaks(s[1..])
    else if s[0] == '\r' && |s| >= 2 && s[1] == '\n' then ["\r\n"] + LineBreaks(s[2..])
    else LineBreaks(s[1..])
  }

  /** Lines interleaved with the breaks between them. */
  function Reassemble(lines: seq<string>, breaks: seq<string>): (r: string)
    requires |lines| == |breaks| + 1
  {
    if |breaks| == 0 then lines[0] else lines[0] + breaks[0] + Reassemble(lines[1..], breaks[1..])
  }

  predicate EndsInCarriageReturn(line: string) {
    |line| > 0 && line[|line| - 1] == '\r'
  }

  /** Lines and breaks as a split on `/\r?\n/` leaves them: one more line than breaks, every
      break `"\n"` or `"\r\n"`, and a line followed by a lone `"\n"` does not end in `'\r'`. */
  predicate WellBroken(lines: seq<string>, breaks: seq<string>) {
    |lines| == |breaks| + 1 &&
    (forall i :: 0 <= i < |breaks| ==> breaks[i] == "\n" || breaks[i] == "\r\n") &&
    (forall i :: 0 <= i < |breaks| && breaks[i] == "\n" ==> !EndsInCarriageReturn(lines[i]))
  }

  /** `SplitLines` is the regular-expression split: the text is its lines interleaved with
      `"\n"` or `"\r\n"` breaks, no line holds a `'\n'`, and a `'\r'` directly before a `'\n'`
      always belongs to the break, never to the line. */
  lemma {:induction false} SplitLinesExact(s: string)
    ensures WellBroken(SplitLines(s), LineBreaks(s))
    ensures Reassemble(SplitLines(s), LineBreaks(s)) == s
  {
    if |s| == 0 {
    } else if s[0] == '\n' {
      SplitLinesExact(s[1..]);
      BreakStep(SplitLines(s[1..]), LineBreaks(s[1..]), "\n");
    } else if s[0] == '\r' && |s| >= 2 && s[1] == '\n' {
      SplitLinesExact(s[2..]);
      BreakStep(SplitLines(s[2..]), LineBreaks(s[2..]), "\r\n");
      assert s == "\r\n" + s[2..];
    } else {
      var t := s[1..];
      SplitLinesExact(t);
      var rest, breaks := SplitLines(t), LineBreaks(t);
      if |breaks| > 0 && breaks[0] == "\n" && rest[0] == "" {
        assert t == rest[0] + breaks[0] + Reassemble(rest[1..], breaks[1..]);
        assert t[0] == '\n';
      }
      CharStep(s[0], rest, breaks);
    }
  }

  lemma BreakStep(lines: seq<string>, breaks: seq<string>, b: string)
    requires WellBroken(lines, breaks)
    requires b == "\n" || b == "\r\n"
    ensures WellBroken([""] + lines, [b] + breaks)
    ensures Reassemble([""] + lines, [b] + breaks) == b + Reassemble(lines, breaks)
  {
    assert ([""] + lines)[1..] == lines && ([b] + breaks)[1..] == breaks;
    var ls, bs := [""] + lines, [b] + breaks;
    forall i | 0 <= i < |bs| && bs[i] == "\n"
      ensures !EndsInCarriageReturn(ls[i])
    {
      if i > 0 {
        assert bs[i] == breaks[i - 1] && ls[i] == lines[i - 1];
      }
    }
  }

  lemma CharStep(c: char, lines: seq<string>, breaks: seq<string>)
    requires WellBroken(lines, breaks)
    requires |breaks| > 0 && breaks[0] == "\n" && lines[0] == "" ==> c != '\r'
    ensures WellBroken([[c] + lines[0]] + lines[1..], breaks)
    ensures Reassemble([[c] + lines[0]] + lines[1..], breaks) == [c] + Reassemble(lines, breaks)
  {
    var ls := [[c] + lines[0]] + lines[1..];
    assert ls[1..] == lines[1..];
    forall i | 0 <= i < |breaks| && breaks[i] == "\n"
      ensures !EndsInCarriageReturn(ls[i])
    {
      if i > 0 {
        assert ls[i] == lines[i];
      } else if lines[0] != "" {
        assert ls[0][|ls[0]| - 1] == lines[0][|lines[0]| - 1];
      }
    }
  }

  /** Text without carriage returns splits on `/\r?\n/` exactly as on `'\n'`. */
  lemma {:induction false} SplitLinesWithoutCarriageReturn(s: string)
    requires '\r' !in s
    ensures SplitLines(s) == Split(s, '\n')
  {
    if |s| > 0 {
      assert '\r' !in s[1..] by {
        forall i | 0 <= i < |s[1..]|
          ensures s[1..][i] != '\r'
        {
          assert s[1..][i] == s[i + 1];
        }
      }
      SplitLinesWithoutCarriageReturn(s[1..]);
    }
  }

  /** `sub` occurs in `s` starting at position `i`. */
  ghost predicate OccursAt(sub: string, s: string, i: int) {
    0 <= i && i + |sub| <= |s| && s[i..i + |sub|] == sub
  }

  /** `sub` occurs somewhere in `s` as a contiguous run. */
  ghost predicate IsSubstring(sub: string, s: string) {
    exists i :: OccursAt(sub, s, i)
  }

  /** JavaScript `s.includes(sub)`, a literal, case-sensitive search by increasing start. */
  function Includes(s: string, sub: string): (found: bool)
    ensures found <==> IsSubstring(sub, s)
  {
    if sub <= s then
      assert OccursAt(sub, s, 0);
      true
    else if |s| == 0 then false
    else
      var found := Includes(s[1..], sub);
      assert found ==> IsSubstring(sub, s) by {
        if found {
          var i :| OccursAt(sub, s[1..], i);
          assert s[1..][i..i + |sub|] == s[i + 1..i + 1 + |sub|];
          assert OccursAt(sub, s, i + 1);
        }
      }
      assert IsSubstring(sub, s) ==> found by {
        if IsSubstring(sub, s) {
          OccursAtStart(sub, s);
          var i :| OccursAt(sub, s, i);
          assert s[1..][i - 1..i - 1 + |sub|] == s[i..i + |sub|];
          assert OccursAt(sub, s[1..], i - 1);
        }
      }
      found
  }

  /** An occurrence at the start is a prefix. */
  lemma OccursAtStart(sub: string, s: string)
    ensures OccursAt(sub, s, 0) <==> sub <= s
  {
    if |sub| <= |s| {
      assert s[0..|sub|] == s[..|sub|];
    }
  }

  /** A substring of a substring is a substring. */
  lemma SubstringTransitive(a: string, b: string, s: string)
    requires IsSubstring(a, b) && IsSubstring(b, s)
    ensures IsSubstring(a, s)
  {
    var i :| OccursAt(a, b, i);
    var k :| OccursAt(b, s, k);
    forall j | 0 <= j < |a|
      ensures s[k + i..k + i + |a|][j] == a[j]
    {
      assert a[j] == b[i + j] == s[k + i + j];
    }
    assert OccursAt(a, s, k + i);
  }

  predicate IsDigits(d: string) {
    forall i :: 0 <= i < |d| ==> '0' <= d[i] <= '9'
  }

  function Digit(n: nat): (c: char)
    requires n < 10
    ensures '0' <= c <= '9'
  {
    ('0' as int + n) as char
  }

  function DigitValue(c: char): (r: nat)
    requires '0' <= c <= '9'
  {
    c as int - '0' as int
  }

  /** The decimal form of a line number, as a JavaScript template literal writes it. */
  function Decimal(n: nat): (d: string)
    ensures |d| >= 1 && IsDigits(d)
    ensures d[0] == '0' ==> n == 0 && d == "0"
  {
    if n < 10 then [Digit(n)] else Decimal(n / 10) + [Digit(n % 10)]
  }

  /** The number a string of decimal digits denotes. */
  function DecimalValue(d: string): (r: nat)
    requires IsDigits(d)
  {
    if |d| == 0 then 0 else 10 * DecimalValue(d[..|d| - 1]) + DigitValue(d[|d| - 1])
  }

  /** Reading back the decimal form of a number gives the number. */
  lemma {:induction false} DecimalRoundTrip(n: nat)
    ensures DecimalValue(Decimal(n)) == n
  {
    if n >= 10 {
      DecimalRoundTrip(n / 10);
      var d := Decimal(n);
      assert d[..|d| - 1] == Decimal(n / 10);
    }
  }
}
