/** The string primitives the pipeline is built from: Kotlin's `split(',')`
    and `joinToString(",")`, the lines a `BufferedReader` hands out, and the
    decimal integer parsing behind `toLong()` and `toInt()`. */
module Text {
  import opened Wrappers

  // ---------------------------------------------------------------------
  // Joining and splitting on one separator character
  // ---------------------------------------------------------------------

  /** `xs.joinToString(separator = sep)`: the pieces with `sep` between
      neighbours; an empty list joins to the empty string. */
  function Join(xs: seq<string>, sep: char): string
  {
    if |xs| == 0 then ""
    else if |xs| == 1 then xs[0]
    else Join(xs[..|xs| - 1], sep) + [sep] + xs[|xs| - 1]
  }

  /** `s.split(sep)`: every piece between two separators, empty pieces
      included, so the result is never empty ("" splits to [""]). */
  function Split(s: string, sep: char): (r: seq<string>)
    ensures |r| >= 1
  {
    if |s| == 0 then [""]
    else
      var p := Split(s[..|s| - 1], sep);
      var c := s[|s| - 1];
      if c == sep then p + [""]
      else p[..|p| - 1] + [p[|p| - 1] + [c]]
  }

  /** No piece holds the separator. */
  lemma {:induction false} SplitPieces(s: string, sep: char)
    ensures forall i :: 0 <= i < |Split(s, sep)| ==> sep !in Split(s, sep)[i]
  {
    if |s| > 0 {
      SplitPieces(s[..|s| - 1], sep);
    }
  }

  /** Joining the pieces again with the separator gives the text back. */
  lemma {:induction false} JoinSplit(s: string, sep: char)
    ensures Join(Split(s, sep), sep) == s
  {
    if |s| > 0 {
      var s' := s[..|s| - 1];
      var c := s[|s| - 1];
      assert s == s' + [c];
      JoinSplit(s', sep);
      var p := Split(s', sep);
      if c == sep {
        assert (p + [""])[..|p|] == p;
      } else {
        var k := |p| - 1;
        var r := p[..k] + [p[k] + [c]];
        assert r[..k] == p[..k];
        assert k > 0 ==> Join(p, sep) == Join(p[..k], sep) + [sep] + p[k];
      }
    }
  }

  /** A text without the separator is one piece. */
  lemma {:induction false} SplitWithoutSeparator(s: string, sep: char)
    requires sep !in s
    ensures Split(s, sep) == [s]
  {
    if |s| > 0 {
      SplitWithoutSeparator(s[..|s| - 1], sep);
      SplitSnoc(s[..|s| - 1], s[|s| - 1], sep);
      assert s == s[..|s| - 1] + [s[|s| - 1]];
    }
  }

  /** Appending a separator and a separator-free piece appends that piece. */
  lemma {:induction false} SplitAppendPiece(a: string, x: string, sep: char)
    requires sep !in x
    ensures Split(a + [sep] + x, sep) == Split(a, sep) + [x]
  {
    var s := a + [sep] + x;
    if |x| == 0 {
      assert s[..|s| - 1] == a;
    } else {
      var x' := x[..|x| - 1];
      assert s[..|s| - 1] == a + [sep] + x';
      assert x == x' + [x[|x| - 1]];
      SplitAppendPiece(a, x', sep);
    }
  }

  /** One more character: a separator opens a new empty piece, any other
      character extends the last piece. */
  lemma SplitSnoc(s: string, c: char, sep: char)
    ensures var p := Split(s, sep);
      Split(s + [c], sep) == if c == sep then p + [""] else p[..|p| - 1] + [p[|p| - 1] + [c]]
  {
    assert (s + [c])[..|s|] == s;
  }

  /** Round trip: splitting what `Join` produced gives the pieces back, as
      long as there is at least one piece and no piece holds the separator. */
  lemma {:induction false} SplitJoin(xs: seq<string>, sep: char)
    requires |xs| >= 1
    requires forall i :: 0 <= i < |xs| ==> sep !in xs[i]
    ensures Split(Join(xs, sep), sep) == xs
  {
    if |xs| == 1 {
      SplitWithoutSeparator(xs[0], sep);
    } else {
      var ys := xs[..|xs| - 1];
      SplitJoin(ys, sep);
      SplitAppendPiece(Join(ys, sep), xs[|xs| - 1], sep);
    }
  }

  /** Joining two non-empty batches of pieces: the two joins with one
      separator between them. */
  lemma {:induction false} JoinAppend(p: seq<string>, q: seq<string>, sep: char)
    requires |p| >= 1 && |q| >= 1
    ensures Join(p + q, sep) == Join(p, sep) + [sep] + Join(q, sep)
  {
    var pq := p + q;
    var last := q[|q| - 1];
    if |q| == 1 {
      assert pq[..|pq| - 1] == p;
    } else {
      var q' := q[..|q| - 1];
      JoinAppend(p, q', sep);
      assert pq[..|pq| - 1] == p + q';
    }
  }

  /** Splitting at a separator splits the two sides independently. */
  lemma SplitConcat(a: string, b: string, sep: char)
    ensures Split(a + [sep] + b, sep) == Split(a, sep) + Split(b, sep)
  {
    var p, q := Split(a, sep), Split(b, sep);
    JoinSplit(a, sep);
    JoinSplit(b, sep);
    JoinAppend(p, q, sep);
    SplitPieces(a, sep);
    SplitPieces(b, sep);
    assert forall i :: 0 <= i < |p + q| ==> sep !in (p + q)[i];
    SplitJoin(p + q, sep);
  }

  // ---------------------------------------------------------------------
  // Lines, as BufferedReader.readLine delivers them
  // ---------------------------------------------------------------------

  /** The lines of `s`: the pieces between '\n' characters, where a final
      '\n' does not open another line and an empty text has no line at all
      (`readLine()` returns null at once). */
  function Lines(s: string): (r: seq<string>)
    ensures forall i :: 0 <= i < |r| ==> '\n' !in r[i]
    ensures r == [] <==> s == ""
  {
    if s == "" then []
    else
      var p := Split(s, '\n');
      SplitPieces(s, '\n');
      if p[|p| - 1] == "" then
        JoinSplit(s, '\n');
        assert |p| == 1 ==> Join(p, '\n') == "";
        p[..|p| - 1]
      else p
  }

  /** Each line followed by '\n', one after the other: what a writer that
      writes `line + "\n"` per line produces. */
  function Terminated(ls: seq<string>): string
  {
    if |ls| == 0 then "" else Terminated(ls[..|ls| - 1]) + ls[|ls| - 1] + "\n"
  }

  /** Writing two batches of lines one after the other. */
  lemma {:induction false} TerminatedAppend(ls: seq<string>, ms: seq<string>)
    ensures Terminated(ls + ms) == Terminated(ls) + Terminated(ms)
  {
    if |ms| == 0 {
      assert ls + ms == ls;
    } else {
      var init := ms[..|ms| - 1];
      TerminatedAppend(ls, init);
      assert (ls + ms)[..|ls + ms| - 1] == ls + init;
    }
  }

  lemma {:induction false} JoinWithEmptyLast(ls: seq<string>)
    requires |ls| >= 1
    ensures Join(ls + [""], '\n') == Terminated(ls)
  {
    var n := |ls|;
    var ext := ls + [""];
    assert ext[..n] == ls;
    assert Join(ext, '\n') == Join(ls, '\n') + "\n";
    if n == 1 {
      assert ls[..0] == [];
      assert Terminated(ls) == ls[0] + "\n";
    } else {
      var init := ls[..n - 1];
      JoinWithEmptyLast(init);
      assert (init + [""])[..n - 1] == init;
      assert Join(init + [""], '\n') == Join(init, '\n') + "\n";
      assert Join(ls, '\n') == Join(init, '\n') + "\n" + ls[n - 1];
    }
  }

  /** Reading back what was written line by line gives the same lines. */
  lemma LinesOfTerminated(ls: seq<string>)
    requires forall i :: 0 <= i < |ls| ==> '\n' !in ls[i]
    ensures Lines(Terminated(ls)) == ls
  {
    if |ls| > 0 {
      JoinWithEmptyLast(ls);
      var t := Terminated(ls);
      assert t[|t| - 1] == '\n';
      SplitJoin(ls + [""], '\n');
      assert (ls + [""])[..|ls|] == ls;
    }
  }

  /** A text whose last line has no '\n': its lines, rejoined with '\n',
      are the whole text, so the last line is read up to the end. */
  lemma JoinLinesUnterminated(s: string)
    requires s != "" && s[|s| - 1] != '\n'
    ensures Join(Lines(s), '\n') == s
  {
    var a, c := s[..|s| - 1], s[|s| - 1];
    assert s == a + [c];
    SplitSnoc(a, c, '\n');
    JoinSplit(s, '\n');
  }

  /** A text ending in '\n': its lines, each written back with its '\n',
      are the whole text. */
  lemma TerminatedLinesOfTerminated(s: string)
    requires s != "" && s[|s| - 1] == '\n'
    ensures Terminated(Lines(s)) == s
  {
    var a := s[..|s| - 1];
    assert s == a + ['\n'];
    SplitSnoc(a, '\n', '\n');
    var p := Split(a, '\n');
    assert Lines(s) == p;
    JoinWithEmptyLast(p);
    JoinSplit(s, '\n');
  }

  /** Reads the lines of a text one at a time, as `BufferedReader` does. */
  class LineReader {
    const lines: seq<string>
    var pos: nat

    ghost predicate Valid()
      reads this
    {
      pos <= |lines|
    }

    constructor (text: string)
      ensures Valid() && lines == Lines(text) && pos == 0
    {
      lines := Lines(text);
      pos := 0;
    }

    /** `readLine()`: the next line, or None (null) once the text is used up. */
    method ReadLine() returns (line: Option<string>)
      requires Valid()
      modifies this
      ensures Valid()
      ensures old(pos) < |lines| ==> line == Some(lines[old(pos)]) && pos == old(pos) + 1
      ensures old(pos) == |lines| ==> line == None && pos == old(pos)
    {
      if pos < |lines| {
        line := Some(lines[pos]);
        pos := pos + 1;
      } else {
        line := None;
      }
    }

    /** `readLines()`: all the lines not read yet. */
    method ReadLines() returns (rest: seq<string>)
      requires Valid()
      modifies this
      ensures Valid() && pos == |lines|
      ensures rest == old(lines[pos..])
    {
      rest := lines[pos..];
      pos := |lines|;
    }
  }

  // ---------------------------------------------------------------------
  // Decimal integers: toLong() and toInt()
  // ---------------------------------------------------------------------

  const LONG_MIN: int := -0x8000_0000_0000_0000
  const LONG_MAX: int := 0x7FFF_FFFF_FFFF_FFFF
  const INT_MIN: int := -0x8000_0000
  const INT_MAX: int := 0x7FFF_FFFF

  predicate IsDigit(c: char)
  {
    '0' <= c <= '9'
  }

  predicate AllDigits(ds: string)
  {
    forall i :: 0 <= i < |ds| ==> IsDigit(ds[i])
  }

  /** The value of a run of decimal digits, most significant first. */
  function DigitsValue(ds: string): nat
    requires AllDigits(ds)
  {
    if |ds| == 0 then 0
    else 10 * DigitsValue(ds[..|ds| - 1]) + (ds[|ds| - 1] as int - '0' as int)
  }

  /** `s.toLong()` / `s.toInt()` (Java's `parseLong` / `parseInt` in radix
      10): an optional leading '-' or '+', then at least one decimal digit,
      and the value must lie within [lo, hi]; anything else is a
      `NumberFormatException`, here None. */
  function ParseInteger(s: string, lo: int, hi: int): (r: Option<int>)
    ensures r.Some? ==> lo <= r.value <= hi
    ensures |s| == 0 || s == "-" || s == "+" ==> r == None
    ensures |s| > 0 && !IsDigit(s[0]) && s[0] != '-' && s[0] != '+' ==> r == None
  {
    var signed := |s| > 0 && (s[0] == '-' || s[0] == '+');
    var digits := if signed then s[1..] else s;
    if |digits| == 0 || !AllDigits(digits) then None
    else
      var v: int := if signed && s[0] == '-' then -(DigitsValue(digits) as int) else DigitsValue(digits);
      if lo <= v <= hi then Some(v) else None
  }

  /** Any character after the first that is not a digit makes the parse
      fail. */
  lemma ParseIntegerRejectsNonDigit(s: string, lo: int, hi: int, i: nat)
    requires 1 <= i < |s| && !IsDigit(s[i])
    ensures ParseInteger(s, lo, hi) == None
  {
    var signed := s[0] == '-' || s[0] == '+';
    var digits := if signed then s[1..] else s;
    assert s[i] == if signed then digits[i - 1] else digits[i];
  }

  function ParseLong(s: string): Option<int>
  {
    ParseInteger(s, LONG_MIN, LONG_MAX)
  }

  function ParseInt(s: string): Option<int>
  {
    ParseInteger(s, INT_MIN, INT_MAX)
  }

  function DigitChar(d: nat): char
    requires d < 10
  {
    ('0' as int + d) as char
  }

  /** The shortest decimal digits of `n`: a reference rendering against
      which the parser is checked. */
  function Decimal(n: nat): (ds: string)
    ensures |ds| >= 1 && AllDigits(ds)
  {
    if n < 10 then [DigitChar(n)] else Decimal(n / 10) + [DigitChar(n % 10)]
  }

  /** `Long.toString()`: a '-' for negative values, then the digits. */
  function Render(n: int): string
  {
    if n < 0 then "-" + Decimal(-n) else Decimal(n)
  }

  lemma {:induction false} DecimalValue(n: nat)
    ensures DigitsValue(Decimal(n)) == n
  {
    if n >= 10 {
      DecimalValue(n / 10);
      var ds := Decimal(n);
      assert ds[..|ds| - 1] == Decimal(n / 10);
    }
  }

  /** The parser reads back every rendered value, exactly when it lies in
      range. */
  lemma ParseRender(n: int, lo: int, hi: int)
    ensures ParseInteger(Render(n), lo, hi) == if lo <= n <= hi then Some(n) else None
  {
    var s := Render(n);
    if n < 0 {
      var ds := Decimal(-n);
      DecimalValue(-n);
      assert s[0] == '-' && s[1..] == ds;
    } else {
      var ds := Decimal(n);
      DecimalValue(n);
      assert s == ds && IsDigit(s[0]);
    }
  }
}
