/**
 * The pieces of Python's built-in behaviour that both programs rely on:
 * optional values, JSON scalars with Python truthiness and `str()`,
 * `str.strip`, and the way a text file is iterated line by line. It also
 * holds `Concat`, the flattening of a list of lists, which both the line
 * iteration and the mapper's batch results are stated with.
 */
module PyRuntime {

  datatype Option<+T> = None | Some(value: T) {
    function GetOr(default: T): T {
      match this
      case Some(v) => v
      case None => default
    }
  }

  datatype Result<+T, +E> = Success(value: T) | Failure(error: E)

  /** A decoded JSON scalar as Python holds it: None, bool, int or str. */
  datatype Value = Null | Bool(b: bool) | Int(i: int) | Str(s: string)

  /** Python truthiness of a decoded scalar (`if v:`). */
  predicate Truthy(v: Value) {
    match v
    case Null => false
    case Bool(b) => b
    case Int(i) => i != 0
    case Str(s) => s != ""
  }

  /** Truthiness of a value that is either a `str` or `None` (`if s:`). */
  predicate Given(s: Option<string>) {
    s.Some? && s.value != ""
  }

  predicate IsDigit(c: char) {
    '0' <= c <= '9'
  }

  function DigitChar(d: nat): (c: char)
    requires d < 10
    ensures IsDigit(c) && (c as int) - ('0' as int) == d
  {
    ('0' as int + d) as char
  }

  /** Decimal rendering of a natural number, most significant digit first. */
  function NatToDecimal(n: nat): (s: string)
    ensures |s| >= 1
    ensures forall i :: 0 <= i < |s| ==> IsDigit(s[i])
    ensures s[0] == '0' ==> n == 0
  {
    if n < 10 then [DigitChar(n)] else NatToDecimal(n / 10) + [DigitChar(n % 10)]
  }

  /** The number a string of decimal digits denotes. */
  function DecimalValue(s: string): nat
    requires forall i :: 0 <= i < |s| ==> IsDigit(s[i])
  {
    if s == [] then 0
    else
      assert IsDigit(s[|s| - 1]);
      DecimalValue(s[..|s| - 1]) * 10 + ((s[|s| - 1] as int) - ('0' as int))
  }

  lemma {:induction false} DecimalRoundTrip(n: nat)
    ensures DecimalValue(NatToDecimal(n)) == n
  {
    if n >= 10 {
      var s := NatToDecimal(n);
      assert s[..|s| - 1] == NatToDecimal(n / 10);
      DecimalRoundTrip(n / 10);
    }
  }

  /** Python's `str(i)` for an int: an optional minus sign and the decimal digits. */
  function IntToDecimal(i: int): string {
    if i < 0 then "-" + NatToDecimal(-i) else NatToDecimal(i)
  }

  lemma IntDecimalRoundTrip(i: int)
    ensures |IntToDecimal(i)| >= 1
    ensures i < 0 <==> IntToDecimal(i)[0] == '-'
    ensures i < 0 ==> DecimalValue(IntToDecimal(i)[1..]) == -i
    ensures i >= 0 ==> DecimalValue(IntToDecimal(i)) == i
  {
    if i < 0 {
      var d := NatToDecimal(-i);
      assert IntToDecimal(i)[1..] == d by {
        assert IntToDecimal(i) == "-" + d;
      }
      DecimalRoundTrip(-i);
    } else {
      DecimalRoundTrip(i);
      assert IsDigit(NatToDecimal(i)[0]);
    }
  }

  /** Python's `str(v)` for a decoded scalar. */
  function ToStr(v: Value): string {
    match v
    case Null => "None"
    case Bool(b) => if b then "True" else "False"
    case Int(i) => IntToDecimal(i)
    case Str(s) => s
  }

  /**
   * `str.isspace` for one character: the code points Python treats as
   * whitespace (bidirectional class WS, B or S, or category Zs).
   */
  predicate IsSpace(c: char) {
    var n := c as int;
    (0x09 <= n <= 0x0D) || (0x1C <= n <= 0x20) || n == 0x85 || n == 0xA0
    || n == 0x1680 || (0x2000 <= n <= 0x200A) || n == 0x2028 || n == 0x2029
    || n == 0x202F || n == 0x205F || n == 0x3000
  }

  /** `s.lstrip()`: drops the leading run of whitespace. */
  function LStrip(s: string): (r: string)
    ensures |r| <= |s| && r == s[|s| - |r|..]
    ensures forall i :: 0 <= i < |s| - |r| ==> IsSpace(s[i])
    ensures r == [] || !IsSpace(r[0])
  {
    if s != [] && IsSpace(s[0]) then LStrip(s[1..]) else s
  }

  /** `s.rstrip()`: drops the trailing run of whitespace. */
  function RStrip(s: string): (r: string)
    ensures |r| <= |s| && r == s[..|r|]
    ensures forall i :: |r| <= i < |s| ==> IsSpace(s[i])
    ensures r == [] || !IsSpace(r[|r| - 1])
  {
    if s != [] && IsSpace(s[|s| - 1]) then RStrip(s[..|s| - 1]) else s
  }

  /** `s.strip()`. */
  function Strip(s: string): string {
    RStrip(LStrip(s))
  }

  /** Where `Strip(s)` starts inside `s`. */
  function StripStart(s: string): nat {
    |s| - |LStrip(s)|
  }

  lemma PrefixOfSuffix(s: string, a: nat, n: nat)
    requires a + n <= |s|
    ensures s[a..][..n] == s[a..a + n]
  {
  }

  lemma StripSlice(s: string)
    ensures StripStart(s) + |Strip(s)| <= |s|
    ensures Strip(s) == s[StripStart(s)..StripStart(s) + |Strip(s)|]
  {
    var l := LStrip(s);
    var r := RStrip(l);
    var a := |s| - |l|;
    calc {
      Strip(s);
      r;
      l[..|r|];
      s[a..][..|r|];
      { PrefixOfSuffix(s, a, |r|); }
      s[a..a + |r|];
    }
  }

  lemma StripDropsOnlySpace(s: string)
    ensures forall i :: 0 <= i < StripStart(s) ==> IsSpace(s[i])
    ensures forall i :: StripStart(s) + |Strip(s)| <= i < |s| ==> IsSpace(s[i])
  {
    var l := LStrip(s);
    var r := RStrip(l);
    var a := |s| - |l|;
    assert l == s[a..];
    forall i | a + |r| <= i < |s| ensures IsSpace(s[i]) {
      assert s[i] == l[i - a];
    }
  }

  lemma StripEnds(s: string)
    ensures Strip(s) == [] || (!IsSpace(Strip(s)[0]) && !IsSpace(Strip(s)[|Strip(s)| - 1]))
  {
    var l := LStrip(s);
    var r := RStrip(l);
    if r != [] {
      assert r[0] == l[0];
    }
  }

  /**
   * `Strip(s)` is the run of `s` between its leading and trailing
   * whitespace; it neither starts nor ends with whitespace.
   */
  lemma StripIsInfix(s: string)
    ensures StripStart(s) + |Strip(s)| <= |s|
    ensures Strip(s) == s[StripStart(s)..StripStart(s) + |Strip(s)|]
    ensures forall i :: 0 <= i < StripStart(s) ==> IsSpace(s[i])
    ensures forall i :: StripStart(s) + |Strip(s)| <= i < |s| ==> IsSpace(s[i])
    ensures Strip(s) == [] || (!IsSpace(Strip(s)[0]) && !IsSpace(Strip(s)[|Strip(s)| - 1]))
  {
    StripSlice(s);
    StripDropsOnlySpace(s);
    StripEnds(s);
  }

  /** A string strips to nothing exactly when all of it is whitespace. */
  lemma StripBlank(s: string)
    ensures Strip(s) == "" <==> forall i :: 0 <= i < |s| ==> IsSpace(s[i])
  {
    StripIsInfix(s);
  }

  lemma StripIdempotent(s: string)
    ensures Strip(Strip(s)) == Strip(s)
  {
    var r := Strip(s);
    StripIsInfix(s);
    if r != [] {
      assert LStrip(r) == r;
      assert RStrip(r) == r;
    }
  }

  lemma {:induction false} LStripSpaceAtEnd(s: string, c: char)
    requires IsSpace(c)
    ensures LStrip(s + [c]) == if LStrip(s) == [] then [] else LStrip(s) + [c]
    decreases |s|
  {
    var sc := s + [c];
    if s == [] {
      assert sc[1..] == [];
      assert LStrip(sc) == LStrip([]);
    } else if IsSpace(s[0]) {
      assert sc[0] == s[0] && sc[1..] == s[1..] + [c];
      LStripSpaceAtEnd(s[1..], c);
      assert LStrip(sc) == LStrip(s[1..] + [c]);
      assert LStrip(s) == LStrip(s[1..]);
    } else {
      assert sc[0] == s[0];
      assert LStrip(sc) == sc;
      assert LStrip(s) == s;
    }
  }

  /** A trailing whitespace character, a line's "\n" say, does not change `strip()`. */
  lemma StripSpaceAtEnd(s: string, c: char)
    requires IsSpace(c)
    ensures Strip(s + [c]) == Strip(s)
  {
    LStripSpaceAtEnd(s, c);
    if LStrip(s) != [] {
      assert (LStrip(s) + [c])[..|LStrip(s)|] == LStrip(s);
    }
  }

  /**
   * Python's universal-newline translation when a file is read in text mode:
   * "\r\n" and a lone "\r" both become "\n".
   */
  function UniversalNewlines(text: string): (r: string)
    ensures forall i :: 0 <= i < |r| ==> r[i] != '\r'
    ensures |r| <= |text|
  {
    if text == [] then []
    else if text[0] == '\r' then
      if |text| > 1 && text[1] == '\n' then "\n" + UniversalNewlines(text[2..])
      else "\n" + UniversalNewlines(text[1..])
    else [text[0]] + UniversalNewlines(text[1..])
  }

  /** Text without "\r" comes through the translation unchanged. */
  lemma {:induction false} NewlinesKeepPlainText(text: string)
    requires forall i :: 0 <= i < |text| ==> text[i] != '\r'
    ensures UniversalNewlines(text) == text
    decreases |text|
  {
    if text != [] {
      NewlinesKeepPlainText(text[1..]);
      assert [text[0]] + text[1..] == text;
    }
  }

  /**
   * The translation works piece by piece: a text may be cut anywhere except
   * right after a "\r" (where a following "\n" would join it).
   */
  lemma {:induction false} NewlinesAppend(a: string, b: string)
    requires a == [] || a[|a| - 1] != '\r'
    ensures UniversalNewlines(a + b) == UniversalNewlines(a) + UniversalNewlines(b)
    decreases |a|
  {
    if a == [] {
      assert a + b == b;
    } else {
      var ab := a + b;
      var m := if a[0] == '\r' && a[1] == '\n' then 2 else 1;
      var head := if a[0] == '\r' then "\n" else [a[0]];
      assert ab[..m] == a[..m];
      assert ab[m..] == a[m..] + b;
      assert UniversalNewlines(a) == head + UniversalNewlines(a[m..]);
      assert UniversalNewlines(ab) == head + UniversalNewlines(ab[m..]);
      NewlinesAppend(a[m..], b);
    }
  }

  /** A "\r" that no "\n" follows becomes a "\n" on its own. */
  lemma NewlinesLoneCarriageReturn(b: string)
    requires b == [] || b[0] != '\n'
    ensures UniversalNewlines("\r" + b) == "\n" + UniversalNewlines(b)
  {
    assert ("\r" + b)[1..] == b;
  }

  /** Both line-end conventions other than "\n" become one "\n". */
  lemma NewlinesOfLineEnds()
    ensures UniversalNewlines("\r\n") == "\n"
    ensures UniversalNewlines("\r") == "\n"
  {
    assert "\r\n"[2..] == [];
    assert "\r"[1..] == [];
  }

  /** Length of the first line of `text`, its "\n" included when it has one. */
  function FirstLineLength(text: string): (n: nat)
    requires text != []
    ensures 1 <= n <= |text|
    ensures forall i :: 0 <= i < n - 1 ==> text[i] != '\n'
    ensures text[n - 1] == '\n' || n == |text|
  {
    if text[0] == '\n' || |text| == 1 then 1 else 1 + FirstLineLength(text[1..])
  }

  /**
   * The lines `for line in f` yields: each keeps its "\n", the last one may
   * lack it, and an empty text yields none.
   */
  function Lines(text: string): (ls: seq<string>)
    ensures ls == [] <==> text == []
    decreases |text|
  {
    if text == [] then []
    else
      var n := FirstLineLength(text);
      [text[..n]] + Lines(text[n..])
  }

  lemma AppendAssociates<T>(x: seq<T>, y: seq<T>, z: seq<T>)
    ensures (x + y) + z == x + (y + z)
  {
  }

  /** Concatenation of a sequence of strings, in order. */
  function Concat<T>(xss: seq<seq<T>>): seq<T> {
    if xss == [] then [] else Concat(xss[..|xss| - 1]) + xss[|xss| - 1]
  }

  lemma {:induction false} ConcatAppend<T>(xss: seq<seq<T>>, yss: seq<seq<T>>)
    ensures Concat(xss + yss) == Concat(xss) + Concat(yss)
    decreases |yss|
  {
    if yss == [] {
      assert xss + yss == xss;
    } else {
      var zs := xss + yss;
      assert zs[..|zs| - 1] == xss + yss[..|yss| - 1];
      ConcatAppend(xss, yss[..|yss| - 1]);
    }
  }

  /** A line as iteration yields it: non-empty, with a "\n" at most as its last character. */
  predicate IsLine(l: string) {
    l != [] && forall i :: 0 <= i < |l| - 1 ==> l[i] != '\n'
  }

  lemma {:induction false} LinesRebuildText(text: string)
    ensures Concat(Lines(text)) == text
    decreases |text|
  {
    if text != [] {
      var n := FirstLineLength(text);
      var first, rest := text[..n], text[n..];
      calc {
        Concat(Lines(text));
        Concat([first] + Lines(rest));
        { ConcatAppend([first], Lines(rest)); }
        Concat([first]) + Concat(Lines(rest));
        { assert [first][..0] == []; LinesRebuildText(rest); }
        first + rest;
        text;
      }
    }
  }

  lemma {:induction false} LinesAreLines(text: string)
    ensures forall k :: 0 <= k < |Lines(text)| ==> IsLine(Lines(text)[k])
    decreases |text|
  {
    if text != [] {
      var n := FirstLineLength(text);
      var ls, tail := Lines(text), Lines(text[n..]);
      assert ls == [text[..n]] + tail;
      LinesAreLines(text[n..]);
      forall k | 0 <= k < |ls| ensures IsLine(ls[k]) {
        if k == 0 {
          assert ls[0] == text[..n];
        } else {
          assert ls[k] == tail[k - 1];
        }
      }
    }
  }

  /** Every line but the last ends with its "\n": a line is never cut short. */
  lemma {:induction false} LinesEndInNewline(text: string)
    ensures forall k :: 0 <= k < |Lines(text)| - 1 ==> Lines(text)[k] != [] && Lines(text)[k][|Lines(text)[k]| - 1] == '\n'
    decreases |text|
  {
    if text != [] {
      var n := FirstLineLength(text);
      var ls, tail := Lines(text), Lines(text[n..]);
      assert ls == [text[..n]] + tail;
      LinesEndInNewline(text[n..]);
      forall k | 0 <= k < |ls| - 1 ensures ls[k] != [] && ls[k][|ls[k]| - 1] == '\n' {
        if k == 0 {
          assert ls[0] == text[..n];
          assert text[n..] != [];
        } else {
          assert ls[k] == tail[k - 1];
        }
      }
    }
  }

  lemma InSuffix(text: string, n: nat, c: char)
    requires n <= |text| && c in text[n..]
    ensures c in text
  {
    var j :| 0 <= j < |text[n..]| && text[n..][j] == c;
    assert text[n + j] == c;
  }

  /** A line holds only characters of the text. */
  lemma {:induction false} LinesDrawFromText(text: string)
    ensures forall k, i :: 0 <= k < |Lines(text)| && 0 <= i < |Lines(text)[k]| ==> Lines(text)[k][i] in text
    decreases |text|
  {
    if text != [] {
      var n := FirstLineLength(text);
      var ls, tail := Lines(text), Lines(text[n..]);
      assert ls == [text[..n]] + tail;
      LinesDrawFromText(text[n..]);
      forall k, i | 0 <= k < |ls| && 0 <= i < |ls[k]| ensures ls[k][i] in text {
        if k == 0 {
          assert ls[0][i] == text[i];
        } else {
          assert ls[k] == tail[k - 1];
          InSuffix(text, n, ls[k][i]);
        }
      }
    }
  }

  /**
   * Iterating a text line by line loses nothing and cuts nowhere else: the
   * lines, put back together, are the text; each is non-empty, holds a "\n"
   * at most as its last character, and every line but the last ends with
   * one. These facts determine the lines (`LinesUnique`).
   */
  lemma LinesPartitionText(text: string)
    ensures Concat(Lines(text)) == text
    ensures forall k :: 0 <= k < |Lines(text)| ==> IsLine(Lines(text)[k])
    ensures forall k :: 0 <= k < |Lines(text)| - 1 ==> Lines(text)[k] != [] && Lines(text)[k][|Lines(text)[k]| - 1] == '\n'
  {
    LinesRebuildText(text);
    LinesAreLines(text);
    LinesEndInNewline(text);
  }

  /** A "\n" at the end of `a` survives the translation. */
  lemma {:induction false} NewlinesKeepFinalNewline(a: string)
    requires a != [] && a[|a| - 1] == '\n'
    ensures UniversalNewlines(a) != [] && UniversalNewlines(a)[|UniversalNewlines(a)| - 1] == '\n'
    decreases |a|
  {
    var m := if a[0] == '\r' && |a| > 1 && a[1] == '\n' then 2 else 1;
    var head := if a[0] == '\r' then "\n" else [a[0]];
    assert UniversalNewlines(a) == head + UniversalNewlines(a[m..]);
    if a[m..] != [] {
      NewlinesKeepFinalNewline(a[m..]);
    }
  }

  /** Behind a complete line, the first line of the text is that line. */
  lemma FirstLineOfAppend(a: string, b: string)
    requires a != [] && a[|a| - 1] == '\n'
    ensures FirstLineLength(a + b) == FirstLineLength(a)
  {
    var n, m := FirstLineLength(a), FirstLineLength(a + b);
    assert a[n - 1] == '\n';
    assert (a + b)[n - 1] == '\n';
  }

  lemma LinesAfterFirstLine(a: string, b: string)
    requires a != [] && a[|a| - 1] == '\n'
    ensures Lines(a + b) == [a[..FirstLineLength(a)]] + Lines(a[FirstLineLength(a)..] + b)
  {
    var n := FirstLineLength(a);
    FirstLineOfAppend(a, b);
    assert (a + b)[..n] == a[..n];
    assert (a + b)[n..] == a[n..] + b;
  }

  /** Texts cut after a "\n" are read line by line one after the other. */
  lemma {:induction false} LinesAppend(a: string, b: string)
    requires a == [] || a[|a| - 1] == '\n'
    ensures Lines(a + b) == Lines(a) + Lines(b)
    decreases |a|
  {
    if a == [] {
      assert a + b == b;
    } else {
      var n := FirstLineLength(a);
      var rest := a[n..];
      assert rest == [] || rest[|rest| - 1] == '\n';
      LinesAppend(rest, b);
      LinesAfterFirstLine(a, b);
      AppendAssociates([a[..n]], Lines(rest), Lines(b));
    }
  }

  /** A line followed by text, or a line ending in "\n" followed by more, is the first line. */
  lemma FirstLineOfLine(x: string, y: string)
    requires IsLine(x) && (y == [] || x[|x| - 1] == '\n')
    ensures FirstLineLength(x + y) == |x|
  {
    var text, n := x + y, FirstLineLength(x + y);
    assert forall i :: 0 <= i < |x| - 1 ==> text[i] == x[i];
    assert text[|x| - 1] == '\n' || |x| == |text|;
  }

  /**
   * The facts of `LinesPartitionText` determine the lines: any list of
   * lines that concatenates to the text, holds a "\n" only at the end of a
   * line, and ends every line but the last with one, is `Lines(text)`.
   */
  lemma {:induction false} LinesUnique(text: string, ls: seq<string>)
    requires Concat(ls) == text
    requires forall k :: 0 <= k < |ls| ==> IsLine(ls[k])
    requires forall k :: 0 <= k < |ls| - 1 ==> ls[k] != [] && ls[k][|ls[k]| - 1] == '\n'
    ensures ls == Lines(text)
    decreases |ls|
  {
    if ls != [] {
      var x, rest := ls[0], ls[1..];
      assert ls == [x] + rest;
      ConcatAppend([x], rest);
      assert [x][..0] == [];
      assert text == x + Concat(rest);
      assert IsLine(x);
      assert rest != [] ==> ls[0][|ls[0]| - 1] == '\n';
      FirstLineOfLine(x, Concat(rest));
      var n := FirstLineLength(text);
      assert text[..n] == x && text[n..] == Concat(rest);
      forall k | 0 <= k < |rest| ensures IsLine(rest[k]) {
        assert rest[k] == ls[k + 1];
      }
      forall k | 0 <= k < |rest| - 1 ensures rest[k] != [] && rest[k][|rest[k]| - 1] == '\n' {
        assert rest[k] == ls[k + 1];
      }
      LinesUnique(text[n..], rest);
    }
  }
}
