/** Character-string helpers with the behaviour of the Python built-ins that
    the balancer and the client rely on: `str.split(sep)`, `str.split()`,
    `s[:-1]`, `str.endswith`, `str(n)` and `int(s)` on a decimal numeral. */
module Text {

  datatype Option<T> = None | Some(value: T) {
    /** The wrapped value, or `default` when there is none. */
    function GetOr(default: T): T {
      match this
      case Some(v) => v
      case None => default
    }
  }

  /** Index of the first occurrence of `c` in `s`. */
  function IndexOf(s: string, c: char): (i: nat)
    requires c in s
    ensures i < |s| && s[i] == c && c !in s[..i]
  {
    if s[0] == c then 0
    else
      var j := IndexOf(s[1..], c);
      assert s[..j + 1] == [s[0]] + s[1..][..j];
      1 + j
  }

  // ---------------------------------------------------------------------
  // str.split(sep) with an explicit one-character separator

  /** Python's `s.split(sep)`: the pieces between separators, empty pieces kept. */
  function Split(s: string, sep: char): (parts: seq<string>)
    ensures |parts| >= 1
    ensures sep in s ==> |parts| >= 2
    ensures forall i :: 0 <= i < |parts| ==> sep !in parts[i]
    decreases |s|
  {
    if sep !in s then [s]
    else
      var i := IndexOf(s, sep);
      [s[..i]] + Split(s[i + 1..], sep)
  }

  /** The parts one after another, as they go out one `send` each. */
  function Concat(parts: seq<string>): string
    decreases |parts|
  {
    if parts == [] then [] else Concat(parts[..|parts| - 1]) + parts[|parts| - 1]
  }

  /** Python's `sep.join(parts)`. */
  function Join(parts: seq<string>, sep: char): string
    requires |parts| >= 1
  {
    if |parts| == 1 then parts[0] else parts[0] + [sep] + Join(parts[1..], sep)
  }

  /** Splitting a string whose first piece holds no separator peels that piece off. */
  lemma SplitCons(a: string, sep: char, b: string)
    requires sep !in a
    ensures Split(a + [sep] + b, sep) == [a] + Split(b, sep)
  {
    var s := a + [sep] + b;
    assert s[|a|] == sep;
    assert s[..|a|] == a;
    var i := IndexOf(s, sep);
    assert i == |a|;
    assert s[..i] == a;
    assert s[i + 1..] == b;
  }

  /** Joining and splitting are inverse: split recovers exactly the pieces it was given. */
  lemma {:induction false} SplitJoin(parts: seq<string>, sep: char)
    requires |parts| >= 1
    requires forall i :: 0 <= i < |parts| ==> sep !in parts[i]
    ensures Split(Join(parts, sep), sep) == parts
    decreases |parts|
  {
    if |parts| > 1 {
      var rest := parts[1..];
      assert Join(parts, sep) == parts[0] + [sep] + Join(rest, sep);
      assert forall i :: 0 <= i < |rest| ==> rest[i] == parts[i + 1];
      SplitCons(parts[0], sep, Join(rest, sep));
      SplitJoin(rest, sep);
      assert parts == [parts[0]] + rest;
    } else {
      assert parts == [parts[0]];
    }
  }

  /** ... and in the other direction, joining the pieces restores the string. */
  lemma {:induction false} JoinSplit(s: string, sep: char)
    ensures Join(Split(s, sep), sep) == s
    decreases |s|
  {
    if sep in s {
      var i := IndexOf(s, sep);
      JoinSplit(s[i + 1..], sep);
      assert s == s[..i] + [sep] + s[i + 1..];
    }
  }

  // ---------------------------------------------------------------------
  // str.split() with no argument: runs of whitespace separate the words

  /** The characters Python's `str.isspace()` accepts. */
  predicate IsSpace(c: char) {
    || c == ' ' || c == '\t' || c == '\n' || c == '\r' || c == '\U{B}' || c == '\U{C}'
    || ('\U{1C}' <= c <= '\U{1F}') || c == '\U{85}' || c == '\U{A0}' || c == '\U{1680}'
    || ('\U{2000}' <= c <= '\U{200A}') || c == '\U{2028}' || c == '\U{2029}'
    || c == '\U{202F}' || c == '\U{205F}' || c == '\U{3000}'
  }

  predicate NoSpace(s: string) {
    forall i :: 0 <= i < |s| ==> !IsSpace(s[i])
  }

  /** Printable ASCII other than the space. */
  predicate Visible(s: string) {
    forall i :: 0 <= i < |s| ==> '!' <= s[i] <= '~'
  }

  /** Printable ASCII text holds no whitespace. */
  lemma VisibleNoSpace(s: string)
    requires Visible(s)
    ensures NoSpace(s)
  {
    forall i | 0 <= i < |s|
      ensures !IsSpace(s[i])
    {
      assert '!' <= s[i] <= '~';
    }
  }

  /** Length of the run of non-space characters at the front of `s`. */
  function RunLength(s: string): (n: nat)
    ensures n <= |s|
    ensures NoSpace(s[..n])
    ensures n == |s| || IsSpace(s[n])
  {
    if s == [] || IsSpace(s[0]) then 0
    else
      var m := RunLength(s[1..]);
      assert s[..m + 1] == [s[0]] + s[1..][..m];
      1 + m
  }

  /** Python's `s.split()`: the maximal runs of non-space characters. */
  function Words(s: string): (ws: seq<string>)
    ensures forall i :: 0 <= i < |ws| ==> ws[i] != [] && NoSpace(ws[i])
    decreases |s|
  {
    if s == [] then []
    else if IsSpace(s[0]) then Words(s[1..])
    else
      var n := RunLength(s);
      [s[..n]] + Words(s[n..])
  }

  /** A word followed by a space is the first word. */
  lemma WordsCons(a: string, c: char, b: string)
    requires a != [] && NoSpace(a) && IsSpace(c)
    ensures Words(a + [c] + b) == [a] + Words(b)
  {
    var s := a + [c] + b;
    assert s[..|a|] == a;
    assert IsSpace(s[|a|]);
    var n := RunLength(s);
    assert n == |a|;
    assert s[..n] == a;
    assert s[n..] == [c] + b;
    assert ([c] + b)[1..] == b;
  }

  /** A string that is one word splits into just that word. */
  lemma WordsSingle(a: string)
    requires a != [] && NoSpace(a)
    ensures Words(a) == [a]
  {
    var n := RunLength(a);
    assert n == |a|;
    assert a[..n] == a;
    assert a[n..] == [];
  }

  // ---------------------------------------------------------------------
  // Slicing and suffixes

  /** Python's `s[:-1]`: all but the last character; empty stays empty. */
  function DropLast(s: string): (r: string)
    ensures |s| > 0 ==> s == r + [s[|s| - 1]]
    ensures |s| == 0 ==> r == []
  {
    if |s| == 0 then [] else s[..|s| - 1]
  }

  /** Python's `s.endswith(suffix)`. */
  predicate EndsWith(s: string, suffix: string) {
    |suffix| <= |s| && s[|s| - |suffix|..] == suffix
  }

  // ---------------------------------------------------------------------
  // Decimal numerals: str(n) and int(s)

  predicate IsDigit(c: char) {
    '0' <= c <= '9'
  }

  /** A non-empty string of ASCII digits: the form of `int()` input modelled here. */
  predicate IsNumeral(s: string) {
    |s| > 0 && forall i :: 0 <= i < |s| ==> IsDigit(s[i])
  }

  function DigitChar(d: nat): (c: char)
    requires d < 10
    ensures IsDigit(c)
  {
    ((d + '0' as int) as char)
  }

  function DigitValue(c: char): (d: nat)
    requires IsDigit(c)
    ensures d < 10
  {
    (c as int) - ('0' as int)
  }

  /** Python's `str(n)` for a non-negative integer. */
  function Decimal(n: nat): (s: string)
    ensures IsNumeral(s)
    decreases n
  {
    if n < 10 then [DigitChar(n)] else Decimal(n / 10) + [DigitChar(n % 10)]
  }

  /** Python's `int(s)` for a decimal numeral (leading zeros allowed). */
  function NumeralValue(s: string): nat
    requires IsNumeral(s)
    decreases |s|
  {
    if |s| == 1 then DigitValue(s[0])
    else 10 * NumeralValue(s[..|s| - 1]) + DigitValue(s[|s| - 1])
  }

  /** `int(str(n)) == n`. */
  lemma {:induction false} NumeralOfDecimal(n: nat)
    ensures NumeralValue(Decimal(n)) == n
    decreases n
  {
    if n >= 10 {
      var s := Decimal(n);
      assert s[..|s| - 1] == Decimal(n / 10);
      NumeralOfDecimal(n / 10);
    }
  }

  /** Every numeral is free of whitespace. */
  lemma NumeralNoSpace(s: string)
    requires IsNumeral(s)
    ensures NoSpace(s) && ' ' !in s
  {
  }
}
