/**
 * The .NET string operations the demo-selection code relies on: white-space tests,
 * ordinal case-insensitive comparison, `Split`/`Join` on one separator, `TrimEnd`,
 * `LastIndexOf`, `int.Parse` and integer formatting.
 */
module Text {
  import opened Wrappers

  // ---------------------------------------------------------------------------
  // Character classes
  // ---------------------------------------------------------------------------

  /** `char.IsWhiteSpace`: the Unicode White_Space characters. */
  predicate IsWhiteSpace(c: char) {
    c == ' ' || ('\t' <= c <= '\r') || c == '\U{85}' || c == '\U{A0}' || c == '\U{1680}'
    || ('\U{2000}' <= c <= '\U{200A}') || c == '\U{2028}' || c == '\U{2029}'
    || c == '\U{202F}' || c == '\U{205F}' || c == '\U{3000}'
  }

  /** `string.IsNullOrWhiteSpace` on a non-null string: empty or white space only. */
  predicate IsBlank(s: string) {
    forall i :: 0 <= i < |s| ==> IsWhiteSpace(s[i])
  }

  /** Case folding used by `StringComparison.OrdinalIgnoreCase` on ASCII letters. */
  function FoldCase(c: char): (r: char)
    ensures 'a' <= c <= 'z' ==> 'A' <= r <= 'Z' && r as int + 32 == c as int
    ensures !('a' <= c <= 'z') ==> r == c
  {
    if 'a' <= c <= 'z' then (c as int - 32) as char else c
  }

  /** `a.Equals(b, StringComparison.OrdinalIgnoreCase)`. */
  predicate EqualsIgnoreCase(a: string, b: string) {
    |a| == |b| && forall i :: 0 <= i < |a| ==> FoldCase(a[i]) == FoldCase(b[i])
  }

  /** `t` occurs in `s` at offset `i`, ignoring case. */
  predicate MatchesAt(s: string, t: string, i: int) {
    0 <= i && i + |t| <= |s| && EqualsIgnoreCase(s[i..i + |t|], t)
  }

  /** `s.Contains(t, StringComparison.OrdinalIgnoreCase)`; the empty string occurs everywhere. */
  predicate ContainsIgnoreCase(s: string, t: string) {
    exists i :: 0 <= i <= |s| - |t| && MatchesAt(s, t, i)
  }

  /** ASCII upper-casing of a whole string, as `ToUpperInvariant` does on ASCII text. */
  function ToUpper(s: string): (r: string)
    ensures |r| == |s|
    ensures forall i :: 0 <= i < |s| ==> r[i] == FoldCase(s[i])
  {
    seq(|s|, i requires 0 <= i < |s| => FoldCase(s[i]))
  }

  // ---------------------------------------------------------------------------
  // Searching, splitting and joining
  // ---------------------------------------------------------------------------

  /** Position of the first `c` in `s`. */
  function FirstIndex(s: string, c: char): (i: nat)
    requires c in s
    ensures i < |s| && s[i] == c
    ensures forall j :: 0 <= j < i ==> s[j] != c
    ensures c !in s[..i]
  {
    if s[0] == c then 0
    else
      var j := FirstIndex(s[1..], c);
      assert s[..j + 1] == [s[0]] + s[1..][..j];
      j + 1
  }

  /** `s.LastIndexOf(c)`, with `None` for -1. */
  function LastIndexOf(s: string, c: char): (r: Option<nat>)
    ensures r.None? <==> c !in s
    ensures r.Some? ==> r.value < |s| && s[r.value] == c && c !in s[r.value + 1..]
  {
    if |s| == 0 then None
    else if s[|s| - 1] == c then Some(|s| - 1)
    else
      var r := LastIndexOf(s[..|s| - 1], c);
      assert s == s[..|s| - 1] + [s[|s| - 1]];
      if r.Some? then
        assert s[r.value + 1..] == s[..|s| - 1][r.value + 1..] + [s[|s| - 1]];
        r
      else r
  }

  /** `s.Split(sep)`: every piece, empty ones included; never an empty array. */
  function Split(s: string, sep: char): (parts: seq<string>)
    ensures |parts| >= 1
    decreases |s|
  {
    if sep !in s then [s]
    else
      var i := FirstIndex(s, sep);
      [s[..i]] + Split(s[i + 1..], sep)
  }

  /** No piece of a split contains the separator. */
  lemma {:induction false} SplitPieces(s: string, sep: char)
    ensures forall k :: 0 <= k < |Split(s, sep)| ==> sep !in Split(s, sep)[k]
    decreases |s|
  {
    if sep in s {
      var i := FirstIndex(s, sep);
      SplitPieces(s[i + 1..], sep);
    }
  }

  /** `string.Join(sep, parts)`. */
  function Join(parts: seq<string>, sep: string): string {
    if |parts| == 0 then ""
    else if |parts| == 1 then parts[0]
    else parts[0] + sep + Join(parts[1..], sep)
  }

  /** Number of occurrences of `c` in `s`. */
  function Count(s: string, c: char): nat {
    if |s| == 0 then 0 else (if s[0] == c then 1 else 0) + Count(s[1..], c)
  }

  lemma CountAppend(a: string, b: string, c: char)
    ensures Count(a + b, c) == Count(a, c) + Count(b, c)
  {
    if |a| > 0 {
      assert (a + b)[0] == a[0];
      assert (a + b)[1..] == a[1..] + b;
      CountAppend(a[1..], b, c);
    } else {
      assert a + b == b;
    }
  }

  lemma CountAbsent(s: string, c: char)
    requires c !in s
    ensures Count(s, c) == 0
  {
  }

  /** The first separator of `s` sits at `i`, so `Split` cuts there. */
  lemma SplitAt(s: string, c: char, i: nat)
    requires i < |s| && s[i] == c
    requires forall j :: 0 <= j < i ==> s[j] != c
    ensures Split(s, c) == [s[..i]] + Split(s[i + 1..], c)
  {
  }

  lemma ConsAppend<T>(h: T, a: seq<T>, b: seq<T>)
    ensures [h] + (a + b) == ([h] + a) + b
  {
  }

  /** Splitting at one separator splits the two sides independently. */
  lemma {:induction false} SplitAround(x: string, y: string, c: char)
    ensures Split(x + [c] + y, c) == Split(x, c) + Split(y, c)
    decreases |x|
  {
    var s := x + [c] + y;
    var b := Split(y, c);
    if c in x {
      var k := FirstIndex(x, c);
      var head := x[..k];
      var a := Split(x[k + 1..], c);
      assert s[..k] == head;
      SplitAt(s, c, k);
      SplitAt(x, c, k);
      assert s[k + 1..] == x[k + 1..] + [c] + y;
      SplitAround(x[k + 1..], y, c);
      assert Split(s, c) == [head] + (a + b);
      assert Split(x, c) == [head] + a;
      ConsAppend(head, a, b);
    } else {
      assert s[..|x|] == x;
      assert forall j :: 0 <= j < |x| ==> s[j] == x[j];
      SplitAt(s, c, |x|);
      assert s[|x| + 1..] == y;
      assert Split(s, c) == [x] + b;
      assert Split(x, c) == [x];
    }
  }

  /** Joining a head before at least one more piece puts one separator between them. */
  lemma JoinCons(head: string, rest: seq<string>, sep: string)
    requires |rest| >= 1
    ensures Join([head] + rest, sep) == head + sep + Join(rest, sep)
  {
    assert ([head] + rest)[0] == head;
    assert ([head] + rest)[1..] == rest;
  }

  /** Joining two non-empty lists of pieces puts one separator between their joins. */
  lemma {:induction false} JoinAppend(a: seq<string>, b: seq<string>, sep: string)
    requires |a| >= 1 && |b| >= 1
    ensures Join(a + b, sep) == Join(a, sep) + sep + Join(b, sep)
    decreases |a|
  {
    if |a| == 1 {
      assert a + b == [a[0]] + b;
      JoinCons(a[0], b, sep);
    } else {
      var rest := a[1..];
      assert a + b == [a[0]] + (rest + b);
      assert a == [a[0]] + rest;
      JoinCons(a[0], rest + b, sep);
      JoinAppend(rest, b, sep);
      JoinCons(a[0], rest, sep);
    }
  }

  /** A string holding the separator is its first piece, the separator, and the rest, and splits so. */
  lemma SplitFirst(s: string, c: char)
    requires c in s
    ensures var i := FirstIndex(s, c);
      && s == s[..i] + [c] + s[i + 1..]
      && Split(s, c) == [s[..i]] + Split(s[i + 1..], c)
  {
  }

  /** `Join` undoes `Split`: re-joining the pieces with the separator gives back the string. */
  lemma {:induction false} JoinSplit(s: string, c: char)
    ensures Join(Split(s, c), [c]) == s
    decreases |s|
  {
    if c in s {
      var i := FirstIndex(s, c);
      var rest := Split(s[i + 1..], c);
      SplitFirst(s, c);
      JoinSplit(s[i + 1..], c);
      JoinCons(s[..i], rest, [c]);
    } else {
      assert Split(s, c) == [s];
    }
  }

  /** `Split` undoes `Join` when no piece contains the separator. */
  lemma {:induction false} SplitJoin(parts: seq<string>, c: char)
    requires |parts| >= 1
    requires forall k :: 0 <= k < |parts| ==> c !in parts[k]
    ensures Split(Join(parts, [c]), c) == parts
    decreases |parts|
  {
    if |parts| > 1 {
      var tail := Join(parts[1..], [c]);
      assert Join(parts, [c]) == parts[0] + [c] + tail;
      SplitJoin(parts[1..], c);
      SplitAround(parts[0], tail, c);
      assert Split(parts[0], c) == [parts[0]];
      assert parts == [parts[0]] + parts[1..];
    }
  }

  /** A string with `n` separators splits into `n + 1` pieces. */
  lemma {:induction false} SplitLength(s: string, c: char)
    ensures |Split(s, c)| == Count(s, c) + 1
    decreases |s|
  {
    if c in s {
      var i := FirstIndex(s, c);
      SplitLength(s[i + 1..], c);
      assert s == s[..i] + [c] + s[i + 1..];
      CountAppend(s[..i] + [c], s[i + 1..], c);
      CountAppend(s[..i], [c], c);
      CountAbsent(s[..i], c);
    } else {
      CountAbsent(s, c);
    }
  }

  /** `s.TrimEnd(c)`: drops every trailing `c`. */
  function TrimEnd(s: string, c: char): (r: string)
    ensures |r| <= |s| && r == s[..|r|]
    ensures |r| > 0 ==> r[|r| - 1] != c
    ensures forall i :: |r| <= i < |s| ==> s[i] == c
  {
    if |s| > 0 && s[|s| - 1] == c then TrimEnd(s[..|s| - 1], c) else s
  }

  // ---------------------------------------------------------------------------
  // Integers as text
  // ---------------------------------------------------------------------------

  const Int32Min: int := -0x8000_0000
  const Int32Max: int := 0x7FFF_FFFF

  predicate IsDigit(c: char) { '0' <= c <= '9' }

  predicate AllDigits(s: string) {
    forall i :: 0 <= i < |s| ==> IsDigit(s[i])
  }

  function DigitChar(d: nat): (c: char)
    requires d < 10
    ensures IsDigit(c)
  {
    ('0' as int + d) as char
  }

  /** Value of a string of decimal digits. */
  function DigitsValue(s: string): nat
    requires AllDigits(s)
  {
    if |s| == 0 then 0 else 10 * DigitsValue(s[..|s| - 1]) + (s[|s| - 1] as int - '0' as int)
  }

  /** Shortest decimal rendering of a natural number, as `int.ToString()` prints it. */
  function Decimal(n: nat): (s: string)
    ensures |s| >= 1 && AllDigits(s)
  {
    if n < 10 then [DigitChar(n)] else Decimal(n / 10) + [DigitChar(n % 10)]
  }

  /** `i.ToString()` for an integer: a minus sign before the digits when negative. */
  function IntToString(i: int): (s: string)
    ensures |s| >= 1
    ensures i >= 0 ==> AllDigits(s)
    ensures i < 0 ==> s[0] == '-' && AllDigits(s[1..])
  {
    if i < 0 then "-" + Decimal(-i) else Decimal(i)
  }

  lemma {:induction false} DecimalValue(n: nat)
    ensures DigitsValue(Decimal(n)) == n
  {
    if n >= 10 {
      DecimalValue(n / 10);
      var s := Decimal(n);
      assert s[..|s| - 1] == Decimal(n / 10);
    }
  }

  /** White space that number parsing skips around the digits (`NumberStyles.Integer`). */
  predicate IsNumberWhite(c: char) {
    c == ' ' || ('\t' <= c <= '\r')
  }

  /** Where `int.Parse` is while it reads a token from left to right. */
  datatype ScanState =
    | Leading                           // white space before the number
    | Signed(negative: bool)            // just read a `+` or `-`
    | InDigits(negative: bool, value: nat)  // inside the digits, `value` read so far
    | Trailing(negative: bool, value: nat)  // white space after the digits

  function DigitValue(c: char): nat
    requires IsDigit(c)
  {
    c as int - '0' as int
  }

  /** The number a scan ends with, when it may end in state `st`. */
  function Finish(st: ScanState): (r: Option<int>)
    ensures r.Some? ==> Int32Min <= r.value <= Int32Max
    ensures r.Some? ==> st.InDigits? || st.Trailing?
  {
    match st
    case InDigits(neg, v) => InRange(neg, v)
    case Trailing(neg, v) => InRange(neg, v)
    case _ => None
  }

  /** The signed value, unless it lies outside the 32-bit range (`OverflowException`). */
  function InRange(negative: bool, v: nat): (r: Option<int>)
    ensures r.Some? <==> (if negative then v <= -Int32Min else v <= Int32Max)
    ensures r.Some? ==> r.value == (if negative then -(v as int) else v)
  {
    var x: int := if negative then -(v as int) else v;
    if Int32Min <= x <= Int32Max then Some(x) else None
  }

  /** Reads `s[i..]` from state `st`; `None` where `int.Parse` throws. */
  function Scan(s: string, i: nat, st: ScanState): Option<int>
    requires i <= |s|
    decreases |s| - i
  {
    if i == |s| then Finish(st)
    else
      var c := s[i];
      match st
      case Leading =>
        if IsNumberWhite(c) then Scan(s, i + 1, Leading)
        else if c == '-' || c == '+' then Scan(s, i + 1, Signed(c == '-'))
        else if IsDigit(c) then Scan(s, i + 1, InDigits(false, DigitValue(c)))
        else None
      case Signed(neg) =>
        if IsDigit(c) then Scan(s, i + 1, InDigits(neg, DigitValue(c))) else None
      case InDigits(neg, v) =>
        if IsDigit(c) then Scan(s, i + 1, InDigits(neg, 10 * v + DigitValue(c)))
        else if IsNumberWhite(c) then Scan(s, i + 1, Trailing(neg, v))
        else None
      case Trailing(neg, v) =>
        if IsNumberWhite(c) then Scan(s, i + 1, Trailing(neg, v)) else None
  }

  /**
   * `int.Parse(s)` with `NumberStyles.Integer` and the sign strings `+` and `-`:
   * optional white space, an optional sign, at least one decimal digit, optional
   * white space, and a value in the 32-bit range. Every other input throws,
   * modelled as `None`.
   */
  function ParseInt32(s: string): (r: Option<int>)
    ensures r.Some? ==> Int32Min <= r.value <= Int32Max
  {
    ScanBounded(s, 0, Leading);
    Scan(s, 0, Leading)
  }

  lemma {:induction false} ScanBounded(s: string, i: nat, st: ScanState)
    requires i <= |s|
    ensures Scan(s, i, st).Some? ==> Int32Min <= Scan(s, i, st).value <= Int32Max
    decreases |s| - i
  {
    if i < |s| {
      var c := s[i];
      match st
      case Leading =>
        if IsNumberWhite(c) { ScanBounded(s, i + 1, Leading); }
        else if c == '-' || c == '+' { ScanBounded(s, i + 1, Signed(c == '-')); }
        else if IsDigit(c) { ScanBounded(s, i + 1, InDigits(false, DigitValue(c))); }
      case Signed(neg) =>
        if IsDigit(c) { ScanBounded(s, i + 1, InDigits(neg, DigitValue(c))); }
      case InDigits(neg, v) =>
        if IsDigit(c) { ScanBounded(s, i + 1, InDigits(neg, 10 * v + DigitValue(c))); }
        else if IsNumberWhite(c) { ScanBounded(s, i + 1, Trailing(neg, v)); }
      case Trailing(neg, v) =>
        if IsNumberWhite(c) { ScanBounded(s, i + 1, Trailing(neg, v)); }
    }
  }

  /** A character `int.Parse` may meet in a token it accepts. */
  predicate NumericChar(c: char) {
    IsDigit(c) || IsNumberWhite(c) || c == '+' || c == '-'
  }

  /** Made of digits, signs and number white space, with at least one digit. */
  predicate NumericShape(s: string) {
    && (exists i :: 0 <= i < |s| && IsDigit(s[i]))
    && (forall i :: 0 <= i < |s| ==> NumericChar(s[i]))
  }

  /** A scan that succeeds has read only numeric characters, and a digit somewhere. */
  lemma {:induction false} ScanShape(s: string, i: nat, st: ScanState)
    requires i <= |s| && Scan(s, i, st).Some?
    ensures forall j :: i <= j < |s| ==> NumericChar(s[j])
    ensures st.InDigits? || st.Trailing? || exists j :: i <= j < |s| && IsDigit(s[j])
    decreases |s| - i
  {
    if i < |s| {
      var c := s[i];
      match st
      case Leading =>
        if IsNumberWhite(c) { ScanShape(s, i + 1, Leading); }
        else if c == '-' || c == '+' { ScanShape(s, i + 1, Signed(c == '-')); }
        else { ScanShape(s, i + 1, InDigits(false, DigitValue(c))); }
      case Signed(neg) =>
        ScanShape(s, i + 1, InDigits(neg, DigitValue(c)));
      case InDigits(neg, v) =>
        if IsDigit(c) { ScanShape(s, i + 1, InDigits(neg, 10 * v + DigitValue(c))); }
        else { ScanShape(s, i + 1, Trailing(neg, v)); }
      case Trailing(neg, v) =>
        ScanShape(s, i + 1, Trailing(neg, v));
    }
  }

  /** Only a token of numeric shape parses as an `int`. */
  lemma ParseInt32Shape(s: string)
    requires ParseInt32(s).Some?
    ensures NumericShape(s)
  {
    ScanShape(s, 0, Leading);
  }

  /** Once inside an all-digit token, the scan accumulates exactly `DigitsValue`, with either sign. */
  lemma {:induction false} ScanDigits(s: string, i: nat, negative: bool)
    requires AllDigits(s) && 1 <= i <= |s|
    ensures Scan(s, i, InDigits(negative, DigitsValue(s[..i]))) == InRange(negative, DigitsValue(s))
    decreases |s| - i
  {
    if i == |s| {
      assert s[..i] == s;
    } else {
      assert s[..i + 1][..i] == s[..i];
      ScanDigits(s, i + 1, negative);
    }
  }

  /** What precedes position `|p|` does not change how the rest is read. */
  lemma {:induction false} ScanShift(p: string, t: string, i: nat, st: ScanState)
    requires i <= |t|
    ensures Scan(p + t, |p| + i, st) == Scan(t, i, st)
    decreases |t| - i
  {
    if i < |t| {
      assert (p + t)[|p| + i] == t[i];
      match st
      case Leading =>
        ScanShift(p, t, i + 1, Leading);
        ScanShift(p, t, i + 1, Signed(t[i] == '-'));
        if IsDigit(t[i]) { ScanShift(p, t, i + 1, InDigits(false, DigitValue(t[i]))); }
      case Signed(neg) =>
        if IsDigit(t[i]) { ScanShift(p, t, i + 1, InDigits(neg, DigitValue(t[i]))); }
      case InDigits(neg, v) =>
        if IsDigit(t[i]) { ScanShift(p, t, i + 1, InDigits(neg, 10 * v + DigitValue(t[i]))); }
        ScanShift(p, t, i + 1, Trailing(neg, v));
      case Trailing(neg, v) =>
        ScanShift(p, t, i + 1, Trailing(neg, v));
    }
  }

  /** `int.Parse` reads back what `ToString` writes, for every non-negative `int`. */
  lemma ParseDecimal(n: nat)
    requires n <= Int32Max
    ensures ParseInt32(Decimal(n)) == Some(n)
  {
    var s := Decimal(n);
    assert s[..1][..0] == [];
    ScanDigits(s, 1, false);
    DecimalValue(n);
  }

  /**
   * Round trip of `int.ToString()` and `int.Parse`: every 32-bit value, negative
   * ones included, is read back from its decimal text.
   */
  lemma ParseIntToString(i: int)
    requires Int32Min <= i <= Int32Max
    ensures ParseInt32(IntToString(i)) == Some(i)
  {
    if i >= 0 {
      ParseDecimal(i);
    } else {
      var d := Decimal(-i);
      DecimalValue(-i);
      assert d[..1][..0] == [];
      ScanDigits(d, 1, true);
      ScanShift("-", d, 0, Signed(true));
      assert Scan(d, 0, Signed(true)) == Scan(d, 1, InDigits(true, DigitValue(d[0])));
    }
  }

  /** An all-digit token can still fail: one whose value exceeds the 32-bit range throws. */
  lemma OverflowUnparsable(s: string)
    requires |s| >= 1 && AllDigits(s) && DigitsValue(s) > Int32Max
    ensures ParseInt32(s) == None
  {
    assert s[..1][..0] == [];
    ScanDigits(s, 1, false);
  }
}
