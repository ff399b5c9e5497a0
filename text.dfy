/** String helpers the hierarchy scripts rely on: Python's `" ; ".join`, its
    inverse `str.split(" ; ")`, and the decimal rendering `str(n)` / parsing
    `int(digits)` of non-negative integers. Strings are sequences of
    characters; digits are the ASCII digits. */
module Text {

  /** The separator both path strings are joined with. */
  const Separator: string := " ; "

  /** `Separator.join(parts)`. */
  function Join(parts: seq<string>): string
  {
    if |parts| == 0 then ""
    else if |parts| == 1 then parts[0]
    else parts[0] + Separator + Join(parts[1..])
  }

  /** `s.split(Separator)`: left to right, non-overlapping occurrences. */
  function Split(s: string): seq<string>
  {
    SplitFrom(s, "")
  }

  /** Splits `s`, where `part` is the part read so far before `s`. */
  function SplitFrom(s: string, part: string): (parts: seq<string>)
    ensures |parts| >= 1
    decreases |s|
  {
    if |s| < |Separator| then [part + s]
    else if s[..|Separator|] == Separator then [part] + SplitFrom(s[|Separator|..], "")
    else SplitFrom(s[1..], part + [s[0]])
  }

  predicate NoSemicolon(s: string)
  {
    forall i :: 0 <= i < |s| ==> s[i] != ';'
  }

  /** Reading past a piece without ';' cannot meet a separator, provided the
      text after the piece does not start with ';'. */
  lemma {:induction false} SplitFromSkips(x: string, rest: string, part: string)
    requires NoSemicolon(x)
    requires rest == [] || rest[0] != ';'
    ensures SplitFrom(x + rest, part) == SplitFrom(rest, part + x)
    decreases |x|
  {
    if x == [] {
      assert x + rest == rest;
      assert part + x == part;
    } else {
      var s := x + rest;
      if |s| < |Separator| {
        assert part + s == (part + x) + rest;
      } else {
        assert s[1] != ';';
        assert s[..|Separator|] != Separator;
        assert s[1..] == x[1..] + rest;
        SplitFromSkips(x[1..], rest, part + [s[0]]);
        assert part + [s[0]] + x[1..] == part + x;
      }
    }
  }

  /** Splitting a joined list gives the list back, provided no part contains
      a ';'. A part merely free of " ; " is not enough: ["a ;", " b"] joins
      to "a ; ;  b", which splits into ["a", ";  b"]. */
  lemma {:induction false} SplitJoin(parts: seq<string>)
    requires |parts| >= 1
    requires forall i :: 0 <= i < |parts| ==> NoSemicolon(parts[i])
    ensures Split(Join(parts)) == parts
    decreases |parts|
  {
    if |parts| == 1 {
      SplitFromSkips(parts[0], "", "");
      assert parts[0] + "" == parts[0];
      assert "" + parts[0] == parts[0];
    } else {
      var rest := Separator + Join(parts[1..]);
      assert Join(parts) == parts[0] + rest;
      SplitFromSkips(parts[0], rest, "");
      assert "" + parts[0] == parts[0];
      assert rest[..|Separator|] == Separator;
      assert rest[|Separator|..] == Join(parts[1..]);
      SplitJoin(parts[1..]);
      assert parts == [parts[0]] + parts[1..];
    }
  }

  lemma JoinCons(x: string, tail: seq<string>)
    requires |tail| >= 1
    ensures Join([x] + tail) == x + Separator + Join(tail)
  {
    assert ([x] + tail)[1..] == tail;
  }

  /** Joining the parts of any string gives the string back. */
  lemma {:induction false} JoinSplitFrom(s: string, part: string)
    ensures Join(SplitFrom(s, part)) == part + s
    decreases |s|
  {
    if |s| < |Separator| {
      assert SplitFrom(s, part) == [part + s];
    } else if s[..|Separator|] == Separator {
      var after := s[|Separator|..];
      var tail := SplitFrom(after, "");
      assert SplitFrom(s, part) == [part] + tail;
      JoinSplitFrom(after, "");
      JoinCons(part, tail);
      assert "" + after == after;
      assert s == Separator + after;
      Associative(part, Separator, after);
    } else {
      assert SplitFrom(s, part) == SplitFrom(s[1..], part + [s[0]]);
      JoinSplitFrom(s[1..], part + [s[0]]);
      assert s == [s[0]] + s[1..];
      Associative(part, [s[0]], s[1..]);
    }
  }

  lemma ButLast<T>(s: seq<T>)
    requires |s| >= 1
    ensures s == s[..|s| - 1] + [s[|s| - 1]]
  {
  }

  lemma Associative<T>(x: seq<T>, y: seq<T>, z: seq<T>)
    ensures x + (y + z) == (x + y) + z
  {
  }

  lemma JoinSplit(s: string)
    ensures Join(Split(s)) == s
  {
    JoinSplitFrom(s, "");
    assert "" + s == s;
  }

  /** `t` occurs in `s` starting at position `i`. */
  predicate OccursAt(s: string, t: string, i: int)
  {
    0 <= i <= |s| - |t| && s[i..i + |t|] == t
  }

  /** Python's `t in s` on strings: `t` occurs in `s` at some position. */
  predicate Contains(s: string, t: string)
  {
    exists i :: 0 <= i <= |s| - |t| && OccursAt(s, t, i)
  }

  // Decimal numbers

  predicate IsDigit(c: char)
  {
    '0' <= c <= '9'
  }

  predicate AllDigits(s: string)
  {
    forall i :: 0 <= i < |s| ==> IsDigit(s[i])
  }

  function DigitChar(d: nat): (c: char)
    requires d < 10
    ensures IsDigit(c)
  {
    (48 + d) as char
  }

  function DigitValue(c: char): nat
    requires IsDigit(c)
  {
    c as int - 48
  }

  /** `str(n)` for a non-negative integer: no sign, no leading zeros. */
  function NatToDecimal(n: nat): (s: string)
    ensures |s| >= 1 && AllDigits(s)
    ensures |s| > 1 ==> s[0] != '0'
  {
    if n < 10 then [DigitChar(n)]
    else NatToDecimal(n / 10) + [DigitChar(n % 10)]
  }

  /** `int(s)` for a string of decimal digits (leading zeros allowed). */
  function DecimalValue(s: string): nat
    requires AllDigits(s)
  {
    if s == [] then 0
    else DecimalValue(s[..|s| - 1]) * 10 + DigitValue(s[|s| - 1])
  }

  lemma {:induction false} DecimalRoundTrip(n: nat)
    ensures DecimalValue(NatToDecimal(n)) == n
  {
    if n >= 10 {
      var s := NatToDecimal(n);
      assert s[..|s| - 1] == NatToDecimal(n / 10);
      DecimalRoundTrip(n / 10);
    }
  }

  /** The longest prefix of `s` made of digits (what a greedy `\d+` takes). */
  function LeadingDigits(s: string): (d: string)
    ensures AllDigits(d) && d <= s
    ensures |d| < |s| ==> !IsDigit(s[|d|])
  {
    if s == [] || !IsDigit(s[0]) then []
    else [s[0]] + LeadingDigits(s[1..])
  }

  /** A digit run followed by a non-digit is exactly what LeadingDigits takes. */
  lemma {:induction false} LeadingDigitsOf(d: string, rest: string)
    requires AllDigits(d)
    requires rest == [] || !IsDigit(rest[0])
    ensures LeadingDigits(d + rest) == d
    decreases |d|
  {
    if d == [] {
      assert d + rest == rest;
    } else {
      assert (d + rest)[1..] == d[1..] + rest;
      LeadingDigitsOf(d[1..], rest);
    }
  }
}
