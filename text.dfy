/** Character and string operations the record service and the browser client
    rely on: ASCII lower-casing, substring search, joining and splitting on a
    separator, and the decimal rendering of integers and of hundredths. */
module Text {

  // ---------------------------------------------------------------------------
  // Lower-casing and substring search
  // ---------------------------------------------------------------------------

  predicate IsUpper(c: char) {
    'A' <= c <= 'Z'
  }

  /** ASCII lower-casing of one character; everything outside 'A'..'Z' is kept. */
  function LowerChar(c: char): (r: char)
    ensures !IsUpper(r)
    ensures !IsUpper(c) ==> r == c
    ensures IsUpper(c) ==> r as int - c as int == 'a' as int - 'A' as int
  {
    if IsUpper(c) then (c as int - 'A' as int + 'a' as int) as char else c
  }

  /** String.prototype.toLowerCase, restricted to ASCII letters. */
  function Lower(s: string): (r: string)
    ensures |r| == |s|
    ensures forall i :: 0 <= i < |s| ==> r[i] == LowerChar(s[i])
  {
    if |s| == 0 then "" else [LowerChar(s[0])] + Lower(s[1..])
  }

  /** Lower-casing twice is lower-casing once. */
  lemma LowerIdempotent(s: string)
    ensures Lower(Lower(s)) == Lower(s)
  {
    var once := Lower(s);
    assert forall i :: 0 <= i < |s| ==> Lower(once)[i] == once[i];
  }

  /** `t` occurs in `s` starting at index `i`. */
  predicate OccursAt(s: string, t: string, i: int) {
    0 <= i && i + |t| <= |s| && s[i..i + |t|] == t
  }

  /** String.prototype.includes: some window of `s` spells `t`. */
  function Includes(s: string, t: string): (r: bool)
    ensures r <==> exists i :: OccursAt(s, t, i)
    decreases |s|
  {
    if |s| < |t| then
      false
    else if s[..|t|] == t then
      assert OccursAt(s, t, 0);
      true
    else
      ShiftOccurrence(s, t);
      Includes(s[1..], t)
  }

  /** Dropping a first character that does not start a match keeps the set of matches. */
  lemma ShiftOccurrence(s: string, t: string)
    requires |t| <= |s| && s[..|t|] != t
    ensures (exists i :: OccursAt(s, t, i)) <==> (exists i :: OccursAt(s[1..], t, i))
  {
    assert |s| > 0;
    forall i | OccursAt(s, t, i)
      ensures OccursAt(s[1..], t, i - 1)
    {
      assert i != 0;
      assert s[1..][i - 1..i - 1 + |t|] == s[i..i + |t|];
    }
    forall i | OccursAt(s[1..], t, i)
      ensures OccursAt(s, t, i + 1)
    {
      assert s[1..][i..i + |t|] == s[i + 1..i + 1 + |t|];
    }
  }

  /** Every string includes the empty string. */
  lemma IncludesEmpty(s: string)
    ensures Includes(s, "")
  {
    assert OccursAt(s, "", 0);
  }

  /** Searching for a one-character string is membership of that character. */
  lemma IncludesChar(s: string, c: char)
    ensures Includes(s, [c]) <==> c in s
  {
    if c in s {
      var i :| 0 <= i < |s| && s[i] == c;
      assert OccursAt(s, [c], i);
    }
    if Includes(s, [c]) {
      var i :| OccursAt(s, [c], i);
      assert s[i] == s[i..i + 1][0];
    }
  }

  // ---------------------------------------------------------------------------
  // Array.prototype.join and String.prototype.split on one character
  // ---------------------------------------------------------------------------

  /** `parts.join(sep)`: the parts with one separator between neighbours. */
  function Join(parts: seq<string>, sep: char): string {
    if |parts| == 0 then ""
    else if |parts| == 1 then parts[0]
    else parts[0] + [sep] + Join(parts[1..], sep)
  }

  /** `s.split(sep)`: the maximal separator-free pieces, empty ones included. */
  function Split(s: string, sep: char): (r: seq<string>)
    ensures |r| >= 1
    decreases |s|
  {
    if |s| == 0 then [""]
    else if s[0] == sep then [""] + Split(s[1..], sep)
    else
      var rest := Split(s[1..], sep);
      [[s[0]] + rest[0]] + rest[1..]
  }

  /** Number of occurrences of `c` in `s`. */
  function Occurrences(s: string, c: char): (n: nat)
    ensures n == 0 <==> c !in s
    ensures n <= |s|
  {
    if |s| == 0 then 0 else (if s[0] == c then 1 else 0) + Occurrences(s[1..], c)
  }

  lemma {:induction false} OccurrencesAppend(a: string, b: string, c: char)
    ensures Occurrences(a + b, c) == Occurrences(a, c) + Occurrences(b, c)
    decreases |a|
  {
    if |a| > 0 {
      assert (a + b)[1..] == a[1..] + b;
      OccurrencesAppend(a[1..], b, c);
    } else {
      assert a + b == b;
    }
  }

  /** Occurrences of `c` summed over all parts. */
  function SumOccurrences(parts: seq<string>, c: char): nat {
    if |parts| == 0 then 0 else Occurrences(parts[0], c) + SumOccurrences(parts[1..], c)
  }

  /** A join holds the separator once between each pair of neighbours, plus
      wherever the parts themselves hold it. */
  lemma {:induction false} OccurrencesJoin(parts: seq<string>, sep: char)
    requires |parts| >= 1
    ensures Occurrences(Join(parts, sep), sep) == |parts| - 1 + SumOccurrences(parts, sep)
    decreases |parts|
  {
    if |parts| > 1 {
      OccurrencesJoin(parts[1..], sep);
      OccurrencesAppend(parts[0], [sep], sep);
      OccurrencesAppend(parts[0] + [sep], Join(parts[1..], sep), sep);
    }
  }

  /** Any other character occurs in a join exactly as often as in the parts. */
  lemma {:induction false} OccurrencesJoinOther(parts: seq<string>, sep: char, c: char)
    requires c != sep
    ensures Occurrences(Join(parts, sep), c) == SumOccurrences(parts, c)
    decreases |parts|
  {
    if |parts| == 1 {
      assert parts[1..] == [];
    } else if |parts| > 1 {
      OccurrencesJoinOther(parts[1..], sep, c);
      OccurrencesAppend(parts[0], [sep], c);
      OccurrencesAppend(parts[0] + [sep], Join(parts[1..], sep), c);
    }
  }

  /** Splitting yields one piece more than there are separators. */
  lemma {:induction false} SplitLength(s: string, sep: char)
    ensures |Split(s, sep)| == Occurrences(s, sep) + 1
    decreases |s|
  {
    if |s| > 0 {
      SplitLength(s[1..], sep);
    }
  }

  /** A separator-free piece followed by the separator splits off as one field. */
  lemma {:induction false} SplitFirstField(p: string, sep: char, rest: string)
    requires sep !in p
    ensures Split(p + [sep] + rest, sep) == [p] + Split(rest, sep)
    decreases |p|
  {
    var s := p + [sep] + rest;
    if |p| == 0 {
      assert s == [sep] + rest;
      assert s[1..] == rest;
    } else {
      assert s[0] == p[0];
      assert s[1..] == p[1..] + [sep] + rest;
      SplitFirstField(p[1..], sep, rest);
      assert [p[0]] + p[1..] == p;
    }
  }

  /** A separator-free string splits to itself. */
  lemma {:induction false} SplitNoSeparator(p: string, sep: char)
    requires sep !in p
    ensures Split(p, sep) == [p]
    decreases |p|
  {
    if |p| > 0 {
      SplitNoSeparator(p[1..], sep);
      assert [p[0]] + p[1..] == p;
    }
  }

  /** Splitting undoes joining when no part contains the separator. */
  lemma {:induction false} SplitJoin(parts: seq<string>, sep: char)
    requires |parts| >= 1
    requires forall k :: 0 <= k < |parts| ==> sep !in parts[k]
    ensures Split(Join(parts, sep), sep) == parts
    decreases |parts|
  {
    if |parts| == 1 {
      SplitNoSeparator(parts[0], sep);
    } else {
      SplitFirstField(parts[0], sep, Join(parts[1..], sep));
      SplitJoin(parts[1..], sep);
      assert [parts[0]] + parts[1..] == parts;
    }
  }

  /** Joining undoes splitting, for every string. */
  lemma {:induction false} JoinSplit(s: string, sep: char)
    ensures Join(Split(s, sep), sep) == s
    decreases |s|
  {
    if |s| > 0 {
      JoinSplit(s[1..], sep);
      var rest := Split(s[1..], sep);
      if s[0] == sep {
        assert ([""] + rest)[1..] == rest;
        assert [s[0]] + s[1..] == s;
      } else {
        var r := [[s[0]] + rest[0]] + rest[1..];
        assert r[1..] == rest[1..];
        if |rest| > 1 {
          assert Join(rest, sep) == rest[0] + [sep] + Join(rest[1..], sep);
        }
        assert [s[0]] + s[1..] == s;
      }
    }
  }

  /** A character that is neither a separator nor in any part is not in the join. */
  lemma {:induction false} JoinAvoids(parts: seq<string>, sep: char, c: char)
    requires c != sep
    requires forall k :: 0 <= k < |parts| ==> c !in parts[k]
    ensures c !in Join(parts, sep)
    decreases |parts|
  {
    if |parts| > 1 {
      JoinAvoids(parts[1..], sep, c);
    }
  }

  // ---------------------------------------------------------------------------
  // Decimal rendering: String(n) for integers, toFixed(2) for hundredths
  // ---------------------------------------------------------------------------

  predicate IsDigit(c: char) {
    '0' <= c <= '9'
  }

  predicate AllDigits(s: string) {
    forall i :: 0 <= i < |s| ==> IsDigit(s[i])
  }

  /** Characters that can appear in a rendered number. */
  predicate IsNumeral(c: char) {
    IsDigit(c) || c == '-' || c == '.'
  }

  predicate AllNumerals(s: string) {
    forall i :: 0 <= i < |s| ==> IsNumeral(s[i])
  }

  function DigitValue(c: char): (d: nat)
    requires IsDigit(c)
    ensures d < 10
  {
    c as int - '0' as int
  }

  function Digit(d: int): (c: char)
    requires 0 <= d < 10
    ensures IsDigit(c) && DigitValue(c) == d
  {
    ('0' as int + d) as char
  }

  /** The decimal digits of `n` without leading zeros. */
  function NatToString(n: nat): (r: string)
    ensures |r| >= 1 && AllDigits(r)
    ensures r[0] == '0' <==> n == 0
    decreases n
  {
    if n < 10 then [Digit(n)] else NatToString(n / 10) + [Digit(n % 10)]
  }

  /** The value of a string of decimal digits. */
  function ParseNat(s: string): nat
    requires AllDigits(s)
    decreases |s|
  {
    if |s| == 0 then 0 else ParseNat(s[..|s| - 1]) * 10 + DigitValue(s[|s| - 1])
  }

  lemma {:induction false} ParseNatToString(n: nat)
    ensures ParseNat(NatToString(n)) == n
    decreases n
  {
    if n >= 10 {
      var s := NatToString(n);
      assert s[..|s| - 1] == NatToString(n / 10);
      ParseNatToString(n / 10);
    }
  }

  /** The template-literal rendering of an integer: a minus sign, then its digits. */
  function IntToString(n: int): (r: string)
    ensures |r| >= 1 && AllNumerals(r)
  {
    if n < 0 then "-" + NatToString(-n) else NatToString(n)
  }

  predicate IsIntText(s: string) {
    if |s| > 0 && s[0] == '-' then AllDigits(s[1..]) else AllDigits(s)
  }

  function ParseInt(s: string): int
    requires IsIntText(s)
  {
    if |s| > 0 && s[0] == '-' then 0 - ParseNat(s[1..]) else ParseNat(s)
  }

  lemma IntToStringRoundTrip(n: int)
    ensures IsIntText(IntToString(n)) && ParseInt(IntToString(n)) == n
  {
    if n < 0 {
      assert IntToString(n)[1..] == NatToString(-n);
      ParseNatToString(-n);
    } else {
      ParseNatToString(n);
    }
  }

  /** The digits of m / 100 with exactly two decimals, for m >= 0 hundredths. */
  function UnsignedFixed2(m: nat): (u: string)
    ensures |u| >= 4 && AllNumerals(u) && IsDigit(u[0])
    ensures u[|u| - 3] == '.'
    ensures u[0] == '0' ==> u[1] == '.'
  {
    NatToString(m / 100) + "." + [Digit(m % 100 / 10), Digit(m % 10)]
  }

  /** Number.prototype.toFixed(2) of h / 100, for an integer count of hundredths
      h: a sign for negative h, the whole part without leading zeros, a point and
      two decimals. JavaScript agrees for the magnitudes an average of three
      scores takes; it switches to exponent notation from 1e21 and is inexact
      beyond 2^53, which this rendering does not follow. */
  function Fixed2(h: int): (r: string)
    ensures |r| >= 4 && AllNumerals(r)
    ensures r[|r| - 3] == '.'
    ensures r[0] == '-' <==> h < 0
    ensures var u := if h < 0 then r[1..] else r; |u| >= 4 && IsDigit(u[0]) && (u[0] == '0' ==> u[1] == '.')
  {
    if h < 0 then "-" + UnsignedFixed2(-h) else UnsignedFixed2(h)
  }

  /** At least one digit, a point, two digits. */
  predicate IsUnsignedFixed2Text(u: string) {
    |u| >= 4 && AllDigits(u[..|u| - 3]) && u[|u| - 3] == '.' && IsDigit(u[|u| - 2]) && IsDigit(u[|u| - 1])
  }

  function ParseUnsignedFixed2(u: string): nat
    requires IsUnsignedFixed2Text(u)
  {
    ParseNat(u[..|u| - 3]) * 100 + DigitValue(u[|u| - 2]) * 10 + DigitValue(u[|u| - 1])
  }

  /** An optional minus sign before an unsigned two-decimal text. */
  predicate IsFixed2Text(s: string) {
    if |s| > 0 && s[0] == '-' then IsUnsignedFixed2Text(s[1..]) else IsUnsignedFixed2Text(s)
  }

  /** The number of hundredths a two-decimal text stands for. */
  function ParseFixed2(s: string): int
    requires IsFixed2Text(s)
  {
    if |s| > 0 && s[0] == '-' then 0 - ParseUnsignedFixed2(s[1..]) else ParseUnsignedFixed2(s)
  }

  lemma UnsignedFixed2RoundTrip(m: nat)
    ensures IsUnsignedFixed2Text(UnsignedFixed2(m)) && ParseUnsignedFixed2(UnsignedFixed2(m)) == m
  {
    var whole := NatToString(m / 100);
    var u := UnsignedFixed2(m);
    assert u[..|u| - 3] == whole;
    ParseNatToString(m / 100);
    assert (m / 100) * 100 + (m % 100 / 10) * 10 + m % 10 == m;
  }

  lemma Fixed2RoundTrip(h: int)
    ensures IsFixed2Text(Fixed2(h)) && ParseFixed2(Fixed2(h)) == h
  {
    if h < 0 {
      UnsignedFixed2RoundTrip(-h);
      assert Fixed2(h)[1..] == UnsignedFixed2(-h);
    } else {
      UnsignedFixed2RoundTrip(h);
    }
  }
}
