/** The two pieces of .NET string behaviour that the CSV row depends on:
    `String.Join(",", fields)` and the decimal `ToString()` of an unsigned integer.
    `Split` is the inverse of `Join` on comma-free fields; it exists so that
    "the row has exactly twelve fields" can be stated about the joined text. */
module Text {

  const Comma: char := ','

  /** `String.Join(",", fields)`: the fields with one comma between neighbours. */
  function Join(fields: seq<string>): (s: string)
    ensures |fields| == 1 ==> s == fields[0]
  {
    if |fields| == 0 then ""
    else if |fields| == 1 then fields[0]
    else fields[0] + [Comma] + Join(fields[1..])
  }

  /** The comma-separated fields of `s`, left to right; a text without a comma is one field. */
  function Split(s: string): (fields: seq<string>)
    ensures |fields| >= 1
    decreases |s|
  {
    if |s| == 0 then [""]
    else
      var rest := Split(s[1..]);
      if s[0] == Comma then [""] + rest
      else [[s[0]] + rest[0]] + rest[1..]
  }

  predicate CommaFree(s: string) {
    Comma !in s
  }

  lemma {:induction false} SplitCommaFree(a: string)
    requires CommaFree(a)
    ensures Split(a) == [a]
    decreases |a|
  {
    if |a| > 0 {
      SplitCommaFree(a[1..]);
      assert [a[0]] + a[1..] == a;
    }
  }

  lemma {:induction false} SplitAtFirstComma(a: string, b: string)
    requires CommaFree(a)
    ensures Split(a + [Comma] + b) == [a] + Split(b)
    decreases |a|
  {
    var s := a + [Comma] + b;
    if |a| == 0 {
      assert s[1..] == b;
    } else {
      assert s[1..] == a[1..] + [Comma] + b;
      SplitAtFirstComma(a[1..], b);
      assert [a[0]] + a[1..] == a;
    }
  }

  /** Joining comma-free fields and splitting the result gives the fields back, so
      the number of fields in a joined row is the number of fields joined. */
  lemma {:induction false} SplitJoin(fields: seq<string>)
    requires |fields| >= 1
    requires forall i :: 0 <= i < |fields| ==> CommaFree(fields[i])
    ensures Split(Join(fields)) == fields
    decreases |fields|
  {
    if |fields| == 1 {
      SplitCommaFree(fields[0]);
    } else {
      SplitJoin(fields[1..]);
      SplitAtFirstComma(fields[0], Join(fields[1..]));
      assert [fields[0]] + fields[1..] == fields;
    }
  }

  /** `s` holds no line-break character, so it fits on one line of a text file. */
  predicate LineFree(s: string) {
    '\r' !in s && '\n' !in s
  }

  /** Number of occurrences of `c` in `s`. */
  function Occurrences(s: string, c: char): (n: nat)
    ensures n <= |s|
    ensures n == 0 <==> c !in s
  {
    if |s| == 0 then 0
    else
      assert s == [s[0]] + s[1..];
      (if s[0] == c then 1 else 0) + Occurrences(s[1..], c)
  }

  lemma {:induction false} OccurrencesAppend(a: string, b: string, c: char)
    ensures Occurrences(a + b, c) == Occurrences(a, c) + Occurrences(b, c)
    decreases |a|
  {
    if |a| == 0 {
      assert a + b == b;
    } else {
      assert (a + b)[1..] == a[1..] + b;
      OccurrencesAppend(a[1..], b, c);
    }
  }

  /** Joining one-line fields with commas gives one line. */
  lemma {:induction false} JoinLineFree(fields: seq<string>)
    requires forall i :: 0 <= i < |fields| ==> LineFree(fields[i])
    ensures LineFree(Join(fields))
    decreases |fields|
  {
    if |fields| > 1 {
      JoinLineFree(fields[1..]);
      assert LineFree(fields[0]);
    }
  }

  predicate IsDigit(c: char) {
    '0' <= c <= '9'
  }

  function DigitChar(d: nat): (c: char)
    requires d < 10
    ensures IsDigit(c) && DigitValue(c) == d
  {
    ['0', '1', '2', '3', '4', '5', '6', '7', '8', '9'][d]
  }

  /** The number a string of decimal digits denotes, most significant digit first. */
  function DigitsValue(s: string): (n: nat)
    requires forall i :: 0 <= i < |s| ==> IsDigit(s[i])
  {
    if |s| == 0 then 0
    else 10 * DigitsValue(s[..|s| - 1]) + DigitValue(s[|s| - 1])
  }

  function DigitValue(c: char): (d: nat)
    requires IsDigit(c)
    ensures d < 10
  {
    c as int - '0' as int
  }

  /** The invariant-culture decimal `ToString()` of an unsigned integer: no sign, no
      separators, no leading zeros, and it reads back as the number it was made from. */
  function Decimal(n: nat): (s: string)
    ensures |s| >= 1
    ensures forall i :: 0 <= i < |s| ==> IsDigit(s[i])
    ensures |s| > 1 ==> s[0] != '0'
    ensures DigitsValue(s) == n
    decreases n
  {
    if n < 10 then [DigitChar(n)]
    else
      var prefix := Decimal(n / 10);
      var s := prefix + [DigitChar(n % 10)];
      assert s[..|s| - 1] == prefix;
      s
  }

  lemma DecimalCommaFree(n: nat)
    ensures CommaFree(Decimal(n))
  {
  }
}
