/**
 * Decimal text: `atoi::<u64>` as `get_decimal` uses it, and the `{}` formatting of a `u64`
 * that `write_decimal` performs.
 */
module Decimal {
  import opened Common

  predicate IsDigit(b: Byte)
  {
    48 <= b <= 57
  }

  predicate AllDigits(s: seq<Byte>)
  {
    forall i :: 0 <= i < |s| ==> IsDigit(s[i])
  }

  /** Length of the run of ASCII digits at the head of `s`. */
  function DigitRun(s: seq<Byte>): (k: nat)
    ensures k <= |s|
    ensures AllDigits(s[..k])
    ensures k < |s| ==> !IsDigit(s[k])
  {
    if s == [] || !IsDigit(s[0]) then 0
    else
      var k := 1 + DigitRun(s[1..]);
      assert s[..k] == [s[0]] + s[1..][..k - 1];
      k
  }

  /** The number a string of digits denotes, most significant digit first. */
  function ValueOf(s: seq<Byte>): nat
    requires AllDigits(s)
  {
    if s == [] then 0 else ValueOf(s[..|s| - 1]) * 10 + (s[|s| - 1] - 48)
  }

  /**
   * `atoi::<u64>(line)`: reads the digits at the head of the line and ignores whatever follows them;
   * nothing read, or a value that does not fit in 64 bits, gives None.
   */
  function Atoi(line: seq<Byte>): (r: Option<U64>)
    ensures (line == [] || !IsDigit(line[0])) ==> r.None?
    ensures r.Some? ==> IsDigit(line[0]) && AllDigits(line[..DigitRun(line)])
  {
    var k := DigitRun(line);
    if k == 0 then None
    else
      var v := ValueOf(line[..k]);
      if v < U64_LIMIT then Some(v) else None
  }

  /** The bytes `format!("{}", v)` produces: base ten, no sign, no leading zero. */
  function Digits(v: nat): (s: seq<Byte>)
    ensures |s| >= 1 && AllDigits(s)
  {
    if v < 10 then [48 + v] else Digits(v / 10) + [48 + v % 10]
  }

  /** Reading back what `Digits` wrote gives the original value. */
  lemma {:induction false} ValueOfDigits(v: nat)
    ensures ValueOf(Digits(v)) == v
  {
    if v >= 10 {
      var s := Digits(v);
      assert s[..|s| - 1] == Digits(v / 10);
      ValueOfDigits(v / 10);
    }
  }

  /** A digit run followed by a non-digit (or nothing) is read up to its end. */
  lemma {:induction false} DigitRunOfDigits(d: seq<Byte>, tail: seq<Byte>)
    requires AllDigits(d)
    requires tail == [] || !IsDigit(tail[0])
    ensures DigitRun(d + tail) == |d|
  {
    if d != [] {
      assert (d + tail)[1..] == d[1..] + tail;
      DigitRunOfDigits(d[1..], tail);
    }
  }

  /** The decimal round trip: `atoi` reads back the digits `{}` wrote, whatever non-digit follows them. */
  lemma AtoiOfDigits(v: U64, tail: seq<Byte>)
    requires tail == [] || !IsDigit(tail[0])
    ensures Atoi(Digits(v) + tail) == Some(v)
  {
    var d := Digits(v);
    DigitRunOfDigits(d, tail);
    assert (d + tail)[..|d|] == d;
    ValueOfDigits(v);
  }

  /** One digit exactly for values below ten, at most two exactly for values below one hundred. */
  lemma {:induction false} DigitsLength(v: nat)
    ensures |Digits(v)| == 1 <==> v < 10
    ensures |Digits(v)| <= 2 <==> v < 100
  {
    if v >= 10 {
      DigitsLength(v / 10);
    }
  }
}
