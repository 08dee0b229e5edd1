/** Byte-string primitives shared by the protocol models.

PHP strings are byte strings. They are modelled as Dafny strings, one character per
byte; nothing below depends on the size of the alphabet. */
module Text {
  datatype Option<+T> = None | Some(value: T)

  lemma Associate<T>(a: seq<T>, b: seq<T>, c: seq<T>)
    ensures a + (b + c) == (a + b) + c
  {
  }

  /** Positions from `low` up to `high`, in order and without repetition. */
  predicate Ascending(positions: seq<nat>, low: nat, high: nat) {
    && (forall k :: 0 <= k < |positions| ==> low <= positions[k] < high)
    && (forall j, k :: 0 <= j < k < |positions| ==> positions[j] < positions[k])
  }

  function Reversed<T>(s: seq<T>): seq<T> {
    if s == [] then [] else [s[|s| - 1]] + Reversed(s[..|s| - 1])
  }

  lemma {:induction false} ReversedSnoc<T>(front: seq<T>, last: T)
    ensures Reversed(front + [last]) == [last] + Reversed(front)
  {
    assert (front + [last])[..|front|] == front;
  }

  lemma {:induction false} ReversedCons<T>(first: T, rest: seq<T>)
    ensures Reversed([first] + rest) == Reversed(rest) + [first]
  {
    if rest == [] {
      assert [first] + rest == rest + [first];
      ReversedSnoc(rest, first);
    } else {
      hide Reversed;
      var front, last := rest[..|rest| - 1], rest[|rest| - 1];
      assert rest == front + [last];
      Associate([first], front, [last]);
      ReversedSnoc([first] + front, last);
      ReversedSnoc(front, last);
      ReversedCons(first, front);
      Associate([last], Reversed(front), [first]);
    }
  }

  /** The bytes of a list of reads. */
  function Flatten(chunks: seq<string>): string {
    if chunks == [] then "" else chunks[0] + Flatten(chunks[1..])
  }

  lemma {:induction false} FlattenAppend(a: seq<string>, b: seq<string>)
    ensures Flatten(a + b) == Flatten(a) + Flatten(b)
  {
    if a == [] {
      assert a + b == b;
    } else {
      FlattenAppend(a[1..], b);
      assert (a + b)[0] == a[0] && (a + b)[1..] == a[1..] + b;
      Associate(a[0], Flatten(a[1..]), Flatten(b));
    }
  }

  const CRLF: string := "\r\n"

  predicate CrlfAt(s: string, i: int) {
    0 <= i && i + 1 < |s| && s[i] == '\r' && s[i + 1] == '\n'
  }

  predicate CrlfFree(s: string) {
    forall i :: 0 <= i < |s| ==> !CrlfAt(s, i)
  }

  /** `strpos($s, "\r\n")`: the position of the first CRLF, or -1. */
  function FindCrlf(s: string): (r: int)
    ensures r >= 0 ==> CrlfAt(s, r) && forall i :: 0 <= i < r ==> !CrlfAt(s, i)
    ensures r < 0 ==> r == -1 && CrlfFree(s)
  {
    FindCrlfFrom(s, 0)
  }

  function FindCrlfFrom(s: string, from: nat): (r: int)
    requires from <= |s|
    ensures r >= 0 ==> from <= r && CrlfAt(s, r) && forall i :: from <= i < r ==> !CrlfAt(s, i)
    ensures r < 0 ==> r == -1 && forall i :: from <= i ==> !CrlfAt(s, i)
    decreases |s| - from
  {
    if CrlfAt(s, from) then from
    else if from == |s| then -1
    else FindCrlfFrom(s, from + 1)
  }

  /** The first CRLF is the same however many bytes follow it. */
  lemma FindCrlfExtends(s: string, more: string)
    requires FindCrlf(s) >= 0
    ensures FindCrlf(s + more) == FindCrlf(s)
  {
    var r := FindCrlf(s);
    assert CrlfAt(s + more, r);
    forall i | 0 <= i < r ensures !CrlfAt(s + more, i) {
      assert !CrlfAt(s, i);
    }
  }

  /** While the first CRLF is still cut off, at most its CR has arrived. */
  lemma FindCrlfPending(s: string, more: string)
    requires FindCrlf(s) < 0 && FindCrlf(s + more) >= 0
    ensures |s| <= FindCrlf(s + more) + 1 && more != ""
  {
    var end := FindCrlf(s + more);
    assert CrlfAt(s + more, end);
    assert !CrlfAt(s, end);
    assert s + "" == s;
  }

  /** A CRLF-free line, even one ending in a bare CR, is delimited by the CRLF after it. */
  lemma FindCrlfAfterLine(line: string, rest: string)
    requires CrlfFree(line)
    ensures FindCrlf(line + CRLF + rest) == |line|
  {
    var s := line + CRLF + rest;
    assert CrlfAt(s, |line|);
    forall i | 0 <= i < |line| ensures !CrlfAt(s, i) {
      assert !CrlfAt(line, i);
    }
  }

  // Decimal numerals

  predicate IsDigit(c: char) { '0' <= c <= '9' }

  predicate AllDigits(s: string) { forall i :: 0 <= i < |s| ==> IsDigit(s[i]) }

  function DigitValue(c: char): nat
    requires IsDigit(c)
  {
    c as int - '0' as int
  }

  function DigitsValue(s: string): nat
    requires AllDigits(s)
  {
    if |s| == 0 then 0 else 10 * DigitsValue(s[..|s| - 1]) + DigitValue(s[|s| - 1])
  }

  /** `(string) $n` for a natural number. */
  function NatText(n: nat): (s: string)
    ensures |s| > 0 && AllDigits(s)
    ensures s[0] == '0' ==> s == "0"
  {
    if n < 10 then [('0' as int + n) as char]
    else NatText(n / 10) + [('0' as int + n % 10) as char]
  }

  lemma {:induction false} NatTextValue(n: nat)
    ensures DigitsValue(NatText(n)) == n
  {
    var s := NatText(n);
    if n < 10 {
      assert s[..|s| - 1] == "";
    } else {
      NatTextValue(n / 10);
      assert s[..|s| - 1] == NatText(n / 10);
    }
  }

  function IntText(i: int): string {
    if i < 0 then "-" + NatText(-i) else NatText(i)
  }

  const INT_MAX: int := 0x7fff_ffff_ffff_ffff
  const INT_MIN: int := -0x8000_0000_0000_0000

  predicate IsInt64(i: int) { INT_MIN <= i <= INT_MAX }

  /** PHP's `(int)` on an integer numeral saturates at the 64-bit bounds. */
  function Clamp(i: int): (r: int)
    ensures IsInt64(r) && (IsInt64(i) ==> r == i)
  {
    if i > INT_MAX then INT_MAX else if i < INT_MIN then INT_MIN else i
  }

  predicate IsNumeral(s: string) {
    |s| > 0 && AllDigits(s) && (s[0] == '0' ==> s == "0")
  }

  /** `/^-?(?:0|[1-9][0-9]*)$/D` followed by the `(int)` cast. */
  function ParseInt(s: string): Option<int> {
    if IsNumeral(s) then Some(Clamp(DigitsValue(s)))
    else if |s| > 0 && s[0] == '-' && IsNumeral(s[1..]) then Some(Clamp(0 - DigitsValue(s[1..])))
    else None
  }

  lemma ParseIntText(i: int)
    requires IsInt64(i)
    ensures ParseInt(IntText(i)) == Some(i)
    ensures CrlfFree(IntText(i))
  {
    if i < 0 {
      NatTextValue(-i);
      assert IntText(i)[1..] == NatText(-i);
    } else {
      NatTextValue(i);
    }
  }
}
