module Numbers {
  /* Decimal numbers as atoi reads and %i prints them. */

  predicate IsDigit(c: char) {
    '0' <= c <= '9'
  }

  function DigitOf(c: char): nat
    requires IsDigit(c)
  {
    c as int - '0' as int
  }

  function DigitChar(d: nat): (c: char)
    requires d < 10
    ensures IsDigit(c) && DigitOf(c) == d
  {
    '0' + d as char
  }

  /** Where the digits from `i` on end. */
  function DigitsEnd(s: string, i: nat): (j: nat)
    requires i <= |s|
    ensures i <= j <= |s| && (j < |s| ==> !IsDigit(s[j]))
    ensures forall k :: i <= k < j ==> IsDigit(s[k])
    decreases |s| - i
  {
    if i < |s| && IsDigit(s[i]) then DigitsEnd(s, i + 1) else i
  }

  function Number(s: string): nat
    requires forall k :: 0 <= k < |s| ==> IsDigit(s[k])
  {
    if s == "" then 0 else 10 * Number(s[..|s| - 1]) + DigitOf(s[|s| - 1])
  }

  /** atoi, for numbers in the range of int. */
  function Atoi(s: string): int {
    var i := BlanksEnd(s, 0);
    var negative := i < |s| && s[i] == '-';
    var b := if i < |s| && (s[i] == '-' || s[i] == '+') then i + 1 else i;
    var e := DigitsEnd(s, b);
    assert forall k :: 0 <= k < e - b ==> s[b..e][k] == s[b + k];
    var n: int := Number(s[b..e]);
    if negative then -n else n
  }

  function BlanksEnd(s: string, i: nat): (j: nat)
    requires i <= |s|
    ensures i <= j <= |s|
    decreases |s| - i
  {
    if i < |s| && (s[i] == ' ' || 9 <= s[i] as int <= 13) then BlanksEnd(s, i + 1) else i
  }

  /** Whether there is a number to be read at all. */
  predicate HasNumber(s: string) {
    var i := BlanksEnd(s, 0);
    var b := if i < |s| && (s[i] == '-' || s[i] == '+') then i + 1 else i;
    b < |s| && IsDigit(s[b])
  }

  /** %i of a number that is not negative. */
  function Decimal(n: nat): (s: string)
    ensures s != "" && forall k :: 0 <= k < |s| ==> IsDigit(s[k])
  {
    if n < 10 then [DigitChar(n)] else Decimal(n / 10) + [DigitChar(n % 10)]
  }

  lemma {:induction false} NumberDecimal(n: nat)
    ensures Number(Decimal(n)) == n
  {
    var s := Decimal(n);
    if n < 10 {
      assert s[..0] == "";
    } else {
      NumberDecimal(n / 10);
      assert s[..|s| - 1] == Decimal(n / 10);
    }
  }

  lemma {:induction false} DigitsEndIs(s: string, i: nat, j: nat)
    requires i <= j <= |s| && (j < |s| ==> !IsDigit(s[j])) && forall k :: i <= k < j ==> IsDigit(s[k])
    ensures DigitsEnd(s, i) == j
    decreases j - i
  {
    if i < j { DigitsEndIs(s, i + 1, j); }
  }

  function Pow10(k: nat): (p: nat)
    ensures p > 0
  {
    if k == 0 then 1 else 10 * Pow10(k - 1)
  }

  lemma {:induction false} DecimalLength(n: nat, k: nat)
    requires n < Pow10(k) && k > 0
    ensures |Decimal(n)| <= k
    decreases k
  {
    if n >= 10 { DecimalLength(n / 10, k - 1); }
  }

  /** %i */
  function Printed(n: int): (s: string)
    ensures s != "" && (IsDigit(s[0]) || s[0] == '-') && forall k :: 0 < k < |s| ==> IsDigit(s[k])
  {
    if n < 0 then "-" + Decimal(-n) else Decimal(n)
  }

  predicate IsWhite(c: char) {
    c == ' ' || 9 <= c as int <= 13
  }

  ghost predicate Blank(s: string) {
    forall k :: 0 <= k < |s| ==> IsWhite(s[k])
  }

  lemma {:induction false} BlanksEndIs(s: string, i: nat, j: nat)
    requires i <= j <= |s| && (forall k :: i <= k < j ==> IsWhite(s[k])) && (j < |s| ==> !IsWhite(s[j]))
    ensures BlanksEnd(s, i) == j
    decreases j - i
  {
    if i < j { BlanksEndIs(s, i + 1, j); }
  }

  /** Blanks in front and a sign are read over, and what follows the digits does not count. */
  lemma AtoiReads(b: string, sign: string, n: nat, t: string, s: string)
    requires Blank(b) && sign in ["", "+", "-"] && (t == "" || !IsDigit(t[0]))
    requires s == b + (sign + Decimal(n) + t)
    ensures sign != "-" ==> Atoi(s) == n
    ensures sign == "-" ==> Atoi(s) + n == 0
  {
    var d, i := Decimal(n), |b|;
    var k := i + |sign|;
    var e := k + |d|;
    NumberParts(b, sign, d, t, s, i, k, e);
    assert forall j :: 0 <= j < i ==> s[j] == s[0..i][j];
    BlanksEndIs(s, 0, i);
    DigitsEndIs(s, k, e);
    NumberDecimal(n);
  }

  lemma NumberParts(b: string, sign: string, d: string, t: string, s: string, i: nat, k: nat, e: nat)
    requires s == b + (sign + d + t) && i == |b| && k == i + |sign| && e == k + |d| && |sign| <= 1 && d != ""
    ensures e <= |s| && s[0..i] == b && s[k..e] == d && (sign != "" ==> s[i] == sign[0])
    ensures (e < |s| ==> t != "" && s[e] == t[0]) && s[k] == d[0] && forall j :: k <= j < e ==> s[j] == d[j - k]
  {
    assert s[k..e] == d;
    assert forall j :: k <= j < e ==> s[j] == s[k..e][j - k];
  }

  /** Without a digit it reads nothing. */
  lemma AtoiNothing(s: string)
    requires s == "" || (!IsDigit(s[0]) && !IsWhite(s[0]) && s[0] != '-' && s[0] != '+')
    ensures Atoi(s) == 0 && !HasNumber(s)
  {
    BlanksEndIs(s, 0, 0);
  }

  lemma AtoiPrinted(n: int)
    ensures HasNumber(Printed(n)) && Atoi(Printed(n)) == n
  {
    var s := Printed(n);
    if n < 0 {
      var d := Decimal(-n);
      DigitsEndIs(s, 1, |s|);
      assert s[1..|s|] == d;
      NumberDecimal(-n);
    } else {
      DigitsEndIs(s, 0, |s|);
      assert s[0..|s|] == s;
      NumberDecimal(n);
    }
  }
}
