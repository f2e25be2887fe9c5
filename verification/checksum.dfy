/**
  The check-character rule of GB 11643-1999 for 18-character citizen
  identification numbers (`IDCard::checkIdNumber`).

  A number is 17 ASCII digits followed by a check character in `0-9` or `X`.
  The first 17 digits are weighted by 7,9,10,5,8,4,2,1,6,3,7,9,10,5,8,4,2,
  the weighted sum is taken modulo 11 and the remainder selects the expected
  check character from `1,0,X,9,8,7,6,5,4,3,2`.

  The same rule is ISO 7064 MOD 11-2: every character, the check character
  included and `X` read as 10, is weighted by a power of two, and the total
  is congruent to 1 modulo 11. `Iso7064Valid` states it that way, and
  `CheckIdNumberIsIso7064` proves the two definitions agree.
*/
module Checksum {

  /** Positional weights of the first 17 digits. */
  const Weights: seq<int> := [7, 9, 10, 5, 8, 4, 2, 1, 6, 3, 7, 9, 10, 5, 8, 4, 2]

  /** Expected check character, indexed by the weighted sum modulo 11. */
  const CheckChars: seq<char> := ['1', '0', 'X', '9', '8', '7', '6', '5', '4', '3', '2']

  /** An ASCII decimal digit, as PCRE's `\d` matches without the `u` flag. */
  predicate IsDigit(c: char) {
    '0' <= c <= '9'
  }

  predicate IsCheckChar(c: char) {
    IsDigit(c) || c == 'X'
  }

  function DigitValue(c: char): (v: int)
    requires IsDigit(c)
    ensures 0 <= v <= 9
  {
    c as int - '0' as int
  }

  /** The first `n` characters of `s` are digits. */
  predicate DigitsBefore(s: string, n: nat) {
    n <= |s| && forall i :: 0 <= i < n ==> IsDigit(s[i])
  }

  /** The pattern `^\d{17}[0-9X]$`, read as "exactly 18 characters". */
  predicate WellFormed(s: string) {
    |s| == 18 && DigitsBefore(s, 17) && IsCheckChar(s[17])
  }

  /** Weighted sum of the first `n` digits, as accumulated by the loop of `checkIdNumber`. */
  function WeightedSum(s: string, n: nat): int
    requires n <= 17 && DigitsBefore(s, n)
  {
    if n == 0 then 0 else WeightedSum(s, n - 1) + DigitValue(s[n - 1]) * Weights[n - 1]
  }

  /** The check character the first 17 digits of `s` call for. */
  function ExpectedCheckChar(s: string): (c: char)
    requires DigitsBefore(s, 17)
    ensures IsCheckChar(c)
  {
    CheckChars[WeightedSum(s, 17) % 11]
  }

  /** `checkIdNumber` with the format rule read as "exactly 18 characters",
      the length GB 11643-1999 fixes. */
  function CheckIdNumber(s: string): (valid: bool)
    ensures valid ==> WellFormed(s)
  {
    WellFormed(s) && s[17] == ExpectedCheckChar(s)
  }

  // ---------------------------------------------------------------------------
  // The format rule as PHP evaluates it: `$` without the D modifier also
  // matches just before a single trailing newline.

  /** `preg_match('/^\d{17}[0-9X]$/', s) === 1`. */
  predicate MatchesPatternAsWritten(s: string) {
    WellFormed(s) || (|s| == 19 && s[18] == '\n' && WellFormed(s[..18]))
  }

  /** `checkIdNumber` exactly as written: the pattern admits one trailing newline. */
  function CheckIdNumberAsWritten(s: string): (valid: bool)
    ensures valid ==> |s| == 18 || (|s| == 19 && s[18] == '\n')
  {
    MatchesPatternAsWritten(s) && s[17] == ExpectedCheckChar(s)
  }

  /** The check only reads the first 17 digits. */
  lemma {:induction false} WeightedSumOfPrefix(s: string, t: string, n: nat)
    requires n <= 17 && DigitsBefore(s, n) && DigitsBefore(t, n)
    requires s[..n] == t[..n]
    ensures WeightedSum(s, n) == WeightedSum(t, n)
  {
    if n > 0 {
      assert s[..n - 1] == s[..n][..n - 1] && t[..n - 1] == t[..n][..n - 1];
      assert s[n - 1] == s[..n][n - 1] && t[n - 1] == t[..n][n - 1];
      WeightedSumOfPrefix(s, t, n - 1);
    }
  }

  /** The as-written check accepts `s` exactly when the corrected one accepts
      `s`, or `s` is a valid number followed by one newline. */
  lemma AsWrittenAdmitsTrailingNewline(s: string)
    ensures CheckIdNumberAsWritten(s) <==>
              CheckIdNumber(s) || (|s| == 19 && s[18] == '\n' && CheckIdNumber(s[..18]))
  {
    if |s| == 19 && DigitsBefore(s, 17) {
      assert s[..18][..17] == s[..17];
      assert DigitsBefore(s[..18], 17);
      WeightedSumOfPrefix(s, s[..18], 17);
    }
  }

  /** The discrepancy on the standard test vector: a trailing newline is let through. */
  lemma NewlineSuffixCounterexample()
    ensures CheckIdNumberAsWritten("11010519491231002X\n")
    ensures !CheckIdNumber("11010519491231002X\n")
  {
    var s := "11010519491231002X\n";
    var v := "11010519491231002X";
    assert s[..18] == v && s[..17] == v[..17];
    TestVectorSum();
    WeightedSumOfPrefix(s, v, 17);
  }

  // ---------------------------------------------------------------------------
  // Uniqueness of the check character.

  /** For every 17-digit body exactly one character completes it to a valid
      number, and that character is in `[0-9X]`. */
  lemma {:induction false} UniqueCheckChar(body: string, c: char)
    requires |body| == 17 && DigitsBefore(body, 17)
    ensures IsCheckChar(ExpectedCheckChar(body))
    ensures CheckIdNumber(body + [c]) <==> c == ExpectedCheckChar(body)
  {
    var s := body + [c];
    assert s[..17] == body[..17];
    assert DigitsBefore(s, 17);
    WeightedSumOfPrefix(s, body, 17);
  }

  /** Changing only the check character of a valid number makes it invalid. */
  lemma ChangedCheckCharInvalid(s: string, t: string)
    requires CheckIdNumber(s)
    requires |t| == 18 && t[..17] == s[..17] && t[17] != s[17]
    ensures !CheckIdNumber(t)
  {
    if DigitsBefore(t, 17) {
      WeightedSumOfPrefix(s, t, 17);
    }
  }

  /** The weighted sum of the test vector's body, one position at a time. */
  lemma TestVectorSum()
    ensures DigitsBefore("11010519491231002X", 17)
    ensures WeightedSum("11010519491231002X", 17) == 167
  {
    var s := "11010519491231002X";
    assert DigitsBefore(s, 17);
    assert WeightedSum(s, 4) == 21;
    assert WeightedSum(s, 8) == 52;
    assert WeightedSum(s, 12) == 128;
    assert WeightedSum(s, 17) == 167;
  }

  /** The standard test vector (Beijing Dongcheng, born 1949-12-31) is valid,
      and replacing its check character by anything else is not. */
  lemma TestVector(c: char)
    ensures CheckIdNumber("11010519491231002X")
    ensures c != 'X' ==> !CheckIdNumber("11010519491231002" + [c])
  {
    var s := "11010519491231002X";
    TestVectorSum();
    var body := "11010519491231002";
    assert s == body + ['X'] && s[..17] == body[..17];
    assert DigitsBefore(body, 17);
    WeightedSumOfPrefix(s, body, 17);
    UniqueCheckChar(body, c);
  }

  // ---------------------------------------------------------------------------
  // Error detection: any single substitution and any adjacent transposition
  // among the 17 body digits is caught.

  /** Replacing digit `i` shifts the weighted sum by the difference times the weight. */
  lemma {:induction false} WeightedSumUpdate(s: string, i: nat, c: char, n: nat)
    requires n <= 17 && DigitsBefore(s, n) && i < |s| && IsDigit(c)
    ensures DigitsBefore(s[i := c], n)
    ensures WeightedSum(s[i := c], n) ==
              WeightedSum(s, n) + (if i < n then (DigitValue(c) - DigitValue(s[i])) * Weights[i] else 0)
  {
    if n > 0 {
      WeightedSumUpdate(s, i, c, n - 1);
      var t := s[i := c];
      assert DigitsBefore(t, n) by {
        assert t[n - 1] == if i == n - 1 then c else s[n - 1];
      }
      if i == n - 1 {
        var e := DigitValue(c) - DigitValue(s[i]);
        assert DigitValue(c) * Weights[i] == DigitValue(s[i]) * Weights[i] + e * Weights[i];
      } else {
        assert t[n - 1] == s[n - 1];
      }
    }
  }

  /** No weight and no difference of weights of neighbouring positions is a
      multiple of 11, so a nonzero digit difference times it is not either. */
  lemma WeightTimesDifferenceNotMultipleOf11(w: int, e: int)
    requires w in {1, 2, 3, 4, 5, 6, 7, 8, 9, 10, -1, -2, -3, -4, -5}
    requires -9 <= e <= 9 && e != 0
    ensures (e * w) % 11 != 0
  {
  }

  lemma CheckCharsDistinct(m: int, k: int)
    requires 0 <= m < 11 && 0 <= k < 11 && m != k
    ensures CheckChars[m] != CheckChars[k]
  {
  }

  lemma SameResidueDivides(a: int, b: int)
    ensures a % 11 == b % 11 ==> (b - a) % 11 == 0
  {
    if a % 11 == b % 11 {
      assert b - a == 11 * (b / 11 - a / 11);
    }
  }

  /** Two 17-digit bodies whose weighted sums differ by a non-multiple of 11
      cannot share a check character. */
  lemma DifferentResidueDifferentCheck(s: string, t: string)
    requires DigitsBefore(s, 17) && DigitsBefore(t, 17)
    requires (WeightedSum(t, 17) - WeightedSum(s, 17)) % 11 != 0
    ensures ExpectedCheckChar(s) != ExpectedCheckChar(t)
  {
    var a, b := WeightedSum(s, 17), WeightedSum(t, 17);
    SameResidueDivides(a, b);
    CheckCharsDistinct(a % 11, b % 11);
  }

  /** Substituting any one of the first 17 digits of a valid number by a
      different digit makes it invalid. */
  lemma SingleSubstitutionDetected(s: string, i: nat, c: char)
    requires CheckIdNumber(s)
    requires i < 17 && IsDigit(c) && c != s[i]
    ensures !CheckIdNumber(s[i := c])
  {
    WeightedSumUpdate(s, i, c, 17);
    WeightTimesDifferenceNotMultipleOf11(Weights[i], DigitValue(c) - DigitValue(s[i]));
    DifferentResidueDifferentCheck(s, s[i := c]);
  }

  /** Swapping two different neighbouring digits among the first 17 of a
      valid number makes it invalid. */
  lemma AdjacentTranspositionDetected(s: string, i: nat)
    requires CheckIdNumber(s)
    requires i + 1 < 17 && s[i] != s[i + 1]
    ensures !CheckIdNumber(s[i := s[i + 1]][i + 1 := s[i]])
  {
    var u := s[i := s[i + 1]];
    var t := u[i + 1 := s[i]];
    WeightedSumUpdate(s, i, s[i + 1], 17);
    WeightedSumUpdate(u, i + 1, s[i], 17);
    var e := DigitValue(s[i + 1]) - DigitValue(s[i]);
    assert WeightedSum(t, 17) - WeightedSum(s, 17) == e * (Weights[i] - Weights[i + 1]);
    WeightTimesDifferenceNotMultipleOf11(Weights[i] - Weights[i + 1], e);
    DifferentResidueDifferentCheck(s, t);
  }

  /** The residue argument behind a swap with the check character: if the
      value `v17` completes the sum `a`, then after moving 2 * (v17 - v16)
      into the sum the value `v16` cannot complete it. */
  lemma SwapResidues(a: int, v16: int, v17: int)
    requires 0 <= v16 <= 9 && 0 <= v17 <= 9 && v16 != v17
    requires (a % 11 + v17) % 11 == 1
    ensures ((a + (v17 - v16) * 2) % 11 + v16) % 11 != 1
  {
    var b := a + (v17 - v16) * 2;
    if (b % 11 + v16) % 11 == 1 {
      SameResidueDivides(a % 11 + v17, b % 11 + v16);
    }
  }

  /** Swapping the last body digit with a digit check character of a valid
      number, when the two differ, makes it invalid. */
  lemma SwapWithCheckCharDetected(s: string)
    requires CheckIdNumber(s)
    requires IsDigit(s[17]) && s[16] != s[17]
    ensures !CheckIdNumber(s[16 := s[17]][17 := s[16]])
  {
    var u := s[16 := s[17]];
    var t := u[17 := s[16]];
    WeightedSumUpdate(s, 16, s[17], 17);
    assert t[..17] == u[..17];
    WeightedSumOfPrefix(t, u, 17);
    var a := WeightedSum(s, 17);
    CheckCharsComplementRemainder(a % 11, s[17]);
    CheckCharsComplementRemainder(WeightedSum(t, 17) % 11, t[17]);
    SwapResidues(a, DigitValue(s[16]), DigitValue(s[17]));
  }

  // ---------------------------------------------------------------------------
  // ISO 7064 MOD 11-2 as an independent definition.

  function Pow2(k: nat): nat {
    if k == 0 then 1 else 2 * Pow2(k - 1)
  }

  /** Value of a check-alphabet character; `X` stands for 10. */
  function CharValue(c: char): (v: int)
    requires IsCheckChar(c)
    ensures 0 <= v <= 10
  {
    if c == 'X' then 10 else DigitValue(c)
  }

  predicate CheckAlphabetBefore(s: string, n: nat) {
    n <= |s| && forall i :: 0 <= i < n ==> IsCheckChar(s[i])
  }

  /** Sum over the first `n` of 18 characters, position `i` weighted by 2^(17-i). */
  function Iso7064Sum(s: string, n: nat): int
    requires n <= 18 && CheckAlphabetBefore(s, n)
  {
    if n == 0 then 0 else Iso7064Sum(s, n - 1) + CharValue(s[n - 1]) * Pow2(18 - n)
  }

  /** ISO 7064 MOD 11-2 acceptance of an 18-character number with a numeric body. */
  predicate Iso7064Valid(s: string) {
    WellFormed(s) && Iso7064Sum(s, 18) % 11 == 1
  }

  /** The GB 11643 weights are the powers of two modulo 11. */
  lemma WeightsArePowersOfTwo(i: nat)
    requires i < 17
    ensures Weights[i] == Pow2(17 - i) % 11
  {
    assert Pow2(0) == 1 && Pow2(1) == 2 && Pow2(2) == 4 && Pow2(3) == 8 && Pow2(4) == 16;
    assert Pow2(5) == 32 && Pow2(6) == 64 && Pow2(7) == 128 && Pow2(8) == 256;
    assert Pow2(9) == 512 && Pow2(10) == 1024 && Pow2(11) == 2048 && Pow2(12) == 4096;
    assert Pow2(13) == 8192 && Pow2(14) == 16384 && Pow2(15) == 32768 && Pow2(16) == 65536;
    assert Pow2(17) == 131072;
  }

  /** What the two sums differ by: a multiple of 11. */
  ghost function Carry(s: string, n: nat): int
    requires n <= 17 && DigitsBefore(s, n)
  {
    if n == 0 then 0 else Carry(s, n - 1) + DigitValue(s[n - 1]) * (Pow2(18 - n) / 11)
  }

  lemma DistributeOverRemainder(d: int, p: nat)
    ensures d * p == d * (p % 11) + 11 * (d * (p / 11))
  {
    assert p == 11 * (p / 11) + p % 11;
  }

  lemma {:induction false} SumsAgreeModulo11(s: string, n: nat)
    requires n <= 17 && DigitsBefore(s, n)
    ensures CheckAlphabetBefore(s, n)
    ensures Iso7064Sum(s, n) == WeightedSum(s, n) + 11 * Carry(s, n)
  {
    if n > 0 {
      SumsAgreeModulo11(s, n - 1);
      WeightsArePowersOfTwo(n - 1);
      var p, d := Pow2(18 - n), DigitValue(s[n - 1]);
      DistributeOverRemainder(d, p);
    }
  }

  /** The remainder table: the check character for remainder `m` is the one
      whose value brings the total to 1 modulo 11. */
  lemma CheckCharsComplementRemainder(m: int, c: char)
    requires 0 <= m < 11 && IsCheckChar(c)
    ensures CheckChars[m] == c <==> (m + CharValue(c)) % 11 == 1
  {
  }

  /** `checkIdNumber` accepts exactly the ISO 7064 MOD 11-2 valid numbers. */
  lemma CheckIdNumberIsIso7064(s: string)
    ensures CheckIdNumber(s) <==> Iso7064Valid(s)
  {
    if WellFormed(s) {
      SumsAgreeModulo11(s, 17);
      var w := WeightedSum(s, 17);
      var v := CharValue(s[17]);
      assert Pow2(0) == 1;
      assert Iso7064Sum(s, 18) == 11 * (w / 11 + Carry(s, 17)) + (w % 11 + v);
      assert Iso7064Sum(s, 18) % 11 == (w % 11 + v) % 11;
      CheckCharsComplementRemainder(w % 11, s[17]);
    }
  }
}
