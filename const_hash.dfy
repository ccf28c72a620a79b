/** The key hash `getConstHash`: a polynomial string hash in `size_t`
    arithmetic, read from a NUL-terminated character array. */
module ConstHash {

  /** `size_t` is an unsigned 64-bit word: every result is taken modulo 2^64. */
  const WORD: nat := 0x1_0000_0000_0000_0000

  /** The value of the hash of the empty string. */
  const SEED: nat := 5381

  /** The factor applied to the hash of the remaining characters. */
  const MULTIPLIER: nat := 33

  /** The code of one character as `static_cast<size_t>` sees it (key text is ASCII). */
  function Code(c: char): nat
  {
    c as int
  }

  /** True when the text has no NUL character, so the C string is the whole text. */
  predicate NulFree(s: string)
  {
    forall i :: 0 <= i < |s| ==> s[i] != '\0'
  }

  /** `getConstHash`: stops at the first NUL (or the end of the text) and
      combines the characters from the last one back to the first. */
  function Hash(s: string): (h: nat)
    ensures h < WORD
    ensures |s| == 0 ==> h == SEED
  {
    if |s| == 0 || s[0] == '\0' then SEED
    else (Code(s[0]) + MULTIPLIER * Hash(s[1..])) % WORD
  }

  /** The recurrence of the hash: one non-NUL character in front of `t`. */
  lemma HashCons(c: char, t: string)
    requires c != '\0'
    ensures Hash([c] + t) == (Code(c) + MULTIPLIER * Hash(t)) % WORD
  {
    assert ([c] + t)[1..] == t;
  }

  /** 33 to the power `e`, as used by `Polynomial`. */
  function Pow(b: nat, e: nat): nat
  {
    if e == 0 then 1 else b * Pow(b, e - 1)
  }

  /** Sum of `Code(s[i]) * 33^i` over the first `n` characters. */
  function Coefficients(s: string, n: nat): nat
    requires n <= |s|
  {
    if n == 0 then 0
    else Coefficients(s, n - 1) + Code(s[n - 1]) * Pow(MULTIPLIER, n - 1)
  }

  /** The unwrapped hash as a polynomial in 33, written position by position:
      `5381 * 33^|s| + sum of Code(s[i]) * 33^i`. */
  function Polynomial(s: string): nat
  {
    SEED * Pow(MULTIPLIER, |s|) + Coefficients(s, |s|)
  }

  lemma {:induction false} CoefficientsCons(c: char, t: string, n: nat)
    requires n <= |t|
    ensures Coefficients([c] + t, n + 1) == Code(c) + MULTIPLIER * Coefficients(t, n)
  {
    var s := [c] + t;
    if n > 0 {
      CoefficientsCons(c, t, n - 1);
      assert s[n] == t[n - 1];
      var p := Pow(MULTIPLIER, n - 1);
      assert Pow(MULTIPLIER, n) == MULTIPLIER * p;
      calc {
        Coefficients(s, n + 1);
        Coefficients(s, n) + Code(t[n - 1]) * (MULTIPLIER * p);
        Code(c) + MULTIPLIER * Coefficients(t, n - 1) + MULTIPLIER * (Code(t[n - 1]) * p);
        Code(c) + MULTIPLIER * (Coefficients(t, n - 1) + Code(t[n - 1]) * p);
      }
    }
  }

  /** Prepending a character multiplies the polynomial by 33 and adds its code. */
  lemma PolynomialCons(c: char, t: string)
    ensures Polynomial([c] + t) == Code(c) + MULTIPLIER * Polynomial(t)
  {
    CoefficientsCons(c, t, |t|);
    var p := Pow(MULTIPLIER, |t|);
    assert Pow(MULTIPLIER, |t| + 1) == MULTIPLIER * p;
    calc {
      Polynomial([c] + t);
      SEED * (MULTIPLIER * p) + Coefficients([c] + t, |t| + 1);
      MULTIPLIER * (SEED * p) + Code(c) + MULTIPLIER * Coefficients(t, |t|);
      Code(c) + MULTIPLIER * (SEED * p + Coefficients(t, |t|));
    }
  }

  /** Reducing the hash of the rest before the step gives the same word as reducing after it. */
  lemma ModStep(c: nat, x: nat)
    ensures (c + MULTIPLIER * (x % WORD)) % WORD == (c + MULTIPLIER * x) % WORD
  {
  }

  /** For NUL-free text the hash is the position-wise polynomial, wrapped to 64 bits. */
  lemma {:induction false} HashIsPolynomial(s: string)
    requires NulFree(s)
    ensures Hash(s) == Polynomial(s) % WORD
  {
    if |s| == 0 {
      assert Polynomial(s) == SEED;
    } else {
      var t := s[1..];
      assert NulFree(t) by {
        forall i | 0 <= i < |t| ensures t[i] != '\0' { assert t[i] == s[i + 1]; }
      }
      HashIsPolynomial(t);
      assert s == [s[0]] + t;
      PolynomialCons(s[0], t);
      ModStep(Code(s[0]), Polynomial(t));
    }
  }

  /** The hash reads only up to the terminating NUL: what follows it is never seen. */
  lemma {:induction false} HashStopsAtNul(s: string, t: string)
    requires NulFree(s)
    ensures Hash(s + ['\0'] + t) == Hash(s)
  {
    if |s| > 0 {
      assert (s + ['\0'] + t)[1..] == s[1..] + ['\0'] + t;
      assert NulFree(s[1..]) by {
        forall i | 0 <= i < |s[1..]| ensures s[1..][i] != '\0' { assert s[1..][i] == s[i + 1]; }
      }
      HashStopsAtNul(s[1..], t);
    }
  }
}
