/** Digit strings in bases 2, 10 and 16: Python's `int(text)`, `int(text, 2)`
    and the `b` / `x` format specifications, together with the read-back
    function `Value` that every rendering is proved against. */
module Numerals {
  import opened Results

  function Pow(b: nat, e: nat): (r: nat)
    ensures b >= 1 ==> r >= 1
  {
    if e == 0 then 1
    else
      var p := Pow(b, e - 1);
      if b >= 1 then MulMono(1, b, p); b * p else b * p
  }

  /** Multiplication by a natural number is monotonic. */
  lemma {:induction false} MulMono(a: nat, b: nat, m: nat)
    requires a <= b
    ensures a * m <= b * m
    decreases b - a
  {
    if a < b {
      MulMono(a, b - 1, m);
      assert (b - 1) * m + m == b * m;
    }
  }

  /** Dividing by a base of at least two makes a positive number smaller. */
  lemma DivLess(n: nat, b: nat)
    requires n >= 1 && b >= 2
    ensures n / b < n
  {
    var q := n / b;
    MulMono(2, b, q);
    assert n == b * q + n % b;
  }

  /** The lower-case digit for `d`, as Python's `b`, `d` and `x` formats write it. */
  function DigitChar(d: nat): (c: char)
    requires d < 16
  {
    if d < 10 then ('0' as int + d) as char else ('a' as int + d - 10) as char
  }

  /** The value of a digit character; 16 for a character that is no digit. */
  function DigitValue(c: char): (d: nat)
    ensures d <= 16
  {
    if '0' <= c <= '9' then c as int - '0' as int
    else if 'a' <= c <= 'f' then c as int - 'a' as int + 10
    else 16
  }

  lemma DigitCharValue(d: nat)
    requires d < 16
    ensures DigitValue(DigitChar(d)) == d
  {
  }

  lemma DigitValueChar(c: char)
    requires DigitValue(c) < 16
    ensures DigitChar(DigitValue(c)) == c
  {
  }

  /** Every character of `s` is a digit of base `base`. */
  predicate IsDigits(s: string, base: nat) {
    forall i :: 0 <= i < |s| ==> DigitValue(s[i]) < base
  }

  /** The number that the digit string `s` denotes in base `base`, most significant digit first. */
  function Value(s: string, base: nat): nat {
    if s == [] then 0 else Value(s[..|s| - 1], base) * base + DigitValue(s[|s| - 1])
  }

  /** The lowest `w` digits of `n` in base `base`, most significant first. */
  function Fixed(n: nat, base: nat, w: nat): (r: string)
    requires 2 <= base <= 16
    ensures |r| == w && IsDigits(r, base)
    decreases w
  {
    if w == 0 then []
    else
      DigitCharValue(n % base);
      DigitsSnoc(Fixed(n / base, base, w - 1), DigitChar(n % base), base);
      Fixed(n / base, base, w - 1) + [DigitChar(n % base)]
  }

  lemma DigitsSnoc(s: string, c: char, base: nat)
    requires IsDigits(s, base) && DigitValue(c) < base
    ensures IsDigits(s + [c], base)
  {
    assert forall i :: 0 <= i < |s| ==> (s + [c])[i] == s[i];
  }

  /** The shortest digit string of `n` in base `base` ("0" for zero), as Python's formats write it. */
  function Numeral(n: nat, base: nat): (r: string)
    requires 2 <= base <= 16
    ensures |r| >= 1 && IsDigits(r, base)
  {
    DigitCharValue(n % base);
    if n < base then [DigitChar(n % base)]
    else
      DivLess(n, base);
      Numeral(n / base, base) + [DigitChar(n % base)]
  }

  /** `s` padded on the left with '0' to at least `w` characters (the `0w` format flag). */
  function ZeroPad(s: string, w: nat): (r: string)
    ensures |r| == if |s| >= w then |s| else w
    ensures r[|r| - |s|..] == s
    ensures forall i :: 0 <= i < |r| - |s| ==> r[i] == '0'
  {
    if |s| >= w then s else seq(w - |s|, _ => '0') + s
  }

  /** Division with remainder is unique. */
  lemma DivModUnique(n: nat, m: nat, q: nat, r: nat)
    requires 0 <= r < m
    requires n == q * m + r
    ensures n / m == q && n % m == r
  {
    var q', r' := n / m, n % m;
    assert n == q' * m + r';
    if q' < q {
      MulMono(q' + 1, q, m);
    } else if q' > q {
      MulMono(q + 1, q', m);
    }
  }

  lemma ModOfProduct(n: nat, b: nat, p: nat)
    requires b > 0 && p > 0
    ensures ((n / b) % p) * b + n % b == n % (b * p)
    ensures (n / b) / p == n / (b * p)
  {
    var q, r := n / b, n % b;
    var s, t := q / p, q % p;
    assert n == q * b + r;
    assert q == s * p + t;
    MulMono(t, p - 1, b);
    Ring(n, q, b, r, s, p, t);
    DivModUnique(n, b * p, s, t * b + r);
  }

  lemma Ring(n: int, q: int, b: int, r: int, s: int, p: int, t: int)
    requires n == q * b + r && q == s * p + t
    requires t * b <= (p - 1) * b && r < b
    ensures n == s * (b * p) + (t * b + r)
    ensures t * b + r < b * p
  {
  }

  /** Appending a digit multiplies the value by the base and adds the digit. */
  lemma ValueSnoc(s: string, c: char, base: nat)
    ensures Value(s + [c], base) == Value(s, base) * base + DigitValue(c)
  {
    assert (s + [c])[..|s|] == s;
  }

  /** `n < b * p` bounds the quotient by `p`. */
  lemma DivBound(n: nat, b: nat, p: nat)
    requires b > 0 && n < b * p
    ensures n / b < p
  {
    var q := n / b;
    assert q * b <= n;
    if q >= p {
      MulMono(p, q, b);
    }
  }

  lemma MulBound(v: nat, d: nat, b: nat, p: nat)
    requires v < p && d < b
    ensures v * b + d < p * b
  {
    MulMono(v + 1, p, b);
  }

  /** Reading back the `w` digits of `n` gives `n` modulo `base^w`. */
  lemma {:induction false} ValueOfFixed(n: nat, base: nat, w: nat)
    requires 2 <= base <= 16
    ensures Value(Fixed(n, base, w), base) == n % Pow(base, w)
    decreases w
  {
    if w > 0 {
      var q, p := n / base, Pow(base, w - 1);
      var init, c := Fixed(q, base, w - 1), DigitChar(n % base);
      assert Fixed(n, base, w) == init + [c];
      ValueOfFixed(q, base, w - 1);
      ValueSnoc(init, c, base);
      DigitCharValue(n % base);
      ModOfProduct(n, base, p);
      assert Pow(base, w) == base * p;
    } else {
      assert n % 1 == 0;
    }
  }

  /** A digit string of length `w` denotes a number below `base^w`. */
  lemma {:induction false} ValueBound(s: string, base: nat)
    requires 2 <= base && IsDigits(s, base)
    ensures Value(s, base) < Pow(base, |s|)
  {
    if s != [] {
      var init, c := s[..|s| - 1], s[|s| - 1];
      assert s == init + [c];
      assert IsDigits(init, base) by {
        assert forall i :: 0 <= i < |init| ==> init[i] == s[i];
      }
      ValueBound(init, base);
      ValueSnoc(init, c, base);
      MulBound(Value(init, base), DigitValue(c), base, Pow(base, |init|));
      assert Pow(base, |s|) == base * Pow(base, |init|);
    }
  }

  /** Writing the value of a digit string back with as many digits gives the string. */
  lemma {:induction false} FixedOfValue(s: string, base: nat)
    requires 2 <= base <= 16 && IsDigits(s, base)
    ensures Fixed(Value(s, base), base, |s|) == s
  {
    if s != [] {
      var init, last := s[..|s| - 1], s[|s| - 1];
      assert s == init + [last];
      assert IsDigits(init, base) by {
        assert forall i :: 0 <= i < |init| ==> init[i] == s[i];
      }
      FixedOfValue(init, base);
      ValueSnoc(init, last, base);
      DivModUnique(Value(s, base), base, Value(init, base), DigitValue(last));
      DigitValueChar(last);
    }
  }

  /** The shortest numeral reads back to the number. */
  lemma {:induction false} ValueOfNumeral(n: nat, base: nat)
    requires 2 <= base <= 16
    ensures Value(Numeral(n, base), base) == n
    decreases n
  {
    var q, r := n / base, n % base;
    var c := DigitChar(r);
    DigitCharValue(r);
    assert n == q * base + r;
    if n < base {
      DivModUnique(n, base, 0, n);
      assert Numeral(n, base) == [] + [c];
      ValueSnoc([], c, base);
    } else {
      var init := Numeral(q, base);
      assert Numeral(n, base) == init + [c];
      DivLess(n, base);
      ValueOfNumeral(q, base);
      ValueSnoc(init, c, base);
    }
  }

  /** A number below `base^w` has a numeral of at most `w` digits. */
  lemma {:induction false} NumeralLength(n: nat, base: nat, w: nat)
    requires 2 <= base <= 16 && 1 <= w && n < Pow(base, w)
    ensures |Numeral(n, base)| <= w
    decreases w
  {
    if n >= base {
      assert Pow(base, 1) == base;
      assert w >= 2;
      assert Pow(base, w) == base * Pow(base, w - 1);
      DivBound(n, base, Pow(base, w - 1));
      NumeralLength(n / base, base, w - 1);
    }
  }

  lemma {:induction false} FixedZero(base: nat, w: nat)
    requires 2 <= base <= 16
    ensures Fixed(0, base, w) == seq(w, _ => '0')
  {
    if w > 0 {
      FixedZero(base, w - 1);
      assert DigitChar(0) == '0';
    }
  }

  /** The `0w` format of a number that fits in `w` digits is exactly its `w` fixed digits. */
  lemma {:induction false} ZeroPadNumeral(n: nat, base: nat, w: nat)
    requires 2 <= base <= 16 && 1 <= w && n < Pow(base, w)
    ensures ZeroPad(Numeral(n, base), w) == Fixed(n, base, w)
    decreases w
  {
    if n < base {
      ZeroPadDigit(n, base, w);
    } else {
      var q, d := n / base, DigitChar(n % base);
      var init := Numeral(q, base);
      NumeralLength(n, base, w);
      NumeralSnoc(n, base);
      QuotientFits(n, base, w);
      ZeroPadNumeral(q, base, w - 1);
      ZeroPadSnoc(init, d, w);
      FixedSnoc(n, base, w);
    }
  }

  lemma FixedSnoc(n: nat, base: nat, w: nat)
    requires 2 <= base <= 16 && 1 <= w
    ensures Fixed(n, base, w) == Fixed(n / base, base, w - 1) + [DigitChar(n % base)]
  {
  }

  lemma NumeralSnoc(n: nat, base: nat)
    requires 2 <= base <= 16 && base <= n
    ensures Numeral(n, base) == Numeral(n / base, base) + [DigitChar(n % base)]
  {
  }

  /** A number of at least two digits that fits in `w` digits has a quotient fitting in `w - 1`. */
  lemma QuotientFits(n: nat, base: nat, w: nat)
    requires 2 <= base && 1 <= w && base <= n < Pow(base, w)
    ensures w >= 2 && n / base < Pow(base, w - 1)
  {
    assert Pow(base, 1) == base;
    assert Pow(base, w) == base * Pow(base, w - 1);
    DivBound(n, base, Pow(base, w - 1));
  }

  lemma ZeroPadDigit(n: nat, base: nat, w: nat)
    requires 2 <= base <= 16 && 1 <= w && n < base
    ensures ZeroPad(Numeral(n, base), w) == Fixed(n, base, w)
  {
    DivModUnique(n, base, 0, n);
    var d := DigitChar(n);
    var zeros := seq(w - 1, _ => '0');
    FixedSnoc(n, base, w);
    FixedZero(base, w - 1);
    assert Numeral(n, base) == [d];
    PadDigit(d, w, zeros);
  }

  lemma PadDigit(d: char, w: nat, zeros: string)
    requires 1 <= w && zeros == seq(w - 1, _ => '0')
    ensures ZeroPad([d], w) == zeros + [d]
  {
  }

  lemma ZeroPadSnoc(s: string, d: char, w: nat)
    requires |s| < w
    ensures ZeroPad(s + [d], w) == ZeroPad(s, w - 1) + [d]
  {
  }

  /** The value of a digit string split after its leading digit. */
  lemma {:induction false} ValueFront(s: string, base: nat)
    requires |s| >= 1
    ensures Value(s, base) == DigitValue(s[0]) * Pow(base, |s| - 1) + Value(s[1..], base)
  {
    if |s| == 1 {
      assert s == [] + [s[0]];
      ValueSnoc([], s[0], base);
      assert s[1..] == [];
    } else {
      var init, last := s[..|s| - 1], s[|s| - 1];
      assert s == init + [last];
      assert s[1..] == init[1..] + [last];
      ValueFront(init, base);
      ValueSnoc(init, last, base);
      ValueSnoc(init[1..], last, base);
      assert init[0] == s[0];
      var p := Pow(base, |s| - 2);
      assert Pow(base, |s| - 1) == base * p;
      FrontRing(Value(s, base), Value(init, base), DigitValue(s[0]), p, Value(init[1..], base),
                Value(s[1..], base), base, DigitValue(last));
    }
  }

  lemma FrontRing(whole: int, init: int, d: int, p: int, rest: int, tail: int, b: int, e: int)
    requires whole == init * b + e && init == d * p + rest && tail == rest * b + e
    ensures whole == d * (b * p) + tail
  {
    assert (d * p + rest) * b == d * (b * p) + rest * b;
  }

  /** A binary string read as two's complement: the leading bit weighs `-2^(w-1)`. */
  function SignedValue(s: string): int {
    Value(s, 2) - (if |s| > 0 && s[0] == '1' then Pow(2, |s|) else 0)
  }

  /** The leading bit of `w` binary digits of `n` is set iff `n >= 2^(w-1)`. */
  lemma LeadingBit(n: nat, w: nat)
    requires 1 <= w && n < Pow(2, w)
    ensures Fixed(n, 2, w)[0] == '1' <==> n >= Pow(2, w - 1)
  {
    var s := Fixed(n, 2, w);
    ValueOfFixed(n, 2, w);
    ValueFront(s, 2);
    assert IsDigits(s[1..], 2) by {
      assert forall i :: 0 <= i < |s| - 1 ==> s[1..][i] == s[i + 1];
    }
    ValueBound(s[1..], 2);
    assert DigitValue(s[0]) < 2;
  }

  /** A non-empty string of decimal digits. */
  predicate IsDecimal(s: string) {
    |s| > 0 && IsDigits(s, 10)
  }

  /** Python's `int(text)` for an optional sign followed by ASCII decimal digits. */
  function ParseInt(s: string): (r: Option<int>)
  {
    if |s| > 0 && s[0] == '-' then (if IsDecimal(s[1..]) then Some(0 - Value(s[1..], 10)) else None)
    else if |s| > 0 && s[0] == '+' then (if IsDecimal(s[1..]) then Some(Value(s[1..], 10)) else None)
    else if IsDecimal(s) then Some(Value(s, 10))
    else None
  }

  /** Python's `str(n)`. */
  function Decimal(n: int): (s: string) {
    if n < 0 then "-" + Numeral(-n, 10) else Numeral(n, 10)
  }

  /** `int(str(n)) == n`. */
  lemma ParseDecimal(n: int)
    ensures ParseInt(Decimal(n)) == Some(n)
  {
    var m: nat := if n < 0 then -n else n;
    var digits := Numeral(m, 10);
    ValueOfNumeral(m, 10);
    if n < 0 {
      ParseNegative(digits);
    } else {
      ParseUnsigned(digits);
    }
  }

  lemma ParseUnsigned(digits: string)
    requires IsDecimal(digits)
    ensures ParseInt(digits) == Some(Value(digits, 10))
  {
    assert DigitValue(digits[0]) < 10;
  }

  lemma ParseNegative(digits: string)
    requires IsDecimal(digits)
    ensures ParseInt("-" + digits) == Some(0 - Value(digits, 10))
  {
    assert ("-" + digits)[1..] == digits;
  }
}
