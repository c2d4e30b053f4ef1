/** Kotlin `Int` behaviour the code generator relies on: `String.toInt(radix)`
    and the low bits of a bitwise `or`, written over unbounded integers. */
module Numbers {
  import opened Outcomes

  const IntMin: int := -0x8000_0000
  const IntMax: int := 0x7FFF_FFFF

  function Pow2(n: nat): (r: int)
    ensures r >= 1
  {
    if n == 0 then 1 else 2 * Pow2(n - 1)
  }

  /** The low bits of a value that is at most one modulus away from zero. */
  lemma ModNearZero(v: int, m: int)
    requires m > 0 && -m <= v < m
    ensures v % m == if v >= 0 then v else v + m
  {
    if v >= 0 {
      assert v / m == 0;
    } else {
      assert v / m == -1;
    }
  }

  /** The value of a digit character in radices up to 36, or -1 for any other character. */
  function DigitOf(c: char): int {
    if '0' <= c <= '9' then c as int - '0' as int
    else if 'a' <= c <= 'z' then c as int - 'a' as int + 10
    else if 'A' <= c <= 'Z' then c as int - 'A' as int + 10
    else -1
  }

  predicate IsDigits(s: string, radix: nat) {
    forall i :: 0 <= i < |s| ==> 0 <= DigitOf(s[i]) < radix
  }

  /** The value of a digit string read most significant digit first. */
  function DigitsValue(s: string, radix: nat): nat
    requires IsDigits(s, radix)
  {
    if s == [] then 0
    else
      var last := DigitOf(s[|s| - 1]);
      DigitsValue(s[..|s| - 1], radix) * radix + last
  }

  /** `String.toInt(radix)`: an optional `+` or `-`, at least one digit of the radix,
      and a value that fits a 32-bit `Int`; anything else is a number-format failure. */
  function ParseInt(s: string, radix: nat): (r: Result<int>)
    requires 2 <= radix <= 36
    ensures r.Ok? ==> IntMin <= r.value <= IntMax
    ensures r.Err? ==> r.error == NumberFormat(s)
    ensures r.Ok? ==> |s| >= 1 && (IsDigits(s, radix) || (s[0] in {'+', '-'} && |s| >= 2 && IsDigits(s[1..], radix)))
  {
    if s == [] then Err(NumberFormat(s))
    else
      var k := if s[0] == '-' || s[0] == '+' then 1 else 0;
      var digits := s[k..];
      if digits == [] || !IsDigits(digits, radix) then Err(NumberFormat(s))
      else
        var magnitude: int := DigitsValue(digits, radix);
        var v: int := if s[0] == '-' then -magnitude else magnitude;
        if IntMin <= v <= IntMax then Ok(v) else Err(NumberFormat(s))
  }

  /** The value of digits after an optional sign. */
  function SignedValue(sign: string, digits: string, radix: nat): int
    requires IsDigits(digits, radix)
  {
    if sign == "-" then -(DigitsValue(digits, radix) as int) else DigitsValue(digits, radix)
  }

  /** Conversely, every well-formed text in range parses: digits with no sign, or with
      `+`, read as their value, and with `-` as its negation. */
  lemma ParseWellFormed(sign: string, digits: string, radix: nat)
    requires 2 <= radix <= 36
    requires sign == "" || sign == "+" || sign == "-"
    requires |digits| >= 1 && IsDigits(digits, radix)
    requires IntMin <= SignedValue(sign, digits, radix) <= IntMax
    ensures var r := ParseInt(sign + digits, radix);
            r.Ok? && r.value == SignedValue(sign, digits, radix)
  {
    var s := sign + digits;
    if sign == "" {
      assert s == digits;
      assert 0 <= DigitOf(digits[0]);
      assert s[0..] == digits;
    } else {
      assert s[0] == sign[0] && s[1..] == digits;
    }
  }

  /** Conversely, well-formed text whose value does not fit a 32-bit `Int` fails. */
  lemma ParseOutOfRange(sign: string, digits: string, radix: nat)
    requires 2 <= radix <= 36
    requires sign == "" || sign == "+" || sign == "-"
    requires |digits| >= 1 && IsDigits(digits, radix)
    requires !(IntMin <= SignedValue(sign, digits, radix) <= IntMax)
    ensures ParseInt(sign + digits, radix).Err?
  {
    var s := sign + digits;
    var v := SignedValue(sign, digits, radix);
    if sign == "" {
      assert s == digits;
      assert 0 <= DigitOf(digits[0]);
      assert s[0] != '-' && s[0] != '+';
      assert s[0..] == digits;
      assert v == DigitsValue(s[0..], radix);
    } else if sign == "-" {
      assert s[0] == '-' && s[1..] == digits;
      assert v == -(DigitsValue(s[1..], radix) as int);
    } else {
      assert s[0] == '+' && s[1..] == digits;
      assert v == DigitsValue(s[1..], radix);
    }
  }

  /** The value of a digit string one digit longer. */
  lemma DigitsValueLast(s: string, radix: nat)
    requires |s| >= 1 && IsDigits(s, radix)
    ensures DigitsValue(s, radix) == DigitsValue(s[..|s| - 1], radix) * radix + DigitOf(s[|s| - 1])
  {
  }

  /** The lower-case letter of an upper-case ASCII letter; any other character unchanged. */
  function LowerChar(c: char): char {
    if 'A' <= c <= 'Z' then (c as int - 'A' as int + 'a' as int) as char else c
  }

  function LowerCase(s: string): (r: string)
    ensures |r| == |s| && forall i :: 0 <= i < |s| ==> r[i] == LowerChar(s[i])
  {
    seq(|s|, i requires 0 <= i < |s| => LowerChar(s[i]))
  }

  /** The letter case of the digits does not matter: `xF025` reads as `xf025`. */
  lemma ParseIgnoresCase(s: string, radix: nat)
    requires 2 <= radix <= 36
    ensures var r, l := ParseInt(s, radix), ParseInt(LowerCase(s), radix);
            && (r.Ok? <==> l.Ok?)
            && (r.Ok? ==> r.value == l.value)
  {
    var l := LowerCase(s);
    if s != [] {
      var k := if s[0] == '-' || s[0] == '+' then 1 else 0;
      assert l[0] == LowerChar(s[0]);
      assert (l[0] == '-' || l[0] == '+') == (k == 1) && (l[0] == '-') == (s[0] == '-');
      assert l[k..] == LowerCase(s[k..]);
      if IsDigits(s[k..], radix) {
        DigitsIgnoreCase(s[k..], radix);
      } else {
        var i :| 0 <= i < |s[k..]| && !(0 <= DigitOf(s[k..][i]) < radix);
        assert DigitOf(l[k..][i]) == DigitOf(s[k..][i]);
      }
    }
  }

  lemma {:induction false} DigitsIgnoreCase(s: string, radix: nat)
    requires IsDigits(s, radix)
    ensures IsDigits(LowerCase(s), radix) && DigitsValue(LowerCase(s), radix) == DigitsValue(s, radix)
  {
    if s != [] {
      var l := LowerCase(s);
      assert l[..|l| - 1] == LowerCase(s[..|s| - 1]);
      DigitsIgnoreCase(s[..|s| - 1], radix);
    }
  }

  /** A single digit parses to its own value. */
  lemma ParseOneDigit(c: char, radix: nat)
    requires 2 <= radix <= 36 && 0 <= DigitOf(c) < radix
    ensures ParseInt([c], radix).Ok? && ParseInt([c], radix).value == DigitOf(c)
  {
    assert [c][0..] == [c];
    assert DigitsValue([c], radix) == DigitsValue([], radix) * radix + DigitOf(c);
  }

  function DigitChar(d: nat): (c: char)
    requires d < 36
    ensures DigitOf(c) == d
  {
    if d < 10 then ('0' as int + d) as char else ('a' as int + d - 10) as char
  }

  /** The shortest digit string of `n` in `radix`, lower-case letters for digits above 9. */
  function NatDigits(n: nat, radix: nat): (s: string)
    requires 2 <= radix <= 36
    ensures |s| >= 1 && IsDigits(s, radix)
    decreases n
  {
    if n < radix then [DigitChar(n)]
    else
      DivisionParts(n, radix);
      var prefix := NatDigits(n / radix, radix);
      var s := prefix + [DigitChar(n % radix)];
      assert forall i :: 0 <= i < |prefix| ==> s[i] == prefix[i];
      s
  }

  lemma {:induction false} NatDigitsValue(n: nat, radix: nat)
    requires 2 <= radix <= 36
    ensures DigitsValue(NatDigits(n, radix), radix) == n
    decreases n
  {
    if n >= radix {
      var q, d := n / radix, n % radix;
      DivisionParts(n, radix);
      NatDigitsValue(q, radix);
      var s := NatDigits(n, radix);
      assert s[..|s| - 1] == NatDigits(q, radix);
      assert DigitOf(s[|s| - 1]) == d;
    }
  }

  lemma DivisionParts(n: nat, radix: nat)
    requires 2 <= radix <= n
    ensures n == (n / radix) * radix + n % radix
    ensures 0 <= n % radix < radix
    ensures n / radix < n
  {
  }

  /** `v` written with a leading `-` when negative and no sign otherwise. */
  function FormatInt(v: int, radix: nat): string
    requires 2 <= radix <= 36
  {
    if v < 0 then "-" + NatDigits(-v, radix) else NatDigits(v, radix)
  }

  /** Parsing the text of any 32-bit value gives the value back. */
  lemma ParseFormatInt(v: int, radix: nat)
    requires 2 <= radix <= 36
    requires IntMin <= v <= IntMax
    ensures ParseInt(FormatInt(v, radix), radix).Ok? && ParseInt(FormatInt(v, radix), radix).value == v
  {
    if v < 0 {
      ParseNegative(-v, radix);
    } else {
      ParseNatural(v, radix);
    }
  }

  lemma ParseNegative(n: nat, radix: nat)
    requires 2 <= radix <= 36 && 0 < n <= -IntMin
    ensures ParseInt("-" + NatDigits(n, radix), radix).Ok? && ParseInt("-" + NatDigits(n, radix), radix).value == -(n as int)
  {
    var s := "-" + NatDigits(n, radix);
    assert s[1..] == NatDigits(n, radix);
    NatDigitsValue(n, radix);
  }

  lemma ParseNatural(n: nat, radix: nat)
    requires 2 <= radix <= 36 && n <= IntMax
    ensures ParseInt(NatDigits(n, radix), radix).Ok? && ParseInt(NatDigits(n, radix), radix).value == n
  {
    var d := NatDigits(n, radix);
    assert 0 <= DigitOf(d[0]);
    assert d[0] != '-' && d[0] != '+';
    assert d[0..] == d;
    NatDigitsValue(n, radix);
  }

  /** Bitwise `or` of two naturals, one bit at a time from the lowest. */
  function BitOr(x: nat, y: nat): nat
    decreases x + y
  {
    if x == 0 then y
    else if y == 0 then x
    else 2 * BitOr(x / 2, y / 2) + (if x % 2 == 1 || y % 2 == 1 then 1 else 0)
  }

  /** `or` never sets a bit above the highest bit of its operands. */
  lemma {:induction false} BitOrBound(x: nat, y: nat, k: nat)
    requires x < Pow2(k) && y < Pow2(k)
    ensures BitOr(x, y) < Pow2(k)
    decreases x + y
  {
    if x != 0 && y != 0 {
      assert k > 0;
      assert Pow2(k) == 2 * Pow2(k - 1);
      BitOrBound(x / 2, y / 2, k - 1);
    }
  }

  /** `or` of two fields that share no bit is their sum: the high field is a multiple
      of `scale` = 2^k and the low field is below it. */
  lemma {:induction false} BitOrDisjoint(m: nat, scale: int, b: nat, k: nat)
    requires scale == Pow2(k) && b < scale
    ensures BitOr(m * scale, b) == m * scale + b
  {
    if k == 0 || m == 0 || b == 0 {
    } else {
      var p := Pow2(k - 1);
      var a := m * scale;
      assert a == 2 * (m * p);
      assert a / 2 == m * p && a % 2 == 0;
      BitOrDisjoint(m, p, b / 2, k - 1);
    }
  }

  /** Kotlin `(a or b).toUShort()`: the low 16 bits of the two's-complement `or`, which
      are the `or` of the low 16 bits of each operand (`%` rounds towards minus infinity
      here, so a negative operand contributes its two's-complement bits). */
  function Or16(a: int, b: int): (r: nat)
    ensures r < 0x1_0000
  {
    assert Pow2(8) == 0x100;
    assert Pow2(16) == 0x1_0000;
    BitOrBound(a % 0x1_0000, b % 0x1_0000, 16);
    BitOr(a % 0x1_0000, b % 0x1_0000)
  }

  /** Disjoint fields that fit in 16 bits are combined by `Or16` as a sum. */
  lemma Or16Disjoint(m: nat, scale: int, b: nat, k: nat)
    requires scale == Pow2(k) && b < scale
    requires m * scale + b < 0x1_0000
    ensures Or16(m * scale, b) == m * scale + b
  {
    var a := m * scale;
    assert 0 <= a < 0x1_0000;
    assert a % 0x1_0000 == a && b % 0x1_0000 == b;
    BitOrDisjoint(m, scale, b, k);
  }

  lemma MulAtLeast(k: int, d: int)
    requires k >= 1 && d > 0
    ensures k * d >= d
  {
    assert k * d == (k - 1) * d + d;
    assert (k - 1) * d >= 0;
  }

  /** Division by `d` splits `q * d + r` back into `q` and `r`. */
  lemma DivModSplit(q: int, r: int, d: int)
    requires d > 0 && 0 <= r < d
    ensures (q * d + r) / d == q && (q * d + r) % d == r
  {
    var n := q * d + r;
    var q', r' := n / d, n % d;
    assert n == q' * d + r' && 0 <= r' < d;
    assert (q - q') * d == r' - r;
    if q > q' {
      MulAtLeast(q - q', d);
    } else if q < q' {
      assert (q' - q) * d == r - r';
      MulAtLeast(q' - q, d);
    }
  }
}
