/** Digit strings in bases up to 16: the part of JavaScript's `parseInt` and
    `Number.prototype.toString(base)` that Color.js relies on. Values are
    unbounded naturals; a string is read most significant digit first. */
module Numerals {

  predicate IsDecDigit(c: char) { '0' <= c <= '9' }

  predicate IsUpperHexLetter(c: char) { 'A' <= c <= 'F' }

  /** `[0-9a-fA-F]` */
  predicate IsHexDigit(c: char) { IsDecDigit(c) || 'a' <= c <= 'f' || IsUpperHexLetter(c) }

  /** The value of one digit; letters count in either case, as parseInt reads them. */
  function DigitValue(c: char): (v: nat)
    requires IsHexDigit(c)
    ensures v < 16
    ensures v < 10 <==> IsDecDigit(c)
    ensures v == 0 <==> c == '0'
  {
    if IsDecDigit(c) then c as int - '0' as int
    else if IsUpperHexLetter(c) then c as int - 'A' as int + 10
    else c as int - 'a' as int + 10
  }

  /** The digit toString writes for a value below 16: letters are lower case. */
  function DigitChar(d: nat): (c: char)
    requires d < 16
    ensures IsHexDigit(c) && !IsUpperHexLetter(c)
    ensures DigitValue(c) == d
  {
    if d < 10 then ('0' as int + d) as char else ('a' as int + d - 10) as char
  }

  /** A hexadecimal digit written in lower case. */
  function LowerHex(c: char): (l: char)
    requires IsHexDigit(c)
    ensures IsHexDigit(l) && !IsUpperHexLetter(l)
    ensures DigitValue(l) == DigitValue(c)
    ensures !IsUpperHexLetter(c) ==> l == c
  {
    if IsUpperHexLetter(c) then (c as int - 'A' as int + 'a' as int) as char else c
  }

  /** Every character of `s` is a digit of `base`. */
  predicate AllDigits(s: string, base: nat)
  {
    forall i :: 0 <= i < |s| ==> IsHexDigit(s[i]) && DigitValue(s[i]) < base
  }

  /** No character of `s` is an upper-case letter. */
  predicate AllLower(s: string)
  {
    forall i :: 0 <= i < |s| ==> !IsUpperHexLetter(s[i])
  }

  function LowerAll(s: string): (l: string)
    requires AllDigits(s, 16)
    ensures |l| == |s| && AllDigits(l, 16) && AllLower(l)
    ensures forall i :: 0 <= i < |s| ==> DigitValue(l[i]) == DigitValue(s[i])
  {
    seq(|s|, i requires 0 <= i < |s| => LowerHex(s[i]))
  }

  /** The two radices Color.js reads and writes: decimal channels and hexadecimal colors. */
  predicate IsRadix(base: nat) { base == 10 || base == 16 }

  function Pow(base: nat, k: nat): (p: nat)
    ensures base >= 1 ==> p >= 1
  {
    if k == 0 then 1 else base * Pow(base, k - 1)
  }

  /** Every character is the digit zero. */
  predicate AllZeros(s: string)
  {
    forall i :: 0 <= i < |s| ==> s[i] == '0'
  }

  /** The value of a digit string (parseInt with an explicit radix, on digits only),
      most significant digit first. */
  function Value(s: string, base: nat): nat
    requires AllDigits(s, base)
  {
    if s == [] then 0 else Value(s[..|s| - 1], base) * base + DigitValue(s[|s| - 1])
  }

  /** `n.toString(base)`: the shortest digit string of `n`, lower case, "0" for zero. */
  function Render(n: nat, base: nat): (s: string)
    requires IsRadix(base)
    ensures 1 <= |s| && AllDigits(s, base) && AllLower(s)
    ensures s[0] == '0' <==> n == 0
    decreases n
  {
    if n < base then [DigitChar(n)]
    else Render(n / base, base) + [DigitChar(n % base)]
  }

  /** The low `k` hexadecimal digits of `n`, with leading zeros: the reference for
      fixed-width output. */
  function HexPad(n: nat, k: nat): (s: string)
    ensures |s| == k && AllDigits(s, 16) && AllLower(s)
  {
    if k == 0 then [] else HexPad(n / 16, k - 1) + [DigitChar(n % 16)]
  }

  /** A string of `k` digits has a value below `base^k`. */
  lemma {:induction false} ValueBound(s: string, base: nat)
    requires IsRadix(base) && AllDigits(s, base)
    ensures Value(s, base) < Pow(base, |s|)
  {
    if s != [] {
      var init := s[..|s| - 1];
      ValueBound(init, base);
      var v, p := Value(init, base), Pow(base, |init|);
      if base == 10 {
        assert Value(s, 10) < 10 * p;
      } else {
        assert Value(s, 16) < 16 * p;
      }
    }
  }

  /** Reading back what toString wrote gives the number: `parseInt(n.toString(base), base) == n`. */
  lemma {:induction false} ValueOfRender(n: nat, base: nat)
    requires IsRadix(base)
    ensures Value(Render(n, base), base) == n
    decreases n
  {
    if n >= base {
      var prefix := Render(n / base, base);
      var s := prefix + [DigitChar(n % base)];
      assert s[..|s| - 1] == prefix;
      ValueOfRender(n / base, base);
      if base == 10 {
        assert n == (n / 10) * 10 + n % 10;
      } else {
        assert n == (n / 16) * 16 + n % 16;
      }
    }
  }

  /** The `k` fixed-width digits of a value below `16^k` read back as that value. */
  lemma {:induction false} ValueOfHexPad(n: nat, k: nat)
    requires n < Pow(16, k)
    ensures Value(HexPad(n, k), 16) == n
    decreases k
  {
    if k > 0 {
      var prefix := HexPad(n / 16, k - 1);
      var s := prefix + [DigitChar(n % 16)];
      assert s[..k - 1] == prefix;
      ValueOfHexPad(n / 16, k - 1);
    }
  }

  /** A digit string with its leading zeros removed, keeping one digit. */
  function StripZeros(s: string): (t: string)
    ensures |t| <= |s| && t == s[|s| - |t|..]
    ensures forall i :: 0 <= i < |s| - |t| ==> s[i] == '0'
    ensures |s| >= 1 ==> |t| >= 1 && (|t| == 1 || t[0] != '0')
  {
    if |s| > 1 && s[0] == '0' then
      var t := StripZeros(s[1..]);
      assert forall i :: 1 <= i < |s| - |t| ==> s[i] == s[1..][i - 1];
      t
    else s
  }

  /** A digit string has value zero exactly when all its digits are `0`. */
  lemma {:induction false} ValueZero(s: string, base: nat)
    requires IsRadix(base) && AllDigits(s, base)
    ensures Value(s, base) == 0 <==> AllZeros(s)
    decreases |s|
  {
    if s != [] {
      var init := s[..|s| - 1];
      ValueZero(init, base);
      assert AllZeros(s) <==> AllZeros(init) && s[|s| - 1] == '0';
    }
  }

  lemma {:induction false} ValueLeadingZero(s: string)
    requires AllDigits(s, 10)
    ensures AllDigits(['0'] + s, 10) && Value(['0'] + s, 10) == Value(s, 10)
    decreases |s|
  {
    var z := ['0'] + s;
    if s != [] {
      var init := s[..|s| - 1];
      ValueLeadingZero(init);
      assert z[..|z| - 1] == ['0'] + init;
    }
  }

  lemma {:induction false} ValuePositive(s: string)
    requires AllDigits(s, 10) && |s| >= 1 && s[0] != '0'
    ensures Value(s, 10) >= 1
    decreases |s|
  {
    if |s| > 1 {
      var init := s[..|s| - 1];
      ValuePositive(init);
    }
  }

  /** Rendering the value of a decimal string without leading zeros gives the string back. */
  lemma {:induction false} RenderValue(s: string)
    requires AllDigits(s, 10)
    requires |s| == 1 || (|s| > 1 && s[0] != '0')
    ensures Render(Value(s, 10), 10) == s
    decreases |s|
  {
    if |s| == 1 {
      assert [LowerHex(s[0])] == s;
    } else {
      var init := s[..|s| - 1];
      ValuePositive(init);
      RenderValue(init);
      assert s == init + [LowerHex(s[|s| - 1])];
    }
  }

  /** `String(parseInt(s))` on a decimal string is the string without its leading zeros. */
  lemma {:induction false} RenderStripsZeros(s: string)
    requires AllDigits(s, 10) && |s| >= 1
    ensures Render(Value(s, 10), 10) == StripZeros(s)
    decreases |s|
  {
    if |s| > 1 && s[0] == '0' {
      var tail := s[1..];
      assert s == ['0'] + tail;
      ValueLeadingZero(tail);
      RenderStripsZeros(tail);
    } else {
      RenderValue(s);
    }
  }

  /** A value below `10^k` renders in at most `k` decimal digits. */
  lemma {:induction false} RenderLength(n: nat, k: nat)
    requires 1 <= k && n < Pow(10, k)
    ensures |Render(n, 10)| <= k
    decreases n
  {
    if n >= 10 {
      RenderLength(n / 10, k - 1);
    }
  }

  /** Fixed-width rendering of the value of a hexadecimal string gives it back in lower case. */
  lemma {:induction false} HexPadValue(s: string)
    requires AllDigits(s, 16)
    ensures HexPad(Value(s, 16), |s|) == LowerAll(s)
    decreases |s|
  {
    if s != [] {
      var init, last := s[..|s| - 1], s[|s| - 1];
      var v, d := Value(init, 16), DigitValue(last);
      assert Value(s, 16) == v * 16 + d;
      LastDigit(v, d);
      assert HexPad(v * 16 + d, |s|) == HexPad(v, |init|) + [DigitChar(d)];
      HexPadValue(init);
      LowerAllSnoc(s);
      DigitCharOfValue(last);
    }
  }

  lemma LastDigit(v: nat, d: nat)
    requires d < 16
    ensures (v * 16 + d) / 16 == v && (v * 16 + d) % 16 == d
  {
  }

  /** The lower-case digit is the one toString writes for the digit's value. */
  lemma DigitCharOfValue(c: char)
    requires IsHexDigit(c)
    ensures DigitChar(DigitValue(c)) == LowerHex(c)
  {
  }

  lemma LowerAllSnoc(s: string)
    requires AllDigits(s, 16) && s != []
    ensures AllDigits(s[..|s| - 1], 16)
    ensures LowerAll(s) == LowerAll(s[..|s| - 1]) + [LowerHex(s[|s| - 1])]
  {
    var init := s[..|s| - 1];
    assert forall i :: 0 <= i < |init| ==> init[i] == s[i];
  }

  /** A leading digit `q` followed by `k` fixed-width digits: `q * 16^k + x`, for `x`
      below `16^k`, renders as `q` and then `x` in exactly `k` hexadecimal digits. */
  lemma {:induction false} RenderLeading(q: nat, x: nat, k: nat)
    requires 1 <= q < 16 && x < Pow(16, k)
    ensures Render(q * Pow(16, k) + x, 16) == [DigitChar(q)] + HexPad(x, k)
    decreases k
  {
    if k == 0 {
      assert q * Pow(16, k) + x == q;
      assert [DigitChar(q)] + HexPad(x, k) == [DigitChar(q)];
    } else {
      var p := Pow(16, k - 1);
      var v := q * p + x / 16;
      var n := q * Pow(16, k) + x;
      ShiftDigit(q, x, k);
      PositiveProduct(q, p);
      LastDigit(v, x % 16);
      var head, mid, last := [DigitChar(q)], HexPad(x / 16, k - 1), [DigitChar(x % 16)];
      assert Render(n, 16) == Render(v, 16) + last;
      RenderLeading(q, x / 16, k - 1);
      assert HexPad(x, k) == mid + last;
      AppendAssoc(head, mid, last);
      assert Render(n, 16) == head + HexPad(x, k);
    }
  }

  /** Splitting off the last hexadecimal digit of `a * 16^k + x`. */
  lemma ShiftDigit(a: nat, x: nat, k: nat)
    requires k > 0 && x < Pow(16, k)
    ensures a * Pow(16, k) + x == (a * Pow(16, k - 1) + x / 16) * 16 + x % 16
    ensures x / 16 < Pow(16, k - 1)
  {
    var p := Pow(16, k - 1);
    assert a * Pow(16, k) == a * p * 16;
  }

  lemma AppendAssoc(a: string, b: string, c: string)
    ensures (a + b) + c == a + (b + c)
  {
  }

  lemma PositiveProduct(a: nat, b: nat)
    requires a >= 1 && b >= 1
    ensures a * b >= 1
  {
  }

  /** Fixed-width digits of `a * 16^m + c` are those of `a` followed by those of `c`. */
  lemma {:induction false} HexPadConcat(a: nat, c: nat, k: nat, m: nat)
    requires c < Pow(16, m)
    ensures HexPad(a * Pow(16, m) + c, k + m) == HexPad(a, k) + HexPad(c, m)
    decreases m
  {
    if m > 0 {
      var v := a * Pow(16, m - 1) + c / 16;
      ShiftDigit(a, c, m);
      LastDigit(v, c % 16);
      HexPadConcat(a, c / 16, k, m - 1);
    }
  }
}
