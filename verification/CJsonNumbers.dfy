/** What the text of a JSON number stands for (section 6 of RFC 8259), and that the parser
    of src/guacenc/cJSON.c reads it so. */
module CJsonNumbers {
  import opened Basics
  import opened Unicode
  import opened CJson

  datatype Exponent = Absent | Exponent(mark: Octet, sign: seq<Octet>, digits: seq<Octet>)

  /** A number as it is written. The fraction is its digits, if any. */
  datatype Numeral = Numeral(negative: bool, whole: nat, fraction: seq<Octet>, exponent: Exponent)

  predicate AreDigits(s: seq<Octet>) { forall k :: 0 <= k < |s| ==> IsDigit(s[k]) }

  predicate Proper(m: Numeral) {
    && AreDigits(m.fraction)
    && (m.exponent.Exponent? ==>
         && m.exponent.mark in ['e' as int, 'E' as int] && m.exponent.sign in [[], [PLUS], [MINUS]]
         && m.exponent.digits != [] && AreDigits(m.exponent.digits))
  }

  function FractionText(m: Numeral): seq<Octet> { if m.fraction == [] then [] else [DOT] + m.fraction }

  function ExponentText(e: Exponent): seq<Octet> { if e.Absent? then [] else [e.mark] + e.sign + e.digits }

  function Text(m: Numeral): seq<Octet> {
    (if m.negative then [MINUS] else []) + (Decimal(m.whole) + (FractionText(m) + ExponentText(m.exponent)))
  }

  function Placed(digit: nat, place: nat): nat { digit * Pow10(place) }

  /** Digits by their places. */
  function ValueOf(digits: seq<Octet>): nat
    requires AreDigits(digits)
  {
    if digits == [] then 0 else Placed(digits[0] - ZERO, |digits| - 1) + ValueOf(digits[1..])
  }

  function Tens(m: Numeral): int
    requires Proper(m)
  {
    if m.exponent.Absent? then 0
    else if m.exponent.sign == [MINUS] then 0 - ValueOf(m.exponent.digits)
    else ValueOf(m.exponent.digits)
  }

  /** The number meant: whole part and fraction, times a power of ten. */
  function Meaning(m: Numeral): real
    requires Proper(m)
  {
    (if m.negative then -1.0 else 1.0) *
    ((m.whole as real + ValueOf(m.fraction) as real * PowerOfTen(0 - |m.fraction|)) * PowerOfTen(Tens(m)))
  }

  // ------------------------------------------------------------------- arithmetic

  lemma {:induction false} PowerStep(e: int)
    ensures PowerOfTen(0) == 1.0 && PowerOfTen(e + 1) == 10.0 * PowerOfTen(e)
  {
  }

  lemma {:induction false} PowerSum(a: int, b: nat)
    ensures PowerOfTen(a + b) == PowerOfTen(a) * PowerOfTen(b)
    decreases b
  {
    hide PowerOfTen;
    PowerStep(0);
    if b > 0 {
      PowerSum(a, b - 1);
      PowerStep(a + b - 1);
      PowerStep(b - 1);
    }
  }

  lemma {:induction false} PowerOfNat(k: nat)
    ensures PowerOfTen(k) == Pow10(k) as real
  {
    if k > 0 {
      PowerOfNat(k - 1);
    }
  }

  lemma Cancel(s: real, x: real, y: real, z: real)
    requires x == s * z && y * z == 1.0
    ensures s == x * y
  {
    assert x * y == s * (z * y);
  }

  /** Powers of ten multiply, whatever the signs. */
  lemma PowersMultiply(a: int, b: int)
    ensures PowerOfTen(a + b) == PowerOfTen(a) * PowerOfTen(b)
  {
    hide PowerOfTen;
    if b >= 0 {
      PowerSum(a, b);
    } else {
      PowerSum(a + b, -b);
      PowerSum(b, -b);
      PowerStep(0);
      var x, y, z := PowerOfTen(a), PowerOfTen(b), PowerOfTen(-b);
      assert x == PowerOfTen(a + b) * z && y * z == 1.0;
      Cancel(PowerOfTen(a + b), x, y, z);
    }
  }

  lemma Distribute(w: real, f: real, p: real, q: real, r: real)
    requires p * q == 1.0
    ensures (w * p + f) * (q * r) == (w + f * q) * r
  {
    assert (w * p + f) * (q * r) == (w * (p * q) + f * q) * r;
  }

  lemma PlacesShift(w: nat, f: nat, k: nat, tens: int)
    ensures (w * Pow10(k) + f) as real * PowerOfTen(tens - k) ==
            (w as real + f as real * PowerOfTen(0 - k)) * PowerOfTen(tens)
  {
    hide PowerOfTen, Pow10;
    PowersMultiply(0 - k, tens);
    PowersMultiply(k, 0 - k);
    PowerOfNat(k);
    PowerStep(0);
    var p, q, r := Pow10(k) as real, PowerOfTen(0 - k), PowerOfTen(tens);
    assert (w * Pow10(k) + f) as real == w as real * p + f as real;
    Distribute(w as real, f as real, p, q, r);
  }

  // ----------------------------------------------------------------------- reading

  lemma Horner(n: nat, c: nat, p: nat, v: nat)
    ensures (10 * n + c) * p + v == n * (10 * p) + (c * p + v)
  {
  }

  lemma {:induction false} DigitsRead(d: seq<Octet>, t: seq<Octet>, n: nat)
    requires AreDigits(d) && !IsDigit(Peek(t))
    ensures Digits(d + t, n) == Run(n * Pow10(|d|) + ValueOf(d), t)
    decreases |d|
  {
    if d == [] {
      assert d + t == t;
    } else {
      var c := d[0] - ZERO;
      assert (d + t)[1..] == d[1..] + t && (d + t)[0] == d[0];
      DigitsRead(d[1..], t, 10 * n + c);
      Horner(n, c, Pow10(|d| - 1), ValueOf(d[1..]));
    }
  }

  lemma UnsignedAhead(digits: seq<Octet>, rest: seq<Octet>)
    requires digits != [] && AreDigits(digits) && !IsDigit(Peek(rest))
    ensures Peek(digits + rest) !in [PLUS, MINUS] && Digits(digits + rest, 0) == Run(ValueOf(digits), rest)
  {
    hide Digits, ValueOf, Pow10;
    DigitsRead(digits, rest, 0);
    assert (digits + rest)[0] == digits[0];
  }

  lemma ReadExponent(e: Exponent, rest: seq<Octet>) returns (u: seq<Octet>)
    requires e.Exponent? && e.digits != [] && AreDigits(e.digits) && e.sign in [[], [PLUS], [MINUS]] && !IsDigit(Peek(rest))
    ensures var t := ExponentText(e) + rest;
            && t != [] && t[0] == e.mark && u == t[1..] && (Peek(u) == MINUS <==> e.sign == [MINUS])
            && Digits(if Peek(u) == PLUS || Peek(u) == MINUS then u[1..] else u, 0) == Run(ValueOf(e.digits), rest)
  {
    hide Digits, ValueOf, AreDigits;
    var t := ExponentText(e) + rest;
    var d := e.digits + rest;
    u := e.sign + d;
    assert t == [e.mark] + u;
    UnsignedAhead(e.digits, rest);
    if e.sign == [] {
      assert u == d;
    } else {
      assert |e.sign| == 1 && u[0] == e.sign[0] && u[1..] == d;
    }
  }

  lemma ExponentAhead(e: Exponent, rest: seq<Octet>)
    requires e.Exponent? ==> e.mark in ['e' as int, 'E' as int]
    requires !ContinuesNumber(rest)
    ensures var u := ExponentText(e) + rest;
            !IsDigit(Peek(u)) && !HasFraction(u) && (HasExponent(u) <==> e.Exponent?)
  {
    var u := ExponentText(e) + rest;
    if e.Exponent? {
      assert u[0] == e.mark;
    } else {
      assert u == rest;
    }
  }

  lemma FractionAhead(m: Numeral, u: seq<Octet>)
    requires AreDigits(m.fraction) && !IsDigit(Peek(u)) && !HasFraction(u)
    ensures var t := FractionText(m) + u;
            !IsDigit(Peek(t)) && (HasFraction(t) <==> m.fraction != []) && (m.fraction != [] ==> t[1..] == m.fraction + u)
    ensures m.fraction == [] ==> FractionText(m) + u == u
  {
    var t := FractionText(m) + u;
    if m.fraction != [] {
      assert t == [DOT] + (m.fraction + u) && t[1] == m.fraction[0];
    } else {
      assert t == u;
    }
  }

  lemma Associate(a: seq<Octet>, b: seq<Octet>, c: seq<Octet>, d: seq<Octet>, r: seq<Octet>)
    ensures (a + (b + (c + d))) + r == a + (b + (c + (d + r)))
  {
  }

  lemma SignAhead(m: Numeral, rest: seq<Octet>)
    ensures var t, body := Text(m) + rest, Decimal(m.whole) + (FractionText(m) + (ExponentText(m.exponent) + rest));
            && (Peek(t) == MINUS <==> m.negative) && (if m.negative then t[1..] else t) == body
  {
    hide Decimal, FractionText, ExponentText;
    var body := Decimal(m.whole) + (FractionText(m) + (ExponentText(m.exponent) + rest));
    var sign: seq<Octet> := if m.negative then [MINUS] else [];
    Associate(sign, Decimal(m.whole), FractionText(m), ExponentText(m.exponent), rest);
    assert body[0] == Decimal(m.whole)[0];
    if m.negative {
      assert (sign + body)[1..] == body;
    } else {
      assert sign + body == body;
    }
  }

  lemma NotDigits(rest: seq<Octet>)
    requires !ContinuesNumber(rest)
    ensures !IsDigit(Peek(rest))
  {
  }

  lemma NoFraction(m: Numeral)
    requires m.fraction == []
    ensures ValueOf(m.fraction) == 0 && Pow10(|m.fraction|) == 1
  {
  }

  /** The digits before and after the point, run together. */
  function AllDigits(m: Numeral): nat
    requires Proper(m)
  {
    m.whole * Pow10(|m.fraction|) + ValueOf(m.fraction)
  }

  /** The text from its sign on, read up to the exponent. */
  lemma ReadMantissa(m: Numeral, last: seq<Octet>)
    requires Proper(m) && !IsDigit(Peek(last)) && !HasFraction(last)
    ensures var whole := Whole(Decimal(m.whole) + (FractionText(m) + last));
            && whole == Run(m.whole, FractionText(m) + last)
            && (HasFraction(whole.rest) <==> m.fraction != [])
            && (if m.fraction != [] then Digits(whole.rest[1..], whole.value) else whole) == Run(AllDigits(m), last)
            && (m.fraction != [] ==> |whole.rest| - 1 == |m.fraction| + |last|)
  {
    hide Digits, Whole, Decimal, HasFraction, Pow10, ValueOf, FractionText;
    FractionAhead(m, last);
    WholeOfDecimal(m.whole, FractionText(m) + last);
    if m.fraction != [] {
      DigitsRead(m.fraction, last, m.whole);
    } else {
      NoFraction(m);
    }
  }

  lemma ReadWithout(t: seq<Octet>, whole: Run, fraction: Run)
    requires whole == Whole(if Peek(t) == MINUS then t[1..] else t)
    requires fraction == if HasFraction(whole.rest) then Digits(whole.rest[1..], whole.value) else whole
    requires !HasExponent(fraction.rest)
    ensures var scale := if HasFraction(whole.rest) then |fraction.rest| - (|whole.rest| - 1) else 0;
            ReadNumber(t) == Ok(Number(Scaled(Peek(t) == MINUS, fraction.value, scale)), fraction.rest)
  {
    hide Digits, Whole, HasFraction, HasExponent, Scaled;
  }

  lemma ReadWith(t: seq<Octet>, whole: Run, fraction: Run, u: seq<Octet>, exponent: Run)
    requires whole == Whole(if Peek(t) == MINUS then t[1..] else t)
    requires fraction == if HasFraction(whole.rest) then Digits(whole.rest[1..], whole.value) else whole
    requires HasExponent(fraction.rest) && u == fraction.rest[1..]
    requires exponent == Digits(if Peek(u) == PLUS || Peek(u) == MINUS then u[1..] else u, 0)
    ensures var scale := if HasFraction(whole.rest) then |fraction.rest| - (|whole.rest| - 1) else 0;
            ReadNumber(t) ==
            Ok(Number(Scaled(Peek(t) == MINUS, fraction.value,
                             scale + if Peek(u) == MINUS then 0 - exponent.value else exponent.value)), exponent.rest)
  {
    hide Digits, Whole, HasFraction, Scaled;
  }

  lemma NoExponent(rest: seq<Octet>)
    ensures ExponentText(Absent) + rest == rest
  {
  }

  lemma PartsWith(m: Numeral, rest: seq<Octet>)
    requires Proper(m) && !ContinuesNumber(rest) && m.exponent.Exponent?
    ensures ReadNumber(Text(m) + rest) ==
            Ok(Number(Scaled(m.negative, AllDigits(m), Tens(m) - |m.fraction|)), rest)
  {
    hide Digits, Whole, Decimal, HasFraction, HasExponent, Scaled, Pow10, ValueOf, FractionText, ExponentText, ContinuesNumber;
    hide Text, ReadNumber, AllDigits, AreDigits, IsDigit;
    var last := ExponentText(m.exponent) + rest;
    ExponentAhead(m.exponent, rest);
    SignAhead(m, rest);
    ReadMantissa(m, last);
    NotDigits(rest);
    var u := ReadExponent(m.exponent, rest);
    ReadWith(Text(m) + rest, Run(m.whole, FractionText(m) + last), Run(AllDigits(m), last), u,
             Run(ValueOf(m.exponent.digits), rest));
  }

  lemma PartsWithout(m: Numeral, rest: seq<Octet>)
    requires Proper(m) && !ContinuesNumber(rest) && m.exponent.Absent?
    ensures ReadNumber(Text(m) + rest) == Ok(Number(Scaled(m.negative, AllDigits(m), 0 - |m.fraction|)), rest)
  {
    hide Digits, Whole, Decimal, HasFraction, HasExponent, Scaled, Pow10, ValueOf, FractionText, ExponentText, ContinuesNumber;
    hide Text, ReadNumber, AllDigits, AreDigits, IsDigit;
    var last := ExponentText(m.exponent) + rest;
    ExponentAhead(m.exponent, rest);
    SignAhead(m, rest);
    ReadMantissa(m, last);
    NoExponent(rest);
    ReadWithout(Text(m) + rest, Run(m.whole, FractionText(m) + last), Run(AllDigits(m), last));
  }

  lemma ReadParts(m: Numeral, rest: seq<Octet>)
    requires Proper(m) && !ContinuesNumber(rest)
    ensures ReadNumber(Text(m) + rest) ==
            Ok(Number(Scaled(m.negative, AllDigits(m), Tens(m) - |m.fraction|)), rest)
  {
    hide ReadNumber, Text, Scaled, AllDigits, ContinuesNumber;
    if m.exponent.Exponent? {
      PartsWith(m, rest);
    } else {
      PartsWithout(m, rest);
    }
  }

  lemma Regroup(s: real, n: real, p: real)
    ensures s * n * p == s * (n * p)
  {
  }

  /** A number written in any of these ways is read as what it means, without rounding, and
      what follows it is left over. */
  lemma NumeralMeans(m: Numeral, rest: seq<Octet>)
    requires Proper(m) && !ContinuesNumber(rest)
    ensures ReadNumber(Text(m) + rest) == Ok(Number(Meaning(m)), rest)
  {
    hide ReadNumber, Text, PowerOfTen, Pow10, ValueOf, Tens, ContinuesNumber;
    ReadParts(m, rest);
    PlacesShift(m.whole, ValueOf(m.fraction), |m.fraction|, Tens(m));
    var sign := if m.negative then -1.0 else 1.0;
    var p := PowerOfTen(Tens(m) - |m.fraction|);
    Regroup(sign, AllDigits(m) as real, p);
    assert Scaled(m.negative, AllDigits(m), Tens(m) - |m.fraction|) == sign * (AllDigits(m) as real) * p;
    assert Meaning(m) == sign * (AllDigits(m) as real * p);
  }
}
