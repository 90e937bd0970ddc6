/** GF(2^8) with the polynomial x^8 + x^4 + x^3 + x^2 + 1 (0x11d): the reference arithmetic.
    A byte is its eight bits, low bit first. Addition is exclusive or; multiplication is carry-less
    multiplication reduced by the polynomial. Nothing here mentions a table. */
module Gf256 {
  import opened Collections

  datatype Byte = Byte(b0: bool, b1: bool, b2: bool, b3: bool, b4: bool, b5: bool, b6: bool, b7: bool)

  const ZERO := Byte(false, false, false, false, false, false, false, false)
  const ONE := Byte(true, false, false, false, false, false, false, false)

  /** The sum of two field elements: exclusive or. */
  function Add(a: Byte, b: Byte): (r: Byte) {
    Byte(a.b0 != b.b0, a.b1 != b.b1, a.b2 != b.b2, a.b3 != b.b3,
         a.b4 != b.b4, a.b5 != b.b5, a.b6 != b.b6, a.b7 != b.b7)
  }

  /** Multiplication by x: a left shift, reduced by 0x11d when it leaves eight bits. */
  function Times2(a: Byte): (r: Byte) {
    Byte(a.b7, a.b0, a.b1 != a.b7, a.b2 != a.b7, a.b3 != a.b7, a.b4, a.b5, a.b6)
  }

  // ---- addition ---------------------------------------------------------------

  lemma AddAssoc(a: Byte, b: Byte, c: Byte)
    ensures Add(Add(a, b), c) == Add(a, Add(b, c))
  {
  }

  lemma AddComm(a: Byte, b: Byte)
    ensures Add(a, b) == Add(b, a)
  {
  }

  lemma AddZero(a: Byte)
    ensures Add(a, ZERO) == a && Add(ZERO, a) == a
  {
  }

  lemma AddSelf(a: Byte, b: Byte)
    ensures Add(a, b) == ZERO <==> a == b
  {
  }

  lemma AddSwap(a: Byte, b: Byte, c: Byte, d: Byte)
    ensures Add(Add(a, b), Add(c, d)) == Add(Add(a, c), Add(b, d))
  {
  }

  // ---- linearity --------------------------------------------------------------

  lemma Times2Add(a: Byte, b: Byte)
    ensures Times2(Add(a, b)) == Add(Times2(a), Times2(b))
  {
  }

  lemma Times2Zero(a: Byte)
    ensures Times2(a) == ZERO <==> a == ZERO
  {
  }

  /** One step of Horner's rule. */
  function Step(r: Byte, bit: bool, b: Byte): (s: Byte) {
    Add(Times2(r), if bit then b else ZERO)
  }

  /** `a * b` modulo the polynomial: Horner's rule over the bits of `a`, the high bit first. */
  function Mul(a: Byte, b: Byte): (r: Byte) {
    Step(Step(Step(Step(Step(Step(Step(Step(ZERO,
      a.b7, b), a.b6, b), a.b5, b), a.b4, b), a.b3, b), a.b2, b), a.b1, b), a.b0, b)
  }

  lemma StepAdd(r: Byte, s: Byte, bit: bool, b: Byte, c: Byte)
    ensures Step(Add(r, s), bit, Add(b, c)) == Add(Step(r, bit, b), Step(s, bit, c))
  {
    hide Add, Times2;
    Times2Add(r, s);
    AddSwap(Times2(r), if bit then b else ZERO, Times2(s), if bit then c else ZERO);
    AddZero(ZERO);
  }

  lemma StepTimes2(r: Byte, bit: bool, b: Byte)
    ensures Step(Times2(r), bit, Times2(b)) == Times2(Step(r, bit, b))
  {
    hide Add, Times2;
    Times2Add(Times2(r), if bit then b else ZERO);
    Times2Zero(ZERO);
  }

  lemma MulAdd(a: Byte, b: Byte, c: Byte)
    ensures Mul(a, Add(b, c)) == Add(Mul(a, b), Mul(a, c))
  {
    hide Step, Add;
    AddZero(ZERO);
    var r7, s7 := Step(ZERO, a.b7, b), Step(ZERO, a.b7, c);
    var r6, s6 := Step(r7, a.b6, b), Step(s7, a.b6, c);
    var r5, s5 := Step(r6, a.b5, b), Step(s6, a.b5, c);
    var r4, s4 := Step(r5, a.b4, b), Step(s5, a.b4, c);
    var r3, s3 := Step(r4, a.b3, b), Step(s4, a.b3, c);
    var r2, s2 := Step(r3, a.b2, b), Step(s3, a.b2, c);
    var r1, s1 := Step(r2, a.b1, b), Step(s2, a.b1, c);
    StepAdd(ZERO, ZERO, a.b7, b, c);
    StepAdd(r7, s7, a.b6, b, c);
    StepAdd(r6, s6, a.b5, b, c);
    StepAdd(r5, s5, a.b4, b, c);
    StepAdd(r4, s4, a.b3, b, c);
    StepAdd(r3, s3, a.b2, b, c);
    StepAdd(r2, s2, a.b1, b, c);
    StepAdd(r1, s1, a.b0, b, c);
  }

  lemma MulTimes2(a: Byte, b: Byte)
    ensures Mul(a, Times2(b)) == Times2(Mul(a, b))
  {
    hide Step, Times2;
    Times2Zero(ZERO);
    var r7 := Step(ZERO, a.b7, b);
    var r6 := Step(r7, a.b6, b);
    var r5 := Step(r6, a.b5, b);
    var r4 := Step(r5, a.b4, b);
    var r3 := Step(r4, a.b3, b);
    var r2 := Step(r3, a.b2, b);
    var r1 := Step(r2, a.b1, b);
    StepTimes2(ZERO, a.b7, b);
    StepTimes2(r7, a.b6, b);
    StepTimes2(r6, a.b5, b);
    StepTimes2(r5, a.b4, b);
    StepTimes2(r4, a.b3, b);
    StepTimes2(r3, a.b2, b);
    StepTimes2(r2, a.b1, b);
    StepTimes2(r1, a.b0, b);
  }

  lemma StepOne(r: Byte, bit: bool)
    requires !r.b7
    ensures Step(r, bit, ONE) == Byte(bit, r.b0, r.b1, r.b2, r.b3, r.b4, r.b5, r.b6)
  {
  }

  lemma MulOne(a: Byte)
    ensures Mul(a, ONE) == a
  {
    hide Step;
    var F := false;
    StepOne(ZERO, a.b7);
    StepOne(Byte(a.b7, F, F, F, F, F, F, F), a.b6);
    StepOne(Byte(a.b6, a.b7, F, F, F, F, F, F), a.b5);
    StepOne(Byte(a.b5, a.b6, a.b7, F, F, F, F, F), a.b4);
    StepOne(Byte(a.b4, a.b5, a.b6, a.b7, F, F, F, F), a.b3);
    StepOne(Byte(a.b3, a.b4, a.b5, a.b6, a.b7, F, F, F), a.b2);
    StepOne(Byte(a.b2, a.b3, a.b4, a.b5, a.b6, a.b7, F, F), a.b1);
    StepOne(Byte(a.b1, a.b2, a.b3, a.b4, a.b5, a.b6, a.b7, F), a.b0);
  }

  lemma MulZero(a: Byte)
    ensures Mul(a, ZERO) == ZERO && Mul(ZERO, a) == ZERO
  {
    assert forall bit: bool :: Step(ZERO, bit, ZERO) == ZERO;
    assert Step(ZERO, false, a) == ZERO;
    hide Step;
  }

  // ---- the powers of x --------------------------------------------------------

  /** x to the n. */
  function Exp(n: nat): (r: Byte)
    ensures r != ZERO
  {
    if n == 0 then ONE else Times2Zero(Exp(n - 1)); Times2(Exp(n - 1))
  }

  lemma {:induction false} ExpAdd(i: nat, j: nat)
    ensures Mul(Exp(i), Exp(j)) == Exp(i + j)
  {
    hide Times2, Mul;
    if j == 0 {
      MulOne(Exp(i));
    } else {
      MulTimes2(Exp(i), Exp(j - 1));
      ExpAdd(i, j - 1);
    }
  }

  /** Squaring, which is linear over the bits: bit i goes to x to the 2i. */
  function Square(a: Byte): (r: Byte) {
    Byte((a.b0 != a.b4) != (a.b6 != a.b7), a.b7, (a.b1 != a.b4) != (a.b5 != a.b6), a.b4 != a.b6,
         (a.b2 != a.b4) != (a.b5 != a.b7), a.b5, (a.b3 != a.b5) != a.b6, a.b6)
  }

  lemma SquareTimes2(a: Byte)
    ensures Square(Times2(a)) == Times2(Times2(Square(a)))
  {
  }

  lemma {:induction false} ExpDouble(n: nat)
    ensures Exp(2 * n) == Square(Exp(n))
  {
    hide Square, Times2;
    if n == 0 {
      assert Square(ONE) == ONE by { SquareOne(); }
    } else {
      ExpDouble(n - 1);
      SquareTimes2(Exp(n - 1));
      assert Exp(2 * n - 1) == Times2(Exp(2 * (n - 1)));
    }
  }

  lemma SquareOne()
    ensures Square(ONE) == ONE
  {
  }

  lemma ExpFive(n: nat)
    ensures Exp(n + 1) == Times2(Exp(n))
    ensures Exp(n + 5) == Times2(Times2(Times2(Times2(Times2(Exp(n))))))
  {
    assert Exp(n + 3) == Times2(Times2(Exp(n + 1)));
  }

  /** The powers that decide the order of x. */
  lemma ExpValues()
    ensures Exp(255) == ONE
    ensures Exp(15) != ONE && Exp(51) != ONE && Exp(85) != ONE
  {
    hide Exp, Square, Times2;
    FullOrder();
    Exp15();
    Exp51();
    Exp85();
  }

  lemma FullOrder()
    ensures Exp(255) == ONE
  {
    hide Exp, Square;
    PowersOf2();
    ExpFive(255);
  }

  lemma ExpSmall()
    ensures Exp(8) == Byte(true, false, true, true, true, false, false, false)
    ensures Exp(16) == Byte(false, false, true, true, false, false, true, false)
  {
    assert Exp(4) == Byte(false, false, false, false, true, false, false, false);
    hide Exp;
    ExpDouble(4);
    ExpDouble(8);
  }

  lemma Exp15()
    ensures Exp(15) != ONE
  {
    hide Exp, Square;
    ExpSmall();
    ExpFive(15);
  }

  lemma Exp51()
    ensures Exp(51) != ONE
  {
    var F, T := false, true;
    hide Exp;
    ExpSmall();
    ExpFive(8);
    assert Exp(13) == Byte(T, T, T, F, F, F, F, T);
    ExpDouble(13);
    ExpDouble(26);
    assert Exp(52) == Byte(F, F, T, F, T, F, F, F);
    ExpFive(51);
  }

  lemma Exp85()
    ensures Exp(85) != ONE
  {
    var F, T := false, true;
    hide Exp;
    ExpSmall();
    ExpFive(16);
    assert Exp(21) == Byte(T, F, T, F, T, T, T, F);
    ExpDouble(21);
    ExpDouble(42);
    assert Exp(84) == Byte(T, T, F, T, F, T, T, F);
    ExpFive(84);
  }

  lemma PowersOf2()
    ensures Exp(256) == Times2(ONE)
  {
    var F, T := false, true;
    assert Exp(4) == Byte(F, F, F, F, T, F, F, F);
    hide Exp;
    ExpDouble(4);
    ExpDouble(8);
    ExpDouble(16);
    ExpDouble(32);
    ExpDouble(64);
    ExpDouble(128);
    assert Exp(16) == Byte(F, F, T, T, F, F, T, F);
    assert Exp(64) == Byte(T, T, T, T, T, F, T, F);
    assert Exp(128) == Byte(T, F, T, F, F, F, F, T);
  }

  // ---- the order of x ---------------------------------------------------------

  lemma {:induction false} Period(p: nat, k: nat, r: nat)
    requires Exp(p) == ONE
    ensures Exp(k * p + r) == Exp(r)
  {
    hide Exp, Mul;
    if k > 0 {
      var n := (k - 1) * p + r;
      assert k * p + r == n + p;
      ExpAdd(n, p);
      MulOne(Exp(n));
      Period(p, k - 1, r);
    }
  }

  lemma PeriodMod(p: nat, n: nat)
    requires p > 0 && Exp(p) == ONE
    ensures Exp(n % p) == Exp(n)
  {
    hide Exp;
    Period(p, n / p, n % p);
  }

  lemma DivisorsOf255(p: nat, q: nat)
    requires p * q == 255 && q > 1
    ensures p > 0 && (15 % p == 0 || 51 % p == 0 || 85 % p == 0)
  {
    if q <= 16 {
      assert q == 3 || q == 5 || q == 15;
    } else {
      assert p <= 15;
      assert p == 1 || p == 3 || p == 5 || p == 15;
    }
  }

  lemma {:induction false} NoShortPeriod(p: nat)
    requires 0 < p < 255
    ensures Exp(p) != ONE
  {
    hide Exp;
    if Exp(p) == ONE {
      ExpValues();
      PeriodMod(p, 255);
      if 255 % p != 0 {
        NoShortPeriod(255 % p);
      } else {
        DivisorsOf255(p, 255 / p);
        PeriodMod(p, 15);
        PeriodMod(p, 51);
        PeriodMod(p, 85);
        ExpZero();
      }
    }
  }

  lemma ExpZero()
    ensures Exp(0) == ONE
  {
  }

  lemma {:induction false} ExpInjective(i: nat, j: nat)
    requires i < 255 && j < 255 && Exp(i) == Exp(j)
    ensures i == j
    decreases i + j
  {
    if i == 0 || j == 0 {
      if i + j > 0 {
        NoShortPeriod(i + j);
      }
    } else {
      var a, b := Exp(i - 1), Exp(j - 1);
      Times2Add(a, b);
      AddSelf(Times2(a), Times2(b));
      Times2Zero(Add(a, b));
      AddSelf(a, b);
      ExpInjective(i - 1, j - 1);
    }
  }

  // ---- bytes as numbers -------------------------------------------------------

  function Digit(bit: bool, rest: nat): (r: nat) {
    2 * rest + if bit then 1 else 0
  }

  /** The value of a byte. */
  function Value(a: Byte): (r: nat)
    ensures r < 256
  {
    Digit(a.b0, Digit(a.b1, Digit(a.b2, Digit(a.b3, Digit(a.b4, Digit(a.b5, Digit(a.b6, Digit(a.b7, 0))))))))
  }

  /** The byte of a value, higher bits discarded. */
  function OfNat(n: nat): (r: Byte) {
    var n1 := n / 2;
    var n2 := n1 / 2;
    var n3 := n2 / 2;
    var n4 := n3 / 2;
    var n5 := n4 / 2;
    var n6 := n5 / 2;
    var n7 := n6 / 2;
    Byte(n % 2 == 1, n1 % 2 == 1, n2 % 2 == 1, n3 % 2 == 1, n4 % 2 == 1, n5 % 2 == 1, n6 % 2 == 1, n7 % 2 == 1)
  }

  lemma DigitOf(n: nat)
    ensures Digit(n % 2 == 1, n / 2) == n
  {
  }

  lemma ValueOfNat(n: nat)
    requires n < 256
    ensures Value(OfNat(n)) == n
  {
    var n1 := n / 2;
    var n2 := n1 / 2;
    var n3 := n2 / 2;
    var n4 := n3 / 2;
    var n5 := n4 / 2;
    var n6 := n5 / 2;
    var n7 := n6 / 2;
    assert n7 / 2 == 0;
    hide Digit;
    DigitOf(n);
    DigitOf(n1);
    DigitOf(n2);
    DigitOf(n3);
    DigitOf(n4);
    DigitOf(n5);
    DigitOf(n6);
    DigitOf(n7);
  }

  lemma DigitInjective(x: bool, m: nat, y: bool, n: nat)
    ensures Digit(x, m) == Digit(y, n) ==> x == y && m == n
  {
  }

  lemma ValueInjective(a: Byte, b: Byte)
    requires Value(a) == Value(b)
    ensures a == b
  {
    hide Digit;
    var m7, n7 := Digit(a.b7, 0), Digit(b.b7, 0);
    var m6, n6 := Digit(a.b6, m7), Digit(b.b6, n7);
    var m5, n5 := Digit(a.b5, m6), Digit(b.b5, n6);
    var m4, n4 := Digit(a.b4, m5), Digit(b.b4, n5);
    var m3, n3 := Digit(a.b3, m4), Digit(b.b3, n4);
    var m2, n2 := Digit(a.b2, m3), Digit(b.b2, n3);
    var m1, n1 := Digit(a.b1, m2), Digit(b.b1, n2);
    DigitInjective(a.b0, m1, b.b0, n1);
    DigitInjective(a.b1, m2, b.b1, n2);
    DigitInjective(a.b2, m3, b.b2, n3);
    DigitInjective(a.b3, m4, b.b3, n4);
    DigitInjective(a.b4, m5, b.b4, n5);
    DigitInjective(a.b5, m6, b.b5, n6);
    DigitInjective(a.b6, m7, b.b6, n7);
    DigitInjective(a.b7, 0, b.b7, 0);
  }

  // ---- logarithms and the field laws ------------------------------------------

  ghost function Powers(n: nat): (s: set<nat>) {
    set i | 0 <= i < n :: Value(Exp(i))
  }

  lemma {:induction false} PowersSize(n: nat)
    requires n <= 255
    ensures |Powers(n)| == n
  {
    if n > 0 {
      hide Exp, Value;
      PowersSize(n - 1);
      var v := Value(Exp(n - 1));
      if v in Powers(n - 1) {
        var i :| 0 <= i < n - 1 && Value(Exp(i)) == v;
        ValueInjective(Exp(i), Exp(n - 1));
        ExpInjective(i, n - 1);
      }
      assert Powers(n) == Powers(n - 1) + {v};
    }
  }

  ghost function Below(n: nat): (s: set<nat>)
    ensures |s| == n
    ensures forall i :: i in s <==> 0 <= i < n
  {
    if n == 0 then {} else Below(n - 1) + {n - 1}
  }

  /** `n - 1` values below `n`, `hole` not among them, are all the others. */
  lemma AllButOne(s: set<nat>, n: nat, hole: nat, v: nat)
    requires |s| + 1 == n && forall w <- s :: w < n
    requires hole < n && hole !in s && v < n && v != hole
    ensures v in s
  {
    if v !in s {
      SubsetSize(s, Below(n) - {hole} - {v});
    }
  }

  /** Every nonzero element is a power of x. */
  lemma IsPower(a: Byte)
    requires a != ZERO
    ensures exists i: nat :: i < 255 && Exp(i) == a
  {
    hide Exp, Value;
    PowersSize(255);
    if Value(ZERO) in Powers(255) {
      var i :| 0 <= i < 255 && Value(Exp(i)) == Value(ZERO);
      ValueInjective(Exp(i), ZERO);
    }
    if Value(a) == Value(ZERO) {
      ValueInjective(a, ZERO);
    }
    AllButOne(Powers(255), 256, Value(ZERO), Value(a));
    var i :| 0 <= i < 255 && Value(Exp(i)) == Value(a);
    ValueInjective(Exp(i), a);
  }

  /** The logarithm to base x of a nonzero element. */
  ghost function Log(a: Byte): (i: nat)
    requires a != ZERO
    ensures i < 255 && Exp(i) == a
  {
    IsPower(a);
    var i: nat :| i < 255 && Exp(i) == a;
    i
  }

  /** The multiplicative inverse. */
  ghost function Inv(a: Byte): (r: Byte)
    requires a != ZERO
    ensures r != ZERO
  {
    Exp(255 - Log(a))
  }

  lemma MulComm(a: Byte, b: Byte)
    ensures Mul(a, b) == Mul(b, a)
  {
    hide Mul, Exp;
    if a == ZERO || b == ZERO {
      MulZero(a);
      MulZero(b);
    } else {
      ExpAdd(Log(a), Log(b));
      ExpAdd(Log(b), Log(a));
    }
  }

  lemma MulAssoc(a: Byte, b: Byte, c: Byte)
    ensures Mul(Mul(a, b), c) == Mul(a, Mul(b, c))
  {
    hide Mul, Exp;
    if a == ZERO || b == ZERO || c == ZERO {
      MulZero(a);
      MulZero(b);
      MulZero(c);
      MulZero(Mul(a, b));
      MulZero(Mul(b, c));
    } else {
      ExpAdd(Log(a), Log(b));
      ExpAdd(Log(b), Log(c));
      ExpAdd(Log(a) + Log(b), Log(c));
      ExpAdd(Log(a), Log(b) + Log(c));
    }
  }

  lemma MulNonzero(a: Byte, b: Byte)
    ensures Mul(a, b) == ZERO <==> a == ZERO || b == ZERO
  {
    hide Mul, Exp;
    MulZero(a);
    MulZero(b);
    if a != ZERO && b != ZERO {
      ExpAdd(Log(a), Log(b));
    }
  }

  lemma MulInv(a: Byte)
    requires a != ZERO
    ensures Mul(a, Inv(a)) == ONE
  {
    hide Mul, Exp;
    ExpAdd(Log(a), 255 - Log(a));
    ExpValues();
  }

  lemma MulAddLeft(a: Byte, b: Byte, c: Byte)
    ensures Mul(Add(a, b), c) == Add(Mul(a, c), Mul(b, c))
  {
    hide Mul, Add;
    MulComm(Add(a, b), c);
    MulComm(a, c);
    MulComm(b, c);
    MulAdd(c, a, b);
  }

  /** GF(2^8) is a field. */
  lemma FieldLaws(a: Byte, b: Byte, c: Byte)
    ensures Add(a, b) == Add(b, a) && Add(Add(a, b), c) == Add(a, Add(b, c))
    ensures Add(a, ZERO) == a && Add(a, a) == ZERO
    ensures Mul(a, b) == Mul(b, a) && Mul(Mul(a, b), c) == Mul(a, Mul(b, c))
    ensures Mul(a, ONE) == a && Mul(a, Add(b, c)) == Add(Mul(a, b), Mul(a, c))
    ensures a != ZERO ==> Mul(a, Inv(a)) == ONE
  {
    hide Mul, Add;
    AddComm(a, b);
    AddAssoc(a, b, c);
    AddZero(a);
    AddSelf(a, a);
    MulComm(a, b);
    MulAssoc(a, b, c);
    MulOne(a);
    MulAdd(a, b, c);
    if a != ZERO {
      MulInv(a);
    }
  }

  /** The polynomial is 0x11d: doubling a byte doubles its value, less 0x100 and with 0x1d added bit by bit when it overflows. */
  lemma DoublingMeans(a: Byte)
    ensures Value(a) < 128 ==> Value(Times2(a)) == 2 * Value(a)
    ensures Value(a) >= 128 ==>
              exists b: Byte :: Value(b) == 2 * Value(a) - 256 && Times2(a) == Add(b, Byte(true, false, true, true, true, false, false, false))
    ensures Value(Byte(true, false, true, true, true, false, false, false)) == 0x1d
  {
    hide Value;
    var b := Byte(false, a.b0, a.b1, a.b2, a.b3, a.b4, a.b5, a.b6);
    ShiftedValue(a);
    PolynomialValue();
    assert Times2(a) == if a.b7 then Add(b, Byte(true, false, true, true, true, false, false, false)) else b;
  }

  lemma PolynomialValue()
    ensures Value(Byte(true, false, true, true, true, false, false, false)) == 0x1d
  {
  }

  /** A left shift doubles the value, but for the bit that leaves. */
  lemma ShiftedValue(a: Byte)
    ensures Value(Byte(false, a.b0, a.b1, a.b2, a.b3, a.b4, a.b5, a.b6)) == 2 * Value(a) - (if a.b7 then 256 else 0)
    ensures a.b7 <==> Value(a) >= 128
  {
    hide Digit;
    var t := Digit(a.b7, 0);
    assert t == if a.b7 then 1 else 0 by { DigitIs(a.b7, 0, 0); }
    assert Digit(false, 0) == 0 by { DigitIs(false, 0, 0); }
    var r6 := Digit(a.b6, 0);
    DigitIs(a.b6, 0, t);
    var r5 := Digit(a.b5, r6);
    DigitIs(a.b5, r6, 2 * t);
    var r4 := Digit(a.b4, r5);
    DigitIs(a.b4, r5, 4 * t);
    var r3 := Digit(a.b3, r4);
    DigitIs(a.b3, r4, 8 * t);
    var r2 := Digit(a.b2, r3);
    DigitIs(a.b2, r3, 16 * t);
    var r1 := Digit(a.b1, r2);
    DigitIs(a.b1, r2, 32 * t);
    var r0 := Digit(a.b0, r1);
    DigitIs(a.b0, r1, 64 * t);
    DigitIs(false, r0, 0);
  }

  lemma DigitIs(bit: bool, rest: nat, w: nat)
    ensures Digit(bit, rest + w) == Digit(bit, rest) + 2 * w
    ensures 2 * rest <= Digit(bit, rest) <= 2 * rest + 1
    ensures Digit(bit, rest) == 2 * rest <==> !bit
  {
  }
}
