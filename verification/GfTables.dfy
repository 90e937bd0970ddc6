/** The exponential and logarithm tables of chunk/erasure.c and the arithmetic read off them. */
module GfTables {
  import opened Gf256

  class Tables {
    const exp: array<Byte>
    const log: array<nat>
    var ready: bool

    ghost predicate ExpFilled(n: nat)
      reads exp
    {
      exp.Length == 512 && n <= 512 && forall i :: 0 <= i < n ==> exp[i] == Exp(i)
    }

    ghost predicate LogFilled(n: nat)
      reads log
    {
      log.Length == 256 && forall i: nat {:trigger Exp(i)} :: i < n ==> log[Value(Exp(i))] == i
    }

    ghost predicate Valid()
      reads this, exp, log
    {
      exp.Length == 512 && log.Length == 256 && log[0] == 0 && (ready ==> ExpFilled(512) && LogFilled(255))
    }

    constructor ()
      ensures Valid() && !ready && fresh(exp) && fresh(log)
    {
      exp := new Byte[512](_ => ZERO);
      log := new nat[256](_ => 0);
      ready := false;
    }

    method Init()
      requires Valid()
      modifies this, exp, log
      ensures Valid() && ready
    {
      if !ready {
        FillPowers();
        Extend();
        ready := true;
      }
    }

    method FillPowers()
      requires exp.Length == 512 && log.Length == 256
      modifies exp, log
      ensures ExpFilled(255) && LogFilled(255) && log[0] == old(log[0])
    {
      hide Times2, Value, Exp;
      ExpZero();
      var x, i := ONE, 0;
      while i < 255
        invariant 0 <= i <= 255 && x == Exp(i)
        invariant ExpFilled(i) && LogFilled(i) && log[0] == old(log[0])
      {
        NewPower(i);
        ExpFive(i);
        NotZero(x);
        exp[i] := x;
        log[Value(x)] := i;
        x := Times2(x);
        i := i + 1;
      }
    }

    /** Doubles the table, so that a product's exponent needs no reduction. */
    method Extend()
      requires ExpFilled(255)
      modifies exp
      ensures ExpFilled(512)
    {
      hide Exp;
      for i := 255 to 512
        invariant ExpFilled(i)
      {
        FullTurn(i - 255);
        exp[i] := exp[i - 255];
      }
    }

    method Mul(a: Byte, b: Byte) returns (r: Byte)
      requires Valid() && ready
      ensures r == Gf256.Mul(a, b)
    {
      hide Gf256.Mul, Value, Exp;
      if a == ZERO || b == ZERO {
        MulZero(a);
        MulZero(b);
        return ZERO;
      }
      ghost var i, j := Log(a), Log(b);
      assert log[Value(Exp(i))] == i && log[Value(Exp(j))] == j;
      ExpAdd(i, j);
      r := exp[log[Value(a)] + log[Value(b)]];
    }

    /** The inverse of a nonzero byte; of zero, whose log is never written, one. */
    method Inverse(a: Byte) returns (r: Byte)
      requires Valid() && ready
      ensures a != ZERO ==> r == Inv(a)
      ensures a == ZERO ==> r == ONE
    {
      hide Value, Exp;
      if a == ZERO {
        ZeroValue();
        ExpValues();
      } else {
        ghost var i := Log(a);
        assert log[Value(Exp(i))] == i;
      }
      r := exp[255 - log[Value(a)]];
    }
  }

  lemma ZeroValue()
    ensures Value(ZERO) == 0
  {
  }

  lemma NotZero(x: Byte)
    requires x != ZERO
    ensures Value(x) != 0
  {
    hide Value;
    ZeroValue();
    if Value(x) == 0 {
      ValueInjective(x, ZERO);
    }
  }

  lemma NewPower(n: nat)
    requires n < 255
    ensures forall i: nat {:trigger Exp(i)} :: i < n ==> Value(Exp(i)) != Value(Exp(n))
  {
    hide Exp, Value;
    forall i: nat | i < n
      ensures Value(Exp(i)) != Value(Exp(n))
    {
      if Value(Exp(i)) == Value(Exp(n)) {
        ValueInjective(Exp(i), Exp(n));
        ExpInjective(i, n);
      }
    }
  }

  /** The table is doubled because x to the 255 is one. */
  lemma FullTurn(n: nat)
    ensures Exp(n + 255) == Exp(n)
  {
    hide Exp, Mul;
    ExpAdd(n, 255);
    ExpValues();
    MulOne(Exp(n));
  }
}
