module Arithmetic {

  function Min(a: int, b: int): int {
    if a <= b then a else b
  }

  /** Multiplication as repeated addition, which keeps the solver in linear arithmetic. */
  function Product(a: nat, n: nat): nat {
    if n == 0 then 0 else Product(a, n - 1) + a
  }

  lemma {:induction false} ProductIs(a: nat, n: nat)
    ensures Product(a, n) == a * n
  {
    if n > 0 {
      ProductIs(a, n - 1);
      assert a * n == a * (n - 1) + a;
    }
  }

  lemma {:induction false} ProductSum(a: nat, b: nat, n: nat)
    ensures Product(a + b, n) == Product(a, n) + Product(b, n)
  {
    if n > 0 {
      ProductSum(a, b, n - 1);
    }
  }
}
