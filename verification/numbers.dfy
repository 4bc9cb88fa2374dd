/** Integer helpers. */
module Numbers {

  function Max(a: int, b: int): int {
    if a >= b then a else b
  }

  function Min(a: int, b: int): int {
    if a <= b then a else b
  }

  function Distance(a: int, b: int): nat {
    if a >= b then a - b else b - a
  }

  lemma {:induction false} TimesMonotone(d: nat, x: int, y: int)
    requires x <= y
    ensures d * x <= d * y
  {
  }
}
