/** Notions every part of the model shares. */
module Basics {

  datatype Option<+T> = None | Some(value: T)

  type byte = b: int | 0 <= b < 256

  // vector::erase at position i.
  function Delete<T>(s: seq<T>, i: nat): seq<T>
    requires i < |s|
  {
    s[..i] + s[i + 1..]
  }

  lemma DeleteAt<T>(s: seq<T>, i: nat, k: nat)
    requires i < |s| && k < |s| - 1
    ensures Delete(s, i)[k] == s[if k < i then k else k + 1]
  {
  }

  // The first element with the given key, or -1.
  function First<T>(s: seq<T>, key: T -> int, id: int): (i: int)
    ensures -1 <= i < |s|
    ensures 0 <= i ==> key(s[i]) == id && forall k :: 0 <= k < i ==> key(s[k]) != id
    ensures i < 0 ==> forall k :: 0 <= k < |s| ==> key(s[k]) != id
  {
    if s == [] then -1
    else if key(s[0]) == id then 0
    else
      var r := First(s[1..], key, id);
      assert forall k :: 1 <= k < |s| ==> s[k] == s[1..][k - 1];
      if r < 0 then -1 else r + 1
  }

  function Min(a: int, b: int): int {
    if a < b then a else b
  }

  function Max(a: int, b: int): int {
    if a < b then b else a
  }

  // Integer division as C does it, towards zero.
  function CDiv(a: int, b: int): int
    requires 0 < b
  {
    if 0 <= a then a / b else -(-a / b)
  }

  // The quotient is the one that leaves a remainder smaller than the divisor, with the dividend's sign.
  lemma CDivTruncates(a: int, b: int)
    requires 0 < b
    ensures var rest := a - CDiv(a, b) * b;
            -b < rest < b && (0 <= a ==> 0 <= rest) && (a <= 0 ==> rest <= 0)
  {
    if a < 0 {
      assert -a == (-a / b) * b + -a % b;
      assert CDiv(a, b) * b == -((-a / b) * b);
    } else {
      assert a == a / b * b + a % b;
    }
  }

  // x * n, added up: a product the solver does not multiply out.
  function Times(x: int, n: nat): (r: int)
    ensures 0 <= x ==> 0 <= r
  {
    if n == 0 then 0 else Times(x, n - 1) + x
  }

  lemma {:induction false} TimesIs(x: int, n: nat)
    ensures Times(x, n) == x * n
  {
    if n == 0 {
    } else {
      TimesIs(x, n - 1);
      assert x * n == x * (n - 1) + x;
    }
  }

  lemma {:induction false} TimesSum(x: int, m: nat, n: nat)
    ensures Times(x, m + n) == Times(x, m) + Times(x, n)
    decreases n
  {
    if n == 0 {
    } else {
      assert m + n - 1 == m + (n - 1);
      TimesSum(x, m, n - 1);
    }
  }

  lemma TimesLess(x: nat, m: nat, n: nat)
    requires m < n
    ensures Times(x, m) + x <= Times(x, n)
  {
    TimesSum(x, m + 1, n - m - 1);
  }
}
