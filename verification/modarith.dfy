/** Congruence facts about Euclidean remainder that the signing equation relies on. */
module ModArith {

  lemma MulAtLeast(o: int, d: int)
    requires o > 0
    ensures d >= 1 ==> o * d >= o
    ensures d <= -1 ==> o * d <= -o
  {
    if d >= 1 { assert o * d == o * (d - 1) + o; }
    if d <= -1 { assert o * d == o * (d + 1) - o; }
  }

  /** Adding a multiple of o does not change the remainder mod o. */
  lemma ModShift(k: int, x: int, o: int)
    requires o > 0
    ensures (o * k + x) % o == x % o
  {
    var y := o * k + x;
    var d := k + x / o - y / o;
    assert o * d == y % o - x % o by {
      assert o * d == o * k + o * (x / o) - o * (y / o);
    }
    MulAtLeast(o, d);
  }

  /** x * n + m depends only on the class of x mod o. */
  lemma ModCongruence(a: nat, b: nat, n: nat, m: nat, o: nat)
    requires o > 0 && a % o == b % o
    ensures (n * a + m) % o == (n * b + m) % o
  {
    var r := a % o;
    assert n * a + m == o * (n * (a / o)) + (n * r + m) by {
      assert a == o * (a / o) + r;
      assert n * a == n * (o * (a / o)) + n * r;
    }
    assert n * b + m == o * (n * (b / o)) + (n * r + m) by {
      assert b == o * (b / o) + r;
      assert n * b == n * (o * (b / o)) + n * r;
    }
    ModShift(n * (a / o), n * r + m, o);
    ModShift(n * (b / o), n * r + m, o);
  }

  /** A value already below o is its own remainder. */
  lemma ModSmall(y: int, o: int)
    requires 0 <= y < o
    ensures y % o == y
  {
    MulAtLeast(o, y / o);
  }

  /** x and its remainder differ by a multiple of o. */
  lemma ModDifference(x: int, o: int)
    requires o > 0
    ensures (x - x % o) % o == 0
  {
    var k := x / o;
    assert x - x % o == o * k;
    ModShift(k, 0, o);
  }

  /** Reducing a summand first does not change the remainder of a sum. */
  lemma ModAdd(a: nat, b: nat, o: nat)
    requires o > 0
    ensures (a % o + b % o) % o == (a + b) % o
  {
    ModSmall(a % o, o);
    ModSmall(b % o, o);
    ModCongruence(a % o, a, 1, b % o, o);
    assert (a % o + b % o) % o == (a + b % o) % o;
    ModCongruence(b % o, b, 1, a, o);
    assert (b % o + a) % o == (b + a) % o;
  }

  /** Reducing a factor first does not change the remainder of a product. */
  lemma ModMul(a: nat, b: nat, o: nat)
    requires o > 0
    ensures (a % o * b) % o == (a * b) % o
  {
    ModCongruence(a % o, a, b, 0, o);
  }
}
