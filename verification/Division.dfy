/** Floor division by a positive number. */
module Division {

  lemma MultipleOf(n: int, k: int)
    requires n > 0
    ensures k >= 1 ==> n * k >= n
    ensures k <= -1 ==> n * k <= -n
  {
  }

  lemma Unique(n: int, q: int, r: int)
    requires 0 <= r < n
    ensures (n * q + r) / n == q && (n * q + r) % n == r
  {
    var x := n * q + r;
    var q', r' := x / n, x % n;
    assert x == n * q' + r';
    assert n * (q' - q) == r - r';
    MultipleOf(n, q' - q);
  }

  lemma Monotone(a: int, b: int, n: int)
    requires n > 0 && a <= b
    ensures a / n <= b / n
  {
    var q, q' := a / n, b / n;
    assert a == n * q + a % n && b == n * q' + b % n;
    assert n * (q' - q) > -n;
    MultipleOf(n, q' - q);
  }

  lemma NextMultiple(a: int, n: int)
    requires n > 0
    ensures (a + n) / n == a / n + 1
  {
    assert a + n == n * (a / n + 1) + a % n;
    Unique(n, a / n + 1, a % n);
  }

  lemma Remainders(a: int, b: int, r: int, r1: int)
    requires 0 < a && 0 < b && 0 <= r < b && 0 <= r1 < a
    ensures 0 <= a * r + r1 < a * b
  {
    assert a * r <= a * (b - 1);
    assert a * (b - 1) == a * b - a;
  }

  lemma Distribute(a: int, b: int, q: int, r: int)
    ensures a * (b * q + r) == (a * b) * q + a * r
  {
  }

  lemma Nested(t: int, a: int, b: int, c: int)
    requires a > 0 && b > 0 && c == a * b && c > 0
    ensures t / a / b == t / c
  {
    var q1, r1 := t / a, t % a;
    var q, r := q1 / b, q1 % b;
    Distribute(a, b, q, r);
    Remainders(a, b, r, r1);
    assert t == c * q + (a * r + r1);
    Unique(c, q, a * r + r1);
  }
}
