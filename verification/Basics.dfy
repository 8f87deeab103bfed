// What several of the components share.
module Basics {
  datatype Option<+T> = None | Some(value: T)

  /** The first position of c in s; |s| when there is none. */
  function Find(s: string, c: char): (pos: nat)
    ensures pos <= |s|
  {
    if s == "" || s[0] == c then 0 else 1 + Find(s[1..], c)
  }

  // Remainders

  lemma ModPlus(x: nat, q: nat, n: nat)
    requires 0 < n
    ensures (n * q + x) % n == x % n
  {
    var a, r := x / n, x % n;
    assert n * q + x == n * (q + a) + r;
    Remainder(n * q + x, n, q + a, r);
  }

  lemma Remainder(x: nat, n: nat, q: nat, r: nat)
    requires 0 < n && x == n * q + r && r < n
    ensures x % n == r
  {
    var a, b := x / n, x % n;
    assert n * (q - a) == b - r;
    if q > a { AtLeast(n, q - a); }
    if q < a { AtLeast(n, a - q); }
  }

  lemma AtLeast(n: nat, k: nat)
    requires 1 <= k
    ensures n <= n * k
  {
  }
}
