/** Congruence modulo n, with its witnesses. */
module Congruence {
  import opened Limbs
  import opened Bits

  ghost predicate Cong(a: int, b: int, n: int) {
    exists k :: Multiple(a, b, k, n)
  }

  ghost predicate Multiple(a: int, b: int, k: int, n: int) {
    a == b + k * n
  }

  lemma CongIntro(a: int, b: int, k: int, n: int)
    requires a == b + k * n
    ensures Cong(a, b, n)
  {
    assert Multiple(a, b, k, n);
  }

  lemma CongWitness(a: int, b: int, n: int) returns (k: int)
    requires Cong(a, b, n)
    ensures a == b + k * n
  {
    k :| Multiple(a, b, k, n);
  }

  lemma CongRefl(a: int, n: int)
    ensures Cong(a, a, n)
  {
    CongIntro(a, a, 0, n);
  }

  lemma CongSym(a: int, b: int, n: int)
    requires Cong(a, b, n)
    ensures Cong(b, a, n)
  {
    var k := CongWitness(a, b, n);
    assert (-k) * n == -(k * n);
    CongIntro(b, a, -k, n);
  }

  lemma CongTrans(a: int, b: int, c: int, n: int)
    requires Cong(a, b, n) && Cong(b, c, n)
    ensures Cong(a, c, n)
  {
    var k := CongWitness(a, b, n);
    var l := CongWitness(b, c, n);
    assert (k + l) * n == k * n + l * n;
    CongIntro(a, c, k + l, n);
  }

  lemma CongScale(a: int, b: int, c: int, n: int)
    requires Cong(a, b, n)
    ensures Cong(a * c, b * c, n) && Cong(c * a, c * b, n)
  {
    var k := CongWitness(a, b, n);
    assert (b + k * n) * c == b * c + (k * c) * n;
    CongIntro(a * c, b * c, k * c, n);
  }

  lemma CongMul(a: int, b: int, c: int, d: int, n: int)
    requires Cong(a, b, n) && Cong(c, d, n)
    ensures Cong(a * c, b * d, n)
  {
    CongScale(a, b, c, n);
    CongScale(c, d, b, n);
    CongTrans(a * c, b * c, b * d, n);
  }

  lemma CongNeg(a: int, b: int, n: int)
    requires Cong(a, b, n)
    ensures Cong(-a, -b, n)
  {
    CongScale(a, b, -1, n);
  }

  lemma CongAdd(a: int, b: int, c: int, d: int, n: int)
    requires Cong(a, b, n) && Cong(c, d, n)
    ensures Cong(a + c, b + d, n)
  {
    var k := CongWitness(a, b, n);
    var l := CongWitness(c, d, n);
    assert (k + l) * n == k * n + l * n;
    CongIntro(a + c, b + d, k + l, n);
  }

  lemma ModIsCong(a: int, n: int)
    requires n > 0
    ensures Cong(a % n, a, n) && Cong(a, a % n, n)
  {
    DivBounds(a, n);
    CongIntro(a, a % n, a / n, n);
    CongSym(a, a % n, n);
  }

  /** Congruent numbers have the same residue. */
  lemma CongIsMod(a: int, b: int, n: int)
    requires n > 0 && Cong(a, b, n)
    ensures a % n == b % n
  {
    var k := CongWitness(a, b, n);
    DivBounds(b, n);
    assert n * (b / n + k) == n * (b / n) + k * n;
    DivUnique(a, n, b / n + k, b % n);
  }

  /** An invertible factor cancels. */
  lemma CongCancel(a: int, b: int, r: int, inv: int, n: int)
    requires Cong(r * inv, 1, n)
    requires Cong(a * r, b * r, n)
    ensures Cong(a, b, n)
  {
    CongScale(a * r, b * r, inv, n);
    Undo(a, r, inv, n);
    Undo(b, r, inv, n);
    CongSym(a * r * inv, a, n);
    CongTrans(a, a * r * inv, b * r * inv, n);
    CongTrans(a, b * r * inv, b, n);
  }

  lemma Undo(a: int, r: int, inv: int, n: int)
    requires Cong(r * inv, 1, n)
    ensures Cong(a * r * inv, a, n)
  {
    CongScale(r * inv, 1, a, n);
    assert a * (r * inv) == a * r * inv;
  }
}
