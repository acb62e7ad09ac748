/** Sliding-window exponentiation in Montgomery form. */
module BignumExp {
  import opened Limbs
  import opened Bits
  import opened Bignum
  import opened BignumShift
  import opened BignumMod
  import opened BignumMont
  import opened Congruence

  const WINDOW_SIZE: nat := 6

  ghost function Exp(a: int, e: nat): int {
    if e == 0 then 1 else a * Exp(a, e - 1)
  }

  lemma {:induction false} ExpAdd(a: int, e: nat, f: nat)
    ensures Exp(a, e + f) == Exp(a, e) * Exp(a, f)
  {
    if e > 0 {
      ExpAdd(a, e - 1, f);
      assert Exp(a, e + f) == a * Exp(a, e - 1 + f);
      MulAssoc(a, Exp(a, e - 1), Exp(a, f));
    }
  }

  lemma {:induction false} ExpNeg(a: int, e: nat)
    ensures Exp(-a, e) == if e % 2 == 0 then Exp(a, e) else -Exp(a, e)
  {
    if e > 0 {
      ExpNeg(a, e - 1);
      NegTwice(a, Exp(a, e - 1));
    }
  }

  lemma NegTwice(a: int, b: int)
    ensures (-a) * b == -(a * b) && (-a) * (-b) == a * b
  {
  }

  lemma {:induction false} CongExp(a: int, b: int, e: nat, n: int)
    requires Cong(a, b, n)
    ensures Cong(Exp(a, e), Exp(b, e), n)
  {
    if e == 0 {
      CongRefl(1, n);
    } else {
      CongExp(a, b, e - 1, n);
      CongMul(a, b, Exp(a, e - 1), Exp(b, e - 1), n);
    }
  }

  // ---------- Montgomery form ----------

  /** v is the reduced Montgomery form of a^e, with weight R = Pow(k). */
  ghost predicate Rep(v: int, a: int, e: nat, k: nat, n: int) {
    0 <= v < n && Cong(v, Shl(Exp(a, e), k), n)
  }

  /** The Montgomery product of forms of a^e and a^f is the form of a^(e+f). */
  lemma RepProduct(r: int, v: int, w: int, a: int, e: nat, f: nat, k: nat, n: int, inv: int)
    requires Cong(Pow(k) * inv, 1, n)
    requires Rep(v, a, e, k, n) && Rep(w, a, f, k, n)
    requires 0 <= r < n && Cong(Shl(r, k), v * w, n)
    ensures Rep(r, a, e + f, k, n)
  {
    hide Cong, Exp, Shl, Pow;
    var x, y := Exp(a, e), Exp(a, f);
    CongMul(v, Shl(x, k), w, Shl(y, k), n);
    CongTrans(Shl(r, k), v * w, Shl(x, k) * Shl(y, k), n);
    ExpAdd(a, e, f);
    ShlIsProduct(r, k);
    ShlIsProduct(x, k);
    ShlIsProduct(y, k);
    ShlIsProduct(x * y, k);
    FourFactors(x, y, Pow(k));
    CongCancel(r, Shl(x * y, k), Pow(k), inv, n);
  }

  lemma FourFactors(x: int, y: int, p: int)
    ensures (x * p) * (y * p) == ((x * y) * p) * p
  {
    assert (x * p) * (y * p) == x * (p * (y * p));
    assert p * (y * p) == (y * p) * p;
    assert x * ((y * p) * p) == ((x * y) * p) * p;
  }

  /** R is invertible modulo N, with an inverse read off the Montgomery constant. */
  lemma Invertible(n: seq<Limb>, mm: Limb) returns (inv: int)
    requires |n| > 0 && (n[0] * mm + 1) % BASE == 0
    ensures Cong(Pow(|n|) * inv, 1, Value(n))
  {
    LowLimb(n, |n|);
    CongScale(Value(n), n[0], mm, BASE);
    var k := CongWitness(Value(n) * mm, n[0] * mm, BASE);
    DivBounds(n[0] * mm + 1, BASE);
    var c := k + (n[0] * mm + 1) / BASE;
    MulComm(Value(n), mm);
    CongIntro(BASE * c, 1, mm, Value(n));
    inv := InversePower(|n|, c, Value(n));
  }

  lemma {:induction false} InversePower(k: nat, c: int, n: int) returns (inv: int)
    requires Cong(BASE * c, 1, n)
    ensures Cong(Pow(k) * inv, 1, n)
  {
    if k == 0 {
      inv := 1;
      CongRefl(1, n);
    } else {
      var i := InversePower(k - 1, c, n);
      inv := c * i;
      CongMul(BASE * c, 1, Pow(k - 1) * i, 1, n);
      Regroup(BASE, c, Pow(k - 1), i);
    }
  }

  lemma Regroup(b: int, c: int, p: int, i: int)
    ensures (b * c) * (p * i) == (b * p) * (c * i)
  {
    assert (b * c) * (p * i) == b * (c * (p * i));
    assert c * (p * i) == p * (c * i);
    assert b * (p * (c * i)) == (b * p) * (c * i);
  }

  /** The fixed environment of one exponentiation. */
  ghost predicate Env(N: Mpi, mm: Limb, T: Mpi, inv: int)
    reads N, T
  {
    && T != N && |N.p| > 0 && (N.p[0] * mm + 1) % BASE == 0 && 0 < N.Abs()
    && |T.p| == 2 * |N.p| + 2
    && Cong(Pow(|N.p|) * inv, 1, N.Abs())
  }

  /** Multiplies Montgomery forms; X and B may be the same number. */
  method Times(X: Mpi, B: Mpi, N: Mpi, mm: Limb, T: Mpi, ghost inv: int, ghost a: int, ghost e: nat, ghost f: nat)
    requires Env(N, mm, T, inv) && T != X && T != B && X != N
    requires |X.p| > |N.p| && |B.p| > 0
    requires Rep(X.Abs(), a, e, |N.p|, N.Abs()) && Rep(B.Abs(), a, f, |N.p|, N.Abs())
    modifies X`p, T
    ensures Env(N, mm, T, inv) && |X.p| == old(|X.p|)
    ensures Rep(X.Abs(), a, e + f, |N.p|, N.Abs())
  {
    hide Cong, Exp, Shl, Pow, Val;
    ghost var v, w := X.Abs(), B.Abs();
    ValueBounds(N.p, |N.p|, N.p);
    var ret := MontMul(X, B, N, mm, T);
    RepProduct(X.Abs(), v, w, a, e, f, |N.p|, N.Abs(), inv);
  }

  /** Squares X s times. */
  method Squarings(X: Mpi, s: nat, N: Mpi, mm: Limb, T: Mpi, ghost inv: int, ghost a: int, ghost e: nat)
    requires Env(N, mm, T, inv) && T != X && X != N && |X.p| > |N.p|
    requires Rep(X.Abs(), a, e, |N.p|, N.Abs())
    modifies X`p, T
    ensures Env(N, mm, T, inv) && |X.p| == old(|X.p|)
    ensures e * Two(s) >= 0 && Rep(X.Abs(), a, e * Two(s), |N.p|, N.Abs())
  {
    assert T != N;
    hide Rep, Env;
    var i := 0;
    ghost var g := e;
    while i < s
      invariant 0 <= i <= s && Env(N, mm, T, inv) && |X.p| == old(|X.p|) > |N.p|
      invariant g == e * Two(i) && Rep(X.Abs(), a, g, |N.p|, N.Abs())
    {
      Times(X, X, N, mm, T, inv, a, g, g);
      g := g + g;
      MulSwap(2, e, Two(i));
      i := i + 1;
    }
  }

  // ---------- the table of small powers ----------

  /** The powers a window of the given size can ask for. */
  ghost predicate Table(W: seq<Mpi>, lo: nat, a: int, k: nat, n: int)
    reads W
  {
    && |W| > 1 && 0 < lo <= |W|
    && |W[1].p| > 0 && Rep(W[1].Abs(), a, 1, k, n)
    && forall j :: lo <= j < |W| ==> |W[j].p| > 0 && Rep(W[j].Abs(), a, j, k, n)
  }

  ghost predicate Distinct(W: seq<Mpi>) {
    forall i, j :: 0 <= i < j < |W| ==> W[i] != W[j]
  }

  /** Empty table entries. */
  method NewTable(size: nat) returns (W: seq<Mpi>)
    ensures |W| == size && Distinct(W) && forall i :: 0 <= i < size ==> fresh(W[i]) && W[i].Valid()
  {
    W := [];
    while |W| < size
      invariant |W| <= size && Distinct(W) && forall i :: 0 <= i < |W| ==> fresh(W[i]) && W[i].Valid()
    {
      var w := new Mpi();
      W := W + [w];
    }
  }

  /** Grows entry j, copies entry i into it and multiplies. */
  method NextEntry(W: seq<Mpi>, j: nat, i: nat, N: Mpi, T: Mpi)
    requires i < |W| && j < |W| && i != j && W[i] != W[j] && W[i].Valid() && |W[i].p| > 0
    requires W[j] != N
    modifies W[j]
    ensures W[j].Valid() && |W[j].p| > |N.p| && W[j].Abs() == old(W[i].Abs())
  {
    W[j].Grow(|N.p| + 1);
    W[j].Copy(W[i]);
  }

  /** Entry i becomes entry i - 1 times W[1]. */
  method PowerEntry(W: seq<Mpi>, i: nat, N: Mpi, mm: Limb, T: Mpi, ghost inv: int, ghost a: int)
    requires 1 < i < |W| && W[i] != W[i - 1] && W[i] != W[1] && W[i] != N && W[i] != T && T != W[1] && T != W[i - 1]
    requires W[i].Valid() && W[i - 1].Valid() && |W[i - 1].p| > 0 && |W[1].p| > 0 && Env(N, mm, T, inv)
    requires Rep(W[1].Abs(), a, 1, |N.p|, N.Abs()) && Rep(W[i - 1].Abs(), a, i - 1, |N.p|, N.Abs())
    modifies W[i], T
    ensures Env(N, mm, T, inv) && W[i].Valid() && |W[i].p| > 0 && Rep(W[i].Abs(), a, i, |N.p|, N.Abs())
  {
    assert T != N;
    hide Rep, Env, Value;
    NextEntry(W, i, i - 1, N, T);
    Times(W[i], W[1], N, mm, T, inv, a, i - 1, 1);
  }

  lemma Others(W: seq<Mpi>, i: nat)
    requires Distinct(W) && i < |W|
    ensures forall l :: 0 <= l < |W| && l != i ==> W[l] != W[i]
  {
  }

  /** Fills the entries from 2^(wsize-1) upward: squarings of W[1] first, then one more factor each. */
  method FillTable(W: seq<Mpi>, wsize: nat, N: Mpi, mm: Limb, T: Mpi, ghost inv: int, ghost a: int)
    requires 1 <= wsize && |W| == Two(wsize) && Distinct(W) && N !in W && T !in W
    requires forall i :: 0 <= i < |W| ==> W[i].Valid()
    requires Env(N, mm, T, inv)
    requires |W| > 1 && |W[1].p| > |N.p| && Rep(W[1].Abs(), a, 1, |N.p|, N.Abs())
    modifies W, T
    ensures Env(N, mm, T, inv) && Table(W, Two(wsize - 1), a, |N.p|, N.Abs())
  {
    assert T != N && Two(0) == 1 && Two(1) == 2;
    hide Rep, Env, Two, Value, Distinct;
    Others(W, 1);
    if wsize > 1 {
      var j := Two(wsize - 1);
      TwoMono(1, wsize - 1);
      Others(W, j);
      NextEntry(W, j, 1, N, T);
      Squarings(W[j], wsize - 1, N, mm, T, inv, a, 1);
      var i := j + 1;
      while i < Two(wsize)
        invariant j < i <= |W| && Env(N, mm, T, inv)
        invariant |W[1].p| > |N.p| && Rep(W[1].Abs(), a, 1, |N.p|, N.Abs())
        invariant forall l :: 0 <= l < |W| ==> W[l].Valid()
        invariant forall l :: j <= l < i ==> |W[l].p| > 0 && Rep(W[l].Abs(), a, l, |N.p|, N.Abs())
      {
        Others(W, i);
        PowerEntry(W, i, N, mm, T, inv, a);
        i := i + 1;
      }
    }
  }

  // ---------- reading the exponent ----------

  /** The exponent bits read so far, with nb limbs and buf bits of limb nb still to come. */
  ghost function Prefix(E: seq<Limb>, nb: nat, buf: nat): int
    requires nb <= |E| && buf <= 32
  {
    if nb == |E| then 0 else Value(E[nb + 1..]) * Two(32 - buf) + E[nb] / Two(buf)
  }

  /** Moving on to the next limb reads nothing. */
  lemma PrefixReload(E: seq<Limb>, nb: nat)
    requires 0 < nb <= |E|
    ensures Prefix(E, nb - 1, 32) == Prefix(E, nb, 0)
  {
    Two32();
    DivUnique(E[nb - 1], BASE, 0, E[nb - 1]);
    if nb == |E| {
      assert E[nb..] == [];
      ValEmpty();
    } else {
      assert E[nb..] == [E[nb]] + E[nb + 1..];
      ValCons(E[nb], E[nb + 1..]);
    }
  }

  /** Each step appends one bit. */
  lemma PrefixBit(E: seq<Limb>, nb: nat, buf: nat)
    requires nb < |E| && 0 < buf <= 32
    ensures Prefix(E, nb, buf - 1) == 2 * Prefix(E, nb, buf) + E[nb] / Two(buf - 1) % 2
  {
    var x, t := E[nb], Two(buf - 1);
    DivBounds(x, t);
    FloorTwice(x, t, x / t, x % t, 2);
    MulSwap(2, Value(E[nb + 1..]), Two(32 - buf));
  }

  /** When everything is read, the prefix is the exponent. */
  lemma PrefixAll(E: seq<Limb>)
    ensures Prefix(E, 0, 0) == Value(E)
  {
    Two32();
    if |E| == 0 {
      ValEmpty();
    } else {
      assert E == [E[0]] + E[1..];
      ValCons(E[0], E[1..]);
    }
  }

  // ---------- the window ----------

  /**
   * What the state variables mean: of the bits read so far, hi is already in the accumulator and
   * the nbits low ones are pending; wbits holds them left-aligned in a window of wsize bits.
   */
  ghost predicate Window(state: int, nbits: nat, wbits: int, wsize: nat, prefix: int, hi: nat, pend: nat) {
    && 0 <= state <= 2 && nbits < wsize
    && prefix == hi * Two(nbits) + pend
    && wbits == pend * Two(wsize - nbits)
    && (nbits == 0 <==> state < 2)
    && (state == 0 ==> prefix == 0)
    && (if nbits == 0 then pend == 0 else Two(nbits - 1) <= pend < Two(nbits))
  }

  /** Adding a bit to the window; the first one is always a one. */
  lemma WindowBit(state: int, nbits: nat, wbits: nat, wsize: nat, prefix: int, hi: nat, pend: nat, ei: nat)
    requires Window(state, nbits, wbits, wsize, prefix, hi, pend) && ei <= 1 && (state < 2 ==> ei == 1)
    ensures Or(wbits, ei * Two(wsize - nbits - 1)) == (2 * pend + ei) * Two(wsize - nbits - 1)
    ensures 2 * prefix + ei == hi * Two(nbits + 1) + (2 * pend + ei)
    ensures Two(nbits) <= 2 * pend + ei < Two(nbits + 1)
  {
    var t := wsize - nbits - 1;
    assert Two(wsize - nbits) == 2 * Two(t) && Two(nbits + 1) == 2 * Two(nbits);
    assert nbits > 0 ==> Two(nbits) == 2 * Two(nbits - 1);
    assert Two(0) == 1;
    hide Two, Or;
    TwoMono(0, t);
    OrDisjoint(pend, ei * Two(t), wsize - nbits);
    AppendBit(pend, ei, Two(t));
    MulSwap(2, hi, Two(nbits));
  }

  lemma AppendBit(pend: int, ei: int, t: int)
    ensures pend * (2 * t) + ei * t == (2 * pend + ei) * t
  {
  }

  /** A finished window empties into the accumulator. */
  lemma WindowDone(wsize: nat, prefix: int)
    requires 0 < wsize && 0 <= prefix
    ensures Window(1, 0, 0, wsize, prefix, prefix, 0)
  {
  }

  /** A full window: wsize squarings and one table entry. */
  method Flush(X: Mpi, W: seq<Mpi>, wsize: nat, wbits: nat, N: Mpi, mm: Limb, T: Mpi,
               ghost inv: int, ghost a: int, ghost hi: nat)
    requires 1 <= wsize && |W| == Two(wsize) && N !in W && T !in W && X !in W
    requires Two(wsize - 1) <= wbits < Two(wsize)
    requires Env(N, mm, T, inv) && Table(W, Two(wsize - 1), a, |N.p|, N.Abs())
    requires X != N && X != T && |X.p| > |N.p| && Rep(X.Abs(), a, hi, |N.p|, N.Abs())
    modifies X`p, T
    ensures Env(N, mm, T, inv) && |X.p| == old(|X.p|)
    ensures hi * Two(wsize) + wbits >= 0 && Rep(X.Abs(), a, hi * Two(wsize) + wbits, |N.p|, N.Abs())
  {
    assert T != N;
    hide Rep, Env, Two;
    Squarings(X, wsize, N, mm, T, inv, a, hi);
    Times(X, W[wbits], N, mm, T, inv, a, hi * Two(wsize), wbits);
  }

  /** What one exponent bit does to the accumulator and the window state. */
  method TakeBit(X: Mpi, W: seq<Mpi>, wsize: nat, ei: nat, state: int, nbits: nat, wbits: nat, N: Mpi, mm: Limb, T: Mpi,
                 ghost inv: int, ghost a: int, ghost prefix: int, ghost hi: nat, ghost pend: nat)
    returns (state': int, nbits': nat, wbits': nat, ghost hi': nat, ghost pend': nat)
    requires 1 <= wsize && |W| == Two(wsize) && N !in W && T !in W && X !in W && ei <= 1
    requires Env(N, mm, T, inv) && Table(W, Two(wsize - 1), a, |N.p|, N.Abs())
    requires X != N && X != T && |X.p| > |N.p| && Rep(X.Abs(), a, hi, |N.p|, N.Abs())
    requires Window(state, nbits, wbits, wsize, prefix, hi, pend)
    modifies X`p, T
    ensures Env(N, mm, T, inv) && |X.p| == old(|X.p|)
    ensures Window(state', nbits', wbits', wsize, 2 * prefix + ei, hi', pend')
    ensures Rep(X.Abs(), a, hi', |N.p|, N.Abs())
  {
    assert T != N;
    hide Rep, Env, Two, Window, Or, Table;
    state', nbits', wbits', hi', pend' := state, nbits, wbits, hi, pend;
    WindowFacts(state, nbits, wbits, wsize, prefix, hi, pend);
    if ei == 0 && state == 0 {
      return;
    }
    if ei == 0 && state == 1 {
      Times(X, X, N, mm, T, inv, a, hi, hi);
      hi' := hi + hi;
      WindowDone(wsize, 2 * prefix);
      WindowIdle(nbits, wbits, wsize, prefix, hi, pend);
      return;
    }
    WindowBit(state, nbits, wbits, wsize, prefix, hi, pend, ei);
    state' := 2;
    nbits' := nbits + 1;
    wbits' := Or(wbits, ei * Two(wsize - nbits'));
    pend' := 2 * pend + ei;
    if nbits' == wsize {
      WindowFull(wbits', pend', wsize);
      Flush(X, W, wsize, wbits', N, mm, T, inv, a, hi);
      hi' := hi * Two(wsize) + wbits';
      WindowDone(wsize, 2 * prefix + ei);
      state', nbits', wbits', pend' := state' - 1, 0, 0, 0;
    } else {
      WindowGrown(nbits', wbits', wsize, 2 * prefix + ei, hi, pend');
    }
  }

  /** Outside a window nothing is pending. */
  lemma WindowIdle(nbits: nat, wbits: int, wsize: nat, prefix: int, hi: nat, pend: nat)
    requires Window(1, nbits, wbits, wsize, prefix, hi, pend)
    ensures nbits == 0 && wbits == 0 && pend == 0 && prefix == hi
  {
  }

  /** The exponentiation loop over the bits of E, with the window state machine. */
  method Windows(X: Mpi, W: seq<Mpi>, wsize: nat, E: seq<Limb>, N: Mpi, mm: Limb, T: Mpi, ghost inv: int, ghost a: int)
    returns (nbits: nat, wbits: nat, ghost hi: nat, ghost pend: nat, ghost last: int)
    requires 1 <= wsize && |W| == Two(wsize) && N !in W && T !in W && X !in W
    requires Env(N, mm, T, inv) && Table(W, Two(wsize - 1), a, |N.p|, N.Abs())
    requires X != N && X != T && |X.p| > |N.p| && Rep(X.Abs(), a, 0, |N.p|, N.Abs())
    modifies X`p, T
    ensures Env(N, mm, T, inv) && |X.p| == old(|X.p|)
    ensures Window(last, nbits, wbits, wsize, Value(E), hi, pend)
    ensures Rep(X.Abs(), a, hi, |N.p|, N.Abs())
  {
    assert T != N;
    hide Rep, Env, Two, Window, Prefix, Value;
    var nblimbs, bufsize, state := |E|, 0, 0;
    nbits, wbits, hi, pend := 0, 0, 0, 0;
    WindowStart(E, wsize);
    while true
      invariant 0 <= nblimbs <= |E| && 0 <= bufsize <= 32 && (nblimbs == |E| ==> bufsize == 0)
      invariant Env(N, mm, T, inv) && |X.p| == old(|X.p|)
      invariant Table(W, Two(wsize - 1), a, |N.p|, N.Abs())
      invariant Window(state, nbits, wbits, wsize, Prefix(E, nblimbs, bufsize), hi, pend)
      invariant Rep(X.Abs(), a, hi, |N.p|, N.Abs())
      decreases nblimbs, bufsize
    {
      if bufsize == 0 {
        if nblimbs == 0 {
          break;
        }
        PrefixReload(E, nblimbs);
        nblimbs := nblimbs - 1;
        bufsize := 32;
      }
      PrefixBit(E, nblimbs, bufsize);
      ghost var prefix := Prefix(E, nblimbs, bufsize);
      bufsize := bufsize - 1;
      var ei := E[nblimbs] / Two(bufsize) % 2;
      state, nbits, wbits, hi, pend := TakeBit(X, W, wsize, ei, state, nbits, wbits, N, mm, T, inv, a, prefix, hi, pend);
    }
    PrefixAll(E);
    last := state;
  }

  lemma WindowStart(E: seq<Limb>, wsize: nat)
    requires 1 <= wsize
    ensures Window(0, 0, 0, wsize, Prefix(E, |E|, 0), 0, 0)
  {
  }

  /** Plain readings of the invariant. */
  lemma WindowFacts(state: int, nbits: nat, wbits: int, wsize: nat, prefix: int, hi: nat, pend: nat)
    requires Window(state, nbits, wbits, wsize, prefix, hi, pend)
    ensures 0 <= state <= 2 && nbits < wsize && 0 <= prefix
    ensures state < 2 ==> nbits == 0 && prefix == hi
    ensures state == 0 ==> prefix == 0 && Window(0, nbits, wbits, wsize, 0, hi, pend)
  {
    MulMono(0, hi, Two(nbits));
  }

  lemma WindowFull(wbits: int, pend: int, wsize: nat)
    requires wbits == pend * Two(0) && 0 < wsize && Two(wsize - 1) <= pend < Two(wsize)
    ensures wbits == pend && Two(wsize - 1) <= wbits < Two(wsize)
  {
  }

  lemma WindowGrown(nbits: nat, wbits: int, wsize: nat, prefix: int, hi: nat, pend: nat)
    requires 0 < nbits < wsize && prefix == hi * Two(nbits) + pend
    requires wbits == pend * Two(wsize - nbits) && Two(nbits - 1) <= pend < Two(nbits)
    ensures Window(2, nbits, wbits, wsize, prefix, hi, pend)
  {
  }

  // ---------- the pending bits at the end ----------

  /** One pending bit: it is the one shifted into position wsize. */
  lemma TailBit(pend: nat, wsize: nat, nbits: nat, i: nat, hi: nat)
    requires i < nbits < wsize
    ensures pend * Two(wsize - nbits + i) * 2 == pend * Two(wsize - nbits + i + 1)
    ensures pend * Two(wsize - nbits + i + 1) / Two(wsize) == pend / Two(nbits - i - 1)
    ensures 2 * (hi * Two(i) + pend / Two(nbits - i)) + pend / Two(nbits - i - 1) % 2
         == hi * Two(i + 1) + pend / Two(nbits - i - 1)
  {
    var s, u := nbits - i - 1, wsize - nbits + i;
    assert Two(u + 1) == 2 * Two(u) && Two(i + 1) == 2 * Two(i) && Two(s + 1) == 2 * Two(s);
    hide Two;
    TwoAdd(u + 1, s);
    MulSwap(pend, 2, Two(u));
    DivBounds(pend, Two(s));
    // dividing out the common power of two
    var q, r := pend / Two(s), pend % Two(s);
    ScaleDivision(pend, Two(s), Two(u + 1));
    FloorTwice(pend, Two(s), q, r, 2);
    MulSwap(2, hi, Two(i));
  }

  lemma ScaleDivision(x: int, d: int, c: int)
    requires d > 0 && c > 0
    ensures x * c / (c * d) == x / d
  {
    DivBounds(x, d);
    var q, r := x / d, x % d;
    RemainderRoom(r, d, c);
    Expand(d, q, r, c);
    DivUnique(x * c, c * d, q, r * c);
  }

  /** The bits left in an unfinished window, one at a time. */
  method Remaining(X: Mpi, B: Mpi, wsize: nat, nbits: nat, wbits0: nat, N: Mpi, mm: Limb, T: Mpi,
                   ghost inv: int, ghost a: int, ghost total: int, ghost hi: nat, ghost pend: nat, ghost last: int)
    requires Env(N, mm, T, inv) && X != N && X != T && B != T && B != X && |X.p| > |N.p| && |B.p| > 0
    requires Window(last, nbits, wbits0, wsize, total, hi, pend)
    requires Rep(X.Abs(), a, hi, |N.p|, N.Abs()) && Rep(B.Abs(), a, 1, |N.p|, N.Abs())
    modifies X`p, T
    ensures Env(N, mm, T, inv) && |X.p| == old(|X.p|)
    ensures 0 <= total && Rep(X.Abs(), a, total, |N.p|, N.Abs())
  {
    assert T != N;
    var wbits, i := wbits0, 0;
    ghost var g := hi;
    TailStart(pend, hi, nbits, wsize, total, wbits, last);
    hide Rep, Env, Two, Window, Value;
    while i < nbits
      invariant 0 <= i <= nbits < wsize && Env(N, mm, T, inv) && |X.p| == old(|X.p|)
      invariant wbits == pend * Two(wsize - nbits + i)
      invariant g == hi * Two(i) + pend / Two(nbits - i)
      invariant Rep(X.Abs(), a, g, |N.p|, N.Abs()) && Rep(B.Abs(), a, 1, |N.p|, N.Abs())
    {
      TailBit(pend, wsize, nbits, i, hi);
      Times(X, X, N, mm, T, inv, a, g, g);
      g := g + g;
      wbits := wbits * 2;
      if wbits / Two(wsize) % 2 != 0 {
        Times(X, B, N, mm, T, inv, a, g, 1);
        g := g + 1;
      }
      i := i + 1;
    }
    TailEnd(pend, hi, nbits, wsize, total, wbits0, last);
  }

  lemma TailStart(pend: nat, hi: nat, nbits: nat, wsize: nat, total: int, wbits: int, last: int)
    requires Window(last, nbits, wbits, wsize, total, hi, pend)
    ensures nbits < wsize && wbits == pend * Two(wsize - nbits)
    ensures hi * Two(0) + pend / Two(nbits) == hi
  {
    assert Two(0) == 1;
    DivUnique(pend, Two(nbits), 0, pend);
  }

  lemma TailEnd(pend: nat, hi: nat, nbits: nat, wsize: nat, total: int, wbits: int, last: int)
    requires Window(last, nbits, wbits, wsize, total, hi, pend)
    ensures hi * Two(nbits) + pend / Two(0) == total && 0 <= total
  {
    assert Two(0) == 1;
    MulMono(0, hi, Two(nbits));
  }

  // ---------- entering and leaving Montgomery form ----------

  lemma Remainder(x: int, n: int)
    requires n > 0
    ensures 0 <= x % n < n && Cong(x % n, x, n)
  {
    DivBounds(x, n);
    ModIsCong(x, n);
  }

  /** Multiplying by R^2 mod N puts a number into Montgomery form. */
  lemma Enter(r: int, w: int, rr: int, a: int, e: nat, k: nat, n: int, inv: int)
    requires Cong(Pow(k) * inv, 1, n) && 0 <= r < n
    requires Cong(w, Exp(a, e), n) && Cong(rr, Pow(2 * k), n)
    requires Cong(Shl(r, k), w * rr, n)
    ensures Rep(r, a, e, k, n)
  {
    hide Cong, Exp, Shl, Pow;
    var x, p := Exp(a, e), Pow(k);
    PowAdd(k, k);
    CongMul(w, x, rr, p * p, n);
    CongTrans(Shl(r, k), w * rr, x * (p * p), n);
    ShlIsProduct(r, k);
    ShlIsProduct(x, k);
    MulAssoc(x, p, p);
    CongCancel(r, Shl(x, k), p, inv, n);
  }

  /** A last reduction leaves Montgomery form. */
  lemma Leave(x: int, v: int, a: int, e: nat, k: nat, n: int, inv: int)
    requires Cong(Pow(k) * inv, 1, n) && 0 <= x < n
    requires Rep(v, a, e, k, n) && Cong(Shl(x, k), v, n)
    ensures x == Exp(a, e) % n
  {
    CongTrans(Shl(x, k), v, Shl(Exp(a, e), k), n);
    hide Cong, Exp, Shl, Pow;
    ShlIsProduct(x, k);
    ShlIsProduct(Exp(a, e), k);
    CongCancel(x, Exp(a, e), Pow(k), inv, n);
    CongIsMod(x, Exp(a, e), n);
    DivUnique(x, n, 0, x);
  }

  /** If R^2 mod N is zero then N is one, and so is everything modulo N. */
  lemma ZeroResidue(k: nat, n: int, inv: int)
    requires n > 0 && Cong(Pow(k) * inv, 1, n) && Pow(2 * k) % n == 0
    ensures n == 1
  {
    hide Pow, Cong;
    ModIsCong(Pow(2 * k), n);
    PowAdd(k, k);
    var p := Pow(k);
    assert 0 * p == 0;
    CongIntro(0, 0 * p, 0, n);
    // 0 = R R, so 0 = R, so 0 = R inv = 1
    CongCancel(0, p, p, inv, n);
    CongScale(0, p, inv, n);
    CongTrans(0 * inv, p * inv, 1, n);
    var k' := CongWitness(0 * inv, 1, n);
    if n > 1 {
      DivUnique(-1, n, -1, n - 1);
      MulComm(k', n);
      DivUnique(-1, n, k', 0);
    }
  }

  /** R^2 mod N, computed by a shift and a reduction. */
  method SquareOfR(N: Mpi) returns (RR: Mpi)
    requires N.Valid() && 0 < N.Int() && |N.p| > 0
    ensures fresh(RR) && RR.Valid() && |RR.p| > 0 && RR.Int() == Pow(2 * |N.p|) % N.Int()
  {
    RR := new Mpi();
    RR.Lset(1);
    ShiftL(RR, |N.p| * 2 * 32);
    PowTwo(2 * |N.p|);
    assert RR.Int() == Pow(2 * |N.p|);
    var ret := ModMpi(RR, RR, N);
  }

  /** W1 := A, reduced when it is not below N. */
  method BelowModulus(W1: Mpi, A: Mpi, N: Mpi)
    requires A.Valid() && N.Valid() && W1.Valid() && W1 != N && W1 != A
    requires 0 < N.Int() && 0 <= A.Int() && |A.p| > 0 && |W1.p| > |N.p| > 0
    modifies W1
    ensures W1.Valid() && |W1.p| > |N.p| && 0 <= W1.Abs() < N.Abs() && Cong(W1.Abs(), A.Int(), N.Int())
  {
    hide Cong, Val;
    ghost var a, n := A.Int(), N.Int();
    Remainder(a, n);
    var c := A.CmpMpi(N);
    if c >= 0 {
      var ret := ModMpi(W1, A, N);
    } else {
      W1.Copy(A);
      CongRefl(a, n);
    }
  }

  /** Brings the base and the number one into Montgomery form. */
  method EnterForms(X: Mpi, W1: Mpi, A: Mpi, RR: Mpi, N: Mpi, mm: Limb, T: Mpi, ghost inv: int)
    requires A.Valid() && RR.Valid() && N.Valid() && X.Valid() && W1.Valid()
    requires Env(N, mm, T, inv) && 0 < N.Int() && 0 <= A.Int() && |A.p| > 0
    requires |X.p| > |N.p| && |W1.p| > |N.p| && |RR.p| > 0 && RR.Int() == Pow(2 * |N.p|) % N.Int()
    requires X != N && X != T && X != W1 && X != RR && W1 != N && W1 != T && W1 != A && W1 != RR && T != RR && T != A
    modifies X, W1, T
    ensures Env(N, mm, T, inv) && X.Valid() && W1.Valid()
    ensures |X.p| > |N.p| && |W1.p| > |N.p| && X.s == RR.s
    ensures Rep(W1.Abs(), old(A.Int()), 1, |N.p|, N.Int()) && Rep(X.Abs(), old(A.Int()), 0, |N.p|, N.Int())
  {
    ghost var a, n, k, rr := A.Int(), N.Int(), |N.p|, RR.Int();
    assert T != N;
    assert Exp(a, 0) == 1 && Exp(a, 1) == a * 1;
    hide Cong, Exp, Shl, Pow, Val, Rep;
    Remainder(Pow(2 * k), n);
    ValueBounds(N.p, |N.p|, N.p);
    BelowModulus(W1, A, N);
    ghost var w := W1.Abs();
    var r1 := MontMul(W1, RR, N, mm, T);
    Enter(W1.Abs(), w, rr, a, 1, k, n, inv);
    X.Copy(RR);
    var r2 := MontRed(X, N, mm, T);
    CongRefl(1, n);
    Enter(X.Abs(), 1, rr, a, 0, k, n, inv);
  }

  /** The window size for an exponent of a given bit length. */
  function WindowBits(len: nat): (w: nat)
    ensures 1 <= w <= WINDOW_SIZE
  {
    var w := if len > 671 then 6 else if len > 239 then 5 else if len > 79 then 4 else if len > 23 then 3 else 1;
    if w > WINDOW_SIZE then WINDOW_SIZE else w
  }

  /** The table and the temporary of the Montgomery multiplications. */
  method Temporaries(N: Mpi, wsize: nat) returns (W: seq<Mpi>, T: Mpi)
    requires 1 <= wsize
    ensures |W| == Two(wsize) > 1 && Distinct(W) && T !in W && fresh(T) && T.Valid() && |T.p| == 2 * |N.p| + 2
    ensures |W[1].p| > |N.p| && forall i :: 0 <= i < |W| ==> fresh(W[i]) && W[i].Valid()
  {
    hide Two, Value;
    TableSize(wsize);
    W := NewTable(Two(wsize));
    W[1].Grow(|N.p| + 1);
    T := new Mpi();
    T.Grow(2 * (|N.p| + 1));
  }

  /** |A| to the power E modulo N, for A already made non-negative. */
  method ExpPositive(X: Mpi, A: Mpi, E: Mpi, N: Mpi, RR: Mpi, mm: Limb)
    requires A.Valid() && E.Valid() && N.Valid() && RR.Valid() && X.Valid()
    requires |N.p| > 0 && (N.p[0] * mm + 1) % BASE == 0 && 0 < N.Int() && 0 <= A.Int() && |A.p| > 0
    requires |X.p| > |N.p| && |RR.p| > 0 && RR.Int() == Pow(2 * |N.p|) % N.Int()
    requires X != N && X != E && X != RR
    modifies X
    ensures X.Valid() && 0 <= E.Abs() && X.Abs() == Exp(old(A.Int()), E.Abs()) % N.Int()
    ensures X.s == RR.s
  {
    hide Cong, Exp, Shl, Pow, Val, Rep, Two;
    ghost var a, n := A.Int(), N.Int();
    var len := Bitlen(E);
    var wsize := WindowBits(len);
    ghost var inv := Invertible(N.p, mm);
    var W, T := Temporaries(N, wsize);
    EnterForms(X, W[1], A, RR, N, mm, T, inv);
    FillTable(W, wsize, N, mm, T, inv, a);
    var nbits, wbits, hi, pend, last := Windows(X, W, wsize, E.p, N, mm, T, inv, a);
    Remaining(X, W[1], wsize, nbits, wbits, N, mm, T, inv, a, E.Abs(), hi, pend, last);
    ghost var v := X.Abs();
    ValueBounds(N.p, |N.p|, N.p);
    RepBound(v, a, E.Abs(), |N.p|, n);
    var ret := MontRed(X, N, mm, T);
    Leave(X.Abs(), v, a, E.Abs(), |N.p|, n, inv);
  }

  lemma RepBound(v: int, a: int, e: nat, k: nat, n: int)
    requires Rep(v, a, e, k, n)
    ensures 0 <= v < n
  {
  }

  lemma TableSize(wsize: nat)
    requires 1 <= wsize
    ensures Two(wsize) > 1 && Two(wsize - 1) >= 1
  {
    assert Two(wsize) == 2 * Two(wsize - 1);
  }

  /** The power the code returns: for a negative base and an odd exponent it is taken off the modulus. */
  ghost function ModPower(s: int, a: nat, e: nat, n: int): int
    requires n > 0
  {
    if s < 0 && e % 2 == 1 then n - Exp(a, e) % n else Exp(a, e) % n
  }

  /** R^2 mod N, taken from the caller's cache when it is filled and stored there when it is not. */
  method CachedSquareOfR(Cache: Mpi?, N: Mpi) returns (RR: Mpi)
    requires N.Valid() && 0 < N.Int() && |N.p| > 0 && Cache != N
    requires Cache != null && |Cache.p| > 0 ==> Cache.Valid() && Cache.Int() == Pow(2 * |N.p|) % N.Int()
    modifies Cache
    ensures fresh(RR) || RR == Cache
    ensures RR.Valid() && |RR.p| > 0 && RR.Int() == Pow(2 * |N.p|) % N.Int()
    ensures Cache != null ==> Cache.Valid() && |Cache.p| > 0 && Cache.Int() == Pow(2 * |N.p|) % N.Int()
  {
    hide Pow;
    if Cache == null || |Cache.p| == 0 {
      RR := SquareOfR(N);
      if Cache != null {
        Cache.s, Cache.p := RR.s, RR.p;
      }
    } else {
      RR := Cache;
    }
  }

  /** A itself, or a positive copy of a negative A. */
  method WithoutSign(A: Mpi) returns (a: Mpi)
    requires A.Valid() && |A.p| > 0
    ensures a == A || fresh(a)
    ensures a.Valid() && |a.p| > 0 && a.Int() == A.Abs() && 0 <= a.Int()
  {
    a := A;
    if A.s == -1 {
      a := new Mpi();
      a.Copy(A);
      a.s := 1;
    }
  }

  /** A negative base with an odd exponent: the residue is taken off the modulus. */
  method CorrectSign(X: Mpi, N: Mpi, E: Mpi, neg: bool)
    requires X.Valid() && N.Valid() && X != N && X != E && X.Int() == X.Abs()
    modifies X
    ensures X.Valid() && X.Int() == if neg && E.Abs() % 2 == 1 then N.Int() - old(X.Abs()) else old(X.Abs())
  {
    LowBit(E.p);
    if neg && |E.p| != 0 && E.p[0] % 2 != 0 {
      X.s := -1;
      X.AddMpi(N, X);
    }
  }

  /** X := A^E mod N for odd N; X and A may be the same number. */
  method ExpMod(X: Mpi, A: Mpi, E: Mpi, N: Mpi, Cache: Mpi?) returns (ret: int)
    requires A.Valid() && E.Valid() && N.Valid() && X.Valid() && |N.p| > 0 && |A.p| > 0
    requires X != E && X != N
    requires Cache != null ==> Cache != X && Cache != A && Cache != E && Cache != N
    requires Cache != null && |Cache.p| > 0 && N.Int() > 0 ==> Cache.Valid() && Cache.Int() == Pow(2 * |N.p|) % N.Int()
    modifies X, Cache
    ensures ret == (if old(N.Int()) < 0 || old(N.p[0]) % 2 == 0 || old(E.Int()) < 0 then ERR_BAD_INPUT_DATA else OK)
    ensures ret == OK ==> X.Valid() && N.Int() > 0 && E.Abs() >= 0
    ensures ret == OK ==> X.Int() == ModPower(old(A.s), old(A.Abs()), E.Abs(), N.Int())
    ensures ret != OK ==> unchanged(X)
    ensures ret == OK && Cache != null ==> |Cache.p| > 0 && Cache.Int() == Pow(2 * |N.p|) % N.Int()
  {
    hide Cong, Exp, Shl, Pow, Val;
    var c := N.CmpInt(0);
    if c < 0 || N.p[0] % 2 == 0 {
      return ERR_BAD_INPUT_DATA;
    }
    c := E.CmpInt(0);
    if c < 0 {
      return ERR_BAD_INPUT_DATA;
    }
    OddPositive(N.p);
    assert 0 < N.Int();
    var mm := MontgInit(N);
    ghost var inv := Invertible(N.p, mm);
    X.Grow(|N.p| + 1);
    var neg := A.s == -1;
    var a := WithoutSign(A);
    var RR := CachedSquareOfR(Cache, N);
    ExpPositive(X, a, E, N, RR, mm);
    ResidueSign(RR.Int(), |N.p|, N.Int(), inv, Exp(old(A.Abs()), E.Abs()));
    CorrectSign(X, N, E, neg);
    return OK;
  }

  /** The accumulator inherits the sign of R^2 mod N, which can only be negative when every residue is zero. */
  lemma ResidueSign(rr: int, k: nat, n: int, inv: int, x: int)
    requires n > 0 && Cong(Pow(k) * inv, 1, n) && rr == Pow(2 * k) % n
    ensures 0 <= x % n < n && (rr == 0 ==> x % n == 0) && 0 <= rr
  {
    Remainder(x, n);
    Remainder(Pow(2 * k), n);
    if rr == 0 {
      ZeroResidue(k, n, inv);
    }
  }

  lemma OddPositive(p: seq<Limb>)
    requires |p| > 0 && p[0] % 2 == 1
    ensures Value(p) > 0
  {
    ValFloor(p, 0, |p|);
  }

  /** The parity of a number is the parity of its lowest limb. */
  lemma LowBit(p: seq<Limb>)
    ensures |p| == 0 ==> Value(p) == 0
    ensures |p| > 0 ==> Value(p) % 2 == p[0] % 2
  {
    if |p| > 0 {
      assert p == [p[0]] + p[1..];
      ValCons(p[0], p[1..]);
    }
  }

  /**
   * What exponentiation promises: the result is congruent to A^E, it is never above N,
   * and it is a reduced residue except when a negative sign and an odd exponent meet a power
   * that N divides, where the code returns N itself.
   */
  lemma ModPowerLaw(s: int, a: nat, e: nat, n: int)
    requires n > 0
    ensures Cong(ModPower(s, a, e, n), Exp(if s < 0 then -(a as int) else a, e), n)
    ensures 0 <= ModPower(s, a, e, n) <= n
    ensures ModPower(s, a, e, n) < n <==> !(s < 0 && e % 2 == 1 && Exp(a, e) % n == 0)
  {
    var x := Exp(a, e);
    Remainder(x, n);
    if s < 0 {
      ExpNeg(a, e);
      if e % 2 == 1 {
        CongNeg(x % n, x, n);
        CongIntro(n - x % n, -(x % n), 1, n);
        CongTrans(n - x % n, -(x % n), -x, n);
      }
    }
  }
}
