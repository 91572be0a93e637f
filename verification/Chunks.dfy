/** Positions in a file seen as chunk number and offset within the chunk. */
module Chunks {

  /** `p / m`, by repeated subtraction. */
  function Quot(p: nat, m: nat): nat
    requires m > 0
  {
    if p < m then 0 else 1 + Quot(p - m, m)
  }

  /** `p % m`, by repeated subtraction. */
  function Rem(p: nat, m: nat): (r: nat)
    requires m > 0
    ensures r < m
  {
    if p < m then p else Rem(p - m, m)
  }

  lemma {:induction false} QuotRemAre(p: nat, m: nat)
    requires m > 0
    ensures Quot(p, m) == p / m && Rem(p, m) == p % m
    ensures p == Quot(p, m) * m + Rem(p, m)
  {
    if p < m {
      DivModAt(0, m, p);
    } else {
      QuotRemAre(p - m, m);
      var k, r := (p - m) / m, (p - m) % m;
      assert (k + 1) * m == k * m + m;
      DivModAt(k + 1, m, r);
    }
  }

  lemma DivModAt(k: nat, m: nat, r: nat)
    requires r < m
    ensures (k * m + r) / m == k && (k * m + r) % m == r
  {
    var x := k * m + r;
    var d := x / m - k;
    assert x == m * (x / m) + x % m;
    assert m * d == m * (x / m) - m * k;
    assert d >= 1 ==> m * d >= m;
    assert d <= -1 ==> m * d <= m * -1;
  }

  /** Moving forward within a chunk, or exactly to the start of the next. */
  lemma {:induction false} Advance(p: nat, j: nat, m: nat)
    requires m > 0 && Rem(p, m) + j <= m
    ensures Rem(p, m) + j < m ==> Quot(p + j, m) == Quot(p, m) && Rem(p + j, m) == Rem(p, m) + j
    ensures Rem(p, m) + j == m ==> Quot(p + j, m) == Quot(p, m) + 1 && Rem(p + j, m) == 0
  {
    if p >= m {
      Advance(p - m, j, m);
      assert p - m + j == p + j - m;
    }
  }

  lemma {:induction false} QuotMonotone(p: nat, q: nat, m: nat)
    requires m > 0 && p <= q
    ensures Quot(p, m) <= Quot(q, m)
  {
    if p >= m {
      QuotMonotone(p - m, q - m, m);
    }
  }

  /** `n * m`, by repeated addition. */
  function Times(n: nat, m: nat): nat {
    if n == 0 then 0 else Times(n - 1, m) + m
  }

  lemma {:induction false} TimesIs(n: nat, m: nat)
    ensures Times(n, m) == n * m
  {
    if n > 0 {
      TimesIs(n - 1, m);
      assert n * m == (n - 1) * m + m;
    }
  }

  lemma {:induction false} TimesMonotone(k: nat, n: nat, m: nat)
    requires k <= n
    ensures Times(k, m) <= Times(n, m)
    decreases n
  {
    if k < n {
      TimesMonotone(k, n - 1, m);
    }
  }

  /** Every position is its chunk's start plus its offset. */
  lemma {:induction false} QuotRemTimes(p: nat, m: nat)
    requires m > 0
    ensures p == Times(Quot(p, m), m) + Rem(p, m)
  {
    if p >= m {
      QuotRemTimes(p - m, m);
    }
  }

  // -------------------------------------------------- chunks one by one

  /** All chunks, one after the other. */
  function Concat<T>(chunks: seq<seq<T>>): seq<T> {
    if chunks == [] then [] else chunks[0] + Concat(chunks[1..])
  }

  ghost predicate AllOfLength<T>(chunks: seq<seq<T>>, m: nat) {
    forall i :: 0 <= i < |chunks| ==> |chunks[i]| == m
  }

  lemma {:induction false} ConcatLength<T>(chunks: seq<seq<T>>, m: nat)
    requires AllOfLength(chunks, m)
    ensures |Concat(chunks)| == Times(|chunks|, m)
  {
    if chunks != [] {
      ConcatLength(chunks[1..], m);
    }
  }

  /** In chunks of equal length, position `p` is in chunk `p / m` at offset `p % m`. */
  lemma {:induction false} ConcatAt<T>(chunks: seq<seq<T>>, m: nat, p: nat)
    requires m > 0 && AllOfLength(chunks, m) && p < |Concat(chunks)|
    ensures Quot(p, m) < |chunks| && Concat(chunks)[p] == chunks[Quot(p, m)][Rem(p, m)]
  {
    if p >= m {
      ConcatAt(chunks[1..], m, p - m);
    }
  }
}
