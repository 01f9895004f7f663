/** The doubling layout: element n lives in chunk floor(log2(n + 1)). */
module DoublingLayout {

  ghost function Pow2(k: nat): (p: nat)
    ensures p >= 1
  {
    if k == 0 then 1 else 2 * Pow2(k - 1)
  }

  /** Position of the highest set bit. */
  function FloorLog2(m: nat): (k: nat)
    requires m >= 1
    ensures Pow2(k) <= m < 2 * Pow2(k)
  {
    if m == 1 then 0 else FloorLog2(m / 2) + 1
  }

  function Shift(k: nat): (p: nat)
    ensures p == Pow2(k)
  {
    if k == 0 then 1 else 2 * Shift(k - 1)
  }

  function Locate(n: nat): (c: (nat, nat))
    ensures c.1 < Pow2(c.0) && c.1 + Pow2(c.0) == n + 1
  {
    var m := n + 1;
    var k := FloorLog2(m);
    (k, m - Shift(k))
  }

  lemma {:induction false} Pow2Grows(j: nat, k: nat)
    requires j < k
    ensures 2 * Pow2(j) <= Pow2(k)
    decreases k
  {
    if j < k - 1 {
      Pow2Grows(j, k - 1);
    }
  }

  lemma ChunkUnique(j: nat, k: nat, m: nat)
    requires Pow2(j) <= m < 2 * Pow2(j) && Pow2(k) <= m < 2 * Pow2(k)
    ensures j == k
  {
    if j < k {
      Pow2Grows(j, k);
    } else if k < j {
      Pow2Grows(k, j);
    }
  }

  /** Every (chunk, offset below 2^chunk) is the place of an index. */
  lemma LocateOnto(n: nat, k: nat, offset: nat)
    requires offset < Pow2(k) && n + 1 == offset + Pow2(k)
    ensures Locate(n) == (k, offset)
  {
    ChunkUnique(Locate(n).0, k, n + 1);
  }

  /** Different indices have different places. */
  lemma LocateInjective(m: nat, n: nat)
    ensures Locate(m) == Locate(n) <==> m == n
  {
  }

  /** Chunk after chunk, offset after offset, the places are in the order of the indices. */
  lemma LocateOrder(m: nat, n: nat)
    ensures m < n <==> Locate(m).0 < Locate(n).0 || (Locate(m).0 == Locate(n).0 && Locate(m).1 < Locate(n).1)
  {
    var j, k := Locate(m).0, Locate(n).0;
    if k < j {
      Pow2Grows(k, j);
    } else if j < k {
      Pow2Grows(j, k);
    }
  }
}
