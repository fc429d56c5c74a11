/** The table-driven logarithm that picks the slab class of an allocation. */
module SlabClasses {
  import opened MachineWords

  function Pow2(k: nat): (p: nat)
    ensures p > 0
  {
    if k == 0 then 1 else 2 * Pow2(k - 1)
  }

  /** The first sixteen entries of `kLogTable`, then one entry for each row of sixteen equal ones. */
  const LOG_LOW: seq<int> := [-1, 0, 1, 1, 2, 2, 2, 2, 3, 3, 3, 3, 3, 3, 3, 3]
  const LOG_ROWS: seq<int> := [4, 5, 5, 6, 6, 6, 6, 7, 7, 7, 7, 7, 7, 7, 7]

  function LogTable(i: nat): (r: int)
    requires i < 256
    ensures i > 0 ==> 0 <= r <= 7
  {
    if i < 16 then LOG_LOW[i] else LOG_ROWS[i / 16 - 1]
  }

  /** The branches of `UpperLog2` on the bytes of `x`, before it rounds up. */
  function TableLog(x: nat): (r: nat)
    requires 0 < x < TWO_TO_THE_32
  {
    var q := x / 0x1_0000;
    if q != 0 then
      if q / 256 != 0 then 24 + LogTable(q / 256) else 16 + LogTable(q)
    else
      if x / 256 != 0 then 8 + LogTable(x / 256) else LogTable(x)
  }

  /** Zero would shift by the table's -1, and from 2^32 on the source reads past the table. */
  function UpperLog2(x: nat): (c: nat)
    requires 0 < x < TWO_TO_THE_32
  {
    var r := TableLog(x);
    if Pow2(r) < x then r + 1 else r
  }

  lemma {:induction false} Pow2Grows(j: nat, k: nat)
    requires j <= k
    ensures Pow2(j) <= Pow2(k)
    ensures j < k ==> 2 * Pow2(j) <= Pow2(k)
  {
    if j < k {
      Pow2Grows(j, k - 1);
    }
  }

  lemma {:induction false} Pow2Shift(k: nat)
    ensures Pow2(k + 8) == 256 * Pow2(k)
  {
    assert Pow2(k + 8) == 2 * Pow2(k + 7) == 4 * Pow2(k + 6) == 8 * Pow2(k + 5) == 16 * Pow2(k + 4);
    assert Pow2(k + 4) == 2 * Pow2(k + 3) == 4 * Pow2(k + 2) == 8 * Pow2(k + 1) == 16 * Pow2(k);
  }

  lemma SmallPowers()
    ensures Pow2(0) == 1 && Pow2(1) == 2 && Pow2(2) == 4 && Pow2(3) == 8 && Pow2(4) == 16
    ensures Pow2(5) == 32 && Pow2(6) == 64 && Pow2(7) == 128 && Pow2(8) == 256
  {
    Pow2Shift(0);
    assert Pow2(4) == 2 * Pow2(3) == 4 * Pow2(2);
    assert Pow2(8) == 2 * Pow2(7) == 4 * Pow2(6) == 8 * Pow2(5);
  }

  /** Away from its first entry the table holds the rounded-down logarithm. */
  lemma TableIsFloorLog(i: nat)
    requires 0 < i < 256
    ensures LogTable(i) >= 0
    ensures Pow2(LogTable(i)) <= i < 2 * Pow2(LogTable(i))
  {
    SmallPowers();
  }

  lemma {:induction false} ShiftedFloorLog(x: nat, y: nat, k: nat)
    requires Pow2(k) <= y < 2 * Pow2(k) && y == x / 256
    ensures Pow2(k + 8) <= x < 2 * Pow2(k + 8)
  {
    Pow2Shift(k);
  }

  lemma TableLogOfBytes(x: nat)
    requires 0 < x < 0x1_0000
    ensures Pow2(TableLog(x)) <= x < 2 * Pow2(TableLog(x))
  {
    if x / 256 != 0 {
      TableIsFloorLog(x / 256);
      ShiftedFloorLog(x, x / 256, LogTable(x / 256));
    } else {
      TableIsFloorLog(x);
    }
  }

  lemma TableLogIsFloorLog(x: nat)
    requires 0 < x < TWO_TO_THE_32
    ensures Pow2(TableLog(x)) <= x < 2 * Pow2(TableLog(x))
  {
    hide LogTable, Pow2;
    var q := x / 0x1_0000;
    if q == 0 {
      TableLogOfBytes(x);
    } else {
      TableLogOfBytes(q);
      assert TableLog(x) == 16 + TableLog(q) && q == x / 256 / 256;
      ShiftedFloorLog(x / 256, q, TableLog(q));
      ShiftedFloorLog(x, x / 256, TableLog(q) + 8);
    }
  }

  /** The rounded-up logarithm by repeated halving. */
  function CeilLog(x: nat): nat
    requires x > 0
  {
    if x == 1 then 0 else 1 + CeilLog((x + 1) / 2)
  }

  lemma {:induction false} CeilLogBounds(x: nat)
    requires x > 0
    ensures x <= Pow2(CeilLog(x)) && (x > 1 ==> CeilLog(x) > 0 && Pow2(CeilLog(x) - 1) < x)
  {
    if x > 1 {
      CeilLogBounds((x + 1) / 2);
    }
  }

  lemma CeilLogUnique(x: nat, c: nat)
    requires 0 < x <= Pow2(c) && (c > 0 ==> Pow2(c - 1) < x)
    ensures CeilLog(x) == c
  {
    CeilLogBounds(x);
    var d := CeilLog(x);
    if d < c {
      Pow2Grows(d, c - 1);
    } else if c < d {
      Pow2Grows(c, d - 1);
    }
  }

  /** The table lookup computes the rounded-up logarithm of every size it is defined for. */
  lemma UpperLog2IsCeilLog(x: nat)
    requires 0 < x < TWO_TO_THE_32
    ensures UpperLog2(x) == CeilLog(x)
  {
    TableLogIsFloorLog(x);
    var r := TableLog(x);
    assert Pow2(r + 1) == 2 * Pow2(r) && (r > 0 ==> Pow2(r) == 2 * Pow2(r - 1));
    hide TableLog, CeilLog, Pow2;
    CeilLogUnique(x, UpperLog2(x));
  }
}
