/** Buffers seen byte by byte: words are little-endian. */
module HeapBytes {
  import opened Common
  import opened HeapLayout

  function ByteOfWord(w: nat, j: nat): nat
    requires j < 8
  {
    w / Pow256(j) % 256
  }

  function ByteOf(c: Cell, j: nat): nat
    requires j < 16
  {
    if j < 8 then ByteOfWord(c.lo, j) else ByteOfWord(c.hi, j - 8)
  }

  function ByteAt(xs: seq<Cell>, i: nat): nat
    requires i < 16 * |xs|
  {
    ByteOf(xs[i / 16], i % 16)
  }

  ghost predicate ZeroBelow(xs: seq<Cell>, n: nat) {
    forall i {:trigger ByteAt(xs, i)} :: 0 <= i < n && i < 16 * |xs| ==> ByteAt(xs, i) == 0
  }

  ghost predicate SameFrom(xs: seq<Cell>, ys: seq<Cell>, n: nat) {
    |xs| == |ys| && forall i {:trigger ByteAt(ys, i)} :: n <= i < 16 * |xs| ==> ByteAt(ys, i) == ByteAt(xs, i)
  }

  ghost predicate SameBelow(xs: seq<Cell>, ys: seq<Cell>, n: nat) {
    n <= 16 * |xs| && n <= 16 * |ys| && forall i {:trigger ByteAt(ys, i)} :: 0 <= i < n ==> ByteAt(ys, i) == ByteAt(xs, i)
  }

  function ClearWord(w: nat, r: nat): nat
    requires r < 8
  {
    w - w % Pow256(r)
  }

  /** The cell with its first `r` bytes zeroed. */
  function ClearLow(c: Cell, r: nat): Cell
    requires r < 16
  {
    if r < 8 then Cell(ClearWord(c.lo, r), c.hi) else Cell(0, ClearWord(c.hi, r - 8))
  }

  lemma MulGrows(d: int, e: int)
    requires 0 <= d
    ensures 1 <= e ==> d <= d * e
    ensures e <= -1 ==> d * e <= -d
  {
    if 1 <= e {
      assert d * e == d + d * (e - 1);
    } else if e <= -1 {
      assert d * e == -d + d * (e + 1);
    }
  }

  lemma DivUnique(x: nat, d: nat, q: nat, r: nat)
    requires x == d * q + r && r < d
    ensures x / d == q
  {
    var e := x / d - q;
    assert d * e == r - x % d by {
      assert d * (x / d) + x % d == x;
      assert d * e == d * (x / d) - d * q;
    }
    MulGrows(d, e);
  }

  lemma ClearHigh(w: nat, c: nat, d: nat)
    requires 0 < c && 0 < d
    ensures (w - w % c) / (c * d) == w / (c * d)
  {
    var q, rem := w / c, w % c;
    var k, s := q / d, q % d;
    var cd := c * d;
    Regroup(w, c, d, q, rem, k, s);
    DivUnique(w, cd, k, c * s + rem);
    DivUnique(w - rem, cd, k, c * s);
  }

  lemma Regroup(w: nat, c: nat, d: nat, q: nat, rem: nat, k: nat, s: nat)
    requires w == c * q + rem && q == d * k + s && rem < c && s < d
    ensures 0 <= c * s
    ensures w == (c * d) * k + (c * s + rem) && w - rem == (c * d) * k + c * s
    ensures c * s + rem < c * d
  {
    assert c * q == c * (d * k) + c * s;
    assert c * (d * k) == (c * d) * k;
    MulGrows(c, d - s);
    assert c * (d - s) == c * d - c * s;
  }

  lemma ClearLower(w: nat, a: nat, b: nat)
    requires 0 < a && 0 < b
    ensures (w - w % (a * 256 * b)) / a % 256 == 0
  {
    var c := a * 256 * b;
    var q := w / c;
    assert w - w % c == c * q;
    assert c * q == a * (256 * (b * q));
    DivUnique(w - w % c, a, 256 * (b * q), 0);
  }

  lemma ClearWordByte(w: nat, r: nat, j: nat)
    requires r < 8 && j < 8
    ensures ByteOfWord(ClearWord(w, r), j) == if j < r then 0 else ByteOfWord(w, j)
  {
    if j < r {
      assert Pow256(r) == Pow256(j) * 256 * Pow256(r - j - 1);
      ClearLower(w, Pow256(j), Pow256(r - j - 1));
    } else {
      assert Pow256(j) == Pow256(r) * Pow256(j - r);
      ClearHigh(w, Pow256(r), Pow256(j - r));
    }
  }

  lemma ClearLowByte(c: Cell, r: nat, j: nat)
    requires r < 16 && j < 16
    ensures ByteOf(ClearLow(c, r), j) == if j < r then 0 else ByteOf(c, j)
  {
    hide ByteOfWord, ClearWord;
    if r < 8 && j < 8 {
      ClearWordByte(c.lo, r, j);
    } else if 8 <= r && 8 <= j {
      ClearWordByte(c.hi, r - 8, j - 8);
    } else if j < 8 {
      ZeroWordByte(j);
    }
  }

  lemma ZeroWordByte(j: nat)
    requires j < 8
    ensures ByteOfWord(0, j) == 0
  {
  }

  lemma ZeroedBytes(xs: seq<Cell>, ys: seq<Cell>, n: nat)
    requires |ys| == |xs| && n <= 16 * |xs|
    requires forall j :: 0 <= j < |xs| && j != n / 16 ==> ys[j] == if j < n / 16 then Cell(0, 0) else xs[j]
    requires n / 16 < |xs| ==> ys[n / 16] == if n % 16 == 0 then xs[n / 16] else ClearLow(xs[n / 16], n % 16)
    ensures ZeroBelow(ys, n) && SameFrom(xs, ys, n)
  {
    hide ByteOfWord, ClearLow;
    forall i | 0 <= i < 16 * |ys|
      ensures ByteAt(ys, i) == if i < n then 0 else ByteAt(xs, i)
    {
      if i / 16 == n / 16 && n % 16 != 0 {
        ClearLowByte(xs[n / 16], n % 16, i % 16);
      } else if i < n {
        ZeroWordByte(i % 8);
      }
    }
  }
}
