/** The shuffle of common/io_lib.cpp (shuffle_for_conv_fp32 and _fp16): every datum
    of a padded tensor is scattered to an address computed from running counters. */
module Shuffle {
  import opened Basics
  import opened MixedRadix

  /** What the shuffle is run with: a padded tensor of n x c x ph x pw data that
      divides into bh x bw blocks of s x s, the window inside each block, and the
      tile-rounded output. */
  datatype Plan = Plan(n: nat, c: nat, s: nat, ph: nat, pw: nat, bh: nat, bw: nat, wh: nat, ww: nat, numRows: nat, rowSize: nat) {
    ghost predicate Valid() {
      && 1 <= s && 1 <= bh && 1 <= bw
      && ph == bh * s && pw == bw * s && 1 <= ph && 1 <= pw
      && 1 <= wh <= s && 1 <= ww <= s
      && c * (wh * ww) <= numRows
      && bh * bw <= rowSize
    }

    function Face(): nat { ph * pw }

    function Blocks(): nat { bh * bw }

    function KeptRows(): nat { c * ww * wh }

    function OutSize(): nat { n * numRows * rowSize }
  }

  /** The coordinates of one datum: entry, channel, row and column. */
  datatype Datum = Datum(e: nat, z: nat, y: nat, x: nat)

  predicate InPadded(g: Plan, d: Datum)
    requires g.Valid()
  {
    d.e < g.n && d.z < g.c && d.y < g.ph && d.x < g.pw
  }

  /** The data that the shuffle keeps: those inside the window of their block. */
  predicate Selected(g: Plan, d: Datum)
    requires g.Valid()
  {
    InPadded(g, d) && d.y % g.s < g.wh && d.x % g.s < g.ww
  }

  /** The row-major position of a datum in the padded tensor. */
  function Rank(g: Plan, d: Datum): int
    requires g.Valid()
  {
    Mix(Mix(Mix(d.e, g.c, d.z), g.ph, d.y), g.pw, d.x)
  }

  function OutRow(g: Plan, d: Datum): int
    requires g.Valid()
  {
    Mix(Mix(d.y % g.s, g.ww, d.x % g.s), g.c, d.z)
  }

  function OutCol(g: Plan, d: Datum): int
    requires g.Valid()
  {
    Mix(d.y / g.s, g.bw, d.x / g.s)
  }

  /** The address a datum is scattered to: row OutRow, column OutCol of entry e. */
  function Addr(g: Plan, d: Datum): int
    requires g.Valid()
  {
    Mix(Mix(d.e, g.numRows, OutRow(g, d)), g.rowSize, OutCol(g, d))
  }

  lemma RankInjective(g: Plan, d: Datum, d': Datum)
    requires g.Valid() && InPadded(g, d) && InPadded(g, d')
    requires Rank(g, d) == Rank(g, d')
    ensures d == d'
  {
    MixInjective(Mix(Mix(d.e, g.c, d.z), g.ph, d.y), d.x, Mix(Mix(d'.e, g.c, d'.z), g.ph, d'.y), d'.x, g.pw);
    MixInjective(Mix(d.e, g.c, d.z), d.y, Mix(d'.e, g.c, d'.z), d'.y, g.ph);
    MixInjective(d.e, d.z, d'.e, d'.z, g.c);
  }

  lemma RankBound(g: Plan, d: Datum)
    requires g.Valid() && InPadded(g, d)
    ensures 0 <= Rank(g, d) < g.n * g.c * g.ph * g.pw
  {
    MixBound(d.e, g.n, g.c, d.z);
    MixBound(Mix(d.e, g.c, d.z), g.n * g.c, g.ph, d.y);
    MixBound(Mix(Mix(d.e, g.c, d.z), g.ph, d.y), g.n * g.c * g.ph, g.pw, d.x);
  }

  /** Row and column of a kept datum lie inside the used part of the output. */
  lemma OutCellBound(g: Plan, d: Datum)
    requires g.Valid() && Selected(g, d)
    ensures 0 <= OutRow(g, d) < g.c * (g.wh * g.ww) <= g.numRows
    ensures 0 <= OutCol(g, d) < g.bh * g.bw <= g.rowSize
  {
    hide Mix;
    MixBound(d.y % g.s, g.wh, g.ww, d.x % g.s);
    MixBound(Mix(d.y % g.s, g.ww, d.x % g.s), g.wh * g.ww, g.c, d.z);
    Commute(g.c, g.wh * g.ww);
    DivBound(d.y, g.bh, g.s);
    DivBound(d.x, g.bw, g.s);
    MixBound(d.y / g.s, g.bh, g.bw, d.x / g.s);
  }

  lemma Commute(a: int, b: int)
    ensures a * b == b * a
  {}

  /** Every scatter address lies inside the allocated output. All the terms the
      code adds up are non-negative, so no partial sum exceeds it either. */
  lemma AddrBound(g: Plan, d: Datum)
    requires g.Valid() && Selected(g, d)
    ensures 0 <= Addr(g, d) < g.OutSize()
  {
    OutCellBound(g, d);
    MixBound(d.e, g.n, g.numRows, OutRow(g, d));
    MixBound(Mix(d.e, g.numRows, OutRow(g, d)), g.n * g.numRows, g.rowSize, OutCol(g, d));
  }

  /** No two kept data share an address. */
  lemma AddrInjective(g: Plan, d: Datum, d': Datum)
    requires g.Valid() && Selected(g, d) && Selected(g, d')
    requires Addr(g, d) == Addr(g, d')
    ensures d == d'
  {
    OutCellBound(g, d);
    OutCellBound(g, d');
    MixInjective(Mix(d.e, g.numRows, OutRow(g, d)), OutCol(g, d),
                 Mix(d'.e, g.numRows, OutRow(g, d')), OutCol(g, d'), g.rowSize);
    MixInjective(d.e, OutRow(g, d), d'.e, OutRow(g, d'), g.numRows);
    MixInjective(Mix(d.y % g.s, g.ww, d.x % g.s), d.z, Mix(d'.y % g.s, g.ww, d'.x % g.s), d'.z, g.c);
    MixInjective(d.y % g.s, d.x % g.s, d'.y % g.s, d'.x % g.s, g.ww);
    DivBound(d.x, g.bw, g.s);
    DivBound(d'.x, g.bw, g.s);
    MixInjective(d.y / g.s, d.x / g.s, d'.y / g.s, d'.x / g.s, g.bw);
    MixSplit(d.y, g.s);
    MixSplit(d'.y, g.s);
    MixSplit(d.x, g.s);
    MixSplit(d'.x, g.s);
  }

  /** The state of the output once all data of rank below p have been looked at:
      each kept datum sits at its address and every other cell is as it was. */
  ghost predicate Scattered<T>(g: Plan, input: seq<T>, base: seq<T>, out: seq<T>, p: int)
    requires g.Valid()
  {
    && |out| == |base| == g.OutSize()
    && |input| == g.n * g.c * g.ph * g.pw
    && (forall d :: Selected(g, d) && Rank(g, d) < p ==>
          0 <= Rank(g, d) < |input| && 0 <= Addr(g, d) < |out| && out[Addr(g, d)] == input[Rank(g, d)])
    && (forall k :: 0 <= k < |out| && !Hit(g, k, p) ==> out[k] == base[k])
  }

  ghost predicate Hit(g: Plan, k: int, p: int)
    requires g.Valid()
  {
    exists d :: Selected(g, d) && Rank(g, d) < p && Addr(g, d) == k
  }

  lemma ScatterStep<T>(g: Plan, input: seq<T>, base: seq<T>, out: seq<T>, d: Datum, out': seq<T>)
    requires g.Valid() && Selected(g, d)
    requires Scattered(g, input, base, out, Rank(g, d))
    requires 0 <= Rank(g, d) < |input| && 0 <= Addr(g, d) < |out|
    requires out' == out[Addr(g, d) := input[Rank(g, d)]]
    ensures Scattered(g, input, base, out', Rank(g, d) + 1)
  {
    var p := Rank(g, d);
    forall d' | Selected(g, d') && Rank(g, d') < p + 1
      ensures 0 <= Rank(g, d') < |input| && 0 <= Addr(g, d') < |out'| && out'[Addr(g, d')] == input[Rank(g, d')]
    {
      if Rank(g, d') == p {
        RankInjective(g, d, d');
      } else if Addr(g, d') == Addr(g, d) {
        AddrInjective(g, d, d');
      }
    }
    forall k | 0 <= k < |out'| && !Hit(g, k, p + 1)
      ensures out'[k] == base[k]
    {
      assert k != Addr(g, d);
      assert !Hit(g, k, p);
    }
  }

  lemma ScatterSkip<T>(g: Plan, input: seq<T>, base: seq<T>, out: seq<T>, d: Datum)
    requires g.Valid() && InPadded(g, d) && !Selected(g, d)
    requires Scattered(g, input, base, out, Rank(g, d))
    ensures Scattered(g, input, base, out, Rank(g, d) + 1)
  {
    forall d' | Selected(g, d') && Rank(g, d') < Rank(g, d) + 1
      ensures Rank(g, d') < Rank(g, d)
    {
      if Rank(g, d') == Rank(g, d) {
        RankInjective(g, d, d');
      }
    }
    forall k | 0 <= k < |out| && !Hit(g, k, Rank(g, d) + 1)
      ensures out[k] == base[k]
    {
      assert !Hit(g, k, Rank(g, d));
    }
  }

  // ----- the running counters of the shuffle loop

  /** Stepping to the next row: the channel offset is the row modulo the stride,
      and row_idx counts the rows that do not start a new block of rows. */
  lemma NextRow(row: nat, s: nat)
    requires 1 <= s
    ensures (row % s + 1) % s == (row + 1) % s
    ensures (row + 1) - (row + 1) / s == row - row / s + (if (row + 1) % s != 0 then 1 else 0)
  {
    var q, r := row / s, row % s;
    Distribute(q, 1, s);
    if r + 1 < s {
      DivModUnique(row + 1, q, s, r + 1);
      DivModUnique(r + 1, 0, s, r + 1);
    } else {
      DivModUnique(row + 1, q + 1, s, 0);
      DivModUnique(r + 1, 1, s, 0);
    }
  }

  /** The linear index within a face determines the row and the column. */
  lemma FaceIndex(g: Plan, y: nat, x: nat)
    requires g.Valid() && x < g.pw
    ensures Mix(y, g.pw, x) % g.s == x % g.s
    ensures Mix(y, g.pw, x) / g.pw == y && Mix(y, g.pw, x) % g.pw == x
  {
    MixDivMod(y, g.pw, x);
    MixSplit(x, g.s);
    assert Mix(y, g.pw, x) == Mix(y * g.bw + x / g.s, g.s, x % g.s);
    MixDivMod(y * g.bw + x / g.s, g.s, x % g.s);
  }

  /** The address expression of the code, from its running counters. */
  function CodeAddr(g: Plan, e: int, z: int, channelOffset: int, rowIdx: int, idx: int): int
    requires g.Valid()
  {
    e * g.rowSize * g.numRows + z * g.rowSize
    + channelOffset * g.ww * g.c * g.rowSize
    + (idx % g.s) * g.rowSize * g.c
    + (idx - rowIdx * g.pw) / g.s
  }

  lemma CodeCol(g: Plan, y: nat, x: nat)
    requires g.Valid() && x < g.pw
    ensures (Mix(y, g.pw, x) - (y - y / g.s) * g.pw) / g.s == Mix(y / g.s, g.bw, x / g.s)
  {
    ColArith(y, y / g.s, x, x / g.s, x % g.s, g.s, g.bw, g.pw);
  }

  lemma ColArith(y: int, yb: int, x: int, bx: int, rx: int, s: int, bw: int, pw: int)
    requires pw == bw * s && x == bx * s + rx && 0 <= rx < s
    ensures (Mix(y, pw, x) - (y - yb) * pw) / s == Mix(yb, bw, bx)
  {
    Distribute(y - yb, yb, pw);
    Associate(yb, bw, s);
    Distribute(yb * bw, bx, s);
    DivModUnique(Mix(y, pw, x) - (y - yb) * pw, Mix(yb, bw, bx), s, rx);
  }

  /** The code's address is the closed form. */
  lemma CodeAddrIsAddr(g: Plan, d: Datum)
    requires g.Valid() && InPadded(g, d)
    ensures CodeAddr(g, d.e, d.z, d.y % g.s, d.y - d.y / g.s, Mix(d.y, g.pw, d.x)) == Addr(g, d)
  {
    FaceIndex(g, d.y, d.x);
    CodeCol(g, d.y, d.x);
    var cy, cx, rs, c, ww := d.y % g.s, d.x % g.s, g.rowSize, g.c, g.ww;
    calc {
      Mix(Mix(d.e, g.numRows, OutRow(g, d)), rs, 0);
      (d.e * g.numRows + ((cy * ww + cx) * c + d.z)) * rs;
      { Distribute(d.e * g.numRows, (cy * ww + cx) * c + d.z, rs); }
      d.e * g.numRows * rs + ((cy * ww + cx) * c + d.z) * rs;
      { Distribute((cy * ww + cx) * c, d.z, rs); Distribute(cy * ww, cx, c); Distribute(cy * ww * c, cx * c, rs); }
      d.e * g.numRows * rs + cy * ww * c * rs + cx * c * rs + d.z * rs;
      { Rotate(d.e, g.numRows, rs); Rotate(cx, c, rs); }
      d.e * rs * g.numRows + cy * ww * c * rs + cx * rs * c + d.z * rs;
    }
  }

  /** Rank in the nesting the code uses: entry, channel, index within the face. */
  lemma RankInFace(g: Plan, d: Datum)
    requires g.Valid()
    ensures Rank(g, d) == Mix(Mix(d.e, g.c, d.z), g.Face(), Mix(d.y, g.pw, d.x))
    ensures Rank(g, d) == d.e * g.Face() * g.c + d.z * g.Face() + Mix(d.y, g.pw, d.x)
  {
    var f := Mix(d.e, g.c, d.z);
    assert Rank(g, d) == (f * g.ph + d.y) * g.pw + d.x;
    Distribute(f * g.ph, d.y, g.pw);
    assert f * g.ph * g.pw == f * g.Face();
    Distribute(d.e * g.c, d.z, g.Face());
    Rotate(d.e, g.c, g.Face());
  }

  // ----- the same in the widths of the code

  /** A result as uint32_t keeps it. */
  function W(a: int): int { a % U32 }

  /** The address expression with every operation in uint32_t, in the order of the code. */
  function CodeAddr32(g: Plan, e: int, z: int, channelOffset: int, rowIdx: int, idx: int): int
    requires g.Valid()
  {
    Sum32(W(W(e * g.rowSize) * g.numRows), W(z * g.rowSize), W(W(W(channelOffset * g.ww) * g.c) * g.rowSize),
          W(W(idx % g.s * g.rowSize) * g.c), W(idx - W(rowIdx * g.pw)) / g.s)
  }

  function Sum32(t1: int, t2: int, t3: int, t4: int, t5: int): int {
    W(W(W(W(t1 + t2) + t3) + t4) + t5)
  }

  /** The index a datum is read at: three offsets, added to a pointer one by one. */
  function CodeRank32(g: Plan, e: int, z: int, idx: int): int {
    W(W(e * g.Face()) * g.c) + W(z * g.Face()) + idx
  }

  lemma Exact(a: int)
    requires 0 <= a < U32
    ensures W(a) == a
  {}

  /** A product of non-negative numbers does not fall when it is multiplied by something. */
  lemma Grows(a: int, b: int)
    requires 0 <= a && 1 <= b
    ensures 0 <= a <= a * b
  {
    MulMono(1, b, a);
  }

  /** As long as input and output have fewer than 2^32 cells nothing overflows: the
      addresses the code computes for a kept datum are the exact ones. */
  lemma NothingOverflows(g: Plan, d: Datum)
    requires g.Valid() && Selected(g, d)
    requires g.OutSize() < U32 && g.n * g.c * g.ph * g.pw < U32
    ensures CodeAddr32(g, d.e, d.z, d.y % g.s, d.y - d.y / g.s, Mix(d.y, g.pw, d.x)) == Addr(g, d)
    ensures CodeRank32(g, d.e, d.z, Mix(d.y, g.pw, d.x)) == Rank(g, d)
  {
    var cy, cx, idx, rowIdx := d.y % g.s, d.x % g.s, Mix(d.y, g.pw, d.x), d.y - d.y / g.s;
    CodeAddrIsAddr(g, d);
    AddrBound(g, d);
    RankInFace(g, d);
    RankBound(g, d);
    FaceIndex(g, d.y, d.x);
    OutCellBound(g, d);
    SomeRows(g);
    ColumnFits(g, d);
    hide Addr, Rank, Plan.OutSize;
    AddrTerms(g, d.e, d.z, cy, rowIdx, idx, cx, Addr(g, d));
    RankTerms(g, d.e, d.z, idx, Rank(g, d));
  }

  lemma SomeRows(g: Plan)
    requires g.Valid() && g.c >= 1
    ensures g.numRows >= 1 && g.rowSize >= 1
  {
    Grows(g.wh, g.ww);
    Grows(g.c, g.wh * g.ww);
    Grows(g.bh, g.bw);
  }

  /** The counters never run ahead of the index. */
  lemma ColumnFits(g: Plan, d: Datum)
    requires g.Valid() && InPadded(g, d)
    ensures 0 <= (d.y - d.y / g.s) * g.pw <= Mix(d.y, g.pw, d.x)
    ensures 0 <= Mix(d.y, g.pw, d.x) < g.Face()
    ensures 0 <= (Mix(d.y, g.pw, d.x) - (d.y - d.y / g.s) * g.pw) / g.s
  {
    DivSign(d.y, g.s);
    MixSplit(d.y, g.s);
    Grows(d.y / g.s, g.s);
    MulMono(d.y - d.y / g.s, d.y, g.pw);
    MulMono(0, d.y - d.y / g.s, g.pw);
    MixBound(d.y, g.ph, g.pw, d.x);
    DivSign(Mix(d.y, g.pw, d.x) - (d.y - d.y / g.s) * g.pw, g.s);
  }

  lemma ProductFits(a: int, b: int, c: int)
    requires 0 <= a && 0 <= b && 1 <= c && a * b * c < U32
    ensures 0 <= a * b <= a * b * c && W(a * b) == a * b && W(W(a * b) * c) == a * b * c
  {
    MulMono(0, a, b);
    Grows(a * b, c);
    Exact(a * b);
    Exact(a * b * c);
  }

  lemma SumFits(t1: int, t2: int, t3: int, t4: int, t5: int)
    requires 0 <= t1 && 0 <= t2 && 0 <= t3 && 0 <= t4 && 0 <= t5 && t1 + t2 + t3 + t4 + t5 < U32
    ensures Sum32(t1, t2, t3, t4, t5) == t1 + t2 + t3 + t4 + t5
  {
    Exact(t1 + t2);
    Exact(t1 + t2 + t3);
    Exact(t1 + t2 + t3 + t4);
    Exact(t1 + t2 + t3 + t4 + t5);
  }

  /** Nor do the sizes: with fewer than 2^31 padded data, the products that
      get_conv_shuffler_params and slow_prestride form are exact. */
  lemma SizesFit(g: Plan)
    requires g.Valid() && 1 <= g.n && 1 <= g.c && g.OutSize() < U32 && g.n * g.c * g.ph * g.pw < U32 / 2
    ensures W(W(g.c * g.ww) * g.wh) == g.KeptRows() <= g.numRows < U32 && g.rowSize < U32
    ensures W(g.pw * g.ph) == g.Face() && 0 < g.s * g.s < U32 / 2 && g.Face() / (g.s * g.s) == g.Blocks()
    ensures W(W(g.n * g.rowSize) * g.numRows) == g.OutSize()
    ensures W(W(g.n * g.c) * g.Face()) == g.n * g.c * g.ph * g.pw
  {
    SomeRows(g);
    Rotate(g.n, g.numRows, g.rowSize);
    FactorsFit(g.n, g.rowSize, g.numRows);
    Associate(g.c, g.wh, g.ww);
    Rotate(g.c, g.wh, g.ww);
    FactorsFit(g.c, g.ww, g.wh);
    Associate(g.n * g.c, g.ph, g.pw);
    MulMono(1, g.n, g.c);
    Grows(g.ph, g.pw);
    FactorsFit(g.n, g.c, g.Face());
    Grows(g.Face(), g.n * g.c);
    BlocksOfFace(g);
    Exact(g.Face());
  }

  lemma FactorsFit(a: int, b: int, c: int)
    requires 1 <= a && 1 <= b && 1 <= c && a * b * c < U32
    ensures W(W(a * b) * c) == a * b * c && a <= a * b * c && b <= a * b * c && c <= a * b * c
  {
    ProductFits(a, b, c);
    Grows(a, b);
    Grows(b, a);
    MulMono(1, a * b, c);
  }

  lemma BlocksOfFace(g: Plan)
    requires g.Valid()
    ensures 0 < g.s * g.s <= g.Face() && g.Face() / (g.s * g.s) == g.Blocks()
  {
    var ss := g.s * g.s;
    Grows(g.s, g.s);
    Associate(g.bh * g.s, g.bw, g.s);
    Rotate(g.bh, g.s, g.bw);
    Associate(g.bh * g.bw, g.s, g.s);
    Grows(g.bh, g.bw);
    MulMono(1, g.Blocks(), ss);
    DivModUnique(g.Face(), g.Blocks(), ss, 0);
  }

  lemma LongProductFits(a: int, b: int, c: int, d: int)
    requires 0 <= a && 0 <= b && 1 <= c && 1 <= d && a * b * c * d < U32
    ensures W(W(W(a * b) * c) * d) == a * b * c * d
  {
    MulMono(0, a, b);
    Grows(a * b, c);
    Grows(a * b * c, d);
    ProductFits(a, b, c);
    Exact(a * b * c * d);
  }

  lemma NonNegTerms(e: int, z: int, cy: int, cx: int, rs: int, rows: int, ww: int, c: int)
    requires 0 <= e && 0 <= z && 0 <= cy && 0 <= cx && 1 <= rs && 1 <= rows && 1 <= ww && 1 <= c
    ensures 0 <= e * rs * rows && 0 <= z * rs && 0 <= cy * ww * c * rs && 0 <= cx * rs * c
  {
    Grows(e, rs);
    Grows(e * rs, rows);
    Grows(z, rs);
    Grows(cy, ww);
    Grows(cy * ww, c);
    Grows(cy * ww * c, rs);
    Grows(cx, rs);
    Grows(cx * rs, c);
  }

  lemma AddrTerms(g: Plan, e: int, z: int, cy: int, rowIdx: int, idx: int, cx: int, sum: int)
    requires g.Valid() && g.c >= 1 && g.numRows >= 1 && g.rowSize >= 1
    requires 0 <= e && 0 <= z && 0 <= cy && 0 <= cx == idx % g.s && sum < U32
    requires 0 <= rowIdx * g.pw <= idx < U32 && 0 <= (idx - rowIdx * g.pw) / g.s
    requires CodeAddr(g, e, z, cy, rowIdx, idx) == sum
    ensures CodeAddr32(g, e, z, cy, rowIdx, idx) == sum
  {
    var rs := g.rowSize;
    NonNegTerms(e, z, cy, cx, rs, g.numRows, g.ww, g.c);
    var t1, t2, t3, t4, t5 := e * rs * g.numRows, z * rs, cy * g.ww * g.c * rs, cx * rs * g.c, (idx - rowIdx * g.pw) / g.s;
    assert t1 + t2 + t3 + t4 + t5 == sum;
    hide W, Sum32, Plan.Valid;
    ProductFits(e, rs, g.numRows);
    Exact(t2);
    LongProductFits(cy, g.ww, g.c, rs);
    ProductFits(cx, rs, g.c);
    Exact(rowIdx * g.pw);
    Exact(idx - rowIdx * g.pw);
    SumFits(t1, t2, t3, t4, t5);
  }

  lemma RankTerms(g: Plan, e: int, z: int, idx: int, sum: int)
    requires g.c >= 1 && 0 <= e && 0 <= z && 0 <= idx && sum < U32
    requires e * g.Face() * g.c + z * g.Face() + idx == sum
    ensures CodeRank32(g, e, z, idx) == sum
  {
    MulMono(0, e, g.Face());
    MulMono(0, z, g.Face());
    Grows(e * g.Face(), g.c);
    Exact(e * g.Face());
    Exact(e * g.Face() * g.c);
    Exact(z * g.Face());
  }

  lemma ScatteredNothing<T>(g: Plan, input: seq<T>, base: seq<T>)
    requires g.Valid() && |input| == g.n * g.c * g.ph * g.pw && |base| == g.OutSize()
    ensures Scattered(g, input, base, base, 0)
  {
    forall d | Selected(g, d)
      ensures Rank(g, d) >= 0
    {
      RankBound(g, d);
    }
  }

  /** A multiple of the row length that is past the start of a row ends it, and
      the running counters then move on as the code moves them. */
  lemma RowEnd(g: Plan, row: nat, idx: nat)
    requires g.Valid() && idx < g.Face()
    requires row * g.pw < idx <= (row + 1) * g.pw && idx % g.pw == 0
    ensures idx == (row + 1) * g.pw && row + 1 < g.ph
    ensures (row % g.s + 1) % g.s == (row + 1) % g.s
    ensures (row + 1) - (row + 1) / g.s == row - row / g.s + (if idx % (g.s * g.pw) != 0 then 1 else 0)
  {
    NextRow(row, g.s);
    RowStartsBlock(row + 1, g.s, g.pw);
    NextMultiple(row, g.pw, idx);
    MulStrict(row + 1, g.ph, g.pw);
  }

  /** The rank of index idx in channel z of entry e. */
  function FaceStart(g: Plan, e: int, z: int, idx: int): int
  {
    Mix(Mix(e, g.c, z), g.Face(), idx)
  }

  lemma FaceCarry(g: Plan, e: int, z: int)
    ensures FaceStart(g, e, z, g.Face()) == FaceStart(g, e, z + 1, 0)
  {
    Carry(Mix(e, g.c, z), g.Face());
  }

  lemma ChannelCarry(g: Plan, e: int)
    ensures FaceStart(g, e, g.c, 0) == FaceStart(g, e + 1, 0, 0)
  {
    Carry(e, g.c);
  }

  lemma WholeTensor(g: Plan)
    ensures FaceStart(g, g.n, 0, 0) == g.n * g.c * g.ph * g.pw
  {
    assert g.n * g.c * (g.ph * g.pw) == g.n * g.c * g.ph * g.pw;
  }

  /** The datum the loop looks at, and what the code computes for it. */
  lemma DatumAt(g: Plan, e: nat, z: nat, row: nat, idx: nat) returns (d: Datum)
    requires g.Valid() && e < g.n && z < g.c && row < g.ph
    requires row * g.pw <= idx <= (row + 1) * g.pw
    requires idx == (row + 1) * g.pw ==> idx % g.pw != 0
    ensures InPadded(g, d) && d.y == row && idx % g.s == d.x % g.s
    ensures row * g.pw < idx + 1 <= (row + 1) * g.pw
    ensures Rank(g, d) == FaceStart(g, e, z, idx) == e * g.Face() * g.c + z * g.Face() + idx
    ensures 0 <= Rank(g, d) < g.n * g.c * g.ph * g.pw
    ensures CodeAddr(g, e, z, row % g.s, row - row / g.s, idx) == Addr(g, d)
    ensures Selected(g, d) ==> 0 <= Addr(g, d) < g.OutSize()
  {
    MixDivMod(row + 1, g.pw, 0);
    d := Datum(e, z, row, idx - row * g.pw);
    assert idx == Mix(row, g.pw, d.x);
    FaceIndex(g, row, d.x);
    RankInFace(g, d);
    RankBound(g, d);
    CodeAddrIsAddr(g, d);
    if Selected(g, d) {
      AddrBound(g, d);
    }
  }

  /** One iteration of the scan, after the running counters have been advanced. */
  method PlaceDatum<T>(g: Plan, input: array<T>, out: array<T>, e: nat, z: nat,
                       channelOffset: nat, rowIdx: int, idx: nat, ghost d: Datum, ghost base: seq<T>)
    requires g.Valid() && input != out
    requires InPadded(g, d) && channelOffset == d.y % g.s && idx % g.s == d.x % g.s
    requires Rank(g, d) == e * g.Face() * g.c + z * g.Face() + idx
    requires CodeAddr(g, e, z, channelOffset, rowIdx, idx) == Addr(g, d)
    requires Scattered(g, input[..], base, out[..], Rank(g, d))
    modifies out
    ensures Scattered(g, input[..], base, out[..], Rank(g, d) + 1)
  {
    if channelOffset < g.wh && idx % g.s < g.ww {
      RankBound(g, d);
      AddrBound(g, d);
      ghost var data, before := input[..], out[..];
      out[CodeAddr(g, e, z, channelOffset, rowIdx, idx)] := input[e * g.Face() * g.c + z * g.Face() + idx];
      assert input[..] == data;
      ScatterStep(g, data, base, before, d, out[..]);
    } else {
      ScatterSkip(g, input[..], base, out[..], d);
    }
  }

  /** The scan of one face, with the running channel offset and row index. */
  method ShuffleFace<T>(g: Plan, input: array<T>, out: array<T>, e: nat, z: nat, ghost base: seq<T>)
    requires g.Valid() && input != out && e < g.n && z < g.c
    requires Scattered(g, input[..], base, out[..], FaceStart(g, e, z, 0))
    modifies out
    ensures Scattered(g, input[..], base, out[..], FaceStart(g, e, z, g.Face()))
  {
    ghost var data := input[..];
    var channelOffset, rowIdx := 0, 0;
    ghost var row := 0;
    for idx := 0 to g.Face()
      invariant input[..] == data
      invariant 0 <= row < g.ph && channelOffset == row % g.s && rowIdx == row - row / g.s
      invariant if idx == 0 then row == 0 else row * g.pw < idx <= (row + 1) * g.pw
      invariant Scattered(g, data, base, out[..], FaceStart(g, e, z, idx))
    {
      if idx != 0 && idx % g.pw == 0 {
        RowEnd(g, row, idx);
        channelOffset := (channelOffset + 1) % g.s;
        if idx % (g.s * g.pw) != 0 {
          rowIdx := rowIdx + 1;
        }
        row := row + 1;
      }
      ghost var d := DatumAt(g, e, z, row, idx);
      PlaceDatum(g, input, out, e, z, channelOffset, rowIdx, idx, d, base);
    }
  }

  /** shuffle_for_conv_fp32 and shuffle_for_conv_fp16, which differ only in the
      type of the datum. */
  method ShuffleForConv<T>(g: Plan, input: array<T>, out: array<T>)
    requires g.Valid() && input != out
    requires input.Length == g.n * g.c * g.ph * g.pw && out.Length == g.OutSize()
    modifies out
    ensures Scattered(g, input[..], old(out[..]), out[..], input.Length)
  {
    ghost var data, base := input[..], out[..];
    ScatteredNothing(g, data, base);
    for e := 0 to g.n
      invariant input[..] == data
      invariant Scattered(g, data, base, out[..], FaceStart(g, e, 0, 0))
    {
      for z := 0 to g.c
        invariant input[..] == data
        invariant Scattered(g, data, base, out[..], FaceStart(g, e, z, 0))
      {
        ShuffleFace(g, input, out, e, z, base);
        FaceCarry(g, e, z);
      }
      ChannelCarry(g, e);
    }
    WholeTensor(g);
  }
}
