/** slow_prestride as a whole: kernel window, tile-rounded sizes, padding and
    shuffle, and what the result means in terms of the tensor that came in. */
module Prestride {
  import opened Basics
  import opened MixedRadix
  import Padding
  import opened Shuffle
  import opened KernelBox

  const TILE_HEIGHT := 32
  const TILE_WIDTH := 32

  // ----- align_up in uint32_t arithmetic

  function AlignUp(dim: nat, alignment: nat): nat
    requires dim < U32 && 1 <= alignment < U32
  {
    var newDim := (dim + U32 - 1) % U32;
    (newDim - newDim % alignment + alignment) % U32
  }

  function RoundUp(dim: nat, d: nat): nat
    requires 1 <= d
  {
    (dim + d - 1) / d * d
  }

  /** The least multiple of d that is not below dim. */
  ghost predicate IsRoundUp(r: int, dim: nat, d: nat)
    requires 1 <= d
  {
    r % d == 0 && dim <= r < dim + d
  }

  lemma RoundUpIsLeast(dim: nat, d: nat)
    requires 1 <= d
    ensures IsRoundUp(RoundUp(dim, d), dim, d)
    ensures RoundUp(dim, d) / d * d == RoundUp(dim, d)
    ensures dim >= 1 ==> RoundUp(dim, d) / d >= 1
    ensures dim % d == 0 ==> RoundUp(dim, d) == dim
  {
    var q := (dim + d - 1) / d;
    DivModUnique(q * d, q, d, 0);
    assert dim + d - 1 == q * d + (dim + d - 1) % d;
    if dim % d == 0 {
      DivModUnique(dim + d - 1, dim / d, d, d - 1);
    }
  }

  lemma RoundUpUnique(a: int, b: int, dim: nat, d: nat)
    requires 1 <= d && IsRoundUp(a, dim, d) && IsRoundUp(b, dim, d)
    ensures a == b
  {
    var p, q := a / d, b / d;
    assert a == p * d && b == q * d;
    Distribute(p, 1, d);
    Distribute(q, 1, d);
    MulStrict(p, q + 1, d);
    MulStrict(q, p + 1, d);
  }

  /** What the code adds up: the multiple of d next above dim - 1 (taken modulo
      2^32), reduced modulo 2^32 once more. */
  lemma AlignUpSum(dim: nat, d: nat) returns (m: nat)
    requires dim < U32 && 1 <= d < U32
    ensures var b := if dim > 0 then dim else U32; IsRoundUp(m, b, d)
    ensures AlignUp(dim, d) == if m < U32 then m else m - U32
  {
    var b := if dim > 0 then dim else U32;
    m := b - 1 - (b - 1) % d + d;
    NextAligned(b - 1, d);
    DivModUnique(dim + U32 - 1, if dim > 0 then 1 else 0, U32, b - 1);
    DivModUnique(m, if m < U32 then 0 else 1, U32, if m < U32 then m else m - U32);
  }

  lemma NextAligned(a: nat, d: nat)
    requires 1 <= d
    ensures 0 <= a % d < d && (a - a % d + d) % d == 0
  {
    var q := a / d;
    Distribute(q, 1, d);
    DivModUnique(a - a % d + d, q + 1, d, 0);
  }

  /** align_up returns the least multiple not below dim exactly when that multiple
      fits in 32 bits and dim is not 0, or dim is 0 and the alignment divides 2^32. */
  lemma AlignUpExact(dim: nat, d: nat)
    requires dim < U32 && 1 <= d < U32
    ensures IsRoundUp(AlignUp(dim, d), dim, d) <==>
            if dim > 0 then RoundUp(dim, d) < U32 else U32 % d == 0
    ensures dim > 0 && RoundUp(dim, d) < U32 ==> AlignUp(dim, d) == RoundUp(dim, d)
    ensures dim > 0 && RoundUp(dim, d) < U32 ==> AlignUp(dim, d) % d == 0 && dim <= AlignUp(dim, d) < dim + d
  {
    var m := AlignUpSum(dim, d);
    if dim > 0 {
      RoundUpIsLeast(dim, d);
      RoundUpUnique(m, RoundUp(dim, d), dim, d);
    } else {
      RoundUpIsLeast(U32, d);
      RoundUpUnique(m, RoundUp(U32, d), U32, d);
      if m != U32 {
        DivModUnique(m - U32, 0, d, m - U32);
      }
    }
  }

  // ----- shapes, windows and sizes

  /** A 4-D tensor shape: entries, channels, rows and columns. */
  datatype Shape = Shape(n: nat, c: nat, h: nat, w: nat) {
    function Size(): nat { n * c * h * w }
  }

  /** The sizes the code stores in uint32_t: neither rows nor columns are empty,
      and both still fit after rounding up to the stride. */
  predicate Roundable(sh: Shape, s: nat) {
    && 1 <= s < U32
    && 1 <= sh.h < U32 && RoundUp(sh.h, s) < U32
    && 1 <= sh.w < U32 && RoundUp(sh.w, s) < U32
  }

  /** get_conv_shuffler_params; None is the failed log_assert on the offsets. */
  function ShufflerParams(sh: Shape, s: nat, offsets: seq<Offset>): (r: Option<Plan>)
    requires Roundable(sh, s) && |offsets| > 0
    ensures r.Some? <==> BoxCheck(offsets)
    ensures r.Some? ==> PlanFor(sh, s, Extent(Xs(offsets)), Extent(Ys(offsets)), r.value)
  {
    var kernelX, kernelY := Extent(Xs(offsets)), Extent(Ys(offsets));
    if kernelX * kernelY != |offsets| then None else
      var windowX, windowY := MinOf(kernelX, s), MinOf(kernelY, s);
      var alignedX, alignedY := AlignUp(sh.w, s), AlignUp(sh.h, s);
      Sizes(sh, s, windowY, windowX);
      Some(Plan(sh.n, sh.c, s, alignedY, alignedX, alignedY / s, alignedX / s, windowY, windowX,
                RoundUp(sh.c * windowX * windowY, TILE_HEIGHT),
                RoundUp(alignedX * alignedY / (s * s), TILE_WIDTH)))
  }

  /** What the parameters promise: blocks of s x s cover the tensor with less than
      a block to spare, and the output is the least number of whole tiles. */
  ghost predicate PlanFor(sh: Shape, s: nat, kernelX: nat, kernelY: nat, g: Plan)
    requires 1 <= s
  {
    && g.Valid() && g.n == sh.n && g.c == sh.c && g.s == s
    && g.wh == MinOf(kernelY, s) && g.ww == MinOf(kernelX, s)
    && IsRoundUp(g.ph, sh.h, s) && IsRoundUp(g.pw, sh.w, s)
    && IsRoundUp(g.numRows, g.KeptRows(), TILE_HEIGHT)
    && IsRoundUp(g.rowSize, g.Blocks(), TILE_WIDTH)
  }

  lemma Sizes(sh: Shape, s: nat, wh: int, ww: int)
    requires Roundable(sh, s) && 1 <= wh && 1 <= ww
    ensures AlignUp(sh.h, s) == RoundUp(sh.h, s) && AlignUp(sh.w, s) == RoundUp(sh.w, s)
    ensures s * s > 0 && sh.c * ww * wh >= 0 && sh.c * (wh * ww) == sh.c * ww * wh
    ensures RoundUp(sh.w, s) * RoundUp(sh.h, s) / (s * s) == (RoundUp(sh.h, s) / s) * (RoundUp(sh.w, s) / s)
    ensures IsRoundUp(RoundUp(sh.h, s), sh.h, s) && IsRoundUp(RoundUp(sh.w, s), sh.w, s)
    ensures RoundUp(sh.h, s) == RoundUp(sh.h, s) / s * s && RoundUp(sh.w, s) == RoundUp(sh.w, s) / s * s
    ensures RoundUp(sh.h, s) / s >= 1 && RoundUp(sh.w, s) / s >= 1
    ensures IsRoundUp(RoundUp(sh.c * ww * wh, TILE_HEIGHT), sh.c * ww * wh, TILE_HEIGHT)
    ensures var blocks := (RoundUp(sh.h, s) / s) * (RoundUp(sh.w, s) / s);
            blocks >= 0 && IsRoundUp(RoundUp(blocks, TILE_WIDTH), blocks, TILE_WIDTH)
  {
    AlignUpExact(sh.h, s);
    AlignUpExact(sh.w, s);
    RoundUpIsLeast(sh.h, s);
    RoundUpIsLeast(sh.w, s);
    var bh, bw := RoundUp(sh.h, s) / s, RoundUp(sh.w, s) / s;
    MulMono(1, s, s);
    BlockCount(bh, bw, s);
    NonNegProducts(sh.c, ww, wh);
    NonNegProducts(1, bh, bw);
    RoundUpIsLeast(sh.c * ww * wh, TILE_HEIGHT);
    RoundUpIsLeast(bh * bw, TILE_WIDTH);
  }

  lemma BlockCount(bh: nat, bw: nat, s: nat)
    requires 1 <= s
    ensures s * s > 0 && (bw * s) * (bh * s) / (s * s) == bh * bw
  {
    assert (bw * s) * (bh * s) == (bh * bw) * (s * s);
    MulMono(1, s, s);
    DivModUnique((bw * s) * (bh * s), bh * bw, s * s, 0);
  }

  // ----- meaning

  /** The row-major position of a datum in the tensor that came in. */
  function Position(sh: Shape, d: Datum): int {
    Mix(Mix(Mix(d.e, sh.c, d.z), sh.h, d.y), sh.w, d.x)
  }

  predicate InTensor(sh: Shape, d: Datum) {
    d.e < sh.n && d.z < sh.c && d.y < sh.h && d.x < sh.w
  }

  lemma PositionBound(sh: Shape, d: Datum)
    requires InTensor(sh, d)
    ensures 0 <= Position(sh, d) < sh.Size()
  {
    MixBound(d.e, sh.n, sh.c, d.z);
    MixBound(Mix(d.e, sh.c, d.z), sh.n * sh.c, sh.h, d.y);
    MixBound(Mix(Mix(d.e, sh.c, d.z), sh.h, d.y), sh.n * sh.c * sh.h, sh.w, d.x);
  }

  lemma PositionInjective(sh: Shape, d: Datum, d': Datum)
    requires InTensor(sh, d) && InTensor(sh, d') && Position(sh, d) == Position(sh, d')
    ensures d == d'
  {
    MixInjective(Mix(Mix(d.e, sh.c, d.z), sh.h, d.y), d.x, Mix(Mix(d'.e, sh.c, d'.z), sh.h, d'.y), d'.x, sh.w);
    MixInjective(Mix(d.e, sh.c, d.z), d.y, Mix(d'.e, sh.c, d'.z), d'.y, sh.h);
    MixInjective(d.e, d.z, d'.e, d'.z, sh.c);
  }

  /** The zero-padded tensor, read at any coordinates. */
  ghost function PaddedAt<T>(sh: Shape, data: seq<T>, zero: T, d: Datum): T
    requires |data| == sh.Size() && d.e < sh.n && d.z < sh.c
  {
    if d.y < sh.h && d.x < sh.w then
      PositionBound(sh, d);
      data[Position(sh, d)]
    else zero
  }

  /** Cell k of the output receives no datum. */
  ghost predicate Untouched(g: Plan, k: int)
    requires g.Valid()
  {
    forall d :: Selected(g, d) ==> Addr(g, d) != k
  }

  /** The windowed space-to-depth transform: the padded datum (e,z,y,x) inside the
      window is at row ((y%s)*ww + x%s)*c + z, column (y/s)*bw + x/s of entry e,
      and every cell that receives no datum is zero. */
  ghost predicate IsPrestrided<T>(sh: Shape, g: Plan, data: seq<T>, zero: T, out: seq<T>)
    requires g.Valid() && g.n == sh.n && g.c == sh.c && |data| == sh.Size()
  {
    && |out| == g.OutSize()
    && (forall d :: Selected(g, d) ==>
          0 <= Addr(g, d) < |out| && out[Addr(g, d)] == PaddedAt(sh, data, zero, d))
    && (forall k :: 0 <= k < |out| && Untouched(g, k) ==> out[k] == zero)
  }

  /** The sizes in plain numbers: rows and columns are rounded up to the stride, the windows
      are no wider than the stride, and the output consists of whole 32 x 32 tiles. */
  lemma PlanSizes(sh: Shape, s: nat, kernelX: nat, kernelY: nat, g: Plan)
    requires 1 <= s && PlanFor(sh, s, kernelX, kernelY, g)
    ensures g.n == sh.n && g.c == sh.c && g.s == s
    ensures g.ph % s == 0 && sh.h <= g.ph < sh.h + s && g.pw % s == 0 && sh.w <= g.pw < sh.w + s
    ensures g.wh == (if kernelY < s then kernelY else s) && g.ww == (if kernelX < s then kernelX else s)
    ensures g.numRows % 32 == 0 && g.c * g.ww * g.wh <= g.numRows < g.c * g.ww * g.wh + 32
    ensures g.rowSize % 32 == 0 && (g.ph / s) * (g.pw / s) <= g.rowSize < (g.ph / s) * (g.pw / s) + 32
  {
    DivModUnique(g.ph, g.bh, s, 0);
    DivModUnique(g.pw, g.bw, s, 0);
  }

  /** The transform in plain numbers: where datum (e, z, y, x) of the padded tensor goes. */
  lemma PrestridedCell<T>(sh: Shape, g: Plan, data: seq<T>, zero: T, out: seq<T>, e: nat, z: nat, y: nat, x: nat)
    requires g.Valid() && g.n == sh.n && g.c == sh.c && |data| == sh.n * sh.c * sh.h * sh.w
    requires IsPrestrided(sh, g, data, zero, out)
    requires e < sh.n && z < sh.c && y < g.ph && x < g.pw && y % g.s < g.wh && x % g.s < g.ww
    ensures |out| == sh.n * g.numRows * g.rowSize
    ensures var row := ((y % g.s) * g.ww + x % g.s) * sh.c + z;
      var col := (y / g.s) * (g.pw / g.s) + x / g.s;
      var k := (e * g.numRows + row) * g.rowSize + col;
      && 0 <= row < g.numRows && 0 <= col < g.rowSize && 0 <= k < |out|
      && if y < sh.h && x < sh.w then
           var p := ((e * sh.c + z) * sh.h + y) * sh.w + x;
           0 <= p < |data| && out[k] == data[p]
         else out[k] == zero
  {
    var d := Datum(e, z, y, x);
    assert Selected(g, d);
    DivModUnique(g.pw, g.bw, g.s, 0);
    OutCellBound(g, d);
    if y < sh.h && x < sh.w {
      PositionBound(sh, d);
    }
  }

  /** Every other cell of the output is zero. */
  lemma OtherCells<T>(sh: Shape, g: Plan, data: seq<T>, zero: T, out: seq<T>, k: nat)
    requires g.Valid() && g.n == sh.n && g.c == sh.c && |data| == sh.n * sh.c * sh.h * sh.w
    requires IsPrestrided(sh, g, data, zero, out) && k < |out| && out[k] != zero
    ensures exists e: nat, z: nat, y: nat, x: nat ::
      e < sh.n && z < sh.c && y < g.ph && x < g.pw && y % g.s < g.wh && x % g.s < g.ww && Addr(g, Datum(e, z, y, x)) == k
  {
    var d :| Selected(g, d) && Addr(g, d) == k;
    assert Addr(g, Datum(d.e, d.z, d.y, d.x)) == k;
  }

  /** The transform determines every cell of the output. */
  lemma PrestrideIsUnique<T>(sh: Shape, g: Plan, data: seq<T>, zero: T, out: seq<T>, out': seq<T>)
    requires g.Valid() && g.n == sh.n && g.c == sh.c && |data| == sh.Size()
    requires IsPrestrided(sh, g, data, zero, out) && IsPrestrided(sh, g, data, zero, out')
    ensures out == out'
  {
    forall k | 0 <= k < |out|
      ensures out[k] == out'[k]
    {
      if !Untouched(g, k) {
        var d :| Selected(g, d) && Addr(g, d) == k;
      }
    }
  }

  /** A shuffle of the padded tensor into zeroed cells is the transform. */
  lemma ShuffleOfPadded<T>(sh: Shape, g: Plan, data: seq<T>, zero: T, padded: seq<T>, base: seq<T>, out: seq<T>)
    requires g.Valid() && g.n == sh.n && g.c == sh.c && |data| == sh.Size()
    requires Scattered(g, padded, base, out, |padded|)
    requires forall k :: 0 <= k < |base| ==> base[k] == zero
    requires forall d :: InPadded(g, d) ==>
               0 <= Rank(g, d) < |padded| && padded[Rank(g, d)] == PaddedAt(sh, data, zero, d)
    ensures IsPrestrided(sh, g, data, zero, out)
  {
    forall k | 0 <= k < |out| && Untouched(g, k)
      ensures !Hit(g, k, |padded|)
    {}
  }

  function PaddingDims(sh: Shape, g: Plan): Padding.Dims {
    Padding.Dims(sh.n * sh.c, sh.h, sh.w, g.ph, g.pw)
  }

  lemma PaddedReadsTensor<T>(sh: Shape, g: Plan, data: seq<T>, zero: T, padded: seq<T>, d: Datum)
    requires g.Valid() && g.n == sh.n && g.c == sh.c && |data| == sh.Size() && InPadded(g, d)
    requires PaddingDims(sh, g).Valid()
    requires Padding.RowsCopied(PaddingDims(sh, g), data, zero, padded, sh.n * sh.c * sh.h)
    ensures 0 <= Rank(g, d) < |padded| && padded[Rank(g, d)] == PaddedAt(sh, data, zero, d)
  {
    var f := Mix(d.e, g.c, d.z);
    MixBound(d.e, g.n, g.c, d.z);
    assert Rank(g, d) == Padding.PaddedRank(PaddingDims(sh, g), f, d.y, d.x);
    if d.y < sh.h && d.x < sh.w {
      MixBound(f, sh.n * sh.c, sh.h, d.y);
      PositionBound(sh, d);
    }
  }

  lemma UnpaddedReadsTensor<T>(sh: Shape, g: Plan, data: seq<T>, zero: T, d: Datum)
    requires g.Valid() && g.n == sh.n && g.c == sh.c && |data| == sh.Size() && InPadded(g, d)
    requires g.ph == sh.h && g.pw == sh.w
    ensures 0 <= Rank(g, d) < |data| && data[Rank(g, d)] == PaddedAt(sh, data, zero, d)
  {
    RankBound(g, d);
  }

  // ----- what the transform keeps

  /** The windows reach every residue that the tensor's own rows and columns have. */
  predicate WindowsCover(sh: Shape, g: Plan) {
    MinOf(sh.h, g.s) <= g.wh && MinOf(sh.w, g.s) <= g.ww
  }

  /** The coordinates of position p. */
  function DatumOf(sh: Shape, p: nat): (d: Datum)
    requires p < sh.Size()
    ensures InTensor(sh, d) && Position(sh, d) == p
  {
    Digits(sh, p);
    var row := p / sh.w;
    var face := row / sh.h;
    Datum(face / sh.c, face % sh.c, row % sh.h, p % sh.w)
  }

  lemma Digits(sh: Shape, p: nat)
    requires p < sh.Size()
    ensures 0 < sh.w && 0 < sh.h && 0 < sh.c
    ensures 0 <= p / sh.w && 0 <= p / sh.w / sh.h && p / sh.w / sh.h / sh.c < sh.n
    ensures Mix(p / sh.w, sh.w, p % sh.w) == p
    ensures Mix(p / sh.w / sh.h, sh.h, (p / sh.w) % sh.h) == p / sh.w
    ensures Mix(p / sh.w / sh.h / sh.c, sh.c, (p / sh.w / sh.h) % sh.c) == p / sh.w / sh.h
  {
    DivBound(p, sh.n * sh.c * sh.h, sh.w);
    DivBound(p / sh.w, sh.n * sh.c, sh.h);
    DivBound(p / sh.w / sh.h, sh.n, sh.c);
  }

  lemma CoveredIsSelected(sh: Shape, g: Plan, d: Datum)
    requires g.Valid() && g.n == sh.n && g.c == sh.c && sh.h <= g.ph && sh.w <= g.pw
    requires WindowsCover(sh, g) && InTensor(sh, d)
    ensures Selected(g, d)
  {
    SmallRemainder(d.y, g.s);
    SmallRemainder(d.x, g.s);
  }

  lemma SmallRemainder(a: nat, s: nat)
    requires 1 <= s
    ensures a % s <= a && a % s < s && (a < s ==> a % s == a)
  {}

  /** Gathering every datum back from its address; the padding is dropped. */
  ghost function Restored<T>(sh: Shape, g: Plan, out: seq<T>): (data: seq<T>)
    requires g.Valid() && g.n == sh.n && g.c == sh.c && sh.h <= g.ph && sh.w <= g.pw
    requires WindowsCover(sh, g) && |out| == g.OutSize()
    ensures |data| == sh.Size()
  {
    seq(sh.Size(), p requires 0 <= p < sh.Size() =>
      CoveredIsSelected(sh, g, DatumOf(sh, p));
      AddrBound(g, DatumOf(sh, p));
      out[Addr(g, DatumOf(sh, p))])
  }

  /** When the windows cover the tensor, gathering undoes the prestride. */
  lemma RestoreInverts<T>(sh: Shape, g: Plan, data: seq<T>, zero: T, out: seq<T>)
    requires g.Valid() && g.n == sh.n && g.c == sh.c && sh.h <= g.ph && sh.w <= g.pw && |data| == sh.Size()
    requires WindowsCover(sh, g) && IsPrestrided(sh, g, data, zero, out)
    ensures Restored(sh, g, out) == data
  {
    forall p | 0 <= p < sh.Size()
      ensures Restored(sh, g, out)[p] == data[p]
    {
      CoveredIsSelected(sh, g, DatumOf(sh, p));
    }
  }

  /** The prestride tells any two tensors of the shape apart. */
  ghost predicate KeepsAll<T(!new)>(sh: Shape, g: Plan, zero: T)
    requires g.Valid() && g.n == sh.n && g.c == sh.c
  {
    forall a: seq<T>, b: seq<T>, out ::
      |a| == |b| == sh.Size() && IsPrestrided(sh, g, a, zero, out) && IsPrestrided(sh, g, b, zero, out) ==> a == b
  }

  /** A datum that no window reaches: row wh or column ww of the first slice. */
  function Dropped(sh: Shape, g: Plan): Datum {
    if MinOf(sh.h, g.s) > g.wh then Datum(0, 0, g.wh, 0) else Datum(0, 0, 0, g.ww)
  }

  lemma DroppedIsNotSelected(sh: Shape, g: Plan)
    requires g.Valid() && g.n == sh.n && g.c == sh.c && sh.h <= g.ph && sh.w <= g.pw
    requires !WindowsCover(sh, g) && 1 <= sh.n && 1 <= sh.c && 1 <= sh.h && 1 <= sh.w
    ensures InTensor(sh, Dropped(sh, g)) && !Selected(g, Dropped(sh, g))
  {
    SmallRemainder(g.wh, g.s);
    SmallRemainder(g.ww, g.s);
  }

  /** Some output that satisfies the transform always exists. */
  lemma OutputExists<T>(sh: Shape, g: Plan, data: seq<T>, zero: T) returns (out: seq<T>)
    requires g.Valid() && g.n == sh.n && g.c == sh.c && |data| == sh.Size()
    ensures IsPrestrided(sh, g, data, zero, out)
  {
    out := seq(g.OutSize(), k requires 0 <= k < g.OutSize() => CellValue(sh, g, data, zero, k));
    forall d | Selected(g, d)
      ensures 0 <= Addr(g, d) < |out| && out[Addr(g, d)] == PaddedAt(sh, data, zero, d)
    {
      AddrBound(g, d);
      var d' :| Selected(g, d') && Addr(g, d') == Addr(g, d) && CellValue(sh, g, data, zero, Addr(g, d)) == PaddedAt(sh, data, zero, d');
      AddrInjective(g, d, d');
    }
  }

  ghost function CellValue<T>(sh: Shape, g: Plan, data: seq<T>, zero: T, k: int): (v: T)
    requires g.Valid() && g.n == sh.n && g.c == sh.c && |data| == sh.Size()
    ensures if Untouched(g, k) then v == zero
            else exists d :: Selected(g, d) && Addr(g, d) == k && v == PaddedAt(sh, data, zero, d)
  {
    if Untouched(g, k) then zero else
      var d :| Selected(g, d) && Addr(g, d) == k;
      PaddedAt(sh, data, zero, d)
  }

  /** Two tensors that differ in one unselected datum only have the same prestride. */
  lemma UnselectedIsInvisible<T>(sh: Shape, g: Plan, a: seq<T>, zero: T, d0: Datum, v: T, out: seq<T>)
    requires g.Valid() && g.n == sh.n && g.c == sh.c && |a| == sh.Size()
    requires InTensor(sh, d0) && !Selected(g, d0) && 0 <= Position(sh, d0) < |a|
    requires IsPrestrided(sh, g, a, zero, out)
    ensures IsPrestrided(sh, g, a[Position(sh, d0) := v], zero, out)
  {
    hide Position, Addr;
    var b := a[Position(sh, d0) := v];
    forall d | Selected(g, d)
      ensures PaddedAt(sh, b, zero, d) == PaddedAt(sh, a, zero, d)
    {
      OtherReadsUnchanged(sh, a, zero, d0, v, d);
    }
  }

  lemma OtherReadsUnchanged<T>(sh: Shape, a: seq<T>, zero: T, d0: Datum, v: T, d: Datum)
    requires |a| == sh.Size() && InTensor(sh, d0) && 0 <= Position(sh, d0) < |a|
    requires d != d0 && d.e < sh.n && d.z < sh.c
    ensures PaddedAt(sh, a[Position(sh, d0) := v], zero, d) == PaddedAt(sh, a, zero, d)
  {
    if InTensor(sh, d) {
      PositionBound(sh, d);
      if Position(sh, d) == Position(sh, d0) {
        PositionInjective(sh, d, d0);
      }
    }
  }

  lemma SomethingIsLost<T>(sh: Shape, g: Plan, zero: T, one: T) returns (a: seq<T>, b: seq<T>, out: seq<T>)
    requires g.Valid() && g.n == sh.n && g.c == sh.c && sh.h <= g.ph && sh.w <= g.pw
    requires 1 <= sh.n && 1 <= sh.c && 1 <= sh.h && 1 <= sh.w && zero != one && !WindowsCover(sh, g)
    ensures |a| == |b| == sh.Size() && a != b
    ensures IsPrestrided(sh, g, a, zero, out) && IsPrestrided(sh, g, b, zero, out)
  {
    var d0 := Dropped(sh, g);
    DroppedIsNotSelected(sh, g);
    PositionBound(sh, d0);
    a := seq(sh.Size(), _ => zero);
    b := a[Position(sh, d0) := one];
    assert a[Position(sh, d0)] != b[Position(sh, d0)];
    out := OutputExists(sh, g, a, zero);
    UnselectedIsInvisible(sh, g, a, zero, d0, one, out);
  }

  /** The prestride loses nothing exactly when the windows cover the tensor; that
      both windows equal the stride is enough. */
  lemma PrestrideKeepsAllExactly<T(!new)>(sh: Shape, g: Plan, zero: T, one: T)
    requires g.Valid() && g.n == sh.n && g.c == sh.c && sh.h <= g.ph && sh.w <= g.pw
    requires 1 <= sh.n && 1 <= sh.c && 1 <= sh.h && 1 <= sh.w && zero != one
    ensures KeepsAll<T>(sh, g, zero) <==> WindowsCover(sh, g)
    ensures g.wh == g.ww == g.s ==> WindowsCover(sh, g)
  {
    hide IsPrestrided;
    if WindowsCover(sh, g) {
      forall a: seq<T>, b: seq<T>, out |
        |a| == |b| == sh.Size() && IsPrestrided(sh, g, a, zero, out) && IsPrestrided(sh, g, b, zero, out)
        ensures a == b
      {
        SameOutputSameTensor(sh, g, a, b, zero, out);
      }
    } else {
      var a, b, out := SomethingIsLost(sh, g, zero, one);
    }
  }

  lemma SameOutputSameTensor<T>(sh: Shape, g: Plan, a: seq<T>, b: seq<T>, zero: T, out: seq<T>)
    requires g.Valid() && g.n == sh.n && g.c == sh.c && sh.h <= g.ph && sh.w <= g.pw
    requires |a| == |b| == sh.Size() && WindowsCover(sh, g)
    requires IsPrestrided(sh, g, a, zero, out) && IsPrestrided(sh, g, b, zero, out)
    ensures a == b
  {
    RestoreInverts(sh, g, a, zero, out);
    RestoreInverts(sh, g, b, zero, out);
  }

  // ----- the whole operation

  datatype Format = Float32 | Float16 | Float16_b | OtherFormat

  /** Outcomes: no shuffling was asked for, the kernel test failed, the format has
      no shuffle, or the shuffled data. */
  datatype Result<T> = Unchanged | BadKernel | BadFormat | Shuffled(plan: Plan, data: array<T>)

  method SlowPrestride<T>(sh: Shape, input: array<T>, zero: T, stride: int, offsets: seq<Offset>, format: Format)
    returns (r: Result<T>)
    requires input.Length == sh.Size()
    requires stride > 0 ==> Roundable(sh, stride) && |offsets| > 0
    ensures r.Unchanged? <==> stride <= 0
    ensures r.BadKernel? <==> stride > 0 && !BoxCheck(offsets)
    ensures r.BadFormat? <==> stride > 0 && BoxCheck(offsets) && format.OtherFormat?
    ensures r.Shuffled? ==>
      && PlanFor(sh, stride, Extent(Xs(offsets)), Extent(Ys(offsets)), r.plan)
      && IsPrestrided(sh, r.plan, input[..], zero, r.data[..])
  {
    if stride <= 0 {
      return Unchanged;
    }
    var params := ShufflerParams(sh, stride, offsets);
    if params.None? {
      return BadKernel;
    }
    var g := params.value;
    if format.OtherFormat? {
      return BadFormat;
    }
    ghost var data := input[..];
    var toShuffle := input;
    if sh.w % stride != 0 || sh.h % stride != 0 {
      toShuffle := PadInto(sh, g, input, zero);
      forall d | InPadded(g, d)
        ensures 0 <= Rank(g, d) < toShuffle.Length && toShuffle[Rank(g, d)] == PaddedAt(sh, data, zero, d)
      {
        PaddedReadsTensor(sh, g, data, zero, toShuffle[..], d);
      }
    } else {
      SameDims(sh, stride, g);
      forall d | InPadded(g, d)
        ensures 0 <= Rank(g, d) < toShuffle.Length && toShuffle[Rank(g, d)] == PaddedAt(sh, data, zero, d)
      {
        UnpaddedReadsTensor(sh, g, data, zero, d);
      }
    }
    ghost var padded := toShuffle[..];
    var out := new T[g.OutSize()](_ => zero);
    ghost var base := out[..];
    assert toShuffle[..] == padded;
    ShuffleForConv(g, toShuffle, out);
    ShuffleOfPadded(sh, g, data, zero, padded, base, out[..]);
    return Shuffled(g, out);
  }

  /** The padding branch: a zeroed buffer of the rounded size, filled row by row. */
  method PadInto<T>(sh: Shape, g: Plan, input: array<T>, zero: T) returns (padded: array<T>)
    requires g.Valid() && g.n == sh.n && g.c == sh.c && input.Length == sh.Size()
    requires PaddingDims(sh, g).Valid()
    ensures fresh(padded) && padded.Length == g.n * g.c * g.ph * g.pw
    ensures Padding.RowsCopied(PaddingDims(sh, g), input[..], zero, padded[..], sh.n * sh.c * sh.h)
  {
    FaceProduct(g.n, g.c, g.ph, g.pw);
    padded := new T[g.n * g.c * g.Face()](_ => zero);
    Padding.PadTensor(PaddingDims(sh, g), input, zero, padded);
  }

  lemma FaceProduct(n: nat, c: nat, ph: nat, pw: nat)
    ensures n * c * (ph * pw) == n * c * ph * pw >= 0
  {}

  lemma SameDims(sh: Shape, s: nat, g: Plan)
    requires 1 <= s && IsRoundUp(g.ph, sh.h, s) && IsRoundUp(g.pw, sh.w, s)
    requires sh.h % s == 0 && sh.w % s == 0
    ensures g.ph == sh.h && g.pw == sh.w
  {
    RoundUpUnique(g.ph, sh.h, sh.h, s);
    RoundUpUnique(g.pw, sh.w, sh.w, s);
  }
}
