/** Splitting, merging and padding tensors of tiles (common/tensor_lib.cpp). The
    source runs each copy as a parallel_for over tile numbers; here it is the plain
    loop, and CopyIsParallel shows that every interleaving gives the same. */
module TensorLib {
  import opened Basics
  import opened MixedRadix
  import P = ParallelFor

  datatype Shape = Shape(w: nat, z: nat, rt: nat, ct: nat) {
    function Tiles(): nat { w * z * rt * ct }
  }

  datatype Index = Index(w: int, z: int, r: int, c: int)

  predicate InShape(s: Shape, i: Index) {
    0 <= i.w < s.w && 0 <= i.z < s.z && 0 <= i.r < s.rt && 0 <= i.c < s.ct
  }

  /** TileIterator::get_indices */
  function GetIndices(s: Shape, tile: nat): Index
    requires tile < s.Tiles()
  {
    PositiveDims(s, tile);
    Index(tile / (s.z * (s.rt * s.ct)), (tile / (s.rt * s.ct)) % s.z, (tile / s.ct) % s.rt, tile % s.ct)
  }

  lemma PositiveDims(s: Shape, tile: nat)
    requires tile < s.Tiles()
    ensures s.w > 0 && s.z > 0 && s.rt > 0 && s.ct > 0
    ensures s.rt * s.ct > 0 && s.z * (s.rt * s.ct) > 0
  {
    MulMono(1, s.rt, s.ct);
    MulMono(1, s.z, s.rt * s.ct);
  }

  function TileNumber(s: Shape, i: Index): int {
    Mix(Mix(Mix(i.w, s.z, i.z), s.rt, i.r), s.ct, i.c)
  }

  lemma NestedDiv(a: nat, b: nat, c: nat)
    requires 0 < b && 0 < c
    ensures b * c > 0 && a / (b * c) == a / c / b
  {
    var q, r := a / c, a % c;
    var q', r' := q / b, q % b;
    assert a == q * c + r && q == q' * b + r';
    Distribute(q' * b, r', c);
    Associate(q', b, c);
    Distribute(r', 1, c);
    MulMono(r' + 1, b, c);
    MulMono(0, r', c);
    DivModUnique(a, q', b * c, r' * c + r);
  }

  /** get_indices is a bijection from the tile numbers to the indices of the shape. */
  lemma IndicesBijection(s: Shape, tile: nat, i: Index)
    ensures tile < s.Tiles() ==> InShape(s, GetIndices(s, tile)) && TileNumber(s, GetIndices(s, tile)) == tile
    ensures InShape(s, i) ==> 0 <= TileNumber(s, i) < s.Tiles() && GetIndices(s, TileNumber(s, i)) == i
    ensures TileNumber(s, i) == ((i.w * s.z + i.z) * s.rt + i.r) * s.ct + i.c && s.Tiles() == s.w * s.z * s.rt * s.ct
  {
    if tile < s.Tiles() {
      NumberOfIndices(s, tile);
    }
    if InShape(s, i) {
      NumberBound(s, i);
      NumberOfIndices(s, TileNumber(s, i));
      NumberInjective(s, i, GetIndices(s, TileNumber(s, i)));
    }
  }

  lemma NumberOfIndices(s: Shape, tile: nat)
    requires tile < s.Tiles()
    ensures InShape(s, GetIndices(s, tile)) && TileNumber(s, GetIndices(s, tile)) == tile
  {
    PositiveDims(s, tile);
    NestedDiv(tile, s.rt, s.ct);
    NestedDiv(tile, s.z, s.rt * s.ct);
    DivBound(tile, s.w * s.z * s.rt, s.ct);
    DivBound(tile / s.ct, s.w * s.z, s.rt);
    DivBound(tile / s.ct / s.rt, s.w, s.z);
    MixSplit(tile, s.ct);
    MixSplit(tile / s.ct, s.rt);
    MixSplit(tile / s.ct / s.rt, s.z);
  }

  lemma NumberBound(s: Shape, i: Index)
    requires InShape(s, i)
    ensures 0 <= TileNumber(s, i) < s.Tiles()
  {
    MixBound(i.w, s.w, s.z, i.z);
    MixBound(Mix(i.w, s.z, i.z), s.w * s.z, s.rt, i.r);
    MixBound(Mix(Mix(i.w, s.z, i.z), s.rt, i.r), s.w * s.z * s.rt, s.ct, i.c);
  }

  lemma NumberInjective(s: Shape, i: Index, k: Index)
    requires InShape(s, i) && InShape(s, k) && TileNumber(s, i) == TileNumber(s, k)
    ensures i == k
  {
    MixInjective(Mix(Mix(i.w, s.z, i.z), s.rt, i.r), i.c, Mix(Mix(k.w, s.z, k.z), s.rt, k.r), k.c, s.ct);
    MixInjective(Mix(i.w, s.z, i.z), i.r, Mix(k.w, s.z, k.z), k.r, s.rt);
    MixInjective(i.w, i.z, k.w, k.z, s.z);
  }

  // ----- tensors

  function ShapeOf<T>(a: array4<T>): Shape { Shape(a.Length0, a.Length1, a.Length2, a.Length3) }

  /** s is a leading corner of b, counted from tile row r0 and tile column c0. */
  predicate Within(s: Shape, b: Shape, r0: int, c0: int) {
    s.w <= b.w && s.z <= b.z && 0 <= r0 && r0 + s.rt <= b.rt && 0 <= c0 && c0 + s.ct <= b.ct
  }

  /** k lies in the copy of shape s whose corner is at (r0, c0). */
  predicate InCorner(s: Shape, r0: int, c0: int, k: Index) {
    InShape(s, Index(k.w, k.z, k.r - r0, k.c - c0))
  }

  /** The corner of a at (r0, c0) equals the corner of b at (r1, c1), over shape s. */
  ghost predicate SameTiles<T>(s: Shape, a: array4<T>, r0: int, c0: int, b: array4<T>, r1: int, c1: int)
    requires Within(s, ShapeOf(a), r0, c0) && Within(s, ShapeOf(b), r1, c1)
    reads a, b
  {
    forall i :: InShape(s, i) ==> a[i.w, i.z, r0 + i.r, c0 + i.c] == b[i.w, i.z, r1 + i.r, c1 + i.c]
  }

  /** The body all the operations hand to parallel_for: one tile is copied from a
      position in the source to a position in the target. */
  method CopyTiles<T>(s: Shape, target: array4<T>, r0: nat, c0: nat, source: array4<T>, r1: nat, c1: nat)
    requires target != source
    requires Within(s, ShapeOf(target), r0, c0) && Within(s, ShapeOf(source), r1, c1)
    modifies target
    ensures SameTiles(s, target, r0, c0, source, r1, c1)
    ensures forall k :: InShape(ShapeOf(target), k) && !InCorner(s, r0, c0, k) ==>
      target[k.w, k.z, k.r, k.c] == old(target[k.w, k.z, k.r, k.c])
  {
    hide GetIndices, TileNumber, Shape.Tiles;
    NumbersBound(s);
    for tile := 0 to s.Tiles()
      invariant forall i :: InShape(s, i) && TileNumber(s, i) < tile ==>
        target[i.w, i.z, r0 + i.r, c0 + i.c] == source[i.w, i.z, r1 + i.r, c1 + i.c]
      invariant forall k :: InShape(ShapeOf(target), k) && !InCorner(s, r0, c0, k) ==>
        target[k.w, k.z, k.r, k.c] == old(target[k.w, k.z, k.r, k.c])
    {
      OnlyTile(s, tile);
      label before:
      CopyTile(s, target, r0, c0, source, r1, c1, GetIndices(s, tile));
      forall i | InShape(s, i) && TileNumber(s, i) < tile + 1
        ensures target[i.w, i.z, r0 + i.r, c0 + i.c] == source[i.w, i.z, r1 + i.r, c1 + i.c]
      {
        if i != GetIndices(s, tile) {
          assert target[i.w, i.z, r0 + i.r, c0 + i.c] == old@before(target[i.w, i.z, r0 + i.r, c0 + i.c]);
        }
      }
    }
  }

  method CopyTile<T>(s: Shape, target: array4<T>, r0: nat, c0: nat, source: array4<T>, r1: nat, c1: nat, i: Index)
    requires target != source && InShape(s, i)
    requires Within(s, ShapeOf(target), r0, c0) && Within(s, ShapeOf(source), r1, c1)
    modifies target
    ensures target[i.w, i.z, r0 + i.r, c0 + i.c] == source[i.w, i.z, r1 + i.r, c1 + i.c]
    ensures forall k :: InShape(s, k) && k != i ==>
      target[k.w, k.z, r0 + k.r, c0 + k.c] == old(target[k.w, k.z, r0 + k.r, c0 + k.c])
    ensures forall k :: InShape(ShapeOf(target), k) && !InCorner(s, r0, c0, k) ==>
      target[k.w, k.z, k.r, k.c] == old(target[k.w, k.z, k.r, k.c])
  {
    target[i.w, i.z, r0 + i.r, c0 + i.c] := source[i.w, i.z, r1 + i.r, c1 + i.c];
  }

  /** A tile number belongs to one index only. */
  lemma OnlyTile(s: Shape, tile: nat)
    requires tile < s.Tiles()
    ensures InShape(s, GetIndices(s, tile)) && TileNumber(s, GetIndices(s, tile)) == tile
    ensures forall k :: InShape(s, k) && TileNumber(s, k) == tile ==> k == GetIndices(s, tile)
  {
    NumberOfIndices(s, tile);
    forall k | InShape(s, k) && TileNumber(s, k) == tile
      ensures k == GetIndices(s, tile)
    {
      NumberInjective(s, k, GetIndices(s, tile));
    }
  }

  lemma NumbersBound(s: Shape)
    ensures forall i :: InShape(s, i) ==> 0 <= TileNumber(s, i) < s.Tiles()
  {
    forall i | InShape(s, i)
      ensures 0 <= TileNumber(s, i) < s.Tiles()
    {
      NumberBound(s, i);
    }
  }

  /** The copy as a job of parallel_for: tile number n owns the place its tile goes to. */
  ghost function CopyJob<T(!new)>(s: Shape, chunks: seq<P.Chunk>, r0: int, c0: int,
                                  source: Index -> T, init: map<Index, T>): P.Job<Index, T, ()>
  {
    P.Job(0, s.Tiles(), chunks,
          n => if 0 <= n < s.Tiles() then
                 var i := GetIndices(s, n); Index(i.w, i.z, r0 + i.r, c0 + i.c)
               else Index(0, 0, 0, 0),
          (n, old') => if 0 <= n < s.Tiles() then P.Wrote(source(GetIndices(s, n))) else P.Wrote(old'),
          init)
  }

  /** No two tile numbers own the same place, so whatever the interleaving of the
      threads, the copy ends as the plain loop does. */
  lemma CopyIsParallel<T(!new)>(s: Shape, chunks: seq<P.Chunk>, r0: int, c0: int, source: Index -> T, init: map<Index, T>,
                                trace: seq<P.Sys<Index, T, ()>>)
    requires P.IsPartition(chunks, 0, s.Tiles())
    requires forall i :: InShape(s, i) ==> Index(i.w, i.z, r0 + i.r, c0 + i.c) in init
    requires var j := CopyJob(s, chunks, r0, c0, source, init);
      P.Run(j, trace) && P.Done(j, trace[|trace| - 1])
    ensures CopyJob(s, chunks, r0, c0, source, init).Valid()
    ensures var end := trace[|trace| - 1].mem;
      && end.Keys == init.Keys
      && (forall i :: InShape(s, i) ==> end[Index(i.w, i.z, r0 + i.r, c0 + i.c)] == source(i))
      && (forall k :: k in init && !InCorner(s, r0, c0, k) ==> end[k] == init[k])
  {
    var j := CopyJob(s, chunks, r0, c0, source, init);
    CopyJobValid(s, chunks, r0, c0, source, init);
    P.InvRun(j, trace);
    NoSlotsFilled(j, trace[|trace| - 1]);
    P.NoThrowEnds(j, trace[|trace| - 1]);
    var end := trace[|trace| - 1].mem;
    forall i | InShape(s, i)
      ensures end[Index(i.w, i.z, r0 + i.r, c0 + i.c)] == source(i)
    {
      IndicesBijection(s, 0, i);
      assert j.own(TileNumber(s, i)) == Index(i.w, i.z, r0 + i.r, c0 + i.c);
    }
    forall k | k in init && !InCorner(s, r0, c0, k)
      ensures end[k] == init[k]
    {
      forall n | 0 <= n < s.Tiles()
        ensures j.own(n) != k
      {
        NumberOfIndices(s, n);
      }
    }
  }

  lemma CopyJobValid<T(!new)>(s: Shape, chunks: seq<P.Chunk>, r0: int, c0: int, source: Index -> T, init: map<Index, T>)
    requires P.IsPartition(chunks, 0, s.Tiles())
    requires forall i :: InShape(s, i) ==> Index(i.w, i.z, r0 + i.r, c0 + i.c) in init
    ensures CopyJob(s, chunks, r0, c0, source, init).Valid()
  {
    var j := CopyJob(s, chunks, r0, c0, source, init);
    forall n | 0 <= n < s.Tiles()
      ensures j.own(n) in init
    {
      NumberOfIndices(s, n);
    }
    forall n, m | 0 <= n < m < s.Tiles()
      ensures j.own(n) != j.own(m)
    {
      NumberOfIndices(s, n);
      NumberOfIndices(s, m);
    }
  }

  lemma NoSlotsFilled<T(!new)>(j: P.Job<Index, T, ()>, s: P.Sys<Index, T, ()>)
    requires j.Valid() && P.Inv(j, s)
    requires forall n :: j.begin <= n < j.end ==> j.At(n).Wrote?
    ensures forall t :: 0 <= t < |s.threads| ==> s.threads[t].slot.None?
  {
    forall t | 0 <= t < |s.threads|
      ensures s.threads[t].slot.None?
    {
      assert P.ThreadInv(j, j.chunks[t], s.threads[t]);
    }
  }

  // ----- merging and splitting along columns or rows

  datatype Axis = Columns | Rows

  /** The shape of n tensors of shape s side by side. */
  function Merged(axis: Axis, s: Shape, n: nat): Shape {
    if axis.Columns? then s.(ct := n * s.ct) else s.(rt := n * s.rt)
  }

  /** Where the k-th of them starts. */
  function Row(axis: Axis, s: Shape, k: nat): nat { if axis.Rows? then k * s.rt else 0 }

  function Col(axis: Axis, s: Shape, k: nat): nat { if axis.Columns? then k * s.ct else 0 }

  lemma PartWithin(axis: Axis, s: Shape, n: nat, k: nat)
    requires k < n
    ensures Within(s, Merged(axis, s, n), Row(axis, s, k), Col(axis, s, k))
  {
    MulMono(k + 1, n, s.ct);
    MulMono(k + 1, n, s.rt);
    Distribute(k, 1, s.ct);
    Distribute(k, 1, s.rt);
  }

  /** The copies of two different parts do not overlap. */
  lemma PartsDisjoint(axis: Axis, s: Shape, k: nat, l: nat, i: Index)
    requires k != l && InShape(s, i)
    ensures !InCorner(s, Row(axis, s, k), Col(axis, s, k), Index(i.w, i.z, Row(axis, s, l) + i.r, Col(axis, s, l) + i.c))
  {
    if axis.Columns? {
      if 0 <= l * s.ct + i.c - k * s.ct < s.ct { MixInjective(l, i.c, k, l * s.ct + i.c - k * s.ct, s.ct); }
    } else {
      if 0 <= l * s.rt + i.r - k * s.rt < s.rt { MixInjective(l, i.r, k, l * s.rt + i.r - k * s.rt, s.rt); }
    }
  }

  /** Filling part k leaves the parts before it as they are. */
  method FillPart<T>(axis: Axis, s: Shape, k: nat, result: array4<T>, inputs: seq<array4<T>>)
    requires k < |inputs| && result !in inputs
    requires forall l :: 0 <= l <= k ==> Within(s, ShapeOf(inputs[l]), 0, 0)
    requires forall l :: 0 <= l <= k ==> Within(s, ShapeOf(result), Row(axis, s, l), Col(axis, s, l))
    requires forall l :: 0 <= l < k ==> SameTiles(s, result, Row(axis, s, l), Col(axis, s, l), inputs[l], 0, 0)
    modifies result
    ensures forall l :: 0 <= l <= k ==> SameTiles(s, result, Row(axis, s, l), Col(axis, s, l), inputs[l], 0, 0)
  {
    hide Row, Col, InCorner;
    CopyTiles(s, result, Row(axis, s, k), Col(axis, s, k), inputs[k], 0, 0);
    forall l | 0 <= l < k
      ensures SameTiles(s, result, Row(axis, s, l), Col(axis, s, l), inputs[l], 0, 0)
    {
      var row, col, input := Row(axis, s, l), Col(axis, s, l), inputs[l];
      assert old(SameTiles(s, result, row, col, input, 0, 0));
      forall i | InShape(s, i)
        ensures result[i.w, i.z, row + i.r, col + i.c] == input[i.w, i.z, 0 + i.r, 0 + i.c]
      {
        PartsDisjoint(axis, s, k, l, i);
        assert InShape(ShapeOf(result), Index(i.w, i.z, row + i.r, col + i.c));
      }
    }
  }

  /** hmerge and vmerge. The assertion compares only the outermost dimension; in the
      others a tensor must not be smaller than the first, and of a larger one only the
      leading corner is taken. */
  method Merge<T(0)>(axis: Axis, inputs: seq<array4<T>>) returns (r: Option<array4<T>>)
    requires |inputs| > 0
    requires forall k :: 0 <= k < |inputs| ==> ShapeOf(inputs[k]).w == ShapeOf(inputs[0]).w ==>
      Within(ShapeOf(inputs[0]), ShapeOf(inputs[k]), 0, 0)
    ensures r.Some? <==> forall k :: 0 <= k < |inputs| ==> ShapeOf(inputs[k]).w == ShapeOf(inputs[0]).w
    ensures r.Some? ==> fresh(r.value) && IsMerge(axis, inputs, r.value)
  {
    var s := ShapeOf(inputs[0]);
    var m := Merged(axis, s, |inputs|);
    var result := new T[m.w, m.z, m.rt, m.ct];
    for k := 0 to |inputs|
      invariant forall l :: 0 <= l < k ==> ShapeOf(inputs[l]).w == s.w
      invariant forall l :: 0 <= l < k ==>
        Within(s, m, Row(axis, s, l), Col(axis, s, l))
        && SameTiles(s, result, Row(axis, s, l), Col(axis, s, l), inputs[l], 0, 0)
    {
      if ShapeOf(inputs[k]).w != s.w {
        return None;
      }
      PartWithin(axis, s, |inputs|, k);
      FillPart(axis, s, k, result, inputs);
    }
    return Some(result);
  }

  /** Part k of the result is (the leading corner of) the k-th input. */
  ghost predicate IsMerge<T>(axis: Axis, inputs: seq<array4<T>>, result: array4<T>)
    requires |inputs| > 0
    reads result, inputs
  {
    var s := ShapeOf(inputs[0]);
    && ShapeOf(result) == Merged(axis, s, |inputs|)
    && forall k :: 0 <= k < |inputs| ==>
         Within(s, ShapeOf(result), Row(axis, s, k), Col(axis, s, k)) && Within(s, ShapeOf(inputs[k]), 0, 0)
         && SameTiles(s, result, Row(axis, s, k), Col(axis, s, k), inputs[k], 0, 0)
  }

  /** Tile by tile: hmerge puts the inputs side by side, vmerge puts them one below the other. */
  lemma MergedTile<T>(axis: Axis, inputs: seq<array4<T>>, result: array4<T>, k: nat, w: nat, z: nat, r: nat, c: nat)
    requires k < |inputs| && IsMerge(axis, inputs, result)
    requires var a := inputs[0]; w < a.Length0 && z < a.Length1 && r < a.Length2 && c < a.Length3
    ensures var a := inputs[0]; var b := inputs[k];
      && w < b.Length0 && z < b.Length1 && r < b.Length2 && c < b.Length3
      && result.Length0 == a.Length0 && result.Length1 == a.Length1
      && (axis.Columns? ==>
            && result.Length2 == a.Length2 && result.Length3 == |inputs| * a.Length3
            && 0 <= k * a.Length3 + c < result.Length3 && result[w, z, r, k * a.Length3 + c] == b[w, z, r, c])
      && (axis.Rows? ==>
            && result.Length3 == a.Length3 && result.Length2 == |inputs| * a.Length2
            && 0 <= k * a.Length2 + r < result.Length2 && result[w, z, k * a.Length2 + r, c] == b[w, z, r, c])
  {
    var s := ShapeOf(inputs[0]);
    assert SameTiles(s, result, Row(axis, s, k), Col(axis, s, k), inputs[k], 0, 0);
    assert InShape(s, Index(w, z, r, c));
    PartWithin(axis, s, |inputs|, k);
  }

  /** Tile by tile: part k of hsplit is the k-th stretch of columns, part k of vsplit the
      k-th stretch of rows. */
  lemma SplitTile<T>(axis: Axis, input: array4<T>, parts: seq<array4<T>>, k: nat, w: nat, z: nat, r: nat, c: nat)
    requires k < |parts| && IsSplit(axis, input, parts)
    requires w < parts[k].Length0 && z < parts[k].Length1 && r < parts[k].Length2 && c < parts[k].Length3
    ensures var b := parts[k];
      && b.Length0 == input.Length0 && b.Length1 == input.Length1
      && (axis.Columns? ==>
            && b.Length2 == input.Length2 && input.Length3 == |parts| * b.Length3
            && 0 <= k * b.Length3 + c < input.Length3 && b[w, z, r, c] == input[w, z, r, k * b.Length3 + c])
      && (axis.Rows? ==>
            && b.Length3 == input.Length3 && input.Length2 == |parts| * b.Length2
            && 0 <= k * b.Length2 + r < input.Length2 && b[w, z, r, c] == input[w, z, k * b.Length2 + r, c])
  {
    var s := ShapeOf(parts[0]);
    assert SameTiles(s, parts[k], 0, 0, input, Row(axis, s, k), Col(axis, s, k));
    assert InShape(s, Index(w, z, r, c));
    PartWithin(axis, s, |parts|, k);
  }

  /** hsplit and vsplit; None is the failed divisibility assertion. */
  method Split<T(0)>(axis: Axis, input: array4<T>, n: nat) returns (r: Option<seq<array4<T>>>)
    requires n >= 1
    ensures r.None? <==> (if axis.Columns? then input.Length3 else input.Length2) % n != 0
    ensures r.Some? ==> |r.value| == n && IsSplit(axis, input, r.value)
    ensures r.Some? ==> forall k :: 0 <= k < n ==> fresh(r.value[k])
  {
    var whole := ShapeOf(input);
    if (if axis.Columns? then whole.ct else whole.rt) % n != 0 {
      return None;
    }
    SplitDims(if axis.Columns? then whole.ct else whole.rt, n);
    var s := if axis.Columns? then whole.(ct := whole.ct / n) else whole.(rt := whole.rt / n);
    var parts: seq<array4<T>> := [];
    for k := 0 to n
      invariant |parts| == k
      invariant forall l :: 0 <= l < k ==> fresh(parts[l])
      invariant forall l :: 0 <= l < k ==> ShapeOf(parts[l]) == s
      invariant forall l :: 0 <= l < k ==> Within(s, whole, Row(axis, s, l), Col(axis, s, l))
      invariant forall l :: 0 <= l < k ==> SameTiles(s, parts[l], 0, 0, input, Row(axis, s, l), Col(axis, s, l))
    {
      PartWithin(axis, s, n, k);
      var t := new T[s.w, s.z, s.rt, s.ct];
      CopyTiles(s, t, 0, 0, input, Row(axis, s, k), Col(axis, s, k));
      parts := parts + [t];
    }
    return Some(parts);
  }

  lemma SplitDims(a: nat, n: nat)
    requires n >= 1 && a % n == 0
    ensures 0 <= a / n && n * (a / n) == a
  {}

  ghost predicate IsSplit<T>(axis: Axis, input: array4<T>, parts: seq<array4<T>>)
    requires |parts| > 0
    reads input, parts
  {
    var s := ShapeOf(parts[0]);
    && ShapeOf(input) == Merged(axis, s, |parts|)
    && forall k :: 0 <= k < |parts| ==>
         ShapeOf(parts[k]) == s && Within(s, ShapeOf(input), Row(axis, s, k), Col(axis, s, k))
         && SameTiles(s, parts[k], 0, 0, input, Row(axis, s, k), Col(axis, s, k))
  }

  /** The two tensors have the same shape and the same tiles. */
  ghost predicate Equal<T>(a: array4<T>, b: array4<T>)
    reads a, b
  {
    ShapeOf(a) == ShapeOf(b) && SameTiles(ShapeOf(a), a, 0, 0, b, 0, 0)
  }

  /** As many parts that make up the same whole have the same shape. */
  lemma SameParts(axis: Axis, s: Shape, s': Shape, n: nat)
    requires n > 0 && Merged(axis, s, n) == Merged(axis, s', n)
    ensures s == s'
  {
    if axis.Columns? { Cancel(n, s.ct, s'.ct); } else { Cancel(n, s.rt, s'.rt); }
  }

  lemma Cancel(n: int, a: int, b: int)
    requires n > 0 && n * a == n * b
    ensures a == b
  {
    if a < b { MulMono(a + 1, b, n); }
    if b < a { MulMono(b + 1, a, n); }
  }

  /** Splitting a merge gives the merged tensors back exactly when they all have the
      shape of the first; otherwise what lies outside the first's shape is dropped. */
  lemma SplitOfMergeExactly<T>(axis: Axis, inputs: seq<array4<T>>, merged: array4<T>, parts: seq<array4<T>>)
    requires |inputs| > 0 && |parts| == |inputs|
    requires IsMerge(axis, inputs, merged) && IsSplit(axis, merged, parts)
    ensures (forall k :: 0 <= k < |inputs| ==> Equal(parts[k], inputs[k])) <==>
            forall k :: 0 <= k < |inputs| ==> ShapeOf(inputs[k]) == ShapeOf(inputs[0])
  {
    var s := ShapeOf(inputs[0]);
    SameParts(axis, s, ShapeOf(parts[0]), |inputs|);
    forall k | 0 <= k < |inputs| && ShapeOf(inputs[k]) == s
      ensures Equal(parts[k], inputs[k])
    {
      assert SameTiles(s, merged, Row(axis, s, k), Col(axis, s, k), inputs[k], 0, 0);
      assert SameTiles(s, parts[k], 0, 0, merged, Row(axis, s, k), Col(axis, s, k));
    }
  }

  /** Merging the parts of a split gives the tensor back. */
  lemma MergeOfSplit<T>(axis: Axis, input: array4<T>, parts: seq<array4<T>>, merged: array4<T>)
    requires |parts| > 0 && IsSplit(axis, input, parts) && IsMerge(axis, parts, merged)
    ensures Equal(merged, input)
  {
    var s := ShapeOf(parts[0]);
    forall i | InShape(ShapeOf(input), i)
      ensures merged[i.w, i.z, i.r, i.c] == input[i.w, i.z, i.r, i.c]
    {
      var k, j := PartOf(axis, s, |parts|, i);
      assert SameTiles(s, merged, Row(axis, s, k), Col(axis, s, k), parts[k], 0, 0);
      assert SameTiles(s, parts[k], 0, 0, input, Row(axis, s, k), Col(axis, s, k));
      assert parts[k][j.w, j.z, 0 + j.r, 0 + j.c] == input[i.w, i.z, i.r, i.c];
    }
  }

  lemma PartOf(axis: Axis, s: Shape, n: nat, i: Index) returns (k: nat, j: Index)
    requires InShape(Merged(axis, s, n), i)
    ensures k < n && InShape(s, j) && i == Index(j.w, j.z, Row(axis, s, k) + j.r, Col(axis, s, k) + j.c)
  {
    if axis.Columns? {
      DivBound(i.c, n, s.ct);
      k, j := i.c / s.ct, i.(c := i.c % s.ct);
    } else {
      DivBound(i.r, n, s.rt);
      k, j := i.r / s.rt, i.(r := i.r % s.rt);
    }
  }

  // ----- padding

  /** pad_rc_val: r more tile rows and c more tile columns, filled with the value. */
  method PadRcVal<T>(input: array4<T>, r: nat, c: nat, val: T) returns (result: array4<T>)
    ensures fresh(result)
    ensures ShapeOf(result) == Shape(input.Length0, input.Length1, input.Length2 + r, input.Length3 + c)
    ensures SameTiles(ShapeOf(input), result, 0, 0, input, 0, 0)
    ensures forall k :: InShape(ShapeOf(result), k) && !InShape(ShapeOf(input), k) ==> result[k.w, k.z, k.r, k.c] == val
    ensures forall w, z, i, j ::
      0 <= w < input.Length0 && 0 <= z < input.Length1 && 0 <= i < input.Length2 + r && 0 <= j < input.Length3 + c ==>
        result[w, z, i, j] == if i < input.Length2 && j < input.Length3 then input[w, z, i, j] else val
  {
    result := new T[input.Length0, input.Length1, input.Length2 + r, input.Length3 + c]((_, _, _, _) => val);
    CopyTiles(ShapeOf(input), result, 0, 0, input, 0, 0);
    forall w, z, i, j | 0 <= w < input.Length0 && 0 <= z < input.Length1 && 0 <= i < input.Length2 + r && 0 <= j < input.Length3 + c
      ensures result[w, z, i, j] == if i < input.Length2 && j < input.Length3 then input[w, z, i, j] else val
    {
      var k := Index(w, z, i, j);
      assert InShape(ShapeOf(result), k);
      if InShape(ShapeOf(input), k) {
        assert result[k.w, k.z, 0 + k.r, 0 + k.c] == input[k.w, k.z, 0 + k.r, 0 + k.c];
      }
    }
  }

  /** unpad: the last r tile rows and c tile columns are dropped. */
  method Unpad<T(0)>(input: array4<T>, r: nat, c: nat) returns (result: array4<T>)
    requires r <= input.Length2 && c <= input.Length3
    ensures fresh(result)
    ensures ShapeOf(result) == Shape(input.Length0, input.Length1, input.Length2 - r, input.Length3 - c)
    ensures SameTiles(ShapeOf(result), result, 0, 0, input, 0, 0)
    ensures forall w, z, i, j ::
      0 <= w < input.Length0 && 0 <= z < input.Length1 && 0 <= i < input.Length2 - r && 0 <= j < input.Length3 - c ==>
        result[w, z, i, j] == input[w, z, i, j]
  {
    result := new T[input.Length0, input.Length1, input.Length2 - r, input.Length3 - c];
    CopyTiles(ShapeOf(result), result, 0, 0, input, 0, 0);
    forall w, z, i, j | 0 <= w < input.Length0 && 0 <= z < input.Length1 && 0 <= i < input.Length2 - r && 0 <= j < input.Length3 - c
      ensures result[w, z, i, j] == input[w, z, i, j]
    {
      var k := Index(w, z, i, j);
      assert InShape(ShapeOf(result), k);
      assert result[k.w, k.z, 0 + k.r, 0 + k.c] == input[k.w, k.z, 0 + k.r, 0 + k.c];
    }
  }

  /** Unpadding undoes padding, whatever the value. */
  method PadUnpad<T(0)>(input: array4<T>, r: nat, c: nat, val: T) returns (result: array4<T>)
    ensures Equal(result, input)
  {
    var padded := PadRcVal(input, r, c, val);
    result := Unpad(padded, r, c);
  }
}
