/** The zero padding of common/io_lib.cpp (pad_tensor). */
module Padding {
  import opened MixedRadix

  /** `faces` slices of h x w data, each to be padded to ph x pw. */
  datatype Dims = Dims(faces: nat, h: nat, w: nat, ph: nat, pw: nat) {
    predicate Valid() { 1 <= h <= ph && 1 <= w <= pw }
  }

  /** What the padded tensor holds once the first r rows have been copied:
      face f is the f-th of the n*c rows-by-columns slices. */
  ghost predicate RowsCopied<T>(p: Dims, input: seq<T>, zero: T, out: seq<T>, r: int)
    requires p.Valid()
  {
    && |input| == p.faces * p.h * p.w
    && |out| == p.faces * p.ph * p.pw
    && forall f, y, x :: 0 <= f < p.faces && 0 <= y < p.ph && 0 <= x < p.pw ==>
        0 <= PaddedRank(p, f, y, x) < |out|
        && out[PaddedRank(p, f, y, x)] ==
           if y < p.h && x < p.w && Mix(f, p.h, y) < r && 0 <= Mix(Mix(f, p.h, y), p.w, x) < |input|
           then input[Mix(Mix(f, p.h, y), p.w, x)] else zero
  }

  function PaddedRank(p: Dims, f: int, y: int, x: int): int {
    Mix(Mix(f, p.ph, y), p.pw, x)
  }

  lemma PaddedRankBound(p: Dims, f: int, y: int, x: int)
    requires p.Valid() && 0 <= f < p.faces && 0 <= y < p.ph && 0 <= x < p.pw
    ensures 0 <= PaddedRank(p, f, y, x) < p.faces * p.ph * p.pw
  {
    MixBound(f, p.faces, p.ph, y);
    MixBound(Mix(f, p.ph, y), p.faces * p.ph, p.pw, x);
  }

  lemma CopyRow<T>(p: Dims, input: seq<T>, zero: T, out: seq<T>, f: nat, y: nat, out': seq<T>)
    requires p.Valid() && f < p.faces && y < p.h <= p.ph && p.w <= p.pw
    requires RowsCopied(p, input, zero, out, Mix(f, p.h, y))
    requires 0 <= Mix(f, p.h, y) * p.w && Mix(f, p.h, y) * p.w + p.w <= |input|
    requires |out'| == |out|
    requires forall k :: 0 <= k < |out| ==>
      out'[k] == if Mix(f, p.ph, y) * p.pw <= k < Mix(f, p.ph, y) * p.pw + p.w
                 then input[Mix(f, p.h, y) * p.w + (k - Mix(f, p.ph, y) * p.pw)] else out[k]
    ensures RowsCopied(p, input, zero, out', Mix(f, p.h, y) + 1)
  {
    forall f', y', x' | 0 <= f' < p.faces && 0 <= y' < p.ph && 0 <= x' < p.pw
      ensures 0 <= PaddedRank(p, f', y', x') < |out|
      ensures out'[PaddedRank(p, f', y', x')] ==
          if y' < p.h && x' < p.w && Mix(f', p.h, y') < Mix(f, p.h, y) + 1 && 0 <= Mix(Mix(f', p.h, y'), p.w, x') < |input|
          then input[Mix(Mix(f', p.h, y'), p.w, x')] else zero
    {
      var k := PaddedRank(p, f', y', x');
      PaddedRankBound(p, f', y', x');
      if f' == f && y' == y {
        if y' < p.h && x' < p.w {
          assert 0 <= Mix(Mix(f, p.h, y), p.w, x') < |input|;
        }
      } else {
        OtherRow(p, f, y, f', y', x');
      }
    }
  }

  /** A cell of another row lies outside the copied row, and its source row has
      another number. */
  lemma OtherRow(p: Dims, f: int, y: int, f': int, y': int, x': int)
    requires p.Valid() && 0 <= y < p.h <= p.ph && p.w <= p.pw
    requires 0 <= y' < p.ph && 0 <= x' < p.pw
    requires f' != f || y' != y
    ensures !(Mix(f, p.ph, y) * p.pw <= PaddedRank(p, f', y', x') < Mix(f, p.ph, y) * p.pw + p.w)
    ensures y' < p.h ==> Mix(f', p.h, y') != Mix(f, p.h, y)
  {
    var base, k := Mix(f, p.ph, y) * p.pw, PaddedRank(p, f', y', x');
    if base <= k < base + p.w {
      MixInjective(Mix(f, p.ph, y), k - base, Mix(f', p.ph, y'), x', p.pw);
      MixInjective(f, y, f', y', p.ph);
    }
    if y' < p.h && Mix(f', p.h, y') == Mix(f, p.h, y) {
      MixInjective(f, y, f', y', p.h);
    }
  }

  lemma NothingCopied<T>(p: Dims, input: seq<T>, zero: T, out: seq<T>)
    requires p.Valid() && |input| == p.faces * p.h * p.w && |out| == p.faces * p.ph * p.pw
    requires forall k :: 0 <= k < |out| ==> out[k] == zero
    ensures RowsCopied(p, input, zero, out, 0)
  {
    forall f, y, x | 0 <= f < p.faces && 0 <= y < p.ph && 0 <= x < p.pw
      ensures 0 <= PaddedRank(p, f, y, x) < |out|
      ensures y < p.h ==> 0 <= Mix(f, p.h, y)
    {
      PaddedRankBound(p, f, y, x);
      if y < p.h { MixBound(f, p.faces, p.h, y); }
    }
  }

  lemma NextRowPointers(r: nat, w: nat, q: int, d: int)
    ensures (r + 1) * w == r * w + w && (q + 1) * d == q * d + d
  {}

  lemma FaceStart(f: nat, ph: nat, pw: nat)
    ensures 0 <= f * ph * pw == Mix(f, ph, 0) * pw
  {}

  lemma AllRows(r: int, n: int, w: int)
    requires 1 <= w && r <= n && r * w >= n * w
    ensures r == n
  {
    Distribute(r, 1, w);
    if r < n { MulMono(r + 1, n, w); }
  }

  /** Where the r-th row lies, and that the next face starts exactly when the
      linear pointer is a multiple of the face size. */
  lemma RowAt(faces: nat, h: nat, w: nat, f: nat, y: nat, r: nat)
    requires 1 <= h && 1 <= w && y <= h && r == Mix(f, h, y) && r * w < faces * h * w
    requires y == 0 ==> r == 0
    ensures y == h <==> r * w != 0 && (r * w) % (w * h) == 0
    ensures y < h ==> f < faces
    ensures y == h ==> f + 1 < faces
    ensures r * w + w <= faces * h * w && r + 1 <= faces * h
    ensures 0 <= r * w
    ensures y == 0 && r == 0 ==> f == 0
  {
    assert w * h == h * w;
    RowStartsBlock(r, h, w);
    MulStrict(r, faces * h, w);
    Distribute(r, 1, w);
    MulMono(r + 1, faces * h, w);
    ScaleDigit(r, r + 1, w);
    if y < h {
      MixDivMod(f, h, y);
      MulStrict(f, faces, h);
    } else {
      Carry(f, h);
      MixDivMod(f + 1, h, 0);
      MulStrict(f + 1, faces, h);
    }
  }

  /** The memcpy of one row. */
  method CopyRowTo<T>(p: Dims, input: array<T>, ghost zero: T, out: array<T>,
                      inputPtr: nat, outputPtr: nat, ghost f: nat, ghost y: nat)
    requires p.Valid() && input != out && f < p.faces && y < p.h <= p.ph && 1 <= p.w <= p.pw
    requires inputPtr == Mix(f, p.h, y) * p.w && inputPtr + p.w <= input.Length
    requires outputPtr == Mix(f, p.ph, y) * p.pw
    requires RowsCopied(p, input[..], zero, out[..], Mix(f, p.h, y))
    modifies out
    ensures RowsCopied(p, input[..], zero, out[..], Mix(f, p.h, y) + 1)
  {
    ghost var data, before := input[..], out[..];
    PaddedRankBound(p, f, y, 0);
    PaddedRankBound(p, f, y, p.w - 1);
    forall x | 0 <= x < p.w {
      out[outputPtr + x] := input[inputPtr + x];
    }
    assert input[..] == data;
    CopyRow(p, data, zero, before, f, y, out[..]);
  }

  /** pad_tensor: copies row by row into a zeroed buffer, with a running output
      pointer that is reset at every new face. */
  method PadTensor<T>(p: Dims, input: array<T>, ghost zero: T, out: array<T>)
    requires p.Valid() && input != out
    requires 1 <= p.h <= p.ph && 1 <= p.w <= p.pw
    requires input.Length == p.faces * p.h * p.w && out.Length == p.faces * p.ph * p.pw
    requires forall k :: 0 <= k < out.Length ==> out[k] == zero
    modifies out
    ensures RowsCopied(p, input[..], zero, out[..], p.faces * p.h)
  {
    hide Mix;
    ghost var data := input[..];
    NothingCopied(p, data, zero, out[..]);
    var size := p.faces * p.h * p.w;
    var inputPtr, outputPtr, numFaces := 0, 0, 0;
    ghost var r, y := 0, 0;
    MixBase(0, p.h);
    MixBase(0, p.ph);
    while inputPtr < size
      invariant input[..] == data
      invariant inputPtr == r * p.w && 0 <= r <= p.faces * p.h
      invariant 0 <= numFaces && 0 <= y <= p.h && r == Mix(numFaces, p.h, y)
      invariant y == 0 ==> r == 0
      invariant 0 <= outputPtr == Mix(numFaces, p.ph, y) * p.pw
      invariant RowsCopied(p, data, zero, out[..], r)
      decreases size - inputPtr
    {
      RowAt(p.faces, p.h, p.w, numFaces, y, r);
      if inputPtr != 0 && inputPtr % (p.w * p.h) == 0 {
        Carry(numFaces, p.h);
        numFaces := numFaces + 1;
        y := 0;
        FaceStart(numFaces, p.ph, p.pw);
        outputPtr := numFaces * p.ph * p.pw;
      }
      CopyRowTo(p, input, zero, out, inputPtr, outputPtr, numFaces, y);
      MixNext(numFaces, p.h, y);
      MixNext(numFaces, p.ph, y);
      NextRowPointers(r, p.w, Mix(numFaces, p.ph, y), p.pw);
      outputPtr := outputPtr + p.pw;
      inputPtr := inputPtr + p.w;
      r, y := r + 1, y + 1;
    }
    AllRows(r, p.faces * p.h, p.w);
  }
}
