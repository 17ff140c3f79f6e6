/** The unpacking of a tilized buffer into a tensor of tiles (common/io_lib.cpp,
    get_ublock_data and tilized_tensor_to_tt_tensor): a nest of loops over grid
    buffers, entries, slices, ublocks and tiles that reads words at a running offset. */
module TilizedWalk {
  import opened MixedRadix

  /** The blocking of a queue: tiles per ublock, ublocks per mblock, slices per
      entry, the core grid, the words per packed tile, the bytes per grid buffer. */
  datatype Blocking = Blocking(
    ubRt: nat, ubCt: nat, mbM: nat, mbN: nat, t: nat, gridR: nat, gridC: nat,
    tileWords: nat, bufBytes: nat, rowScan: bool)
  {
    predicate Valid() {
      1 <= ubRt && 1 <= ubCt && 1 <= mbM && 1 <= mbN && 1 <= t && 1 <= gridR && 1 <= gridC && 1 <= tileWords
    }

    function UbTiles(): nat { ubRt * ubCt }

    function Ublocks(): nat { mbM * mbN }

    function EntryTiles(): nat { t * Ublocks() * UbTiles() }

    function BlockWords(): nat { EntryTiles() * tileWords }

    function BlockBytes(): nat { 4 * BlockWords() }

    /** How many entries a grid buffer holds, as the code derives it. */
    function Entries(): nat
      requires BlockBytes() > 0
    {
      DivSign(bufBytes, BlockBytes());
      bufBytes / BlockBytes()
    }

    function Buffers(): nat { gridR * gridC }

    function Rt(): nat { gridR * mbM * ubRt }

    function Ct(): nat { gridC * mbN * ubCt }
  }

  lemma SizesArePositive(d: Blocking)
    requires d.Valid()
    ensures d.UbTiles() >= 1 && d.Ublocks() >= 1 && d.EntryTiles() >= 1 && d.BlockWords() >= 1
  {
    MulMono(1, d.ubRt, d.ubCt);
    MulMono(1, d.mbM, d.mbN);
    MulMono(1, d.t, d.Ublocks());
    MulMono(1, d.t * d.Ublocks(), d.UbTiles());
    MulMono(1, d.EntryTiles(), d.tileWords);
  }

  /** A tile of the tensor: entry, slice, tile row, tile column. */
  datatype Tile = Tile(w: nat, z: nat, r: nat, c: nat)

  /** Where the loops meet a tile: grid buffer, entry, slice, ublock and the tile
      within its ublock. */
  datatype Visit = Visit(gr: nat, gc: nat, w: nat, z: nat, ubr: nat, ubc: nat, tr: nat, tc: nat)

  predicate InTensor(d: Blocking, entries: nat, a: Tile) {
    a.w < entries && a.z < d.t && a.r < d.Rt() && a.c < d.Ct()
  }

  predicate InLoops(d: Blocking, entries: nat, v: Visit) {
    v.gr < d.gridR && v.gc < d.gridC && v.w < entries && v.z < d.t
    && v.ubr < d.mbM && v.ubc < d.mbN && v.tr < d.ubRt && v.tc < d.ubCt
  }

  /** The tile that the index arithmetic of get_ublock_data selects. */
  function TileOf(d: Blocking, v: Visit): Tile {
    Tile(v.w, v.z,
         v.gr * d.ubRt * d.mbM + v.ubr * d.ubRt + v.tr,
         v.gc * d.ubCt * d.mbN + v.ubc * d.ubCt + v.tc)
  }

  function VisitOf(d: Blocking, a: Tile): Visit
    requires d.Valid()
  {
    DivSign(a.r, d.ubRt);
    DivSign(a.c, d.ubCt);
    DivSign(a.r / d.ubRt, d.mbM);
    DivSign(a.c / d.ubCt, d.mbN);
    Visit(a.r / d.ubRt / d.mbM, a.c / d.ubCt / d.mbN, a.w, a.z,
          (a.r / d.ubRt) % d.mbM, (a.c / d.ubCt) % d.mbN, a.r % d.ubRt, a.c % d.ubCt)
  }

  lemma Line(g: nat, m: nat, b: nat, u: nat, i: nat)
    requires b < m && i < u
    ensures g * u * m + b * u + i == Mix(Mix(g, m, b), u, i)
    ensures (g * u * m + b * u + i) / u == Mix(g, m, b) && (g * u * m + b * u + i) % u == i
    ensures Mix(g, m, b) / m == g && Mix(g, m, b) % m == b
  {
    Rotate(g, u, m);
    Distribute(g * m, b, u);
    MixDivMod(Mix(g, m, b), u, i);
    MixDivMod(g, m, b);
  }

  /** The loops reach every tile of the tensor exactly once: TileOf and VisitOf are
      inverse bijections between loop positions and tiles. */
  lemma VisitsAreTiles(d: Blocking, entries: nat, v: Visit)
    requires d.Valid() && InLoops(d, entries, v)
    ensures InTensor(d, entries, TileOf(d, v)) && VisitOf(d, TileOf(d, v)) == v
  {
    Line(v.gr, d.mbM, v.ubr, d.ubRt, v.tr);
    Line(v.gc, d.mbN, v.ubc, d.ubCt, v.tc);
    MixBound(v.gr, d.gridR, d.mbM, v.ubr);
    MixBound(v.gc, d.gridC, d.mbN, v.ubc);
    MixBound(Mix(v.gr, d.mbM, v.ubr), d.gridR * d.mbM, d.ubRt, v.tr);
    MixBound(Mix(v.gc, d.mbN, v.ubc), d.gridC * d.mbN, d.ubCt, v.tc);
  }

  lemma LineBack(g: nat, m: nat, u: nat, r: nat)
    requires 1 <= m && 1 <= u && r < g * m * u
    ensures 0 <= r / u && 0 <= r / u / m < g && 0 <= r / u % m < m && 0 <= r % u < u
    ensures r / u / m * u * m + r / u % m * u + r % u == r
  {
    DivBound(r, g * m, u);
    DivBound(r / u, g, m);
    Line(r / u / m, m, r / u % m, u, r % u);
    MixSplit(r / u, m);
    MixSplit(r, u);
  }

  lemma TilesAreVisited(d: Blocking, entries: nat, a: Tile)
    requires d.Valid() && InTensor(d, entries, a)
    ensures InLoops(d, entries, VisitOf(d, a)) && TileOf(d, VisitOf(d, a)) == a
  {
    LineBack(d.gridR, d.mbM, d.ubRt, a.r);
    LineBack(d.gridC, d.mbN, d.ubCt, a.c);
  }

  // ----- the order of the visits

  function ScanIndex(d: Blocking, ubr: int, ubc: int): int {
    if d.rowScan then Mix(ubr, d.mbN, ubc) else Mix(ubc, d.mbM, ubr)
  }

  /** The position of a tile within its entry, in reading order. */
  function Slot(d: Blocking, v: Visit): int {
    Mix(Mix(v.z, d.Ublocks(), ScanIndex(d, v.ubr, v.ubc)), d.UbTiles(), Mix(v.tr, d.ubCt, v.tc))
  }

  /** The position of a tile in the whole run of the loops. */
  function Order(d: Blocking, entries: nat, v: Visit): int {
    Mix(Mix(Mix(v.gr, d.gridC, v.gc), entries, v.w), d.EntryTiles(), Slot(d, v))
  }

  lemma ScanBound(d: Blocking, ubr: int, ubc: int)
    requires 0 <= ubr < d.mbM && 0 <= ubc < d.mbN
    ensures 0 <= ScanIndex(d, ubr, ubc) < d.Ublocks()
  {
    if d.rowScan {
      MixBound(ubr, d.mbM, d.mbN, ubc);
    } else {
      MixBound(ubc, d.mbN, d.mbM, ubr);
      assert d.mbN * d.mbM == d.mbM * d.mbN;
    }
  }

  lemma SlotBound(d: Blocking, entries: nat, v: Visit)
    requires InLoops(d, entries, v)
    ensures 0 <= Mix(v.tr, d.ubCt, v.tc) < d.UbTiles()
    ensures 0 <= Slot(d, v) < d.EntryTiles()
  {
    MixBound(v.tr, d.ubRt, d.ubCt, v.tc);
    ScanBound(d, v.ubr, v.ubc);
    MixBound(v.z, d.t, d.Ublocks(), ScanIndex(d, v.ubr, v.ubc));
    MixBound(Mix(v.z, d.Ublocks(), ScanIndex(d, v.ubr, v.ubc)), d.t * d.Ublocks(), d.UbTiles(), Mix(v.tr, d.ubCt, v.tc));
  }

  lemma ScanInjective(d: Blocking, r: int, c: int, r': int, c': int)
    requires 0 <= r < d.mbM && 0 <= c < d.mbN && 0 <= r' < d.mbM && 0 <= c' < d.mbN
    requires ScanIndex(d, r, c) == ScanIndex(d, r', c')
    ensures r == r' && c == c'
  {
    if d.rowScan {
      MixInjective(r, c, r', c', d.mbN);
    } else {
      MixInjective(c, r, c', r', d.mbM);
    }
  }

  lemma SlotInjective(d: Blocking, entries: nat, v: Visit, v': Visit)
    requires InLoops(d, entries, v) && InLoops(d, entries, v') && Slot(d, v) == Slot(d, v')
    ensures v.z == v'.z && v.ubr == v'.ubr && v.ubc == v'.ubc && v.tr == v'.tr && v.tc == v'.tc
  {
    SlotBound(d, entries, v);
    SlotBound(d, entries, v');
    ScanBound(d, v.ubr, v.ubc);
    ScanBound(d, v'.ubr, v'.ubc);
    var k, k' := ScanIndex(d, v.ubr, v.ubc), ScanIndex(d, v'.ubr, v'.ubc);
    MixInjective(Mix(v.z, d.Ublocks(), k), Mix(v.tr, d.ubCt, v.tc), Mix(v'.z, d.Ublocks(), k'), Mix(v'.tr, d.ubCt, v'.tc), d.UbTiles());
    MixInjective(v.z, k, v'.z, k', d.Ublocks());
    ScanInjective(d, v.ubr, v.ubc, v'.ubr, v'.ubc);
    MixInjective(v.tr, v.tc, v'.tr, v'.tc, d.ubCt);
  }

  lemma OrderInjective(d: Blocking, entries: nat, v: Visit, v': Visit)
    requires InLoops(d, entries, v) && InLoops(d, entries, v') && Order(d, entries, v) == Order(d, entries, v')
    ensures v == v'
  {
    SlotBound(d, entries, v);
    SlotBound(d, entries, v');
    var b, b' := Mix(v.gr, d.gridC, v.gc), Mix(v'.gr, d.gridC, v'.gc);
    MixInjective(Mix(b, entries, v.w), Slot(d, v), Mix(b', entries, v'.w), Slot(d, v'), d.EntryTiles());
    MixInjective(b, v.w, b', v'.w, entries);
    MixInjective(v.gr, v.gc, v'.gr, v'.gc, d.gridC);
    SlotInjective(d, entries, v, v');
  }

  /** Every position of an entry belongs to some tile, so there are no gaps. */
  lemma SlotOnto(d: Blocking, entries: nat, gr: nat, gc: nat, w: nat, slot: nat) returns (v: Visit)
    requires d.Valid() && gr < d.gridR && gc < d.gridC && w < entries && slot < d.EntryTiles()
    ensures InLoops(d, entries, v) && v.gr == gr && v.gc == gc && v.w == w && Slot(d, v) == slot
  {
    SizesArePositive(d);
    DivBound(slot, d.t * d.Ublocks(), d.UbTiles());
    var ub, inUb := slot / d.UbTiles(), slot % d.UbTiles();
    DivBound(ub, d.t, d.Ublocks());
    var z, k := ub / d.Ublocks(), ub % d.Ublocks();
    DivBound(inUb, d.ubRt, d.ubCt);
    if d.rowScan {
      DivBound(k, d.mbM, d.mbN);
      v := Visit(gr, gc, w, z, k / d.mbN, k % d.mbN, inUb / d.ubCt, inUb % d.ubCt);
    } else {
      assert d.mbN * d.mbM == d.mbM * d.mbN;
      DivBound(k, d.mbN, d.mbM);
      v := Visit(gr, gc, w, z, k % d.mbM, k / d.mbM, inUb / d.ubCt, inUb % d.ubCt);
    }
    MixSplit(slot, d.UbTiles());
    MixSplit(ub, d.Ublocks());
    MixSplit(inUb, d.ubCt);
    MixSplit(k, if d.rowScan then d.mbN else d.mbM);
  }

  // ----- the unpacked tensor

  /** A tile holds no packed data until its words are copied in. */
  datatype Packed<T> = Empty | Words(data: seq<T>)

  /** The first word of grid buffer b; sizes are given in bytes, words have four. */
  function BufStart(d: Blocking, b: int): int {
    b * d.bufBytes / 4
  }

  /** Where the words of a tile lie in the input: a closed form of the running offset. */
  function Source(d: Blocking, v: Visit): int {
    BufStart(d, Mix(v.gr, d.gridC, v.gc)) + v.w * d.BlockWords() + Slot(d, v) * d.tileWords
  }

  /** The sizes in plain numbers: as many entries as whole entries of four-byte words fit into
      a grid buffer, and tile rows and columns for the whole grid. */
  lemma PlainSizes(d: Blocking)
    requires d.Valid()
    ensures var block := 4 * (d.t * (d.mbM * d.mbN) * (d.ubRt * d.ubCt) * d.tileWords);
      d.BlockBytes() == block > 0 && d.Entries() * block <= d.bufBytes < (d.Entries() + 1) * block
    ensures d.Rt() == d.gridR * d.mbM * d.ubRt && d.Ct() == d.gridC * d.mbN * d.ubCt
  {
    SizesArePositive(d);
    WholeEntries(d.bufBytes, d.BlockBytes());
  }

  lemma WholeEntries(bytes: nat, block: nat)
    requires block > 0
    ensures bytes / block * block <= bytes < (bytes / block + 1) * block
  {
    Distribute(bytes / block, 1, block);
  }

  /** In plain numbers: which tile of the tensor the tile (tr, tc) of ublock (ubr, ubc) in
      slice z of entry w of grid buffer (gr, gc) is, and at which word of the input it starts. */
  lemma PlainPlace(d: Blocking, entries: nat, gr: nat, gc: nat, w: nat, z: nat, ubr: nat, ubc: nat, tr: nat, tc: nat)
    requires d.Valid() && gr < d.gridR && gc < d.gridC && w < entries && z < d.t
    requires ubr < d.mbM && ubc < d.mbN && tr < d.ubRt && tc < d.ubCt
    ensures var a := Tile(w, z, (gr * d.mbM + ubr) * d.ubRt + tr, (gc * d.mbN + ubc) * d.ubCt + tc);
      var ublock := if d.rowScan then ubr * d.mbN + ubc else ubc * d.mbM + ubr;
      && InTensor(d, entries, a)
      && Source(d, VisitOf(d, a)) ==
           (gr * d.gridC + gc) * d.bufBytes / 4
           + w * (d.t * (d.mbM * d.mbN) * (d.ubRt * d.ubCt) * d.tileWords)
           + ((z * (d.mbM * d.mbN) + ublock) * (d.ubRt * d.ubCt) + (tr * d.ubCt + tc)) * d.tileWords
  {
    var v := Visit(gr, gc, w, z, ubr, ubc, tr, tc);
    VisitsAreTiles(d, entries, v);
    Line(gr, d.mbM, ubr, d.ubRt, tr);
    Line(gc, d.mbN, ubc, d.ubCt, tc);
    assert TileOf(d, v) == Tile(w, z, (gr * d.mbM + ubr) * d.ubRt + tr, (gc * d.mbN + ubc) * d.ubCt + tc);
    hide VisitOf, TileOf;
  }

  /** All grid buffers lie in the input, and `entries` whole entries in each. */
  ghost predicate Fits(d: Blocking, entries: nat, size: nat) {
    && d.Valid()
    && entries * d.BlockBytes() <= d.bufBytes
    && d.Buffers() * d.bufBytes <= 4 * size
  }

  lemma BufferInside(d: Blocking, entries: nat, size: nat, b: nat)
    requires Fits(d, entries, size) && b < d.Buffers()
    ensures 0 <= BufStart(d, b) && BufStart(d, b) + d.bufBytes / 4 <= size
    ensures entries * d.BlockWords() <= d.bufBytes / 4
  {
    NonNegProducts(b, d.bufBytes, 1);
    Distribute(b, 1, d.bufBytes);
    MulMono(b + 1, d.Buffers(), d.bufBytes);
    assert entries * d.BlockBytes() == 4 * (entries * d.BlockWords());
  }

  /** The words of a tile lie inside its own entry of its own buffer. */
  lemma SourceInside(d: Blocking, entries: nat, size: nat, v: Visit)
    requires Fits(d, entries, size) && InLoops(d, entries, v)
    ensures 0 <= Slot(d, v) * d.tileWords && (Slot(d, v) + 1) * d.tileWords <= d.BlockWords()
    ensures 0 <= v.w * d.BlockWords() && (v.w + 1) * d.BlockWords() <= d.bufBytes / 4
    ensures 0 <= Source(d, v) && Source(d, v) + d.tileWords <= size
  {
    SlotBound(d, entries, v);
    SizesArePositive(d);
    MulMono(Slot(d, v) + 1, d.EntryTiles(), d.tileWords);
    MulMono(0, Slot(d, v), d.tileWords);
    Distribute(Slot(d, v), 1, d.tileWords);
    MixBound(v.gr, d.gridR, d.gridC, v.gc);
    BufferInside(d, entries, size, Mix(v.gr, d.gridC, v.gc));
    MulMono(v.w + 1, entries, d.BlockWords());
    MulMono(0, v.w, d.BlockWords());
    Distribute(v.w, 1, d.BlockWords());
  }

  /** What a tile holds once the loops have made n visits. */
  ghost function Holds<T>(d: Blocking, entries: nat, input: seq<T>, a: Tile, n: int): Packed<T>
    requires Fits(d, entries, |input|) && InTensor(d, entries, a)
  {
    TilesAreVisited(d, entries, a);
    var v := VisitOf(d, a);
    SourceInside(d, entries, |input|, v);
    if Order(d, entries, v) < n then Words(input[Source(d, v)..Source(d, v) + d.tileWords]) else Empty
  }

  ghost predicate Walked<T>(d: Blocking, entries: nat, input: seq<T>, tiles: array4<Packed<T>>, n: int)
    requires Fits(d, entries, |input|)
    reads tiles
  {
    && tiles.Length0 == entries && tiles.Length1 == d.t && tiles.Length2 == d.Rt() && tiles.Length3 == d.Ct()
    && forall a: Tile :: InTensor(d, entries, a) ==>
         tiles[a.w, a.z, a.r, a.c] == Holds(d, entries, input, a, n)
  }

  /** One visit changes what exactly one tile holds. */
  lemma VisitStep<T>(d: Blocking, entries: nat, input: seq<T>, v: Visit, a: Tile)
    requires Fits(d, entries, |input|) && InLoops(d, entries, v) && InTensor(d, entries, a)
    ensures 0 <= Source(d, v) && Source(d, v) + d.tileWords <= |input|
    ensures a == TileOf(d, v) ==> Holds(d, entries, input, a, Order(d, entries, v)) == Empty
    ensures Holds(d, entries, input, a, Order(d, entries, v) + 1) ==
            if a == TileOf(d, v) then Words(input[Source(d, v)..Source(d, v) + d.tileWords])
            else Holds(d, entries, input, a, Order(d, entries, v))
  {
    SourceInside(d, entries, |input|, v);
    VisitsAreTiles(d, entries, v);
    TilesAreVisited(d, entries, a);
    if Order(d, entries, VisitOf(d, a)) == Order(d, entries, v) {
      OrderInjective(d, entries, VisitOf(d, a), v);
    }
  }

  // ----- the loops

  /** The visit count at the start of entry w of buffer b. */
  function EntryStart(d: Blocking, entries: int, b: int, w: int): int {
    Mix(Mix(b, entries, w), d.EntryTiles(), 0)
  }

  /** The slot at the start of the k-th ublock of slice z. */
  function UblockStart(d: Blocking, z: int, k: int): int {
    Mix(z, d.Ublocks(), k) * d.UbTiles()
  }

  lemma OrderInEntry(d: Blocking, entries: nat, v: Visit)
    ensures Order(d, entries, v) == EntryStart(d, entries, Mix(v.gr, d.gridC, v.gc), v.w) + Slot(d, v)
    ensures Slot(d, v) == UblockStart(d, v.z, ScanIndex(d, v.ubr, v.ubc)) + Mix(v.tr, d.ubCt, v.tc)
  {}

  lemma RunningOffset(slot: int, tw: int)
    ensures (slot + 1) * tw == slot * tw + tw
  {}

  /** The body of get_ublock_data for one tile. The tile never holds packed data. */
  method ReadTile<T>(d: Blocking, entries: nat, ghost input: seq<T>, tiles: array4<Packed<T>>, rv: seq<T>,
                     globalOffset: nat, bufIndex: nat, bufOffset: nat, ghost v: Visit,
                     wi: nat, zi: nat, ubr: nat, ubc: nat, tr: nat, tc: nat) returns (newOffset: nat)
    requires Fits(d, entries, |input|) && InLoops(d, entries, v)
    requires v.w == wi && v.z == zi && v.ubr == ubr && v.ubc == ubc && v.tr == tr && v.tc == tc
    requires bufIndex == Mix(v.gr, d.gridC, v.gc)
    requires 0 <= BufStart(d, bufIndex) && BufStart(d, bufIndex) + d.bufBytes / 4 <= |input|
    requires rv == input[BufStart(d, bufIndex)..BufStart(d, bufIndex) + d.bufBytes / 4]
    requires globalOffset == wi * d.BlockWords() && bufOffset == Slot(d, v) * d.tileWords
    requires Walked(d, entries, input, tiles, Order(d, entries, v))
    modifies tiles
    ensures Walked(d, entries, input, tiles, Order(d, entries, v) + 1)
    ensures newOffset == (Slot(d, v) + 1) * d.tileWords
  {
    hide VisitOf, Slot, Order, Blocking.BlockWords, Blocking.EntryTiles, Blocking.Rt, Blocking.Ct;
    GridIndex(d, v.gr, v.gc);
    var gr, gc := bufIndex / d.gridC, bufIndex % d.gridC;
    var rt := gr * d.ubRt * d.mbM + ubr * d.ubRt + tr;
    var ct := gc * d.ubCt * d.mbN + ubc * d.ubCt + tc;
    ghost var here := TileOf(d, v);
    VisitsAreTiles(d, entries, v);
    TileInRange(d, entries, here);
    SourceInside(d, entries, |input|, v);
    VisitStep(d, entries, input, v, here);
    WordsOfTile(d, entries, input, v, rv);
    assert tiles[wi, zi, rt, ct] == Empty;
    tiles[wi, zi, rt, ct] := Words(rv[globalOffset + bufOffset..globalOffset + bufOffset + d.tileWords]);
    RunningOffset(Slot(d, v), d.tileWords);
    newOffset := bufOffset + d.tileWords;
    forall a: Tile | InTensor(d, entries, a)
      ensures tiles[a.w, a.z, a.r, a.c] == Holds(d, entries, input, a, Order(d, entries, v) + 1)
    {
      TileInRange(d, entries, a);
      VisitStep(d, entries, input, v, a);
    }
  }

  lemma GridIndex(d: Blocking, gr: nat, gc: nat)
    requires gc < d.gridC
    ensures Mix(gr, d.gridC, gc) / d.gridC == gr && Mix(gr, d.gridC, gc) % d.gridC == gc
  {
    MixDivMod(gr, d.gridC, gc);
  }

  lemma TileInRange(d: Blocking, entries: nat, a: Tile)
    requires InTensor(d, entries, a)
    ensures a.w < entries && a.z < d.t && a.r < d.Rt() && a.c < d.Ct()
  {}

  lemma WordsOfTile<T>(d: Blocking, entries: nat, input: seq<T>, v: Visit, rv: seq<T>)
    requires Fits(d, entries, |input|) && InLoops(d, entries, v)
    requires var b := BufStart(d, Mix(v.gr, d.gridC, v.gc));
             0 <= b && b + d.bufBytes / 4 <= |input| && rv == input[b..b + d.bufBytes / 4]
    ensures var o := v.w * d.BlockWords() + Slot(d, v) * d.tileWords;
            0 <= o && o + d.tileWords <= |rv| && 0 <= Source(d, v) && Source(d, v) + d.tileWords <= |input|
            && rv[o..o + d.tileWords] == input[Source(d, v)..Source(d, v) + d.tileWords]
  {
    hide Slot, BufStart, Blocking.BlockWords, Fits, InLoops;
    SourceInside(d, entries, |input|, v);
    Distribute(v.w, 1, d.BlockWords());
    Distribute(Slot(d, v), 1, d.tileWords);
  }

  /** get_ublock_data: reads one ublock's tiles row by row at the running offset. */
  method GetUblockData<T>(d: Blocking, entries: nat, ghost input: seq<T>, tiles: array4<Packed<T>>, rv: seq<T>,
                          globalOffset: nat, bufIndex: nat, bufOffset: nat,
                          wi: nat, zi: nat, ubr: nat, ubc: nat, ghost gr: nat, ghost gc: nat)
    returns (newOffset: nat)
    requires Fits(d, entries, |input|)
    requires gr < d.gridR && gc < d.gridC && wi < entries && zi < d.t && ubr < d.mbM && ubc < d.mbN
    requires bufIndex == Mix(gr, d.gridC, gc)
    requires 0 <= BufStart(d, bufIndex) && BufStart(d, bufIndex) + d.bufBytes / 4 <= |input|
    requires rv == input[BufStart(d, bufIndex)..BufStart(d, bufIndex) + d.bufBytes / 4]
    requires globalOffset == wi * d.BlockWords()
    requires bufOffset == UblockStart(d, zi, ScanIndex(d, ubr, ubc)) * d.tileWords
    requires Walked(d, entries, input, tiles,
                    EntryStart(d, entries, bufIndex, wi) + UblockStart(d, zi, ScanIndex(d, ubr, ubc)))
    modifies tiles
    ensures Walked(d, entries, input, tiles,
                   EntryStart(d, entries, bufIndex, wi) + UblockStart(d, zi, ScanIndex(d, ubr, ubc) + 1))
    ensures newOffset == UblockStart(d, zi, ScanIndex(d, ubr, ubc) + 1) * d.tileWords
  {
    hide Walked, UblockStart, EntryStart, Order, Slot, ScanIndex, Fits, BufStart, Blocking.BlockWords;
    ghost var n0 := EntryStart(d, entries, bufIndex, wi);
    ghost var s0 := UblockStart(d, zi, ScanIndex(d, ubr, ubc));
    newOffset := bufOffset;
    MixBase(0, d.ubCt);
    for tr := 0 to d.ubRt
      invariant newOffset == (s0 + Mix(tr, d.ubCt, 0)) * d.tileWords
      invariant Walked(d, entries, input, tiles, n0 + s0 + Mix(tr, d.ubCt, 0))
    {
      for tc := 0 to d.ubCt
        invariant newOffset == (s0 + Mix(tr, d.ubCt, tc)) * d.tileWords
        invariant Walked(d, entries, input, tiles, n0 + s0 + Mix(tr, d.ubCt, tc))
      {
        ghost var v := Visit(gr, gc, wi, zi, ubr, ubc, tr, tc);
        OrderInEntry(d, entries, v);
        newOffset := ReadTile(d, entries, input, tiles, rv, globalOffset, bufIndex, newOffset, v,
                              wi, zi, ubr, ubc, tr, tc);
        MixNext(tr, d.ubCt, tc);
      }
      Carry(tr, d.ubCt);
    }
    UblockEnd(d, zi, ScanIndex(d, ubr, ubc));
  }

  lemma UblockEnd(d: Blocking, z: int, k: int)
    ensures UblockStart(d, z, k) + Mix(d.ubRt, d.ubCt, 0) == UblockStart(d, z, k + 1)
  {
    MixNext(z, d.Ublocks(), k);
    RunningOffset(Mix(z, d.Ublocks(), k), d.UbTiles());
  }

  lemma SliceEnd(d: Blocking, z: int)
    ensures UblockStart(d, z, d.Ublocks()) == UblockStart(d, z + 1, 0)
    ensures UblockStart(d, 0, 0) == 0
    ensures UblockStart(d, d.t, 0) == d.EntryTiles()
  {
    Carry(z, d.Ublocks());
  }

  lemma EntryEnd(d: Blocking, entries: nat, b: int, w: int)
    ensures EntryStart(d, entries, b, w) + d.EntryTiles() == EntryStart(d, entries, b, w + 1)
    ensures EntryStart(d, entries, b, entries) == EntryStart(d, entries, b + 1, 0)
    ensures EntryStart(d, entries, 0, 0) == 0
  {
    MixNext(b, entries, w);
    RunningOffset(Mix(b, entries, w), d.EntryTiles());
    Carry(b, entries);
  }

  lemma ScanSteps(d: Blocking, i: int, j: int)
    ensures d.rowScan ==> ScanIndex(d, i, j) == Mix(i, d.mbN, j)
    ensures !d.rowScan ==> ScanIndex(d, j, i) == Mix(i, d.mbM, j)
    ensures d.Ublocks() == Mix(d.mbM, d.mbN, 0) == Mix(d.mbN, d.mbM, 0)
  {}

  /** One slice of an entry, in either scan order of its ublocks. */
  method WalkSlice<T>(d: Blocking, entries: nat, ghost input: seq<T>, tiles: array4<Packed<T>>, rv: seq<T>,
                      globalOffset: nat, bufIndex: nat, offset: nat,
                      wi: nat, zi: nat, ghost gr: nat, ghost gc: nat) returns (newOffset: nat)
    requires Fits(d, entries, |input|)
    requires gr < d.gridR && gc < d.gridC && wi < entries && zi < d.t
    requires bufIndex == Mix(gr, d.gridC, gc)
    requires 0 <= BufStart(d, bufIndex) && BufStart(d, bufIndex) + d.bufBytes / 4 <= |input|
    requires rv == input[BufStart(d, bufIndex)..BufStart(d, bufIndex) + d.bufBytes / 4]
    requires globalOffset == wi * d.BlockWords() && offset == UblockStart(d, zi, 0) * d.tileWords
    requires Walked(d, entries, input, tiles, EntryStart(d, entries, bufIndex, wi) + UblockStart(d, zi, 0))
    modifies tiles
    ensures Walked(d, entries, input, tiles, EntryStart(d, entries, bufIndex, wi) + UblockStart(d, zi, d.Ublocks()))
    ensures newOffset == UblockStart(d, zi, d.Ublocks()) * d.tileWords
  {
    hide Walked, UblockStart, EntryStart, ScanIndex, Fits, BufStart, Blocking.BlockWords, Blocking.Ublocks, Mix;
    ghost var n0 := EntryStart(d, entries, bufIndex, wi);
    newOffset := offset;
    MixBase(0, d.mbN);
    MixBase(0, d.mbM);
    if d.rowScan {
      for ubr := 0 to d.mbM
        invariant newOffset == UblockStart(d, zi, Mix(ubr, d.mbN, 0)) * d.tileWords
        invariant Walked(d, entries, input, tiles, n0 + UblockStart(d, zi, Mix(ubr, d.mbN, 0)))
      {
        for ubc := 0 to d.mbN
          invariant newOffset == UblockStart(d, zi, Mix(ubr, d.mbN, ubc)) * d.tileWords
          invariant Walked(d, entries, input, tiles, n0 + UblockStart(d, zi, Mix(ubr, d.mbN, ubc)))
        {
          ScanSteps(d, ubr, ubc);
          newOffset := GetUblockData(d, entries, input, tiles, rv, globalOffset, bufIndex, newOffset,
                                     wi, zi, ubr, ubc, gr, gc);
          MixNext(ubr, d.mbN, ubc);
        }
        Carry(ubr, d.mbN);
      }
    } else {
      for ubc := 0 to d.mbN
        invariant newOffset == UblockStart(d, zi, Mix(ubc, d.mbM, 0)) * d.tileWords
        invariant Walked(d, entries, input, tiles, n0 + UblockStart(d, zi, Mix(ubc, d.mbM, 0)))
      {
        for ubr := 0 to d.mbM
          invariant newOffset == UblockStart(d, zi, Mix(ubc, d.mbM, ubr)) * d.tileWords
          invariant Walked(d, entries, input, tiles, n0 + UblockStart(d, zi, Mix(ubc, d.mbM, ubr)))
        {
          ScanSteps(d, ubc, ubr);
          newOffset := GetUblockData(d, entries, input, tiles, rv, globalOffset, bufIndex, newOffset,
                                     wi, zi, ubr, ubc, gr, gc);
          MixNext(ubc, d.mbM, ubr);
        }
        Carry(ubc, d.mbM);
      }
    }
    ScanSteps(d, 0, 0);
  }

  /** tilized_tensor_to_tt_tensor, for a queue with tilized layout: every tile of the
      tensor ends up with exactly the words that its closed-form offset names. */
  method TilizedToTensor<T>(d: Blocking, input: seq<T>) returns (tiles: array4<Packed<T>>, entries: nat)
    requires d.Valid() && d.Buffers() * d.bufBytes <= 4 * |input|
    ensures d.BlockBytes() > 0 && entries == d.Entries() && Fits(d, entries, |input|)
    ensures tiles.Length0 == entries && tiles.Length1 == d.t && tiles.Length2 == d.Rt() && tiles.Length3 == d.Ct()
    ensures forall a: Tile :: InTensor(d, entries, a) ==>
      InputRange(d, entries, |input|, a)
      && tiles[a.w, a.z, a.r, a.c] ==
         Words(input[Source(d, VisitOf(d, a))..Source(d, VisitOf(d, a)) + d.tileWords])
  {
    SizesArePositive(d);
    entries := d.Entries();
    EntriesFit(d, |input|);
    tiles := new Packed<T>[entries, d.t, d.Rt(), d.Ct()]((_, _, _, _) => Empty);
    NothingWalked(d, entries, input, tiles);
    EntryEnd(d, entries, 0, 0);
    for b := 0 to d.Buffers()
      invariant Walked(d, entries, input, tiles, EntryStart(d, entries, b, 0))
    {
      WalkBuffer(d, entries, input, tiles, b);
      EntryEnd(d, entries, b, 0);
    }
    AllWalked(d, entries, input, tiles);
  }

  method WalkBuffer<T>(d: Blocking, entries: nat, input: seq<T>, tiles: array4<Packed<T>>, b: nat)
    requires d.Valid() && Fits(d, entries, |input|) && b < d.Buffers()
    requires Walked(d, entries, input, tiles, EntryStart(d, entries, b, 0))
    modifies tiles
    ensures Walked(d, entries, input, tiles, EntryStart(d, entries, b, entries))
  {
    hide Walked, UblockStart, EntryStart, Fits, Mix;
    BufferInside(d, entries, |input|, b);
    ghost var gr, gc := GridCell(d, b);
    var bufOffset := BufStart(d, b);
    var bufData := input[bufOffset..bufOffset + d.bufBytes / 4];
    for w := 0 to entries
      invariant Walked(d, entries, input, tiles, EntryStart(d, entries, b, w))
    {
      var _ := WalkEntry(d, entries, input, tiles, bufData, b, w, gr, gc);
    }
  }

  /** One entry of a grid buffer: the running offset ends exactly at the block size. */
  method WalkEntry<T>(d: Blocking, entries: nat, ghost input: seq<T>, tiles: array4<Packed<T>>, bufData: seq<T>,
                      b: nat, w: nat, ghost gr: nat, ghost gc: nat) returns (offset: nat)
    requires Fits(d, entries, |input|)
    requires gr < d.gridR && gc < d.gridC && w < entries && b == Mix(gr, d.gridC, gc)
    requires 0 <= BufStart(d, b) && BufStart(d, b) + d.bufBytes / 4 <= |input|
    requires bufData == input[BufStart(d, b)..BufStart(d, b) + d.bufBytes / 4]
    requires Walked(d, entries, input, tiles, EntryStart(d, entries, b, w))
    modifies tiles
    ensures Walked(d, entries, input, tiles, EntryStart(d, entries, b, w + 1))
    ensures 4 * offset == d.BlockBytes()
  {
    hide Walked, UblockStart, EntryStart, Fits, Mix;
    offset := 0;
    SliceEnd(d, 0);
    NonNegProducts(w, d.BlockWords(), 1);
    for z := 0 to d.t
      invariant offset == UblockStart(d, z, 0) * d.tileWords
      invariant Walked(d, entries, input, tiles, EntryStart(d, entries, b, w) + UblockStart(d, z, 0))
    {
      offset := WalkSlice(d, entries, input, tiles, bufData, w * d.BlockWords(), b, offset, w, z, gr, gc);
      SliceEnd(d, z);
    }
    EntryEnd(d, entries, b, w);
  }

  lemma GridCell(d: Blocking, b: nat) returns (gr: nat, gc: nat)
    requires d.Valid() && b < d.Buffers()
    ensures gr < d.gridR && gc < d.gridC && b == Mix(gr, d.gridC, gc)
  {
    DivBound(b, d.gridR, d.gridC);
    MixSplit(b, d.gridC);
    gr, gc := b / d.gridC, b % d.gridC;
  }

  lemma EntriesFit(d: Blocking, size: nat)
    requires d.Valid() && d.Buffers() * d.bufBytes <= 4 * size && d.BlockBytes() > 0
    ensures Fits(d, d.Entries(), size)
  {}

  ghost predicate InputRange(d: Blocking, entries: nat, size: nat, a: Tile)
    requires d.Valid()
  {
    0 <= Source(d, VisitOf(d, a)) && Source(d, VisitOf(d, a)) + d.tileWords <= size
  }

  lemma OrderBound(d: Blocking, entries: nat, v: Visit)
    requires d.Valid() && InLoops(d, entries, v)
    ensures 0 <= Order(d, entries, v) < EntryStart(d, entries, d.Buffers(), 0)
  {
    SlotBound(d, entries, v);
    MixBound(v.gr, d.gridR, d.gridC, v.gc);
    MixBound(Mix(v.gr, d.gridC, v.gc), d.Buffers(), entries, v.w);
    MixBound(Mix(Mix(v.gr, d.gridC, v.gc), entries, v.w), d.Buffers() * entries, d.EntryTiles(), Slot(d, v));
  }

  lemma NothingWalked<T>(d: Blocking, entries: nat, input: seq<T>, tiles: array4<Packed<T>>)
    requires Fits(d, entries, |input|)
    requires tiles.Length0 == entries && tiles.Length1 == d.t && tiles.Length2 == d.Rt() && tiles.Length3 == d.Ct()
    requires forall a: Tile :: InTensor(d, entries, a) ==> tiles[a.w, a.z, a.r, a.c] == Empty
    ensures Walked(d, entries, input, tiles, 0)
  {
    forall a: Tile | InTensor(d, entries, a)
      ensures Holds(d, entries, input, a, 0) == Empty
    {
      TilesAreVisited(d, entries, a);
      OrderBound(d, entries, VisitOf(d, a));
    }
  }

  lemma AllWalked<T>(d: Blocking, entries: nat, input: seq<T>, tiles: array4<Packed<T>>)
    requires Fits(d, entries, |input|)
    requires Walked(d, entries, input, tiles, EntryStart(d, entries, d.Buffers(), 0))
    ensures forall a: Tile :: InTensor(d, entries, a) ==>
      InputRange(d, entries, |input|, a)
      && tiles[a.w, a.z, a.r, a.c] ==
         Words(input[Source(d, VisitOf(d, a))..Source(d, VisitOf(d, a)) + d.tileWords])
  {
    forall a: Tile | InTensor(d, entries, a)
      ensures InputRange(d, entries, |input|, a)
      ensures tiles[a.w, a.z, a.r, a.c] ==
         Words(input[Source(d, VisitOf(d, a))..Source(d, VisitOf(d, a)) + d.tileWords])
    {
      TilesAreVisited(d, entries, a);
      OrderBound(d, entries, VisitOf(d, a));
      SourceInside(d, entries, |input|, VisitOf(d, a));
    }
  }

  /** Grid buffers follow one another without overlap. */
  lemma BuffersInOrder(d: Blocking, b: nat, b': nat)
    requires b < b'
    ensures BufStart(d, b) + d.bufBytes / 4 <= BufStart(d, b')
  {
    MulMono(b + 1, b', d.bufBytes);
    Distribute(b, 1, d.bufBytes);
  }

  /** Conversely, every word of every entry is read: it belongs to exactly one tile of the
      whole tensor, at a fixed place within that tile's words. */
  lemma EveryWordIsRead(d: Blocking, entries: nat, size: nat, gr: nat, gc: nat, w: nat, i: nat) returns (a: Tile)
    requires Fits(d, entries, size) && gr < d.gridR && gc < d.gridC && w < entries && i < d.BlockWords()
    ensures InTensor(d, entries, a) && a.w == w
    ensures Source(d, VisitOf(d, a)) + i % d.tileWords == BufStart(d, Mix(gr, d.gridC, gc)) + w * d.BlockWords() + i
    ensures var word := BufStart(d, Mix(gr, d.gridC, gc)) + w * d.BlockWords() + i;
      forall a' :: InTensor(d, entries, a') && Source(d, VisitOf(d, a')) <= word < Source(d, VisitOf(d, a')) + d.tileWords
        ==> a' == a
  {
    DivBound(i, d.EntryTiles(), d.tileWords);
    var slot := i / d.tileWords;
    var v := SlotOnto(d, entries, gr, gc, w, slot);
    VisitsAreTiles(d, entries, v);
    a := TileOf(d, v);
    MixSplit(i, d.tileWords);
    var word := BufStart(d, Mix(gr, d.gridC, gc)) + w * d.BlockWords() + i;
    forall a' | InTensor(d, entries, a') && Source(d, VisitOf(d, a')) <= word < Source(d, VisitOf(d, a')) + d.tileWords
      ensures a' == a
    {
      hide VisitOf, TileOf, Source, InTensor, InLoops;
      TilesAreVisited(d, entries, a');
      WordsDisjoint(d, entries, size, VisitOf(d, a'), v, word);
    }
  }

  /** No word of the input belongs to two tiles, not even of different entries or buffers. */
  lemma WordsDisjoint(d: Blocking, entries: nat, size: nat, v: Visit, v': Visit, word: int)
    requires Fits(d, entries, size) && InLoops(d, entries, v) && InLoops(d, entries, v')
    requires Source(d, v) <= word < Source(d, v) + d.tileWords && Source(d, v') <= word < Source(d, v') + d.tileWords
    ensures v == v'
  {
    WordInBuffer(d, entries, size, v, word);
    WordInBuffer(d, entries, size, v', word);
    var b, b' := Mix(v.gr, d.gridC, v.gc), Mix(v'.gr, d.gridC, v'.gc);
    MixBound(v.gr, d.gridR, d.gridC, v.gc);
    MixBound(v'.gr, d.gridR, d.gridC, v'.gc);
    if b < b' { BuffersInOrder(d, b, b'); }
    if b' < b { BuffersInOrder(d, b', b); }
    MixInjective(v.gr, v.gc, v'.gr, v'.gc, d.gridC);
    SlotInjective(d, entries, v, v');
  }

  /** Where a word of a tile lies in its buffer tells the tile's entry and slot. */
  lemma WordInBuffer(d: Blocking, entries: nat, size: nat, v: Visit, word: int)
    requires Fits(d, entries, size) && InLoops(d, entries, v)
    requires Source(d, v) <= word < Source(d, v) + d.tileWords
    ensures var o := word - BufStart(d, Mix(v.gr, d.gridC, v.gc));
      && 0 <= o < d.bufBytes / 4 && d.BlockWords() > 0
      && v.w == o / d.BlockWords() && Slot(d, v) == o % d.BlockWords() / d.tileWords
  {
    SourceInside(d, entries, size, v);
    SizesArePositive(d);
    var o := word - BufStart(d, Mix(v.gr, d.gridC, v.gc));
    Distribute(v.w, 1, d.BlockWords());
    RunningOffset(Slot(d, v), d.tileWords);
    DivModUnique(o, v.w, d.BlockWords(), o - v.w * d.BlockWords());
    SameSlot(Slot(d, v), d.tileWords, o - v.w * d.BlockWords());
  }

  lemma SameSlot(slot: int, tw: int, i: int)
    requires 0 < tw && slot * tw <= i < (slot + 1) * tw
    ensures slot == i / tw
  {
    RunningOffset(slot, tw);
    DivModUnique(i, slot, tw, i - slot * tw);
  }
}
