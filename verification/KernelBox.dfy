/** The kernel-shape test of get_conv_shuffler_params: the extents of the list of
    kernel offsets, and what comparing their product with its length tells. */
module KernelBox {
  import opened Basics

  function Max(s: seq<int>): (m: int)
    requires |s| > 0
    ensures m in s && forall v :: v in s ==> v <= m
  {
    if |s| == 1 then s[0] else
      var m := Max(s[1..]);
      assert forall v :: v in s ==> v == s[0] || v in s[1..];
      if m < s[0] then s[0] else m
  }

  function Min(s: seq<int>): (m: int)
    requires |s| > 0
    ensures m in s && forall v :: v in s ==> m <= v
  {
    if |s| == 1 then s[0] else
      var m := Min(s[1..]);
      assert forall v :: v in s ==> v == s[0] || v in s[1..];
      if s[0] < m then s[0] else m
  }

  type Offset = (int, int)

  function Xs(offsets: seq<Offset>): seq<int> { seq(|offsets|, i requires 0 <= i < |offsets| => offsets[i].0) }

  function Ys(offsets: seq<Offset>): seq<int> { seq(|offsets|, i requires 0 <= i < |offsets| => offsets[i].1) }

  function Extent(s: seq<int>): (e: int)
    requires |s| > 0
    ensures e >= 1
  {
    Max(s) - Min(s) + 1
  }

  predicate InBounds(offsets: seq<Offset>, o: Offset)
    requires |offsets| > 0
  {
    Min(Xs(offsets)) <= o.0 <= Max(Xs(offsets)) && Min(Ys(offsets)) <= o.1 <= Max(Ys(offsets))
  }

  /** The offsets fill their bounding box. */
  ghost predicate FillsBox(offsets: seq<Offset>)
    requires |offsets| > 0
  {
    forall o: Offset :: InBounds(offsets, o) ==> o in offsets
  }

  function Area(offsets: seq<Offset>): int
    requires |offsets| > 0
  {
    Extent(Xs(offsets)) * Extent(Ys(offsets))
  }

  predicate BoxCheck(offsets: seq<Offset>)
    requires |offsets| > 0
  {
    Area(offsets) == |offsets|
  }

  ghost function Column(x: int, y: int, h: nat): (s: set<Offset>)
    ensures |s| == h
    ensures forall o: Offset :: o in s <==> o.0 == x && y <= o.1 < y + h
  {
    if h == 0 then {} else Column(x, y, h - 1) + {(x, y + h - 1)}
  }

  ghost function Grid(x: int, y: int, w: nat, h: nat): (s: set<Offset>)
    ensures |s| == w * h
    ensures forall o: Offset :: o in s <==> x <= o.0 < x + w && y <= o.1 < y + h
  {
    if w == 0 then {} else
      var rest, col := Grid(x, y, w - 1, h), Column(x + w - 1, y, h);
      assert rest !! col;
      rest + col
  }

  ghost function BoundingGrid(offsets: seq<Offset>): (g: set<Offset>)
    requires |offsets| > 0
    ensures |g| == Area(offsets)
    ensures forall o: Offset :: o in g <==> InBounds(offsets, o)
  {
    Grid(Min(Xs(offsets)), Min(Ys(offsets)), Extent(Xs(offsets)), Extent(Ys(offsets)))
  }

  lemma OffsetInBounds(offsets: seq<Offset>, o: Offset)
    requires o in offsets
    ensures InBounds(offsets, o)
  {
    var i :| 0 <= i < |offsets| && offsets[i] == o;
    assert Xs(offsets)[i] in Xs(offsets) && Ys(offsets)[i] in Ys(offsets);
  }

  /** For which offsets the test tells whether they fill their box: for those without a
      repetition, and for those with one whose number, with and without repetitions
      counted, differs from the area of the box. Among the lists that pass, and among those
      that fill their box, it goes wrong exactly on the ones with a repetition. */
  lemma BoxCheckExact(offsets: seq<Offset>)
    requires |offsets| > 0
    ensures (BoxCheck(offsets) <==> FillsBox(offsets)) <==>
            Distinct(offsets) || (|offsets| != Area(offsets) && |SetOf(offsets)| != Area(offsets))
    ensures BoxCheck(offsets) ==> (FillsBox(offsets) <==> Distinct(offsets))
    ensures FillsBox(offsets) ==> (BoxCheck(offsets) <==> Distinct(offsets))
  {
    FillsBoxByCount(offsets);
    SetOfDistinct(offsets);
    hide Area, FillsBox, SetOf, Distinct;
  }

  lemma FillsBoxByCount(offsets: seq<Offset>)
    requires |offsets| > 0
    ensures FillsBox(offsets) <==> |SetOf(offsets)| == Area(offsets)
  {
    hide Area, Xs, Ys, BoundingGrid, InBounds;
    var points, grid := SetOf(offsets), BoundingGrid(offsets);
    forall o | o in points
      ensures o in grid
    {
      OffsetInBounds(offsets, o);
    }
    SubsetSize(points, grid);
    if FillsBox(offsets) {
      assert grid == points;
    }
  }

  /** With a repeated offset the test can pass although the box has holes. */
  lemma BoxCheckMissesHoles()
    ensures BoxCheck([(0, 0), (0, 0), (1, 1), (1, 1)]) && !FillsBox([(0, 0), (0, 0), (1, 1), (1, 1)])
  {
    var offsets: seq<Offset> := [(0, 0), (0, 0), (1, 1), (1, 1)];
    assert BoxCheck(offsets) by {
      assert Xs(offsets) == [0, 0, 1, 1] && Ys(offsets) == [0, 0, 1, 1];
      ExtentOfHalves([0, 0, 1, 1]);
    }
    assert !FillsBox(offsets) by {
      assert offsets[0] in offsets && offsets[2] in offsets;
      var hole: Offset := (0, 1);
      OffsetInBounds(offsets, (0, 0));
      OffsetInBounds(offsets, (1, 1));
      assert InBounds(offsets, hole) && hole !in offsets;
    }
  }

  /** And it can fail although the offsets fill their box. */
  lemma BoxCheckRejectsRepeats()
    ensures !BoxCheck([(0, 0), (0, 0)]) && FillsBox([(0, 0), (0, 0)])
  {
    var offsets: seq<Offset> := [(0, 0), (0, 0)];
    assert offsets[0] in offsets;
    assert Xs(offsets) == [0, 0] && Ys(offsets) == [0, 0];
  }

  lemma ExtentOfHalves(s: seq<int>)
    requires s == [0, 0, 1, 1]
    ensures Extent(s) == 2
  {
    assert s[0] in s && s[2] in s;
    assert Min(s) == 0 && Max(s) == 1;
  }
}
