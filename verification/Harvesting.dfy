/** Row maps of a chip with harvested rows (dbd/tt_device.py, dbd/tt_wormhole.py): the
    loops that build the tensix/netlist and noc0/nocTr maps, and the conversions. */
module Harvesting {
  import opened Basics

  /** The two Ethernet rows. */
  predicate IsEth(y: int) { y == 0 || y == 6 }

  /** What the loops rely on: rows 0 and 6 exist, rows below 16 leave room for the
      identity part, and the harvested rows are different worker rows. */
  ghost predicate Harvest(rowCount: nat, harvested: seq<int>) {
    && 7 <= rowCount <= 16
    && (forall i :: 0 <= i < |harvested| ==> 0 <= harvested[i] < rowCount && !IsEth(harvested[i]))
    && Distinct(harvested)
  }

  /** The working worker rows below n, in order. */
  function Functional(n: nat, harvested: seq<int>): seq<int>
  {
    if n == 0 then []
    else if IsEth(n - 1) || n - 1 in harvested then Functional(n - 1, harvested)
    else Functional(n - 1, harvested) + [n - 1]
  }

  lemma {:induction false} FunctionalFacts(n: nat, harvested: seq<int>)
    ensures var rows := Functional(n, harvested);
      && (forall y :: y in rows <==> 0 <= y < n && !IsEth(y) && y !in harvested)
      && (forall i :: 0 <= i < |rows| ==> 0 <= rows[i] < n && rows[i] in rows)
      && (forall i, k :: 0 <= i < k < |rows| ==> rows[i] < rows[k])
  {
    if n > 0 {
      FunctionalFacts(n - 1, harvested);
      var front, rows := Functional(n - 1, harvested), Functional(n, harvested);
      assert rows == front || rows == front + [n - 1];
      hide Functional;
      if rows != front {
        assert forall y :: y in rows <==> y in front || y == n - 1;
      }
    }
  }

  /** The number of worker rows below y, which is the tensix row of worker row y. */
  function TensixRow(y: int): int {
    y - (if y > 0 then 1 else 0) - (if y > 6 then 1 else 0)
  }

  ghost function RowSet(n: nat): (s: set<int>)
    ensures forall y :: y in s <==> 0 <= y < n
    ensures |s| == n
  {
    if n == 0 then {} else RowSet(n - 1) + {n - 1}
  }

  /** Every row is an Ethernet row, harvested or working. */
  lemma RowsAdd(rowCount: nat, harvested: seq<int>)
    requires Harvest(rowCount, harvested)
    ensures |Functional(rowCount, harvested)| + |harvested| + 2 == rowCount
  {
    var rows := Functional(rowCount, harvested);
    var working, broken, eth: set<int> := SetOf(rows), SetOf(harvested), {0, 6};
    FunctionalFacts(rowCount, harvested);
    SetOfDistinct(rows);
    SetOfDistinct(harvested);
    assert working !! broken;
    assert (working + broken) !! eth;
    SplitRows(rowCount, harvested, working, broken, eth);
    assert |working + broken| == |working| + |broken|;
    assert |working + broken + eth| == |working + broken| + |eth|;
  }

  lemma SplitRows(rowCount: nat, harvested: seq<int>, working: set<int>, broken: set<int>, eth: set<int>)
    requires Harvest(rowCount, harvested)
    requires working == SetOf(Functional(rowCount, harvested)) && broken == SetOf(harvested) && eth == {0, 6}
    ensures RowSet(rowCount) == working + broken + eth
  {
    FunctionalFacts(rowCount, harvested);
    hide Functional, RowSet, Distinct;
    forall i | 0 <= i < |harvested|
      ensures harvested[i] in broken
    {
      assert harvested[i] in harvested;
    }
    forall y
      ensures y in RowSet(rowCount) <==> y in working + broken + eth
    {}
  }

  // ----- the noc0/nocTr map

  /** The noc0 row of translated row t: Ethernet rows first, then the working rows in
      order, then the harvested ones. */
  ghost function Translated(rowCount: nat, harvested: seq<int>, t: int): int
    requires Harvest(rowCount, harvested) && 16 <= t < 16 + rowCount
  {
    RowsAdd(rowCount, harvested);
    var working := Functional(rowCount, harvested);
    if t == 16 then 0 else if t == 17 then 6
    else if t < 18 + |working| then working[t - 18]
    else harvested[t - 18 - |working|]
  }

  lemma TranslatedInRange(rowCount: nat, harvested: seq<int>, t: int)
    requires Harvest(rowCount, harvested) && 16 <= t < 16 + rowCount
    ensures 0 <= Translated(rowCount, harvested, t) < rowCount
  {
    RowsAdd(rowCount, harvested);
    FunctionalFacts(rowCount, harvested);
    var working := Functional(rowCount, harvested);
    if 18 <= t < 18 + |working| {
      assert working[t - 18] in working;
    }
  }

  lemma TranslatedInjective(rowCount: nat, harvested: seq<int>, t: int, u: int)
    requires Harvest(rowCount, harvested) && 16 <= t < u < 16 + rowCount
    ensures Translated(rowCount, harvested, t) != Translated(rowCount, harvested, u)
  {
    RowsAdd(rowCount, harvested);
    FunctionalFacts(rowCount, harvested);
    var working := Functional(rowCount, harvested);
    assert forall i :: 0 <= i < |working| ==> working[i] in working;
    assert forall i :: 0 <= i < |harvested| ==> harvested[i] in harvested;
  }

  /** Every noc0 row has a translated row. */
  lemma TranslatedOnto(rowCount: nat, harvested: seq<int>, y: int) returns (t: int)
    requires Harvest(rowCount, harvested) && 0 <= y < rowCount
    ensures 16 <= t < 16 + rowCount && Translated(rowCount, harvested, t) == y
  {
    RowsAdd(rowCount, harvested);
    FunctionalFacts(rowCount, harvested);
    var working := Functional(rowCount, harvested);
    if y == 0 {
      t := 16;
    } else if y == 6 {
      t := 17;
    } else if y in harvested {
      var i :| 0 <= i < |harvested| && harvested[i] == y;
      t := 18 + |working| + i;
    } else {
      assert y in working;
      var i :| 0 <= i < |working| && working[i] == y;
      t := 18 + i;
    }
  }

  // ----- columns

  /** NOC0_X_TO_NOCTR_X of Wormhole. */
  const NOC0_X_TO_NOCTR_X: map<int, int> :=
    map[0 := 16, 1 := 18, 2 := 19, 3 := 20, 4 := 21, 5 := 17, 6 := 22, 7 := 23, 8 := 24, 9 := 25]

  /** HARVESTING_NOC_LOCATIONS of Wormhole. */
  const HARVESTING_NOC_LOCATIONS: seq<int> := [11, 1, 10, 2, 9, 3, 8, 4, 7, 5]

  function TensixToNoc0(row: int, col: int): (int, int) {
    var y, x := row + 1, col + 1;
    (if x >= 5 then x + 1 else x, if y >= 6 then y + 1 else y)
  }

  /** None is the CoordinateTranslationError for Ethernet rows and DRAM columns. */
  function Noc0ToTensix(x: int, y: int): Option<(int, int)> {
    if x == 0 || x == 5 || y == 0 || y == 6 then None
    else Some((y - 1 - (if y > 6 then 1 else 0), x - 1 - (if x > 5 then 1 else 0)))
  }

  /** The worker columns and rows of the chip, without column 5 and row 6. */
  lemma WorkerGrid(row: nat, col: nat)
    requires row < 10 && col < 8
    ensures TensixToNoc0(row, col) == ([1, 2, 3, 4, 6, 7, 8, 9][col], [1, 2, 3, 4, 5, 7, 8, 9, 10, 11][row])
  {}

  /** The two conversions between tensix and noc0 are inverse on worker coordinates. */
  lemma TensixNoc0RoundTrip(row: nat, col: nat, x: int, y: int)
    ensures var (nx, ny) := TensixToNoc0(row, col); Noc0ToTensix(nx, ny) == Some((row as int, col as int))
    ensures x >= 0 && y >= 0 && Noc0ToTensix(x, y).Some? ==>
      var (r, c) := Noc0ToTensix(x, y).value; TensixToNoc0(r, c) == (x, y)
  {}

  // ----- the device

  class Device {
    const rowCount: nat
    var tensixToNetlist: map<int, int>
    var netlistToTensix: map<int, int>
    var nocTrToNoc0: map<int, int>
    var nocTrKeys: seq<int>        // the keys of nocTrToNoc0 in insertion order
    var noc0ToNocTr: map<int, int>

    constructor (rowCount: nat)
      ensures this.rowCount == rowCount
    {
      this.rowCount := rowCount;
      tensixToNetlist, netlistToTensix, nocTrToNoc0, nocTrKeys, noc0ToNocTr := map[], map[], map[], [], map[];
    }

    /** get_harvested_noc0_y_rows: the locations whose bit is set in the mask, from the lowest
        bit up; the ghost result lists the bits. A bit past the table is an index error,
        which is None. */
    method GetHarvestedRows(mask: set<nat>, locations: seq<int>) returns (rows: Option<seq<int>>, ghost from: seq<nat>)
      ensures rows.None? <==> exists h :: h in mask && |locations| <= h < rowCount
      ensures forall i, k :: 0 <= i < k < |from| ==> from[i] < from[k]
      ensures rows.Some? ==> forall h :: h in from <==> h in mask && h < rowCount
      ensures rows.Some? ==> |from| == |rows.value| && forall i :: 0 <= i < |from| ==>
        from[i] < |locations| && rows.value[i] == locations[from[i]]
      ensures rows.Some? ==> |rows.value| <= |mask| && (|rows.value| == |mask| <==> forall h :: h in mask ==> h < rowCount)
      ensures rows.Some? ==> forall y :: y in rows.value <==> exists h :: h in mask && h < rowCount && h < |locations| && locations[h] == y
      ensures rows.Some? && Distinct(locations) ==> Distinct(rows.value)
    {
      hide Distinct;
      var found := [];
      from := [];
      for h := 0 to rowCount
        invariant |found| == |from| && forall i :: 0 <= i < |from| ==>
          from[i] in mask && from[i] < h && from[i] < |locations| && found[i] == locations[from[i]]
        invariant forall i, k :: 0 <= i < k < |from| ==> from[i] < from[k]
        invariant forall g :: g in mask && g < h ==> g in from
      {
        if h in mask {
          if h >= |locations| {
            return None, from;
          }
          found := found + [locations[h]];
          from := from + [h];
        }
      }
      Picked(rowCount, mask, locations, from, found);
      return Some(found), from;
    }

    /** _create_tensix_netlist_harvesting_map: one running counter for all worker rows
        and one for the working ones. */
    method CreateTensixNetlistMap(harvested: seq<int>)
      modifies this`tensixToNetlist, this`netlistToTensix
      ensures RowMaps(Functional(rowCount, harvested), netlistToTensix, tensixToNetlist)
    {
      var tensixRow, netlistRow := 0, 0;
      tensixToNetlist, netlistToTensix := map[], map[];
      for y := 0 to rowCount
        invariant tensixRow == TensixRow(y) && netlistRow == |Functional(y, harvested)|
        invariant RowMaps(Functional(y, harvested), netlistToTensix, tensixToNetlist)
        invariant forall r :: r in tensixToNetlist ==> r < tensixRow
      {
        if y == 0 || y == 6 {
        } else {
          if y in harvested {
          } else {
            RowMapsExtend(Functional(y, harvested), y, netlistToTensix, tensixToNetlist);
            netlistToTensix := netlistToTensix[netlistRow := tensixRow];
            tensixToNetlist := tensixToNetlist[tensixRow := netlistRow];
            netlistRow := netlistRow + 1;
          }
          tensixRow := tensixRow + 1;
        }
      }
    }

    // ----- translated rows

    method PutNocTr(t: int, y: int)
      modifies this`nocTrToNoc0, this`nocTrKeys
      ensures nocTrToNoc0 == old(nocTrToNoc0)[t := y]
      ensures nocTrKeys == if t in old(nocTrToNoc0) then old(nocTrKeys) else old(nocTrKeys) + [t]
    {
      if t !in nocTrToNoc0 {
        nocTrKeys := nocTrKeys + [t];
      }
      nocTrToNoc0 := nocTrToNoc0[t := y];
    }

    /** The identity rows and the first n translated rows have been entered, in order. */
    ghost predicate Entered(harvested: seq<int>, n: nat)
      requires Harvest(rowCount, harvested) && n <= rowCount
      reads this
    {
      IsEntered(rowCount, harvested, n, nocTrToNoc0, nocTrKeys)
    }

    method EnterNext(harvested: seq<int>, n: nat, t: int, y: int)
      requires Harvest(rowCount, harvested) && n < rowCount && Entered(harvested, n)
      requires t == 16 + n && y == Translated(rowCount, harvested, t)
      modifies this`nocTrToNoc0, this`nocTrKeys
      ensures Entered(harvested, n + 1)
    {
      EnteredNext(rowCount, harvested, n, nocTrToNoc0, nocTrKeys);
      PutNocTr(t, y);
    }

    /** _handle_harvesting_for_nocTr_noc0_map of Wormhole. The number of harvested rows
        counts all bits of the mask; false is the index error if some bit has no row. */
    method HandleHarvesting(numHarvested: nat, harvested: seq<int>) returns (ok: bool)
      requires Harvest(rowCount, harvested) && |harvested| <= numHarvested
      requires Entered(harvested, 0)
      modifies this`nocTrToNoc0, this`nocTrKeys
      ensures ok <==> numHarvested == |harvested|
      ensures ok ==> Entered(harvested, rowCount)
    {
      hide Entered, IsEntered, Translated, Functional;
      TranslatedParts(rowCount, harvested);
      NoRows(harvested);
      EnterNext(harvested, 0, 16, 0);
      EnterNext(harvested, 1, 17, 6);
      var nocTrY := 18;
      for y := 0 to rowCount
        invariant nocTrY == 18 + |Functional(y, harvested)| <= 18 + |Functional(rowCount, harvested)|
        invariant Entered(harvested, nocTrY - 16)
      {
        NextWorking(y, rowCount, harvested);
        if y in harvested || y == 0 || y == 6 {
        } else {
          assert Translated(rowCount, harvested, 18 + |Functional(y, harvested)|) == y;
          EnterNext(harvested, nocTrY - 16, nocTrY, y);
          nocTrY := nocTrY + 1;
        }
      }
      assert IsEntered(rowCount, harvested, rowCount - |harvested|, nocTrToNoc0, nocTrKeys) by { EnteredIs(harvested, nocTrY - 16); }
      for row := 0 to numHarvested
        invariant row <= |harvested|
        invariant numHarvested == |harvested| ==>
          IsEntered(rowCount, harvested, rowCount - numHarvested + row, nocTrToNoc0, nocTrKeys)
      {
        if row >= |harvested| {
          return false;
        }
        if numHarvested == |harvested| {
          assert Translated(rowCount, harvested, 16 + rowCount - |harvested| + row) == harvested[row];
          EnteredNext(rowCount, harvested, rowCount - numHarvested + row, nocTrToNoc0, nocTrKeys);
        }
        PutNocTr(16 + rowCount - numHarvested + row, harvested[row]);
      }
      EnteredIs(harvested, rowCount);
      return true;
    }

    lemma EnteredIs(harvested: seq<int>, n: nat)
      requires Harvest(rowCount, harvested) && n <= rowCount
      ensures Entered(harvested, n) <==> IsEntered(rowCount, harvested, n, nocTrToNoc0, nocTrKeys)
    {}

    /** _create_nocTr_noc0_harvesting_map: afterwards the two maps are inverse to each
        other between the noc0 rows and the translated rows from 16 on. */
    method CreateNocTrMap(numHarvested: nat, harvested: seq<int>) returns (ok: bool)
      requires Harvest(rowCount, harvested) && |harvested| <= numHarvested
      modifies this`nocTrToNoc0, this`nocTrKeys, this`noc0ToNocTr
      ensures ok <==> numHarvested == |harvested|
      ensures ok ==> Entered(harvested, rowCount)
      ensures ok ==> forall t :: 16 <= t < 16 + rowCount ==>
        nocTrToNoc0[t] in noc0ToNocTr && noc0ToNocTr[nocTrToNoc0[t]] == t
      ensures ok ==> forall y :: y in noc0ToNocTr <==> 0 <= y < rowCount
      ensures ok ==> forall y :: 0 <= y < rowCount ==>
        16 <= noc0ToNocTr[y] < 16 + rowCount && nocTrToNoc0[noc0ToNocTr[y]] == y
    {
      nocTrToNoc0, nocTrKeys, noc0ToNocTr := map[], [], map[];
      for t := 0 to rowCount
        invariant nocTrKeys == Range(0, t)
        invariant forall u :: u in nocTrToNoc0 <==> 0 <= u < t
        invariant forall u :: 0 <= u < t ==> nocTrToNoc0[u] == u
        invariant noc0ToNocTr == map[]
      {
        PutNocTr(t, t);
      }
      assert Range(0, rowCount) + Range(16, 0) == Range(0, rowCount);
      ok := HandleHarvesting(numHarvested, harvested);
      if !ok {
        return;
      }
      CreateReverseMap(harvested);
      forall y | 0 <= y < rowCount
        ensures 16 <= noc0ToNocTr[y] < 16 + rowCount && nocTrToNoc0[noc0ToNocTr[y]] == y
      {
        var t := TranslatedOnto(rowCount, harvested, y);
        assert noc0ToNocTr[Translated(rowCount, harvested, t)] == t;
      }
    }

    /** The last loop: walks the map in insertion order, so that the translated rows
        override the identity rows. */
    method CreateReverseMap(harvested: seq<int>)
      requires Harvest(rowCount, harvested) && Entered(harvested, rowCount) && noc0ToNocTr == map[]
      modifies this`noc0ToNocTr
      ensures forall y :: y in noc0ToNocTr <==> 0 <= y < rowCount
      ensures forall t :: 16 <= t < 16 + rowCount ==>
        var y := Translated(rowCount, harvested, t); y in noc0ToNocTr && noc0ToNocTr[y] == t
    {
      for i := 0 to |nocTrKeys|
        invariant forall y :: y in noc0ToNocTr <==> 0 <= y < if i < rowCount then i else rowCount
        invariant forall t :: 16 <= t < 16 + i - rowCount ==>
          var y := Translated(rowCount, harvested, t); y in noc0ToNocTr && noc0ToNocTr[y] == t
      {
        var t := nocTrKeys[i];
        if i >= rowCount {
          assert t == 16 + i - rowCount;
          TranslatedInRange(rowCount, harvested, t);
          forall u | 16 <= u < t
            ensures Translated(rowCount, harvested, u) != Translated(rowCount, harvested, t)
          {
            TranslatedInjective(rowCount, harvested, u, t);
          }
        }
        noc0ToNocTr := noc0ToNocTr[nocTrToNoc0[t] := t];
      }
    }

    /** Everything the constructor of a device sets up about rows. */
    ghost predicate Built(harvested: seq<int>)
      reads this
    {
      && Harvest(rowCount, harvested)
      && RowMaps(Functional(rowCount, harvested), netlistToTensix, tensixToNetlist)
      && Entered(harvested, rowCount)
      && (forall t :: 16 <= t < 16 + rowCount ==> nocTrToNoc0[t] in noc0ToNocTr && noc0ToNocTr[nocTrToNoc0[t]] == t)
    }

    /** _create_harvesting_maps, from the harvesting mask; false is the index error. */
    method CreateHarvestingMaps(mask: set<nat>, locations: seq<int>) returns (ok: bool, ghost harvested: seq<int>, ghost from: seq<nat>)
      requires 7 <= rowCount <= 16
      requires forall i :: 0 <= i < |locations| ==> 0 <= locations[i] < rowCount && !IsEth(locations[i])
      requires Distinct(locations)
      modifies this
      ensures ok <==> forall h :: h in mask ==> h < |locations|
      ensures ok ==> Built(harvested)
      ensures ok ==> (forall h :: h in from <==> h in mask) && forall i, k :: 0 <= i < k < |from| ==> from[i] < from[k]
      ensures ok ==> |from| == |mask| == |harvested| && forall i :: 0 <= i < |from| ==>
        from[i] < |locations| && harvested[i] == locations[from[i]]
      ensures ok ==> var first := 16 + rowCount - |mask|; forall t :: first <= t < 16 + rowCount ==>
        t in nocTrToNoc0 && nocTrToNoc0[t] == locations[from[t - first]]
    {
      harvested := [];
      FewLocations(rowCount, locations);
      var rows;
      rows, from := GetHarvestedRows(mask, locations);
      if rows.None? {
        return false, [], from;
      }
      hide Distinct, Functional, RowMaps;
      harvested := rows.value;
      forall i | 0 <= i < |rows.value|
        ensures 0 <= rows.value[i] < rowCount && !IsEth(rows.value[i])
      {
        assert rows.value[i] in rows.value;
      }
      CreateTensixNetlistMap(rows.value);
      ok := CreateNocTrMap(|mask|, rows.value);
      if ok {
        HarvestedPlaces(harvested);
      }
    }

    lemma RowsPlaced(harvested: seq<int>)
      requires Built(harvested)
      ensures var rows := Functional(rowCount, harvested);
        && |rows| == rowCount - 2 - |harvested|
        && (forall k :: 0 <= k < |rows| ==> 18 + k in nocTrToNoc0 && nocTrToNoc0[18 + k] == rows[k])
    {
      TranslatedParts(rowCount, harvested);
      hide Functional, Translated, RowMaps;
    }

    lemma HarvestedPlaces(harvested: seq<int>)
      requires Built(harvested)
      ensures var first := 16 + rowCount - |harvested|; forall t :: first <= t < 16 + rowCount ==>
        t in nocTrToNoc0 && nocTrToNoc0[t] == harvested[t - first]
    {
      RowsAdd(rowCount, harvested);
      hide Functional, RowMaps, Harvest;
      var first := 16 + rowCount - |harvested|;
      forall t | first <= t < 16 + rowCount
        ensures t in nocTrToNoc0 && nocTrToNoc0[t] == harvested[t - first]
      {
        assert nocTrToNoc0[t] == Translated(rowCount, harvested, t);
      }
    }

    /** Row by row what has been built: the Ethernet rows, then the working rows in ascending
        order, each with its netlist row, then the harvested rows in the order given. */
    lemma BuiltRows(harvested: seq<int>)
      requires Built(harvested)
      ensures 0 in nocTrToNoc0 && 16 in nocTrToNoc0 && nocTrToNoc0[16] == 0 && 17 in nocTrToNoc0 && nocTrToNoc0[17] == 6
      ensures forall t :: 18 <= t < 16 + rowCount - |harvested| ==>
        && t in nocTrToNoc0 && t - 18 in netlistToTensix
        && var y := nocTrToNoc0[t];
           0 < y < rowCount && y != 6 && y !in harvested && netlistToTensix[t - 18] == if y < 6 then y - 1 else y - 2
      ensures forall t, u :: 18 <= t < u < 16 + rowCount - |harvested| ==> nocTrToNoc0[t] < nocTrToNoc0[u]
      ensures var first := 16 + rowCount - |harvested|; forall t :: first <= t < 16 + rowCount ==>
        t in nocTrToNoc0 && nocTrToNoc0[t] == harvested[t - first]
    {
      TranslatedParts(rowCount, harvested);
      HarvestedPlaces(harvested);
      RowsPlaced(harvested);
      FunctionalFacts(rowCount, harvested);
      var rows := Functional(rowCount, harvested);
      hide Functional, Translated, Harvest;
      forall t | 18 <= t < 18 + |rows|
        ensures t in nocTrToNoc0 && nocTrToNoc0[t] == rows[t - 18] && rows[t - 18] in rows
      {
        assert nocTrToNoc0[18 + (t - 18)] == rows[t - 18];
      }
    }

    // ----- conversions

    function NetlistToNoc0(row: int, col: int): Option<(int, int)>
      reads this
    {
      if row in netlistToTensix then Some(TensixToNoc0(netlistToTensix[row], col)) else None
    }

    function Noc0ToNetlist(x: int, y: int): Option<(int, int)>
      reads this
    {
      match Noc0ToTensix(x, y)
      case None => None
      case Some((row, col)) => if row in tensixToNetlist then Some((tensixToNetlist[row], col)) else None
    }

    function Noc0ToNocTr(x: int, y: int): Option<(int, int)>
      reads this
    {
      if y in noc0ToNocTr && x in NOC0_X_TO_NOCTR_X then Some((NOC0_X_TO_NOCTR_X[x], noc0ToNocTr[y])) else None
    }
  }

  /** What is picked from the table by the bits of a mask. */
  lemma Picked(rowCount: nat, mask: set<nat>, locations: seq<int>, from: seq<nat>, found: seq<int>)
    requires |found| == |from| && forall i :: 0 <= i < |from| ==> from[i] < |locations| && found[i] == locations[from[i]]
    requires forall i, k :: 0 <= i < k < |from| ==> from[i] < from[k]
    requires forall h :: h in from <==> h in mask && h < rowCount
    ensures |found| <= |mask| && (|found| == |mask| <==> forall h :: h in mask ==> h < rowCount)
    ensures forall y :: y in found <==> exists h :: h in mask && h < rowCount && h < |locations| && locations[h] == y
    ensures Distinct(locations) ==> Distinct(found)
  {
    if Distinct(locations) {
      PickedDistinct(locations, from, found);
    }
    hide Distinct;
    PickedMembers(rowCount, mask, locations, from, found);
    var seen := set h | h in mask && h < rowCount;
    forall i | 0 <= i < |from|
      ensures from[i] in seen
    {
      assert from[i] in from;
    }
    CountFrom(from, seen);
    SubsetSize(seen, mask);
    assert seen == mask <==> forall h :: h in mask ==> h < rowCount;
  }

  lemma PickedMembers(rowCount: nat, mask: set<nat>, locations: seq<int>, from: seq<nat>, found: seq<int>)
    requires |found| == |from| && forall i :: 0 <= i < |from| ==> from[i] < |locations| && found[i] == locations[from[i]]
    requires forall h :: h in from <==> h in mask && h < rowCount
    ensures forall y :: y in found <==> exists h :: h in mask && h < rowCount && h < |locations| && locations[h] == y
  {
    forall h | h in mask && h < rowCount && h < |locations|
      ensures locations[h] in found
    {
      var i :| 0 <= i < |from| && from[i] == h;
      assert found[i] == locations[h];
    }
    forall y | y in found
      ensures exists h :: h in mask && h < rowCount && h < |locations| && locations[h] == y
    {
      var i :| 0 <= i < |found| && found[i] == y;
      assert from[i] in from;
    }
  }

  /** Picking at ascending positions repeats nothing that is not repeated already. */
  lemma PickedDistinct(locations: seq<int>, from: seq<nat>, found: seq<int>)
    requires Distinct(locations) && |found| == |from|
    requires forall i, k :: 0 <= i < k < |from| ==> from[i] < from[k]
    requires forall i :: 0 <= i < |from| ==> from[i] < |locations| && found[i] == locations[from[i]]
    ensures Distinct(found)
  {}

  /** Different rows of the chip are no more than it has rows. */
  lemma FewLocations(rowCount: nat, locations: seq<int>)
    requires forall i :: 0 <= i < |locations| ==> 0 <= locations[i] < rowCount
    requires Distinct(locations)
    ensures |locations| <= rowCount
  {
    SetOfDistinct(locations);
    SubsetSize(SetOf(locations), RowSet(rowCount));
  }

  ghost predicate IsEntered(rowCount: nat, harvested: seq<int>, n: nat, nocTrToNoc0: map<int, int>, keys: seq<int>)
    requires Harvest(rowCount, harvested) && n <= rowCount
  {
    && keys == Range(0, rowCount) + Range(16, n)
    && (forall t :: t in nocTrToNoc0 <==> 0 <= t < rowCount || 16 <= t < 16 + n)
    && (forall t :: 0 <= t < rowCount ==> nocTrToNoc0[t] == t)
    && (forall t :: 16 <= t < 16 + n ==> nocTrToNoc0[t] == Translated(rowCount, harvested, t))
  }

  lemma EnteredNext(rowCount: nat, harvested: seq<int>, n: nat, nocTrToNoc0: map<int, int>, keys: seq<int>)
    requires Harvest(rowCount, harvested) && n < rowCount && IsEntered(rowCount, harvested, n, nocTrToNoc0, keys)
    ensures 16 + n !in nocTrToNoc0
    ensures IsEntered(rowCount, harvested, n + 1, nocTrToNoc0[16 + n := Translated(rowCount, harvested, 16 + n)], keys + [16 + n])
  {
    hide Translated;
    assert keys + [16 + n] == Range(0, rowCount) + Range(16, n + 1);
  }

  function Range(start: int, n: nat): (r: seq<int>)
    ensures |r| == n && forall i :: 0 <= i < n ==> r[i] == start + i
  {
    seq(n, i => start + i)
  }

  lemma {:induction false} FunctionalPrefix(n: nat, m: nat, harvested: seq<int>)
    requires n <= m
    ensures |Functional(n, harvested)| <= |Functional(m, harvested)|
    ensures forall i :: 0 <= i < |Functional(n, harvested)| ==> Functional(m, harvested)[i] == Functional(n, harvested)[i]
    decreases m
  {
    if n < m { FunctionalPrefix(n, m - 1, harvested); }
  }

  /** How the running counter of working rows moves over row y. */
  lemma NextWorking(y: nat, m: nat, harvested: seq<int>)
    requires y < m
    ensures |Functional(y + 1, harvested)| <= |Functional(m, harvested)|
    ensures y in harvested || IsEth(y) ==> |Functional(y + 1, harvested)| == |Functional(y, harvested)|
    ensures y !in harvested && !IsEth(y) ==> |Functional(y + 1, harvested)| == |Functional(y, harvested)| + 1
    ensures y !in harvested && !IsEth(y) ==> Functional(m, harvested)[|Functional(y, harvested)|] == y
  {
    FunctionalPrefix(y + 1, m, harvested);
  }

  lemma NoRows(harvested: seq<int>)
    ensures Functional(0, harvested) == []
  {}

  lemma TranslatedParts(rowCount: nat, harvested: seq<int>)
    requires Harvest(rowCount, harvested)
    ensures |Functional(rowCount, harvested)| + |harvested| + 2 == rowCount
    ensures Translated(rowCount, harvested, 16) == 0 && Translated(rowCount, harvested, 17) == 6
    ensures forall k :: 0 <= k < |Functional(rowCount, harvested)| ==>
      Translated(rowCount, harvested, 18 + k) == Functional(rowCount, harvested)[k]
    ensures forall k :: 0 <= k < |harvested| ==>
      Translated(rowCount, harvested, 16 + rowCount - |harvested| + k) == harvested[k]
  {
    hide Functional, Harvest;
    RowsAdd(rowCount, harvested);
  }

  /** Netlist rows number the working rows in order and without gaps; every working core
      at netlist (row, col) has a noc0 coordinate that converts back, and its translated
      coordinate is (18 + col, 18 + row). */
  lemma CoreCoordinates(d: Device, harvested: seq<int>, row: nat, col: nat)
    requires d.Built(harvested) && col < 8
    ensures d.NetlistToNoc0(row, col).Some? <==> row < d.rowCount - 2 - |harvested|
    ensures row < d.rowCount - 2 - |harvested| ==>
      var (x, y) := d.NetlistToNoc0(row, col).value;
      && 0 <= y < d.rowCount && y !in harvested && !IsEth(y)
      && d.Noc0ToNetlist(x, y) == Some((row as int, col as int))
      && d.Noc0ToNocTr(x, y) == Some((18 + col, 18 + row))
  {
    RowsAdd(d.rowCount, harvested);
    FunctionalFacts(d.rowCount, harvested);
    var rows := Functional(d.rowCount, harvested);
    if row < |rows| {
      var y := rows[row];
      assert y in rows;
      assert TensixToNoc0(TensixRow(y), col).1 == y;
      assert Translated(d.rowCount, harvested, 18 + row) == y;
      assert d.nocTrToNoc0[18 + row] == y;
    }
  }

  /** Order is kept: the netlist rows ascend with the noc0 rows. */
  lemma NetlistKeepsOrder(d: Device, harvested: seq<int>, r: nat, s: nat, col: nat)
    requires d.Built(harvested) && r < s < d.rowCount - 2 - |harvested| && col < 8
    ensures d.NetlistToNoc0(r, col).Some? && d.NetlistToNoc0(s, col).Some?
    ensures d.NetlistToNoc0(r, col).value.1 < d.NetlistToNoc0(s, col).value.1
  {
    RowsAdd(d.rowCount, harvested);
    FunctionalFacts(d.rowCount, harvested);
    var rows := Functional(d.rowCount, harvested);
    assert rows[r] in rows && rows[s] in rows;
  }

  /** The Wormhole table meets what the map builders rely on, so every mask of ten bits works. */
  lemma WormholeTable()
    ensures |HARVESTING_NOC_LOCATIONS| == 10
    ensures forall i :: 0 <= i < 10 ==> 0 <= HARVESTING_NOC_LOCATIONS[i] < 12 && !IsEth(HARVESTING_NOC_LOCATIONS[i])
    ensures Distinct(HARVESTING_NOC_LOCATIONS)
  {}

  /** The two row maps list the given rows: netlist rows are numbered without gaps, and
      the maps are inverse to each other. */
  ghost predicate RowMaps(rows: seq<int>, netlistToTensix: map<int, int>, tensixToNetlist: map<int, int>) {
    && (forall k :: k in netlistToTensix <==> 0 <= k < |rows|)
    && (forall k :: 0 <= k < |rows| ==>
          netlistToTensix[k] == TensixRow(rows[k]) && netlistToTensix[k] in tensixToNetlist
          && tensixToNetlist[netlistToTensix[k]] == k)
    && (forall r :: r in tensixToNetlist ==>
          tensixToNetlist[r] in netlistToTensix && netlistToTensix[tensixToNetlist[r]] == r)
  }

  lemma RowMapsExtend(rows: seq<int>, y: int, netlistToTensix: map<int, int>, tensixToNetlist: map<int, int>)
    requires RowMaps(rows, netlistToTensix, tensixToNetlist)
    requires forall r :: r in tensixToNetlist ==> r < TensixRow(y)
    ensures RowMaps(rows + [y], netlistToTensix[|rows| := TensixRow(y)], tensixToNetlist[TensixRow(y) := |rows|])
  {
    hide TensixRow;
  }

  lemma {:induction false} CountFrom(from: seq<nat>, mask: set<nat>)
    requires forall i, k :: 0 <= i < k < |from| ==> from[i] < from[k]
    requires forall i :: 0 <= i < |from| ==> from[i] in mask
    requires forall g :: g in mask ==> g in from
    ensures |from| == |mask|
    decreases |from|
  {
    if from == [] {
      assert mask == {};
    } else {
      var n := |from| - 1;
      assert forall g :: g in from <==> g in from[..n] || g == from[n];
      CountFrom(from[..n], mask - {from[n]});
    }
  }
}
