/** Disjoint cost grains: the latest revision of every dated grain, and an index over submasks of
    the named dimensions that stands in for a pairwise overlap test. */
module Costs {
  import opened Sequences
  import opened Ordering

  /** One bit per dimension: campaign, ad group, country and, if included, creative. */
  datatype Mask = Mask(bits: bv4) {
    function And(other: Mask): Mask { Mask(bits & other.bits) }
    predicate Names(i: int) { bits & Bit(i) != 0 }
  }

  datatype Cell = Cell(tenantId: string, appId: string, network: string, date: string)

  datatype Cost = Cost(costRecordId: string, asOf: string, cell: Cell, campaignId: Option<string>,
                       adGroupId: Option<string>, country: Option<string>, creativeId: Option<string>, rest: string)

  datatype Grain = Grain(cell: Cell, values: seq<Option<string>>)

  function Values(row: Cost, includeCreative: bool): seq<Option<string>> {
    [row.campaignId, row.adGroupId, row.country] + (if includeCreative then [row.creativeId] else [])
  }

  function GrainOf(row: Cost, includeCreative: bool): Grain { Grain(row.cell, Values(row, includeCreative)) }

  function Bit(i: int): bv4 { if i == 0 then 1 else if i == 1 then 2 else if i == 2 then 4 else 8 }

  /** The dimensions a row names. */
  function MaskOf(values: seq<Option<string>>): Mask
    requires |values| <= 4
  {
    Mask((if |values| > 0 && values[0].Some? then 1 else 0)
         | (if |values| > 1 && values[1].Some? then 2 else 0)
         | (if |values| > 2 && values[2].Some? then 4 else 0)
         | (if |values| > 3 && values[3].Some? then 8 else 0))
  }

  /** The values at the dimensions of a mask, in order. */
  function Project(values: seq<Option<string>>, mask: Mask): seq<Option<string>> {
    if values == [] then []
    else
      var front := Project(values[..|values| - 1], mask);
      if mask.Names(|values| - 1) then front + [values[|values| - 1]] else front
  }

  predicate Submask(a: Mask, b: Mask) { a.bits & b.bits == a.bits }

  // ----- Order and revisions

  function CostKey(row: Cost): seq<seq<int>> { [Utf16Key(row.asOf), Utf16Key(row.costRecordId)] }

  function ByAsOf(): (Cost, Cost) -> bool { (a: Cost, b: Cost) => CompareTuples(CostKey(a), CostKey(b)) <= 0 }

  /** The row is the last of its grain. */
  predicate Latest(sorted: seq<Cost>, i: nat, includeCreative: bool)
    requires i < |sorted|
  {
    forall j :: i < j < |sorted| ==> GrainOf(sorted[j], includeCreative) != GrainOf(sorted[i], includeCreative)
  }

  /** The latest revision of every grain, as one pass over a dictionary leaves it. */
  function Revisions(sorted: seq<Cost>, includeCreative: bool): map<Grain, Cost> {
    if sorted == [] then map[]
    else
      var row := sorted[|sorted| - 1];
      Revisions(sorted[..|sorted| - 1], includeCreative)[GrainOf(row, includeCreative) := row]
  }

  ghost predicate IsLatest(sorted: seq<Cost>, row: Cost, includeCreative: bool) {
    exists i :: 0 <= i < |sorted| && sorted[i] == row && Latest(sorted, i, includeCreative)
  }

  /** One more row: it is the latest, and displaces the rows of its grain. */
  lemma LatestMore(front: seq<Cost>, last: Cost, row: Cost, includeCreative: bool)
    ensures IsLatest(front + [last], row, includeCreative) <==>
      row == last
      || (IsLatest(front, row, includeCreative) && GrainOf(row, includeCreative) != GrainOf(last, includeCreative))
  {
    var all, n := front + [last], |front|;
    assert all[n] == last && Latest(all, n, includeCreative);
    forall i: nat | i < n
      ensures Latest(all, i, includeCreative) <==>
        Latest(front, i, includeCreative) && GrainOf(front[i], includeCreative) != GrainOf(last, includeCreative)
    {
      assert all[i] == front[i];
      assert forall j :: i < j < n ==> all[j] == front[j];
    }
    if IsLatest(front, row, includeCreative) && GrainOf(row, includeCreative) != GrainOf(last, includeCreative) {
      var i :| 0 <= i < n && front[i] == row && Latest(front, i, includeCreative);
      assert all[i] == row && Latest(all, i, includeCreative);
    }
  }

  lemma {:induction false} RevisionsAreLatest(sorted: seq<Cost>, includeCreative: bool)
    ensures forall g :: g in Revisions(sorted, includeCreative) ==>
              GrainOf(Revisions(sorted, includeCreative)[g], includeCreative) == g
    ensures forall row :: IsLatest(sorted, row, includeCreative) <==>
              GrainOf(row, includeCreative) in Revisions(sorted, includeCreative)
              && Revisions(sorted, includeCreative)[GrainOf(row, includeCreative)] == row
  {
    if sorted != [] {
      var front, last := sorted[..|sorted| - 1], sorted[|sorted| - 1];
      assert sorted == front + [last];
      RevisionsAreLatest(front, includeCreative);
      forall row ensures IsLatest(sorted, row, includeCreative) <==>
              GrainOf(row, includeCreative) in Revisions(sorted, includeCreative)
              && Revisions(sorted, includeCreative)[GrainOf(row, includeCreative)] == row
      {
        LatestMore(front, last, row, includeCreative);
      }
    }
  }

  // ----- Projection decides agreement

  /** Two grains agree on every dimension both name: absence proves no separation. */
  predicate Agree(v: seq<Option<string>>, w: seq<Option<string>>)
    requires |v| == |w|
  {
    forall i :: 0 <= i < |v| && v[i].Some? && w[i].Some? ==> v[i] == w[i]
  }

  lemma {:induction false} ProjectSize(v: seq<Option<string>>, w: seq<Option<string>>, bits: Mask)
    requires |v| == |w|
    ensures |Project(v, bits)| == |Project(w, bits)|
  {
    if v != [] { ProjectSize(v[..|v| - 1], w[..|w| - 1], bits); }
  }

  lemma {:induction false} EqualProjections(v: seq<Option<string>>, w: seq<Option<string>>, bits: Mask)
    requires |v| == |w|
    ensures Project(v, bits) == Project(w, bits)
       <==> forall i :: 0 <= i < |v| && bits.Names(i) ==> v[i] == w[i]
  {
    if v != [] {
      var n := |v| - 1;
      var a, b := Project(v[..n], bits), Project(w[..n], bits);
      ProjectSize(v[..n], w[..n], bits);
      EqualProjections(v[..n], w[..n], bits);
      if bits.Names(n) {
        assert Project(v, bits) == a + [v[n]] && Project(w, bits) == b + [w[n]];
        if a + [v[n]] == b + [w[n]] {
          assert a == (a + [v[n]])[..|a|] == (b + [w[n]])[..|b|] == b;
          assert (a + [v[n]])[|a|] == (b + [w[n]])[|b|];
        }
      }
    }
  }

  lemma MaskBits(v: seq<Option<string>>, i: int)
    requires 0 <= i < |v| <= 4
    ensures MaskOf(v).Names(i) <==> v[i].Some?
  { }

  lemma BothBits(a: Mask, b: Mask, i: int)
    ensures a.And(b).Names(i) <==> a.Names(i) && b.Names(i)
  { }

  /** Looking up one projection is the pairwise test. */
  lemma ProjectionIsAgreement(v: seq<Option<string>>, w: seq<Option<string>>)
    requires |v| == |w| <= 4
    ensures Project(v, MaskOf(v).And(MaskOf(w))) == Project(w, MaskOf(v).And(MaskOf(w))) <==> Agree(v, w)
  {
    var bits := MaskOf(v).And(MaskOf(w));
    forall i | 0 <= i < |v| ensures bits.Names(i) <==> v[i].Some? && w[i].Some? {
      MaskBits(v, i);
      MaskBits(w, i);
      BothBits(MaskOf(v), MaskOf(w), i);
    }
    EqualProjections(v, w, bits);
  }

  // ----- The index

  type Projections = map<Mask, set<seq<Option<string>>>>

  function Next(subset: Mask, mask: Mask): Mask
    requires subset.bits != 0
  {
    Mask((subset.bits - 1) & mask.bits)
  }

  predicate Below(a: Mask, b: Mask) { a.bits < b.bits }

  /** The step of the submask loop reaches the greatest submask below the current one. */
  lemma NextSubmask(subset: Mask, mask: Mask, t: Mask)
    requires Submask(subset, mask) && subset.bits != 0
    ensures Submask(Next(subset, mask), mask) && Below(Next(subset, mask), subset)
    ensures Submask(t, mask) ==> (Below(t, subset) <==> !Below(Next(subset, mask), t))
    ensures Below(subset, t) ==> Below(Next(subset, mask), t)
  { }

  lemma IntersectionIsSubmask(a: Mask, b: Mask)
    ensures Submask(a.And(b), a) && Submask(a.And(b), b)
  { }

  ghost predicate Complete(projections: Projections, mask: Mask) {
    forall t: Mask :: t in projections <==> Submask(t, mask)
  }

  function At(projections: Projections, t: Mask): set<seq<Option<string>>> {
    if t in projections then projections[t] else {}
  }

  /** The row has been filed under the visited masks and nowhere else. */
  ghost predicate FiledUnder(before: Projections, after: Projections, visited: seq<Mask>, values: seq<Option<string>>) {
    forall t: Mask ::
      && (t in after <==> t in before || t in visited)
      && At(after, t) == if t in visited then At(before, t) + {Project(values, t)} else At(before, t)
  }

  lemma FileOnce(before: Projections, after: Projections, visited: seq<Mask>, values: seq<Option<string>>, subset: Mask)
    requires FiledUnder(before, after, visited, values) && subset !in visited
    ensures FiledUnder(before, after[subset := At(after, subset) + {Project(values, subset)}],
                       visited + [subset], values)
  { }

  /** The submasks strictly above a mask have been visited. */
  ghost predicate VisitedAbove(visited: seq<Mask>, mask: Mask, subset: Mask) {
    Distinct(visited) && forall t: Mask :: t in visited <==> Submask(t, mask) && Below(subset, t)
  }

  lemma VisitNext(visited: seq<Mask>, mask: Mask, subset: Mask)
    requires Submask(subset, mask) && VisitedAbove(visited, mask, subset)
    ensures subset !in visited && Distinct(visited + [subset])
    ensures subset.bits == 0 ==> forall t: Mask :: t in visited + [subset] <==> Submask(t, mask)
    ensures subset.bits != 0 ==> VisitedAbove(visited + [subset], mask, Next(subset, mask))
  { }

  /** Files the row under every submask of its mask, each visited once. */
  method AddProjections(before: Projections, mask: Mask, values: seq<Option<string>>)
    returns (projections: Projections, ghost visited: seq<Mask>)
    ensures forall t: Mask :: t in projections <==> t in before || Submask(t, mask)
    ensures forall t: Mask :: Submask(t, mask) ==> At(projections, t) == At(before, t) + {Project(values, t)}
    ensures FiledUnder(before, projections, visited, values)
    ensures Distinct(visited) && forall t: Mask :: t in visited <==> Submask(t, mask)
  {
    projections, visited := before, [];
    var subset := mask;
    while true
      invariant Submask(subset, mask) && VisitedAbove(visited, mask, subset)
      invariant FiledUnder(before, projections, visited, values)
      decreases subset.bits as int
    {
      VisitNext(visited, mask, subset);
      FileOnce(before, projections, visited, values, subset);
      projections := projections[subset := At(projections, subset) + {Project(values, subset)}];
      visited := visited + [subset];
      if subset.bits == 0 { break; }
      NextSubmask(subset, mask, subset);
      subset := Next(subset, mask);
    }
  }

  type CellIndex = map<Mask, Projections>

  type Dimensions = seq<Option<string>>

  ghost function MasksOf(seen: set<Dimensions>): set<Mask> { set v | v in seen && |v| <= 4 :: MaskOf(v) }

  ghost function ProjectionsOf(seen: set<Dimensions>, m: Mask, t: Mask): set<Dimensions> {
    set v | v in seen && |v| <= 4 && MaskOf(v) == m :: Project(v, t)
  }

  /** The index of a cell holds, by mask, every projection of every grain seen, onto every submask. */
  ghost predicate Indexes(index: CellIndex, seen: set<Dimensions>, width: nat) {
    && width <= 4 && (forall v :: v in seen ==> |v| == width)
    && index.Keys == MasksOf(seen)
    && (forall m: Mask :: m in index ==> Holds(index[m], m, seen))
  }

  ghost predicate Holds(projections: Projections, m: Mask, seen: set<Dimensions>) {
    && (forall t: Mask :: t in projections <==> Submask(t, m))
    && (forall t: Mask :: t in projections ==> projections[t] == ProjectionsOf(seen, m, t))
  }

  /** One lookup per mask present decides whether any grain seen agrees with the new one. */
  method Scan(index: CellIndex, values: Dimensions, ghost seen: set<Dimensions>) returns (overlap: bool)
    requires |values| <= 4 && Indexes(index, seen, |values|)
    ensures overlap <==> exists v :: v in seen && |v| == |values| && Agree(v, values)
  {
    overlap := false;
    var mask := MaskOf(values);
    var pending := index.Keys;
    while pending != {}
      invariant pending <= index.Keys
      invariant overlap <==> exists v :: v in seen && |v| == |values| && MaskOf(v) !in pending && Agree(v, values)
      decreases |pending|
    {
      var previous :| previous in pending;
      pending := pending - {previous};
      var shared := previous.And(mask);
      IntersectionIsSubmask(previous, mask);
      ghost var p := Project(values, shared);
      assert index[previous][shared] == ProjectionsOf(seen, previous, shared);
      forall v | v in seen && MaskOf(v) == previous ensures Project(v, shared) == p <==> Agree(v, values) {
        ProjectionIsAgreement(v, values);
      }
      if Project(values, shared) in index[previous][shared] { overlap := true; }
    }
  }

  lemma ProjectionsMore(seen: set<Dimensions>, values: Dimensions, m: Mask, t: Mask)
    requires |values| <= 4
    ensures ProjectionsOf(seen + {values}, m, t)
         == ProjectionsOf(seen, m, t) + (if MaskOf(values) == m then {Project(values, t)} else {})
  { }

  lemma NothingSeen(seen: set<Dimensions>, m: Mask, t: Mask)
    requires m !in MasksOf(seen)
    ensures ProjectionsOf(seen, m, t) == {}
  { }

  function Under(index: CellIndex, m: Mask): Projections { if m in index then index[m] else map[] }

  lemma OwnMask(before: Projections, seen: set<Dimensions>, values: Dimensions, projections: Projections,
                visited: seq<Mask>)
    requires |values| <= 4
    requires Holds(before, MaskOf(values), seen) || (before == map[] && MaskOf(values) !in MasksOf(seen))
    requires FiledUnder(before, projections, visited, values)
    requires forall t: Mask :: t in visited <==> Submask(t, MaskOf(values))
    ensures Holds(projections, MaskOf(values), seen + {values})
  {
    var mask := MaskOf(values);
    forall t: Mask | t in projections ensures projections[t] == ProjectionsOf(seen + {values}, mask, t) {
      ProjectionsMore(seen, values, mask, t);
      if before == map[] && mask !in MasksOf(seen) { NothingSeen(seen, mask, t); }
      assert projections[t] == At(projections, t);
    }
  }

  lemma Reindexed(index: CellIndex, before: set<Dimensions>, values: Dimensions, projections: Projections)
    requires |values| <= 4 && Indexes(index, before, |values|)
    requires Holds(projections, MaskOf(values), before + {values})
    ensures Indexes(index[MaskOf(values) := projections], before + {values}, |values|)
  { }

  lemma SeenMore(index: CellIndex, before: set<Dimensions>, values: Dimensions, projections: Projections,
                 visited: seq<Mask>)
    requires |values| <= 4 && Indexes(index, before, |values|)
    requires FiledUnder(Under(index, MaskOf(values)), projections, visited, values)
    requires forall t: Mask :: t in visited <==> Submask(t, MaskOf(values))
    ensures Indexes(index[MaskOf(values) := projections], before + {values}, |values|)
  {
    OwnMask(Under(index, MaskOf(values)), before, values, projections, visited);
    Reindexed(index, before, values, projections);
  }

  // ----- The whole selection

  ghost function Seen(rows: seq<Cost>, cell: Cell, includeCreative: bool): set<Dimensions> {
    set row | row in rows && row.cell == cell :: Values(row, includeCreative)
  }

  ghost predicate Clash(rows: seq<Cost>, i: nat, j: nat, includeCreative: bool)
    requires i < |rows| && j < |rows|
  {
    rows[i].cell == rows[j].cell && Agree(Values(rows[i], includeCreative), Values(rows[j], includeCreative))
  }

  ghost predicate SomeOverlap(rows: seq<Cost>, includeCreative: bool) {
    exists i, j :: 0 <= i < j < |rows| && Clash(rows, i, j, includeCreative)
  }

  /** Some grain seen in the row's cell agrees with it. */
  ghost predicate AgreesWithSeen(rows: seq<Cost>, row: Cost, includeCreative: bool) {
    exists v :: v in Seen(rows, row.cell, includeCreative) && |v| == |Values(row, includeCreative)|
                && Agree(v, Values(row, includeCreative))
  }

  lemma OverlapPersists(rows: seq<Cost>, row: Cost, includeCreative: bool)
    requires SomeOverlap(rows, includeCreative) || AgreesWithSeen(rows, row, includeCreative)
    ensures SomeOverlap(rows + [row], includeCreative)
  {
    var all, n := rows + [row], |rows|;
    if SomeOverlap(rows, includeCreative) {
      var i, j :| 0 <= i < j < n && Clash(rows, i, j, includeCreative);
      assert Clash(all, i, j, includeCreative);
    } else {
      var v :| v in Seen(rows, row.cell, includeCreative)
               && |v| == |Values(row, includeCreative)| && Agree(v, Values(row, includeCreative));
      var r :| r in rows && r.cell == row.cell && Values(r, includeCreative) == v;
      var i :| 0 <= i < n && rows[i] == r;
      assert Clash(all, i, n, includeCreative);
    }
  }

  lemma OverlapArises(rows: seq<Cost>, row: Cost, includeCreative: bool)
    requires SomeOverlap(rows + [row], includeCreative)
    ensures SomeOverlap(rows, includeCreative) || AgreesWithSeen(rows, row, includeCreative)
  {
    var all, n := rows + [row], |rows|;
    var i, j :| 0 <= i < j < |all| && Clash(all, i, j, includeCreative);
    if j < n {
      assert Clash(rows, i, j, includeCreative);
    } else {
      assert rows[i] in rows && Values(rows[i], includeCreative) in Seen(rows, row.cell, includeCreative);
    }
  }

  function Within(cells: map<Cell, CellIndex>, cell: Cell): CellIndex { if cell in cells then cells[cell] else map[] }

  function Width(includeCreative: bool): nat { if includeCreative then 4 else 3 }

  ghost predicate CellsIndexed(cells: map<Cell, CellIndex>, rows: seq<Cost>, includeCreative: bool) {
    forall cell :: Indexes(Within(cells, cell), Seen(rows, cell, includeCreative), Width(includeCreative))
  }

  lemma SeenInCell(rows: seq<Cost>, row: Cost, cell: Cell, includeCreative: bool)
    ensures Seen(rows + [row], cell, includeCreative)
         == Seen(rows, cell, includeCreative) + (if cell == row.cell then {Values(row, includeCreative)} else {})
  { }

  lemma CellsMore(cells: map<Cell, CellIndex>, row: Cost, includeCreative: bool, rows: seq<Cost>, index: CellIndex)
    requires CellsIndexed(cells, rows, includeCreative)
    requires Indexes(index, Seen(rows, row.cell, includeCreative) + {Values(row, includeCreative)},
                     Width(includeCreative))
    ensures CellsIndexed(cells[row.cell := index], rows + [row], includeCreative)
  {
    var after := cells[row.cell := index];
    forall cell
      ensures Indexes(Within(after, cell), Seen(rows + [row], cell, includeCreative), Width(includeCreative))
    {
      SeenInCell(rows, row, cell, includeCreative);
      if cell == row.cell {
        assert Within(after, cell) == index;
      } else {
        assert Within(after, cell) == Within(cells, cell);
        assert Seen(rows + [row], cell, includeCreative) == Seen(rows, cell, includeCreative);
      }
    }
  }

  /** The row is filed in its cell's index; other cells are untouched. */
  method FileRow(cells: map<Cell, CellIndex>, row: Cost, includeCreative: bool, ghost rows: seq<Cost>)
    returns (cells': map<Cell, CellIndex>, overlap: bool)
    requires CellsIndexed(cells, rows, includeCreative)
    ensures CellsIndexed(cells', rows + [row], includeCreative)
    ensures overlap <==> AgreesWithSeen(rows, row, includeCreative)
  {
    var values := Values(row, includeCreative);
    var mask := MaskOf(values);
    var index := Within(cells, row.cell);
    ghost var seen := Seen(rows, row.cell, includeCreative);
    assert |values| == Width(includeCreative);
    assert Indexes(index, seen, |values|);
    overlap := Scan(index, values, seen);
    var projections, visited := AddProjections(Under(index, mask), mask, values);
    SeenMore(index, seen, values, projections, visited);
    CellsMore(cells, row, includeCreative, rows, index[mask := projections]);
    cells' := cells[row.cell := index[mask := projections]];
  }

  /** The index says overlapping exactly if two of the rows, in one cell, agree on every dimension
      both name. */
  method Overlapping(rows: seq<Cost>, includeCreative: bool) returns (overlapping: bool)
    ensures overlapping <==> SomeOverlap(rows, includeCreative)
  {
    overlapping := false;
    var cells: map<Cell, CellIndex> := map[];
    for i := 0 to |rows|
      invariant CellsIndexed(cells, rows[..i], includeCreative)
      invariant overlapping <==> SomeOverlap(rows[..i], includeCreative)
    {
      var overlap;
      assert rows[..i + 1] == rows[..i] + [rows[i]];
      cells, overlap := FileRow(cells, rows[i], includeCreative, rows[..i]);
      if overlap || overlapping {
        OverlapPersists(rows[..i], rows[i], includeCreative);
      } else if SomeOverlap(rows[..i + 1], includeCreative) {
        OverlapArises(rows[..i], rows[i], includeCreative);
      }
      if overlap { overlapping := true; }
    }
    assert rows[..|rows|] == rows;
  }

  function InOrderOf(order: seq<Grain>, revisions: map<Grain, Cost>): seq<Cost>
    requires forall g :: g in order ==> g in revisions
  {
    seq(|order|, i requires 0 <= i < |order| => revisions[order[i]])
  }

  /** The dictionary of latest revisions, in the order its keys were first seen. */
  method CollectRevisions(sorted: seq<Cost>, includeCreative: bool)
    returns (order: seq<Grain>, revisions: map<Grain, Cost>)
    ensures revisions == Revisions(sorted, includeCreative)
    ensures Distinct(order) && forall g :: g in order <==> g in revisions
  {
    order, revisions := [], map[];
    for i := 0 to |sorted|
      invariant revisions == Revisions(sorted[..i], includeCreative)
      invariant Distinct(order) && forall g :: g in order <==> g in revisions
    {
      var grain := GrainOf(sorted[i], includeCreative);
      assert sorted[..i + 1][..i] == sorted[..i];
      if grain !in revisions { order := order + [grain]; }
      revisions := revisions[grain := sorted[i]];
    }
    assert sorted[..|sorted|] == sorted;
  }

  lemma {:induction false} OncePerRow(rows: seq<Cost>, row: Cost)
    requires Distinct(rows)
    ensures multiset(rows)[row] <= 1
  {
    if rows != [] {
      OncePerRow(rows[..|rows| - 1], row);
      assert rows == rows[..|rows| - 1] + [rows[|rows| - 1]];
      if row == rows[|rows| - 1] { assert row !in rows[..|rows| - 1]; }
    }
  }

  lemma RevisionRows(sorted: seq<Cost>, order: seq<Grain>, includeCreative: bool)
    requires Distinct(order) && forall g :: g in order <==> g in Revisions(sorted, includeCreative)
    ensures Distinct(InOrderOf(order, Revisions(sorted, includeCreative)))
    ensures forall row ::
              row in InOrderOf(order, Revisions(sorted, includeCreative)) <==> IsLatest(sorted, row, includeCreative)
  {
    var revisions := Revisions(sorted, includeCreative);
    var rows := InOrderOf(order, revisions);
    RevisionsAreLatest(sorted, includeCreative);
    forall i, j | 0 <= i < j < |rows| ensures rows[i] != rows[j] {
      assert GrainOf(revisions[order[i]], includeCreative) == order[i];
      assert GrainOf(revisions[order[j]], includeCreative) == order[j];
    }
    forall row ensures row in rows <==> IsLatest(sorted, row, includeCreative) {
      if row in rows {
        var i :| 0 <= i < |rows| && rows[i] == row;
        assert GrainOf(revisions[order[i]], includeCreative) == order[i];
      }
      if IsLatest(sorted, row, includeCreative) {
        var i :| 0 <= i < |order| && order[i] == GrainOf(row, includeCreative);
        assert rows[i] == row;
      }
    }
  }

  lemma ByAsOfIsPreorder()
    ensures TotalPreorder(ByAsOf())
  {
    forall x, y ensures ByAsOf()(x, y) || ByAsOf()(y, x) { TuplesFlip(CostKey(x), CostKey(y)); }
    forall x, y, z | ByAsOf()(x, y) && ByAsOf()(y, z) ensures ByAsOf()(x, z) {
      TuplesTransitive(CostKey(x), CostKey(y), CostKey(z));
    }
  }

  // ----- The selection on the fields of the rows

  /** x was taken later than y, or as late under a greater record id. */
  predicate Newer(x: Cost, y: Cost) {
    Utf16Less(y.asOf, x.asOf) || (x.asOf == y.asOf && Utf16Less(y.costRecordId, x.costRecordId))
  }

  /** The rows are about one cell and one combination of dimensions. */
  predicate SameGrain(x: Cost, y: Cost, includeCreative: bool) {
    && x.cell.tenantId == y.cell.tenantId && x.cell.appId == y.cell.appId
    && x.cell.network == y.cell.network && x.cell.date == y.cell.date
    && x.campaignId == y.campaignId && x.adGroupId == y.adGroupId && x.country == y.country
    && (includeCreative ==> x.creativeId == y.creativeId)
  }

  /** Of the given rows none of its grain is newer; of those exactly as new it was given last. */
  ghost predicate Current(costs: seq<Cost>, row: Cost, includeCreative: bool) {
    exists i :: 0 <= i < |costs| && costs[i] == row && CurrentAt(costs, i, includeCreative)
  }

  ghost predicate CurrentAt(costs: seq<Cost>, i: nat, includeCreative: bool)
    requires i < |costs|
  {
    forall j :: 0 <= j < |costs| && SameGrain(costs[j], costs[i], includeCreative) ==>
      if j <= i then !Newer(costs[j], costs[i]) else Newer(costs[i], costs[j])
  }

  lemma NewerMeaning(x: Cost, y: Cost)
    ensures ByAsOf()(x, y) <==> !Newer(x, y)
  {
    Utf16Trichotomy(x.asOf, y.asOf);
    Utf16Trichotomy(x.costRecordId, y.costRecordId);
    TwoKeys(Utf16Key(x.asOf), Utf16Key(x.costRecordId), Utf16Key(y.asOf), Utf16Key(y.costRecordId));
  }

  lemma SameGrainMeaning(x: Cost, y: Cost, includeCreative: bool)
    ensures GrainOf(x, includeCreative) == GrainOf(y, includeCreative) <==> SameGrain(x, y, includeCreative)
  {
    var v, w := Values(x, includeCreative), Values(y, includeCreative);
    if v == w {
      assert v[0] == w[0] && v[1] == w[1] && v[2] == w[2];
      if includeCreative { assert v[3] == w[3]; }
    }
  }

  function OfGrain(row: Cost, includeCreative: bool): Cost -> bool {
    (x: Cost) => GrainOf(x, includeCreative) == GrainOf(row, includeCreative)
  }

  /** The latest of a grain is the last of the sorted rows of the grain. */
  lemma {:induction false} LatestIsLast(sorted: seq<Cost>, row: Cost, includeCreative: bool)
    ensures IsLatest(sorted, row, includeCreative) <==>
      var rows := Filter(sorted, OfGrain(row, includeCreative)); rows != [] && rows[|rows| - 1] == row
  {
    if sorted != [] {
      var front, last := sorted[..|sorted| - 1], sorted[|sorted| - 1];
      assert sorted == front + [last];
      LatestIsLast(front, row, includeCreative);
      LatestMore(front, last, row, includeCreative);
    }
  }

  /** The latest revision of a grain, on the fields of the given rows. */
  lemma LatestIsCurrent(costs: seq<Cost>, row: Cost, includeCreative: bool)
    ensures IsLatest(SortBy(costs, ByAsOf()), row, includeCreative) <==> Current(costs, row, includeCreative)
  {
    var f := OfGrain(row, includeCreative);
    ByAsOfIsPreorder();
    LatestIsLast(SortBy(costs, ByAsOf()), row, includeCreative);
    LastMaxIsLastSorted(costs, f, ByAsOf());
    LastMaxMeaning(costs, f, ByAsOf(), row);
    forall i: nat | i < |costs| && costs[i] == row
      ensures GreatestAt(costs, f, ByAsOf(), i) <==> CurrentAt(costs, i, includeCreative)
    {
      GreatestIsCurrent(costs, i, includeCreative);
    }
  }

  lemma GreatestIsCurrent(costs: seq<Cost>, i: nat, includeCreative: bool)
    requires i < |costs|
    ensures GreatestAt(costs, OfGrain(costs[i], includeCreative), ByAsOf(), i) <==> CurrentAt(costs, i, includeCreative)
  {
    forall x
      ensures ByAsOf()(x, costs[i]) <==> !Newer(x, costs[i])
      ensures ByAsOf()(costs[i], x) <==> !Newer(costs[i], x)
      ensures OfGrain(costs[i], includeCreative)(x) <==> SameGrain(x, costs[i], includeCreative)
    {
      NewerMeaning(x, costs[i]);
      NewerMeaning(costs[i], x);
      SameGrainMeaning(x, costs[i], includeCreative);
    }
  }

  /** Both rows name the dimension, and differ in it. */
  predicate Apart(x: Option<string>, y: Option<string>) { x.Some? && y.Some? && x != y }

  /** The rows are about one cell, and no dimension tells them apart. */
  predicate Overlaps(x: Cost, y: Cost, includeCreative: bool) {
    && x.cell.tenantId == y.cell.tenantId && x.cell.appId == y.cell.appId
    && x.cell.network == y.cell.network && x.cell.date == y.cell.date
    && !Apart(x.campaignId, y.campaignId) && !Apart(x.adGroupId, y.adGroupId) && !Apart(x.country, y.country)
    && (includeCreative ==> !Apart(x.creativeId, y.creativeId))
  }

  lemma ClashMeaning(rows: seq<Cost>, i: nat, j: nat, includeCreative: bool)
    requires i < |rows| && j < |rows|
    ensures Clash(rows, i, j, includeCreative) <==> Overlaps(rows[i], rows[j], includeCreative)
  {
    var v, w := Values(rows[i], includeCreative), Values(rows[j], includeCreative);
    if Agree(v, w) {
      assert (v[0].Some? && w[0].Some? ==> v[0] == w[0]) && (v[1].Some? && w[1].Some? ==> v[1] == w[1]);
      assert v[2].Some? && w[2].Some? ==> v[2] == w[2];
      if includeCreative { assert v[3].Some? && w[3].Some? ==> v[3] == w[3]; }
    }
  }

  lemma OverlapMeaning(rows: seq<Cost>, includeCreative: bool)
    ensures SomeOverlap(rows, includeCreative)
       <==> exists i, j :: 0 <= i < j < |rows| && Overlaps(rows[i], rows[j], includeCreative)
  {
    forall i: nat, j: nat | i < |rows| && j < |rows|
      ensures Clash(rows, i, j, includeCreative) <==> Overlaps(rows[i], rows[j], includeCreative)
    {
      ClashMeaning(rows, i, j, includeCreative);
    }
  }

  /** The selected rows are the eligible current revisions, each once and none before a less new one,
      and the flag is the pairwise test over them. */
  method SelectDisjointCosts(costs: seq<Cost>, includeCreative: bool, eligible: Cost -> bool)
    returns (rows: seq<Cost>, overlapping: bool)
    ensures forall row :: row in rows <==> eligible(row) && Current(costs, row, includeCreative)
    ensures forall row :: multiset(rows)[row] <= 1
    ensures forall i, j :: 0 <= i < j < |rows| ==> !Newer(rows[i], rows[j])
    ensures overlapping <==> exists i, j :: 0 <= i < j < |rows| && Overlaps(rows[i], rows[j], includeCreative)
  {
    var sorted := SortBy(costs, ByAsOf());
    var order, revisions := CollectRevisions(sorted, includeCreative);
    RevisionRows(sorted, order, includeCreative);
    var latest := InOrderOf(order, revisions);
    var kept := Filter(latest, eligible);
    rows := SortBy(kept, ByAsOf());
    SortElements(kept, ByAsOf());
    ByAsOfIsPreorder();
    SortSorts(kept, ByAsOf());
    FilterMembers(latest, eligible);
    FilterDistinct(latest, eligible);
    forall row ensures multiset(rows)[row] <= 1 { OncePerRow(kept, row); }
    overlapping := Overlapping(rows, includeCreative);
    OverlapMeaning(rows, includeCreative);
    forall row ensures IsLatest(sorted, row, includeCreative) <==> Current(costs, row, includeCreative) {
      LatestIsCurrent(costs, row, includeCreative);
    }
    forall i, j | 0 <= i < j < |rows| ensures !Newer(rows[i], rows[j]) { NewerMeaning(rows[i], rows[j]); }
  }
}
