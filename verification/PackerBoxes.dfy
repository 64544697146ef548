/** The boxes of the day timeline (Packer.js:6-52), on values: every event gets
    one, and no two of them overlap. */
module PackerBoxes {
  import opened Wrappers
  import opened PackerModel

  /** CALENDER_HEIGHT / 24, the height of an hour, and the gap between columns. */
  const OFFSET: real := 70.0
  const GUTTER: real := 10.0
  const HOUR: int := 3_600_000
  const DAY: int := 24 * HOUR

  datatype Box = Box(top: real, height: real, left: real, width: real)

  function Bottom(b: Box): real { b.top + b.height }
  function Right(b: Box): real { b.left + b.width }

  function Hours(ms: int): real { ms as real / HOUR as real }

  /** buildEvent, with times as milliseconds from the start of a day. */
  function BuildBox(ev: Ev, left: real, width: real): Box {
    Box(Hours(ev.start % DAY) * OFFSET, Hours(ev.end - ev.start) * OFFSET, left, width)
  }

  predicate ColumnFree(ev: Ev, col: Column) { forall j :: 0 <= j < |col| ==> !Collide(ev, col[j]) }

  /** expand: the event's own column, and the ones after it that are free. */
  function Span(cols: seq<Column>, ev: Ev, i: nat): (r: nat)
    requires i < |cols|
    ensures 1 <= r <= |cols| - i
    ensures forall k :: i < k < i + r ==> ColumnFree(ev, cols[k])
    ensures i + r < |cols| ==> !ColumnFree(ev, cols[i + r])
    decreases |cols| - i
  {
    if i + 1 < |cols| && ColumnFree(ev, cols[i+1]) then 1 + Span(cols, ev, i + 1) else 1
  }

  function Left(i: int, n: nat, width: real): real
    requires n >= 1
  {
    i as real / n as real * width
  }

  function Width(span: nat, n: nat, width: real): real
    requires n >= 1
  {
    width * span as real / n as real - GUTTER
  }

  /** An event and its box. */
  datatype Placed = Placed(ev: Ev, box: Box)

  function PlacedAt(cols: seq<Column>, i: nat, j: nat, width: real): Placed
    requires i < |cols| && j < |cols[i]|
  {
    var ev := cols[i][j];
    Placed(ev, BuildBox(ev, Left(i, |cols|, width), Width(Span(cols, ev, i), |cols|, width)))
  }

  /** The boxes of the first n events of a column. */
  function PackColumn(cols: seq<Column>, i: nat, n: nat, width: real): seq<Placed>
    requires i < |cols| && n <= |cols[i]|
  {
    seq(n, j requires 0 <= j < n => PlacedAt(cols, i, j, width))
  }

  /** The boxes of the first k columns. */
  function PackColumns(cols: seq<Column>, k: nat, width: real): seq<Placed>
    requires k <= |cols|
  {
    if k == 0 then [] else PackColumns(cols, k - 1, width) + PackColumn(cols, k - 1, |cols[k-1]|, width)
  }

  function PackAll(clusters: seq<seq<Column>>, width: real): seq<Placed> {
    if clusters == [] then []
    else
      var n := |clusters| - 1;
      PackAll(clusters[..n], width) + PackColumns(clusters[n], |clusters[n]|, width)
  }

  /** What populateEvents computes from the sorted events. */
  function Layout(s: seq<Ev>, width: real): seq<Placed> { PackAll(Clusters(s), width) }

  // ----- every event has one box -----

  function Evs(r: seq<Placed>): (evs: seq<Ev>)
    ensures |evs| == |r| && forall k :: 0 <= k < |r| ==> evs[k] == r[k].ev
  {
    seq(|r|, k requires 0 <= k < |r| => r[k].ev)
  }

  function Flat(cols: seq<Column>): seq<Ev> {
    if cols == [] then [] else Flat(cols[..|cols|-1]) + cols[|cols|-1]
  }

  function FlatAll(clusters: seq<seq<Column>>): seq<Ev> {
    if clusters == [] then [] else FlatAll(clusters[..|clusters|-1]) + Flat(clusters[|clusters|-1])
  }

  lemma {:induction false} ColumnsEvs(cols: seq<Column>, k: nat, width: real)
    requires k <= |cols|
    ensures Evs(PackColumns(cols, k, width)) == Flat(cols[..k])
  {
    hide PlacedAt;
    if k > 0 {
      ColumnsEvs(cols, k - 1, width);
      assert cols[..k][..k-1] == cols[..k-1];
      assert Evs(PackColumn(cols, k - 1, |cols[k-1]|, width)) == cols[k-1] by { ColumnEvs(cols, k - 1, width); }
    }
  }

  lemma ColumnEvs(cols: seq<Column>, i: nat, width: real)
    requires i < |cols|
    ensures Evs(PackColumn(cols, i, |cols[i]|, width)) == cols[i]
  {
    hide Span, BuildBox, Left, Width;
  }

  lemma {:induction false} AllEvs(clusters: seq<seq<Column>>, width: real)
    ensures Evs(PackAll(clusters, width)) == FlatAll(clusters)
  {
    if clusters != [] {
      var n := |clusters| - 1;
      AllEvs(clusters[..n], width);
      ColumnsEvs(clusters[n], |clusters[n]|, width);
      assert clusters[n][..|clusters[n]|] == clusters[n];
    }
  }

  lemma {:induction false} FlatUpdated(cols: seq<Column>, i: nat, ev: Ev)
    requires i < |cols|
    ensures multiset(Flat(cols[i := cols[i] + [ev]])) == multiset(Flat(cols)) + multiset{ev}
  {
    var n := |cols| - 1;
    var cols' := cols[i := cols[i] + [ev]];
    if i < n {
      assert cols'[..n] == cols[..n][i := cols[..n][i] + [ev]];
      FlatUpdated(cols[..n], i, ev);
    } else {
      assert cols'[..n] == cols[..n];
      MultisetOfSum(cols[i], [ev]);
    }
    MultisetOfSum(Flat(cols[..n]), cols[n]);
    MultisetOfSum(Flat(cols'[..n]), cols'[n]);
  }

  lemma PlaceFlat(cols: seq<Column>, ev: Ev)
    requires NonEmpty(cols)
    ensures multiset(Flat(Place(cols, ev))) == multiset(Flat(cols)) + multiset{ev}
  {
    var i := FirstFit(cols, ev, 0);
    if i < |cols| {
      FlatUpdated(cols, i, ev);
    } else {
      assert (cols + [[ev]])[..|cols|] == cols;
    }
  }

  lemma FlatAllAppend(clusters: seq<seq<Column>>, cols: seq<Column>)
    ensures FlatAll(clusters + [cols]) == FlatAll(clusters) + Flat(cols)
  {
    assert (clusters + [cols])[..|clusters|] == clusters;
  }

  function FlatState(st: State): seq<Ev> { FlatAll(st.done) + Flat(st.columns) }

  lemma FinishedFlat(st: State)
    ensures FlatAll(Finished(st)) == FlatState(st)
  {
    hide Flat, FlatAll;
    if st.columns == [] {
      assert FlatState(st) == FlatAll(st.done) by { EmptyFlat(); }
    } else {
      FlatAllAppend(st.done, st.columns);
    }
  }

  lemma EmptyFlat()
    ensures Flat([]) == []
  {
  }

  lemma StepFlat(st: State, ev: Ev)
    requires Proper(st)
    ensures multiset(FlatState(Step(st, ev))) == multiset(FlatState(st)) + multiset{ev}
  {
    hide Flat, FlatAll, Place;
    EmptyFlat();
    if st.lastEnd.Some? && ev.start >= st.lastEnd.value {
      FlatAllAppend(st.done, st.columns);
      PlaceFlat([], ev);
    } else {
      PlaceFlat(st.columns, ev);
    }
  }

  lemma {:induction false} RunFlat(s: seq<Ev>)
    ensures multiset(FlatState(Run(s))) == multiset(s)
  {
    hide FlatState, Step;
    if s == [] {
      EmptyState();
    } else {
      var p, ev := s[..|s|-1], s[|s|-1];
      RunFlat(p);
      assert s == p + [ev];
      StepFlat(Run(p), ev);
    }
  }

  lemma EmptyState()
    ensures FlatState(Run([])) == []
  {
  }

  /** Every event is laid out exactly once. */
  lemma EachOnce(s: seq<Ev>, width: real)
    ensures multiset(Evs(Layout(s, width))) == multiset(s)
  {
    AllEvs(Clusters(s), width);
    FinishedFlat(Run(s));
    RunFlat(s);
  }

  // ----- no two boxes overlap -----

  /** Where in the layout an entry comes from. */
  predicate At(clusters: seq<seq<Column>>, width: real, c: nat, i: nat, j: nat, p: Placed) {
    c < |clusters| && i < |clusters[c]| && j < |clusters[c][i]| && p == PlacedAt(clusters[c], i, j, width)
  }

  lemma {:induction false} LocateInColumns(cols: seq<Column>, n: nat, width: real, k: nat) returns (i: nat, j: nat)
    requires n <= |cols| && k < |PackColumns(cols, n, width)|
    ensures i < |cols| && j < |cols[i]| && PackColumns(cols, n, width)[k] == PlacedAt(cols, i, j, width)
  {
    hide PlacedAt;
    var before := |PackColumns(cols, n - 1, width)|;
    if k < before {
      i, j := LocateInColumns(cols, n - 1, width, k);
    } else {
      i, j := n - 1, k - before;
    }
  }

  lemma {:induction false} Locate(clusters: seq<seq<Column>>, width: real, k: nat) returns (c: nat, i: nat, j: nat)
    requires k < |PackAll(clusters, width)|
    ensures At(clusters, width, c, i, j, PackAll(clusters, width)[k])
  {
    hide PlacedAt;
    var n := |clusters| - 1;
    var before := |PackAll(clusters[..n], width)|;
    if k < before {
      c, i, j := Locate(clusters[..n], width, k);
    } else {
      c := n;
      i, j := LocateInColumns(clusters[n], |clusters[n]|, width, k - before);
    }
  }

  lemma Scale(a: nat, b: nat, n: nat, width: real)
    requires a <= b && n >= 1 && width >= 0.0
    ensures Left(a, n, width) <= Left(b, n, width)
    ensures Left(n, n, width) == width && Left(0, n, width) == 0.0
  {
    var x, y := a as real / n as real, b as real / n as real;
    assert y - x == (b - a) as real / n as real >= 0.0;
    assert (y - x) * width >= 0.0;
  }

  /** A box's right edge lies a gutter before the column its span ends at. */
  lemma RightEdge(i: nat, span: nat, n: nat, width: real)
    requires n >= 1
    ensures Left(i, n, width) + Width(span, n, width) == Left(i + span, n, width) - GUTTER
  {
    var u := 1.0 / n as real;
    assert i as real / n as real == i as real * u && (i + span) as real / n as real == (i + span) as real * u;
    assert width * span as real / n as real == span as real * u * width;
  }

  lemma SpanStopsBefore(cols: seq<Column>, i: nat, k: nat, a: Ev, b: Ev)
    requires i < k < |cols| && b in cols[k] && Collide(a, b)
    ensures i + Span(cols, a, i) <= k
  {
    var j :| 0 <= j < |cols[k]| && cols[k][j] == b;
    assert !ColumnFree(a, cols[k]);
  }

  /** Within a cluster, an event to the left ends its box before a colliding one. */
  lemma GutterBetween(cols: seq<Column>, i: nat, j: nat, k: nat, l: nat, width: real)
    requires i < k < |cols| && j < |cols[i]| && l < |cols[k]| && width >= 0.0 && Collide(cols[i][j], cols[k][l])
    ensures Right(PlacedAt(cols, i, j, width).box) + GUTTER <= PlacedAt(cols, k, l, width).box.left
  {
    hide Span, Left, Width, Collide;
    var span := Span(cols, cols[i][j], i);
    SpanStopsBefore(cols, i, k, cols[i][j], cols[k][l]);
    RightEdge(i, span, |cols|, width);
    Scale(i + span, k, |cols|, width);
  }

  /** Every box stays inside the screen, a gutter from its right edge. */
  lemma InsideScreen(s: seq<Ev>, width: real, k: nat)
    requires width >= 0.0 && k < |Layout(s, width)|
    ensures Layout(s, width)[k].box.left >= 0.0 && Right(Layout(s, width)[k].box) <= width - GUTTER
  {
    hide Left, Width, Clusters, PackAll;
    var c, i, j := Locate(Clusters(s), width, k);
    var cols := Clusters(s)[c];
    var span := Span(cols, cols[i][j], i);
    RightEdge(i, span, |cols|, width);
    Scale(i + span, |cols|, |cols|, width);
    Scale(0, i, |cols|, width);
  }

  /** Two colliding events of one cluster, in boxes beside each other. */
  lemma BesideInCluster(cols: seq<Column>, i: nat, j: nat, k: nat, l: nat, width: real)
    requires i < |cols| && k < |cols| && j < |cols[i]| && l < |cols[k]| && width >= 0.0
    requires Chains(cols) && cols[i][j] != cols[k][l] && Collide(cols[i][j], cols[k][l])
    ensures var a, b := PlacedAt(cols, i, j, width).box, PlacedAt(cols, k, l, width).box;
            Right(a) + GUTTER <= b.left || Right(b) + GUTTER <= a.left
  {
    hide PlacedAt, Right;
    assert Collide(cols[k][l], cols[i][j]) && Chain(cols[i]);
    if i < k {
      GutterBetween(cols, i, j, k, l, width);
    } else if k < i {
      GutterBetween(cols, k, l, i, j, width);
    } else {
      assert false;
    }
  }

  lemma {:induction false} PlacedFrom(s: seq<Ev>, width: real, k: nat) returns (c: nat, i: nat, j: nat)
    requires k < |Layout(s, width)|
    ensures At(Clusters(s), width, c, i, j, Layout(s, width)[k]) && Holds(Clusters(s)[c], Layout(s, width)[k].ev)
  {
    hide Clusters, Span, BuildBox, Left, Width;
    c, i, j := Locate(Clusters(s), width, k);
    assert Clusters(s)[c][i][j] in Clusters(s)[c][i];
  }

  /** Colliding events get boxes beside each other, a gutter apart. */
  lemma CollidingBeside(s: seq<Ev>, width: real, k: nat, l: nat)
    requires Sorted(s) && Forward(s) && Distinct(s) && width >= 0.0
    requires k < |Layout(s, width)| && l < |Layout(s, width)|
    requires var a, b := Layout(s, width)[k].ev, Layout(s, width)[l].ev; a != b && Collide(a, b)
    ensures var a, b := Layout(s, width)[k].box, Layout(s, width)[l].box;
            Right(a) + GUTTER <= b.left || Right(b) + GUTTER <= a.left
  {
    hide Run, Layout, Right, Span, BuildBox, Holds, Left, Width;
    var c, i, j := PlacedFrom(s, width, k);
    var d, m, n := PlacedFrom(s, width, l);
    RunKeeps(s);
    assert Separate(Clusters(s)) && Good(Clusters(s)[c]);
    assert c == d by { SameCluster(Clusters(s), c, d, Layout(s, width)[k].ev, Layout(s, width)[l].ev); }
    BesideInCluster(Clusters(s)[c], i, j, m, n, width);
  }

  /** Events of different clusters do not collide. */
  lemma SameCluster(clusters: seq<seq<Column>>, c: nat, d: nat, a: Ev, b: Ev)
    requires Separate(clusters) && c < |clusters| && d < |clusters| && Holds(clusters[c], a) && Holds(clusters[d], b)
    requires Collide(a, b)
    ensures c == d
  {
  }

  lemma HoursMonotone(a: int, b: int)
    requires a <= b
    ensures Hours(a) <= Hours(b)
  {
  }

  lemma HoursAdd(a: int, b: int)
    ensures Hours(a) + Hours(b) == Hours(a + b)
  {
  }

  /** Other events of one day get boxes above each other. */
  lemma OthersAbove(s: seq<Ev>, width: real, k: nat, l: nat)
    requires k < |Layout(s, width)| && l < |Layout(s, width)|
    requires var a, b := Layout(s, width)[k].ev, Layout(s, width)[l].ev;
             !Collide(a, b) && a.start / DAY == b.start / DAY
    ensures var a, b := Layout(s, width)[k].box, Layout(s, width)[l].box; Bottom(a) <= b.top || Bottom(b) <= a.top
  {
    hide Layout, Left, Width, Span;
    var c, i, j := PlacedFrom(s, width, k);
    var d, m, n := PlacedFrom(s, width, l);
    var a, b := Layout(s, width)[k].ev, Layout(s, width)[l].ev;
    VerticalOrder(if a.end <= b.start then a else b, if a.end <= b.start then b else a);
  }

  lemma VerticalOrder(a: Ev, b: Ev)
    requires a.end <= b.start && a.start / DAY == b.start / DAY
    ensures Hours(a.start % DAY) * OFFSET + Hours(a.end - a.start) * OFFSET <= Hours(b.start % DAY) * OFFSET
  {
    hide Hours;
    HoursAdd(a.start % DAY, a.end - a.start);
    assert a.start % DAY + (a.end - a.start) <= b.start % DAY;
    HoursMonotone(a.start % DAY + (a.end - a.start), b.start % DAY);
    var x, y, z := Hours(a.start % DAY), Hours(a.end - a.start), Hours(b.start % DAY);
    assert (x + y) * OFFSET <= z * OFFSET;
  }
}
