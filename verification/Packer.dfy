/** Packer.js as it runs: loops over events whose boxes are filled in, in place.
    Each is proved to compute PackerModel's and PackerBoxes' functions. */
module Packer {
  import opened Wrappers
  import opened PackerModel
  import opened PackerBoxes

  /** An event object: what it was given, and the box that buildEvent adds. */
  class Event {
    const ev: Ev
    var top: real
    var height: real
    var left: real
    var width: real

    constructor (ev: Ev)
      ensures this.ev == ev
    {
      this.ev := ev;
      top, height, left, width := 0.0, 0.0, 0.0, 0.0;
    }

    function BoxOf(): Box
      reads this
    {
      Box(top, height, left, width)
    }
  }

  /** The array calculatedEvents. */
  class Calculated {
    var list: seq<Event>

    constructor ()
      ensures list == []
    {
      list := [];
    }
  }

  function Value(col: seq<Event>): (r: Column)
    ensures |r| == |col|
    ensures forall j :: 0 <= j < |col| ==> r[j] == col[j].ev
  {
    seq(|col|, j requires 0 <= j < |col| => col[j].ev)
  }

  function Values(columns: seq<seq<Event>>): (r: seq<Column>)
    ensures |r| == |columns|
    ensures forall i :: 0 <= i < |columns| ==> r[i] == Value(columns[i])
  {
    seq(|columns|, i requires 0 <= i < |columns| => Value(columns[i]))
  }

  /** The events of a list with their boxes. */
  function Shown(list: seq<Event>): (r: seq<Placed>)
    reads list
    ensures |r| == |list|
    ensures forall k :: 0 <= k < |list| ==> r[k] == Placed(list[k].ev, list[k].BoxOf())
  {
    seq(|list|, k requires 0 <= k < |list| reads list => Placed(list[k].ev, list[k].BoxOf()))
  }

  /** The events of the first k columns, in order. */
  function Objects(columns: seq<seq<Event>>, k: nat): seq<Event>
    requires k <= |columns|
  {
    if k == 0 then [] else Objects(columns, k - 1) + columns[k-1]
  }

  function Each(s: seq<Event>): (r: set<Event>)
    ensures (forall e <- s :: e in r) && (forall e <- r :: e in s)
  {
    set e | e in s
  }

  /** No event is in a list twice. */
  predicate Once(s: seq<Event>) { forall i, j :: 0 <= i < j < |s| ==> s[i] != s[j] }

  lemma {:induction false} ObjectsPrefix(columns: seq<seq<Event>>, i: nat, k: nat)
    requires i <= k <= |columns|
    ensures |Objects(columns, i)| <= |Objects(columns, k)|
    ensures Objects(columns, k)[..|Objects(columns, i)|] == Objects(columns, i)
    decreases k
  {
    if i < k { ObjectsPrefix(columns, i, k - 1); }
  }

  /** The event at hand is none of those already listed. */
  lemma NotYetListed(before: seq<Event>, columns: seq<seq<Event>>, i: nat, j: nat)
    requires i < |columns| && j < |columns[i]| && Once(before + Objects(columns, |columns|))
    ensures columns[i][j] !in before + Objects(columns, i) + columns[i][..j]
  {
    ObjectsPrefix(columns, i + 1, |columns|);
    var all := before + Objects(columns, |columns|);
    var listed := before + Objects(columns, i) + columns[i][..j];
    assert Objects(columns, i + 1) == Objects(columns, i) + columns[i];
    var n := |before| + |Objects(columns, i)| + j;
    assert all[..n] == listed && all[n] == columns[i][j];
    forall x | 0 <= x < |listed| ensures listed[x] != columns[i][j] { assert listed[x] == all[x]; }
  }

  /** buildEvent. */
  method BuildEvent(column: Event, left: real, width: real)
    modifies column
    ensures column.BoxOf() == BuildBox(column.ev, left, width)
  {
    column.top := Hours(column.ev.start % DAY) * OFFSET;
    column.height := Hours(column.ev.end - column.ev.start) * OFFSET;
    column.width := width;
    column.left := left;
  }

  /** expand. */
  method Expand(ev: Event, column: nat, columns: seq<seq<Event>>) returns (colSpan: nat)
    requires column < |columns|
    ensures colSpan == Span(Values(columns), ev.ev, column)
  {
    ghost var cols := Values(columns);
    colSpan := 1;
    for i := column + 1 to |columns|
      invariant colSpan == i - column
      invariant forall k :: column < k < i ==> ColumnFree(ev.ev, cols[k])
    {
      var col := columns[i];
      for j := 0 to |col|
        invariant forall k :: 0 <= k < j ==> !Collide(ev.ev, cols[i][k])
      {
        if Collide(ev.ev, col[j].ev) {
          SpanIs(cols, ev.ev, column, colSpan);
          return;
        }
      }
      colSpan := colSpan + 1;
    }
    SpanIs(cols, ev.ev, column, colSpan);
  }

  /** A span is determined by the free columns and the one that stops it. */
  lemma {:induction false} SpanIs(cols: seq<Column>, ev: Ev, i: nat, span: nat)
    requires i < |cols| && 1 <= span <= |cols| - i
    requires forall k :: i < k < i + span ==> ColumnFree(ev, cols[k])
    requires i + span < |cols| ==> !ColumnFree(ev, cols[i + span])
    ensures span == Span(cols, ev, i)
    decreases span
  {
    hide ColumnFree;
    if span > 1 { SpanIs(cols, ev, i + 1, span - 1); }
  }

  /** One event's box: the others keep theirs. */
  method BuildNext(e: Event, left: real, width: real, calculated: Calculated)
    requires e !in calculated.list
    modifies e, calculated
    ensures calculated.list == old(calculated.list) + [e]
    ensures Shown(calculated.list) == old(Shown(calculated.list)) + [Placed(e.ev, BuildBox(e.ev, left, width))]
  {
    BuildEvent(e, left, width);
    calculated.list := calculated.list + [e];
  }

  /** pack: every event of the columns gets its box and is listed. */
  method Pack(columns: seq<seq<Event>>, width: real, calculated: Calculated)
    requires Once(calculated.list + Objects(columns, |columns|))
    modifies calculated, Each(Objects(columns, |columns|))
    ensures calculated.list == old(calculated.list) + Objects(columns, |columns|)
    ensures Shown(calculated.list) == old(Shown(calculated.list)) + PackColumns(Values(columns), |columns|, width)
  {
    hide Once, PackColumn, PackColumns, Objects, Value, Values, Shown, Each;
    PackNone(columns, width);
    ghost var cols := Values(columns);
    ghost var before, shown := calculated.list, Shown(calculated.list);
    var colLength := |columns|;
    for i := 0 to colLength
      invariant calculated.list == before + Objects(columns, i)
      invariant Shown(calculated.list) == shown + PackColumns(cols, i, width)
    {
      PackOne(columns, i, width, calculated, before);
      PackMore(columns, i, width, shown);
    }
  }

  lemma PackNone(columns: seq<seq<Event>>, width: real)
    ensures Objects(columns, 0) == [] && PackColumns(Values(columns), 0, width) == []
  {
  }

  lemma PackMore(columns: seq<seq<Event>>, i: nat, width: real, shown: seq<Placed>)
    requires i < |columns|
    ensures shown + PackColumns(Values(columns), i, width) + PackColumn(Values(columns), i, |columns[i]|, width)
         == shown + PackColumns(Values(columns), i + 1, width)
  {
    hide PackColumn, Value;
  }

  /** What pack does for one event. */
  method PackEvent(columns: seq<seq<Event>>, i: nat, j: nat, width: real, calculated: Calculated)
    requires i < |columns| && j < |columns[i]| && columns[i][j] !in calculated.list
    modifies calculated, Each(Objects(columns, |columns|))
    ensures calculated.list == old(calculated.list) + [columns[i][j]]
    ensures Shown(calculated.list) == old(Shown(calculated.list)) + [PlacedAt(Values(columns), i, j, width)]
  {
    hide Left, Width, BuildBox;
    var colSpan := Expand(columns[i][j], i, columns);
    var left := Left(i, |columns|, width);
    var w := Width(colSpan, |columns|, width);
    ColumnObjects(columns, i, j);
    BuildNext(columns[i][j], left, w, calculated);
  }

  lemma EventMore(columns: seq<seq<Event>>, i: nat, j: nat, width: real, listed: seq<Event>, shown: seq<Placed>)
    requires i < |columns| && j < |columns[i]|
    ensures listed + columns[i][..j] + [columns[i][j]] == listed + columns[i][..j+1]
    ensures var cols := Values(columns);
            shown + PackColumn(cols, i, j, width) + [PlacedAt(cols, i, j, width)]
            == shown + PackColumn(cols, i, j + 1, width)
  {
    hide PlacedAt;
  }

  /** The inner loop of pack, over one column. */
  method PackOne(columns: seq<seq<Event>>, i: nat, width: real, calculated: Calculated, ghost before: seq<Event>)
    requires i < |columns| && Once(before + Objects(columns, |columns|))
    requires calculated.list == before + Objects(columns, i)
    modifies calculated, Each(Objects(columns, |columns|))
    ensures calculated.list == before + Objects(columns, i + 1)
    ensures Shown(calculated.list) == old(Shown(calculated.list)) + PackColumn(Values(columns), i, |columns[i]|, width)
  {
    assert PackColumn(Values(columns), i, 0, width) == [];
    assert Objects(columns, i + 1) == Objects(columns, i) + columns[i];
    hide Once, PlacedAt, PackColumn, Objects, Value, Values, Shown, Each;
    ghost var cols, shown := Values(columns), Shown(calculated.list);
    ghost var listed := calculated.list;
    var col := columns[i];
    for j := 0 to |col|
      invariant calculated.list == listed + col[..j]
      invariant Shown(calculated.list) == shown + PackColumn(cols, i, j, width)
    {
      NotYetListed(before, columns, i, j);
      PackEvent(columns, i, j, width, calculated);
      EventMore(columns, i, j, width, listed, shown);
    }
    assert col[..|col|] == col;
  }

  lemma ColumnObjects(columns: seq<seq<Event>>, i: nat, j: nat)
    requires i < |columns| && j < |columns[i]|
    ensures columns[i][j] in Objects(columns, |columns|)
  {
    ObjectsPrefix(columns, i + 1, |columns|);
    var o := Objects(columns, i) + columns[i];
    assert Objects(columns, i + 1) == o && o[|Objects(columns, i)| + j] == columns[i][j];
    assert Objects(columns, |columns|)[|Objects(columns, i)| + j] == columns[i][j];
  }

  // ----- populateEvents -----

  function Sort(s: seq<Event>): (r: seq<Event>)
    ensures Sorted(Value(r)) && multiset(r) == multiset(s) && multiset(Value(r)) == multiset(Value(s))
    ensures |r| == |s|
  {
    if s == [] then []
    else
      var n := |s| - 1;
      assert s == s[..n] + [s[n]] && Value(s) == Value(s[..n]) + [s[n].ev];
      Insert(Sort(s[..n]), s[n])
  }

  function Insert(s: seq<Event>, e: Event): (r: seq<Event>)
    requires Sorted(Value(s))
    ensures Sorted(Value(r)) && multiset(r) == multiset(s) + multiset{e}
    ensures multiset(Value(r)) == multiset(Value(s)) + multiset{e.ev}
    ensures |r| == |s| + 1
  {
    if s == [] || NotAfter(s[|s|-1].ev, e.ev) then
      assert Value(s + [e]) == Value(s) + [e.ev];
      s + [e]
    else
      var n := |s| - 1;
      assert s == s[..n] + [s[n]] && Value(s) == Value(s[..n]) + [s[n].ev];
      var t := Insert(s[..n], e);
      assert Value(t + [s[n]]) == Value(t) + [s[n].ev];
      InsertedBefore(t, s, e);
      t + [s[n]]
  }

  lemma InsertedBefore(t: seq<Event>, s: seq<Event>, e: Event)
    requires s != [] && Sorted(Value(s)) && !NotAfter(s[|s|-1].ev, e.ev)
    requires Sorted(Value(t)) && multiset(t) == multiset(s[..|s|-1]) + multiset{e}
    ensures Sorted(Value(t + [s[|s|-1]]))
  {
    var n := |s| - 1;
    var u := t + [s[n]];
    forall k | 0 <= k < |t| ensures NotAfter(t[k].ev, s[n].ev) {
      assert t[k] in multiset(t);
      if t[k] != e {
        assert t[k] in s[..n];
        var m :| 0 <= m < n && s[m] == t[k];
        assert NotAfter(Value(s)[m], Value(s)[n]);
      }
    }
    assert Value(u) == Value(t) + [s[n].ev];
  }

  /** The input: start and end of each event. */
  datatype Period = Period(start: int, end: int)

  function Indexed(events: seq<Period>): (r: seq<Ev>)
    ensures |r| == |events|
  {
    seq(|events|, i requires 0 <= i < |events| => Ev(events[i].start, events[i].end, i))
  }

  /** Lists of the same events agree on whether each is there once. */
  lemma {:induction false} CountAtMostOne(s: seq<Event>, e: Event)
    requires Once(s)
    ensures multiset(s)[e] <= 1
  {
    if s != [] {
      var n := |s| - 1;
      assert s == s[..n] + [s[n]];
      CountAtMostOne(s[..n], e);
    }
  }

  lemma OnceBelow(s: seq<Event>, t: seq<Event>)
    requires Once(s) && multiset(t) <= multiset(s)
    ensures Once(t)
  {
    forall i, j | 0 <= i < j < |t| ensures t[i] != t[j] {
      CountAtMostOne(s, t[i]);
      var rest := t[..i] + t[i+1..j] + t[j+1..];
      assert t == t[..i] + [t[i]] + t[i+1..j] + [t[j]] + t[j+1..];
      assert multiset(t) == multiset(rest) + multiset{t[i]} + multiset{t[j]};
      assert t[i] == t[j] ==> multiset(t)[t[i]] >= 2;
    }
  }

  lemma {:induction false} ObjectsUpdated(columns: seq<seq<Event>>, i: nat, k: nat, e: Event)
    requires i < |columns| && k <= |columns|
    ensures multiset(Objects(columns[i := columns[i] + [e]], k))
         == multiset(Objects(columns, k)) + if i < k then multiset{e} else multiset{}
  {
    if k > 0 {
      var columns' := columns[i := columns[i] + [e]];
      ObjectsUpdated(columns, i, k - 1, e);
      MultisetOfSum(Objects(columns, k - 1), columns[k-1]);
      MultisetOfSum(Objects(columns', k - 1), columns'[k-1]);
      if i == k - 1 { MultisetOfSum(columns[i], [e]); }
    }
  }

  lemma {:induction false} ObjectsOfMore(columns: seq<seq<Event>>, col: seq<Event>, k: nat)
    requires k <= |columns|
    ensures Objects(columns + [col], k) == Objects(columns, k)
  {
    if k > 0 { ObjectsOfMore(columns, col, k - 1); }
  }

  function Held(columns: seq<seq<Event>>): seq<Event> { Objects(columns, |columns|) }

  /** The loop that puts an event into the first column with room, or a new one. */
  method PlaceEvent(columns: seq<seq<Event>>, ev: Event) returns (r: seq<seq<Event>>)
    requires NonEmpty(Values(columns))
    ensures Values(r) == Place(Values(columns), ev.ev)
    ensures multiset(Held(r)) == multiset(Held(columns)) + multiset{ev}
  {
    hide Collide, Held;
    ghost var cols := Values(columns);
    r := columns;
    for i := 0 to |columns|
      invariant r == columns
      invariant FirstFit(cols, ev.ev, 0) == FirstFit(cols, ev.ev, i)
    {
      var col := columns[i];
      assert cols[i] != [] && Last(cols[i]) == col[|col|-1].ev;
      if !Collide(col[|col|-1].ev, ev.ev) {
        r := columns[i := col + [ev]];
        ColumnGrows(columns, i, ev);
        return;
      }
    }
    r := columns + [[ev]];
    ColumnOpens(columns, ev);
  }

  lemma ColumnGrows(columns: seq<seq<Event>>, i: nat, ev: Event)
    requires i < |columns|
    ensures var r := columns[i := columns[i] + [ev]];
            Values(r) == Values(columns)[i := Values(columns)[i] + [ev.ev]]
            && multiset(Held(r)) == multiset(Held(columns)) + multiset{ev}
  {
    var r := columns[i := columns[i] + [ev]];
    assert Value(r[i]) == Values(columns)[i] + [ev.ev];
    ObjectsUpdated(columns, i, |columns|, ev);
  }

  lemma ColumnOpens(columns: seq<seq<Event>>, ev: Event)
    ensures Values(columns + [[ev]]) == Values(columns) + [[ev.ev]]
    ensures multiset(Held(columns + [[ev]])) == multiset(Held(columns)) + multiset{ev}
  {
    assert Value([ev]) == [ev.ev];
    ObjectsOfMore(columns, [ev], |columns|);
  }

  /** The first n events are listed or still in the columns, each once. */
  predicate Accounted(list: seq<Event>, columns: seq<seq<Event>>, sorted: seq<Event>, n: nat) {
    n <= |sorted| && multiset(list) + multiset(Held(columns)) == multiset(sorted[..n])
  }

  lemma PlacedAccounted(list: seq<Event>, columns: seq<seq<Event>>, columns': seq<seq<Event>>, sorted: seq<Event>,
                        n: nat)
    requires n < |sorted| && Accounted(list, columns, sorted, n)
    requires multiset(Held(columns')) == multiset(Held(columns)) + multiset{sorted[n]}
    ensures Accounted(list, columns', sorted, n + 1)
  {
    hide Held;
    assert sorted[..n+1] == sorted[..n] + [sorted[n]];
  }

  /** The loop of populateEvents over the sorted events. */
  method LayOut(sorted: seq<Event>, screenWidth: real, calculated: Calculated)
    requires Once(sorted) && calculated.list == []
    modifies calculated, Each(sorted)
    ensures multiset(calculated.list) == multiset(sorted)
    ensures Shown(calculated.list) == Layout(Value(sorted), screenWidth)
  {
    hide Once, PackAll, Objects, Held, Value, Values, Place, Shown, Each, NonEmpty, Accounted;
    var columns: seq<seq<Event>> := [];
    var lastEnd: Option<int> := None;
    ghost var done: seq<seq<Column>> := [];
    ghost var s := Value(sorted);
    Beginning(calculated, screenWidth);
    for n := 0 to |sorted|
      invariant Run(s[..n]) == State(done, Values(columns), lastEnd)
      invariant Shown(calculated.list) == PackAll(done, screenWidth)
      invariant Accounted(calculated.list, columns, sorted, n)
    {
      var ev := sorted[n];
      assert s[..n+1][..n] == s[..n] && s[n] == ev.ev;
      ghost var st := Run(s[..n]);
      assert Run(s[..n+1]) == Step(st, ev.ev);
      if lastEnd.Some? && ev.ev.start >= lastEnd.value {
        PackCluster(columns, screenWidth, calculated, sorted, n, done);
        done := done + [Values(columns)];
        columns := [];
        lastEnd := None;
        NothingHeld();
      }
      ghost var before := columns;
      columns := PlaceEvent(columns, ev);
      PlacedAccounted(calculated.list, before, columns, sorted, n);
      if lastEnd.None? || ev.ev.end > lastEnd.value { lastEnd := Some(ev.ev.end); }
    }
    assert s[..|sorted|] == s;
    if |columns| > 0 {
      PackCluster(columns, screenWidth, calculated, sorted, |sorted|, done);
    }
    AllListed(calculated.list, sorted);
  }

  lemma AllListed(list: seq<Event>, sorted: seq<Event>)
    requires Accounted(list, [], sorted, |sorted|)
    ensures multiset(list) == multiset(sorted)
  {
    assert sorted[..|sorted|] == sorted;
  }

  lemma NothingHeld()
    ensures Values([]) == []
  {
  }

  lemma Beginning(calculated: Calculated, width: real)
    requires calculated.list == []
    ensures Shown(calculated.list) == PackAll([], width) && Values([]) == []
    ensures forall sorted :: Accounted(calculated.list, [], sorted, 0)
  {
  }

  /** Packing one cluster: its boxes are appended. */
  method PackCluster(columns: seq<seq<Event>>, width: real, calculated: Calculated,
                     ghost sorted: seq<Event>, ghost n: nat, ghost done: seq<seq<Column>>)
    requires Once(sorted) && n <= |sorted|
    requires Accounted(calculated.list, columns, sorted, n)
    requires Shown(calculated.list) == PackAll(done, width)
    modifies calculated, Each(sorted)
    ensures Accounted(calculated.list, [], sorted, n)
    ensures Shown(calculated.list) == PackAll(done + [Values(columns)], width)
  {
    hide Once, PackColumns, Shown;
    ghost var all := calculated.list + Held(columns);
    assert sorted == sorted[..n] + sorted[n..];
    OnceBelow(sorted, all);
    forall e | e in Held(columns) ensures e in sorted { assert e in multiset(sorted[..n]); }
    assert (done + [Values(columns)])[..|done|] == done;
    Pack(columns, width, calculated);
  }

  /** populateEvents: the layout of the events in a sorted order. */
  method PopulateEvents(events: seq<Period>, screenWidth: real) returns (calculated: Calculated, ghost s: seq<Ev>)
    ensures fresh(calculated) && forall e <- calculated.list :: fresh(e)
    ensures Sorted(s) && multiset(s) == multiset(Indexed(events))
    ensures Shown(calculated.list) == Layout(s, screenWidth)
  {
    hide Sorted, Layout;
    var objects: seq<Event> := [];
    for index := 0 to |events|
      invariant |objects| == index && fresh(objects)
      invariant forall i :: 0 <= i < index ==> objects[i].ev == Indexed(events)[i]
    {
      var o := new Event(Ev(events[index].start, events[index].end, index));
      objects := objects + [o];
    }
    assert Value(objects) == Indexed(events);
    assert Once(objects) by { DifferentObjects(objects, events); }
    var sorted := Sort(objects);
    OnceBelow(objects, sorted);
    forall e | e in sorted ensures e in objects && fresh(e) { assert e in multiset(sorted); }
    calculated := new Calculated();
    LayOut(sorted, screenWidth, calculated);
    s := Value(sorted);
    forall e | e in calculated.list ensures e in objects && fresh(e) { assert e in multiset(sorted); }
  }

  lemma DifferentObjects(objects: seq<Event>, events: seq<Period>)
    requires |objects| == |events| && forall i :: 0 <= i < |events| ==> objects[i].ev == Indexed(events)[i]
    ensures Once(objects)
  {
    forall i, j | 0 <= i < j < |objects| ensures objects[i] != objects[j] {
      assert objects[i].ev.index == i && objects[j].ev.index == j;
    }
  }

  // ----- what populateEvents promises -----

  /** Two different places of the result: nothing overlaps. */
  predicate NoOverlap(p: Placed, q: Placed) {
    if Collide(p.ev, q.ev) then Right(p.box) + GUTTER <= q.box.left || Right(q.box) + GUTTER <= p.box.left
    else Bottom(p.box) <= q.box.top || Bottom(q.box) <= p.box.top
  }

  lemma {:induction false} SortedEvents(events: seq<Period>, s: seq<Ev>)
    requires multiset(s) == multiset(Indexed(events)) && forall e :: e in events ==> e.start <= e.end
    ensures Forward(s) && Distinct(s)
    ensures forall e :: e in s ==> e.index < |events| && e == Indexed(events)[e.index]
  {
    var t := Indexed(events);
    forall e | e in s ensures e.index < |events| && e == t[e.index] && e.start <= e.end {
      assert e in multiset(t);
      var i :| 0 <= i < |t| && t[i] == e;
      assert events[i] in events;
    }
    forall i, j | 0 <= i < j < |s| ensures s[i] != s[j] { OnlyOnce(events, s, i, j); }
  }

  lemma OnlyOnce(events: seq<Period>, s: seq<Ev>, i: nat, j: nat)
    requires multiset(s) == multiset(Indexed(events)) && i < j < |s|
    ensures s[i] != s[j]
  {
    var t := Indexed(events);
    IndexedCount(events, |t|, s[i]);
    assert t[..|t|] == t;
    var rest := s[..i] + s[i+1..j] + s[j+1..];
    assert s == s[..i] + [s[i]] + s[i+1..j] + [s[j]] + s[j+1..];
    assert multiset(s) == multiset(rest) + multiset{s[i]} + multiset{s[j]};
    assert s[i] == s[j] ==> multiset(s)[s[i]] >= 2;
  }

  lemma {:induction false} IndexedCount(events: seq<Period>, n: nat, e: Ev)
    requires n <= |events|
    ensures multiset(Indexed(events)[..n])[e] <= 1
    ensures e.index >= n ==> multiset(Indexed(events)[..n])[e] == 0
  {
    if n > 0 {
      var t := Indexed(events);
      IndexedCount(events, n - 1, e);
      assert t[..n] == t[..n-1] + [t[n-1]];
    }
  }

  /** The result lists every input index exactly once, with that input's times. */
  lemma EveryIndexOnce(events: seq<Period>, s: seq<Ev>, width: real)
    requires multiset(s) == multiset(Indexed(events))
    ensures |Layout(s, width)| == |events|
    ensures forall i :: 0 <= i < |events| ==> Indexed(events)[i] in Evs(Layout(s, width))
    ensures forall i, j :: 0 <= i < j < |Layout(s, width)| ==>
              Layout(s, width)[i].ev.index != Layout(s, width)[j].ev.index
  {
    hide Layout;
    EachOnce(s, width);
    var r, t := Evs(Layout(s, width)), Indexed(events);
    assert |multiset(r)| == |multiset(t)|;
    forall i | 0 <= i < |events| ensures t[i] in r { assert t[i] in multiset(t); }
    forall i, j | 0 <= i < j < |r| ensures r[i].index != r[j].index {
      OnlyOnce(events, r, i, j);
      assert r[i] in multiset(t) && r[j] in multiset(t);
    }
  }

  /** For events of one day that do not end before they start, no two boxes of the
      result overlap, and all stay on the screen. */
  lemma NothingOverlaps(events: seq<Period>, s: seq<Ev>, width: real, k: nat, l: nat)
    requires Sorted(s) && multiset(s) == multiset(Indexed(events)) && forall e :: e in events ==> e.start <= e.end
    requires forall e, f :: e in events && f in events ==> e.start / DAY == f.start / DAY
    requires width >= 0.0 && k < l < |Layout(s, width)|
    ensures NoOverlap(Layout(s, width)[k], Layout(s, width)[l])
    ensures Layout(s, width)[k].box.left >= 0.0 && Right(Layout(s, width)[k].box) <= width - GUTTER
  {
    hide Layout, Right, Bottom;
    SortedEvents(events, s);
    EachOnce(s, width);
    EveryIndexOnce(events, s, width);
    var p, q := Layout(s, width)[k], Layout(s, width)[l];
    InsideScreen(s, width, k);
    assert Evs(Layout(s, width))[k] in multiset(s) && Evs(Layout(s, width))[l] in multiset(s);
    if Collide(p.ev, q.ev) {
      CollidingBeside(s, width, k, l);
    } else {
      assert events[p.ev.index] in events && events[q.ev.index] in events;
      OthersAbove(s, width, k, l);
    }
  }
}
