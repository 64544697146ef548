/** The day timeline's packing of overlapping events into columns (Packer.js), on
    values: the clusters and columns that come out, and why they are right. */
module PackerModel {
  import opened Wrappers

  /** An event: times in milliseconds, and its place in the input. */
  datatype Ev = Ev(start: int, end: int, index: nat)

  type Column = seq<Ev>

  predicate Collide(a: Ev, b: Ev) { a.end > b.start && a.start < b.end }

  /** The sort's comparison: not after. */
  predicate NotAfter(a: Ev, b: Ev) { a.start < b.start || (a.start == b.start && a.end <= b.end) }

  predicate Sorted(s: seq<Ev>) { forall i, j :: 0 <= i < j < |s| ==> NotAfter(s[i], s[j]) }
  predicate Forward(s: seq<Ev>) { forall e :: e in s ==> e.start <= e.end }
  predicate Distinct(s: seq<Ev>) { forall i, j :: 0 <= i < j < |s| ==> s[i] != s[j] }

  predicate NonEmpty(cols: seq<Column>) { forall i :: 0 <= i < |cols| ==> cols[i] != [] }

  function Last(col: Column): Ev
    requires col != []
  {
    col[|col|-1]
  }

  /** The first column from i on whose last event leaves room. */
  function FirstFit(cols: seq<Column>, ev: Ev, i: nat): (r: nat)
    requires NonEmpty(cols) && i <= |cols|
    ensures i <= r <= |cols|
    ensures r < |cols| ==> !Collide(Last(cols[r]), ev)
    ensures forall k :: i <= k < r ==> Collide(Last(cols[k]), ev)
    decreases |cols| - i
  {
    if i == |cols| || !Collide(Last(cols[i]), ev) then i else FirstFit(cols, ev, i + 1)
  }

  function Place(cols: seq<Column>, ev: Ev): (r: seq<Column>)
    requires NonEmpty(cols)
    ensures NonEmpty(r) && r != []
  {
    var i := FirstFit(cols, ev, 0);
    if i < |cols| then cols[i := cols[i] + [ev]] else cols + [[ev]]
  }

  /** The clusters finished so far, the open cluster's columns, and the latest end
      in it. */
  datatype State = State(done: seq<seq<Column>>, columns: seq<Column>, lastEnd: Option<int>)

  predicate Proper(st: State) {
    NonEmpty(st.columns) && (st.lastEnd.Some? <==> st.columns != [])
  }

  function Step(st: State, ev: Ev): (r: State)
    requires Proper(st)
    ensures Proper(r)
  {
    var st' := if st.lastEnd.Some? && ev.start >= st.lastEnd.value then State(st.done + [st.columns], [], None) else st;
    State(st'.done, Place(st'.columns, ev),
          if st'.lastEnd.None? || ev.end > st'.lastEnd.value then Some(ev.end) else st'.lastEnd)
  }

  function Run(s: seq<Ev>): (r: State)
    ensures Proper(r)
  {
    if s == [] then State([], [], None) else Step(Run(s[..|s|-1]), s[|s|-1])
  }

  function Finished(st: State): seq<seq<Column>> {
    if st.columns == [] then st.done else st.done + [st.columns]
  }

  /** The clusters, each given by its columns. */
  function Clusters(s: seq<Ev>): seq<seq<Column>> { Finished(Run(s)) }

  // ----- what holds of each cluster -----

  predicate Holds(cols: seq<Column>, e: Ev) { exists i :: 0 <= i < |cols| && e in cols[i] }

  /** Each event of a column starts when the ones before it have ended. */
  predicate Chain(col: Column) { forall i, j :: 0 <= i < j < |col| ==> col[i].end <= col[j].start }

  predicate Chains(cols: seq<Column>) { forall i :: 0 <= i < |cols| ==> Chain(cols[i]) }

  predicate Apart(cols: seq<Column>) {
    forall i, j, e :: 0 <= i < j < |cols| && e in cols[i] ==> e !in cols[j]
  }

  /** Events that all collide with each other. */
  predicate Clique(q: seq<Ev>) {
    forall i, j :: 0 <= i < j < |q| ==> q[i] != q[j] && Collide(q[i], q[j])
  }

  ghost predicate HasClique(cols: seq<Column>, n: nat) {
    exists q: seq<Ev> :: |q| == n && Clique(q) && forall e :: e in q ==> Holds(cols, e)
  }

  /** A way from a to b among a cluster's events, each colliding with the next. */
  ghost predicate Path(p: seq<Ev>, a: Ev, b: Ev) {
    && p != [] && p[0] == a && p[|p|-1] == b
    && forall i :: 0 <= i < |p| - 1 ==> Collide(p[i], p[i+1])
  }

  ghost predicate Linked(cols: seq<Column>, a: Ev, b: Ev) {
    exists p: seq<Ev> :: Path(p, a, b) && forall e :: e in p ==> Holds(cols, e)
  }

  ghost predicate Connected(cols: seq<Column>) {
    forall a, b :: Holds(cols, a) && Holds(cols, b) ==> Linked(cols, a, b)
  }

  ghost predicate Good(cols: seq<Column>) {
    NonEmpty(cols) && Chains(cols) && Apart(cols) && HasClique(cols, |cols|) && Connected(cols)
  }

  // ----- placing one event keeps it -----

  lemma PlaceHolds(cols: seq<Column>, ev: Ev, e: Ev)
    requires NonEmpty(cols)
    ensures Holds(Place(cols, ev), e) <==> Holds(cols, e) || e == ev
  {
    var i := FirstFit(cols, ev, 0);
    var r := Place(cols, ev);
    assert i < |cols| ==> r[i] == cols[i] + [ev];
    assert i == |cols| ==> r[i] == [ev];
    assert ev in r[i];
    if Holds(cols, e) {
      var k :| 0 <= k < |cols| && e in cols[k];
      assert e in r[k];
    }
  }

  /** An event no earlier than a column's last one leaves it alone exactly if that
      one has ended. */
  lemma RoomExactly(a: Ev, ev: Ev)
    requires NotAfter(a, ev) && a.start <= a.end && ev.start <= ev.end
    ensures !Collide(a, ev) <==> a.end <= ev.start
  {
  }

  lemma PlaceKeepsChains(cols: seq<Column>, ev: Ev)
    requires NonEmpty(cols) && Chains(cols) && ev.start <= ev.end
    requires forall e :: Holds(cols, e) ==> NotAfter(e, ev) && e.start <= e.end
    ensures Chains(Place(cols, ev))
  {
    hide Chain, Holds, NotAfter, Collide;
    var i := FirstFit(cols, ev, 0);
    if i < |cols| {
      LastHeld(cols, i);
      ChainGrows(cols[i], ev);
    } else {
      assert Chain([ev]) by { OneChain(ev); }
    }
  }

  lemma OneChain(ev: Ev)
    ensures Chain([ev])
  {
  }

  lemma ChainGrows(col: Column, ev: Ev)
    requires col != [] && Chain(col) && ev.start <= ev.end
    requires NotAfter(Last(col), ev) && Last(col).start <= Last(col).end && !Collide(Last(col), ev)
    ensures Chain(col + [ev])
  {
    RoomExactly(Last(col), ev);
    assert forall j :: 0 <= j < |col| - 1 ==> col[j].end <= Last(col).start;
  }

  lemma PlaceKeepsApart(cols: seq<Column>, ev: Ev)
    requires NonEmpty(cols) && Apart(cols) && !Holds(cols, ev)
    ensures Apart(Place(cols, ev))
  {
    assert forall k :: 0 <= k < |cols| ==> ev !in cols[k];
  }

  function Lasts(cols: seq<Column>): (r: seq<Ev>)
    requires NonEmpty(cols)
    ensures |r| == |cols|
  {
    seq(|cols|, i requires 0 <= i < |cols| => Last(cols[i]))
  }

  /** When a column is opened, the event and the last ones of all the others
      collide with each other. */
  lemma OpeningGivesClique(cols: seq<Column>, ev: Ev)
    requires NonEmpty(cols) && Apart(cols) && !Holds(cols, ev)
    requires forall e :: Holds(cols, e) ==> NotAfter(e, ev)
    requires FirstFit(cols, ev, 0) == |cols|
    ensures HasClique(Place(cols, ev), |cols| + 1)
  {
    hide Holds, Apart, Collide;
    var q := Lasts(cols) + [ev];
    assert forall i :: 0 <= i < |cols| ==> Collide(Last(cols[i]), ev);
    forall i | 0 <= i < |cols| ensures Holds(cols, q[i]) { LastHeld(cols, i); }
    forall i, j | 0 <= i < j < |q| ensures q[i] != q[j] && Collide(q[i], q[j]) {
      if j < |cols| {
        LastsDiffer(cols, i, j);
        BothCollide(q[i], q[j], ev);
      } else {
        assert q[i] == Last(cols[i]) && q[j] == ev;
      }
    }
    forall e | e in q ensures Holds(Place(cols, ev), e) {
      var i :| 0 <= i < |q| && q[i] == e;
      PlaceHolds(cols, ev, e);
    }
  }

  lemma LastHeld(cols: seq<Column>, i: nat)
    requires NonEmpty(cols) && i < |cols|
    ensures Holds(cols, Last(cols[i]))
  {
  }

  lemma LastsDiffer(cols: seq<Column>, i: nat, j: nat)
    requires NonEmpty(cols) && Apart(cols) && i < j < |cols|
    ensures Last(cols[i]) != Last(cols[j])
  {
    assert Last(cols[i]) in cols[i] && Last(cols[j]) in cols[j];
  }

  lemma BothCollide(a: Ev, b: Ev, ev: Ev)
    requires NotAfter(a, ev) && NotAfter(b, ev) && Collide(a, ev) && Collide(b, ev)
    ensures Collide(a, b)
  {
  }

  lemma PlaceKeepsClique(cols: seq<Column>, ev: Ev)
    requires NonEmpty(cols) && Apart(cols) && !Holds(cols, ev) && HasClique(cols, |cols|)
    requires forall e :: Holds(cols, e) ==> NotAfter(e, ev)
    ensures HasClique(Place(cols, ev), |Place(cols, ev)|)
  {
    if FirstFit(cols, ev, 0) == |cols| {
      OpeningGivesClique(cols, ev);
    } else {
      var q: seq<Ev> :| |q| == |cols| && Clique(q) && forall e :: e in q ==> Holds(cols, e);
      forall e | e in q ensures Holds(Place(cols, ev), e) { PlaceHolds(cols, ev, e); }
    }
  }

  lemma Symmetric(p: seq<Ev>, a: Ev, b: Ev)
    requires Path(p, a, b)
    ensures Path(seq(|p|, i requires 0 <= i < |p| => p[|p|-1-i]), b, a)
  {
    var r := seq(|p|, i requires 0 <= i < |p| => p[|p|-1-i]);
    forall i | 0 <= i < |r| - 1 ensures Collide(r[i], r[i+1]) {
      assert Collide(p[|p|-2-i], p[|p|-2-i+1]);
    }
  }

  lemma LinkedSymmetric(cols: seq<Column>, a: Ev, b: Ev)
    requires Linked(cols, a, b)
    ensures Linked(cols, b, a)
  {
    var p: seq<Ev> :| Path(p, a, b) && forall e :: e in p ==> Holds(cols, e);
    Symmetric(p, a, b);
  }

  /** An event that collides with one of a connected cluster joins it. */
  lemma Joins(cols: seq<Column>, cols': seq<Column>, hub: Ev, ev: Ev)
    requires Connected(cols) && Holds(cols, hub) && Collide(hub, ev)
    requires forall e :: Holds(cols', e) <==> Holds(cols, e) || e == ev
    ensures Connected(cols')
  {
    hide Collide, Holds;
    forall a | Holds(cols, a) ensures Linked(cols', a, ev) {
      assert Linked(cols, a, hub);
      var p: seq<Ev> :| Path(p, a, hub) && forall e :: e in p ==> Holds(cols, e);
      assert Path(p + [ev], a, ev);
    }
    assert Path([ev], ev, ev);
    assert Linked(cols', ev, ev);
    forall a, b | Holds(cols', a) && Holds(cols', b) ensures Linked(cols', a, b) {
      if b == ev {
      } else if a == ev {
        LinkedSymmetric(cols', b, ev);
      } else {
        assert Linked(cols, a, b);
        var p: seq<Ev> :| Path(p, a, b) && forall e :: e in p ==> Holds(cols, e);
      }
    }
  }

  // ----- whole runs -----

  /** What the run keeps. */
  ghost predicate Kept(st: State, s: seq<Ev>) {
    && Proper(st)
    && (st.columns != [] ==> Good(st.columns))
    && (forall c :: 0 <= c < |st.done| ==> st.done[c] != [] && Good(st.done[c]))
    && (forall e :: Holds(st.columns, e) ==> e in s && e.end <= st.lastEnd.value)
    && (st.columns != [] ==> exists e :: Holds(st.columns, e) && e.end == st.lastEnd.value)
    && (forall c, e :: 0 <= c < |st.done| && Holds(st.done[c], e) ==> e in s)
    && Separate(Finished(st))
    && (forall e :: e in s ==> Somewhere(Finished(st), e))
    && (st.columns == [] ==> st.done == [])
  }

  /** The events of a cluster have ended when those of a later one start. */
  ghost predicate Separate(clusters: seq<seq<Column>>) {
    forall c, d, a, b :: 0 <= c < d < |clusters| && Holds(clusters[c], a) && Holds(clusters[d], b) ==> a.end <= b.start
  }

  ghost predicate Somewhere(clusters: seq<seq<Column>>, e: Ev) {
    exists c :: 0 <= c < |clusters| && Holds(clusters[c], e)
  }

  /** A single event is a cluster of its own. */
  lemma SingleGood(ev: Ev)
    ensures Good([[ev]]) && forall e :: Holds([[ev]], e) <==> e == ev
  {
    var cols := [[ev]];
    assert forall e :: e in cols[0] <==> e == ev;
    assert forall e :: Holds(cols, e) <==> e == ev;
    assert Clique([ev]) && HasClique(cols, 1);
    assert Path([ev], ev, ev);
    assert forall e :: e in [ev] ==> Holds(cols, e);
    assert Linked(cols, ev, ev);
  }

  /** An event that starts before the latest end of a cluster collides with the
      event that ends then. */
  lemma HubCollides(hub: Ev, ev: Ev)
    requires NotAfter(hub, ev) && ev.start <= ev.end && ev.start < hub.end
    ensures Collide(hub, ev)
  {
  }

  lemma GoodAfterPlace(cols: seq<Column>, ev: Ev, hub: Ev)
    requires Good(cols) && !Holds(cols, ev) && ev.start <= ev.end
    requires forall e :: Holds(cols, e) ==> NotAfter(e, ev) && e.start <= e.end
    requires Holds(cols, hub) && ev.start < hub.end
    ensures Good(Place(cols, ev))
  {
    hide Chains, Apart, HasClique, Connected, Holds, Collide;
    forall e ensures Holds(Place(cols, ev), e) <==> Holds(cols, e) || e == ev { PlaceHolds(cols, ev, e); }
    PlaceKeepsChains(cols, ev);
    PlaceKeepsApart(cols, ev);
    PlaceKeepsClique(cols, ev);
    HubCollides(hub, ev);
    Joins(cols, Place(cols, ev), hub, ev);
  }

  /** The event goes into the open cluster. */
  lemma StepInside(st: State, s: seq<Ev>, ev: Ev)
    requires Kept(st, s) && ev !in s && ev.start <= ev.end
    requires forall e :: e in s ==> NotAfter(e, ev) && e.start <= e.end
    requires st.lastEnd.Some? && ev.start < st.lastEnd.value
    ensures Kept(Step(st, ev), s + [ev])
  {
    hide Good, Holds, Place, NonEmpty, Collide, Separate, Somewhere;
    var hub :| Holds(st.columns, hub) && hub.end == st.lastEnd.value;
    GoodAfterPlace(st.columns, ev, hub);
    var st' := Step(st, ev);
    forall e ensures Holds(st'.columns, e) <==> Holds(st.columns, e) || e == ev { PlaceHolds(st.columns, ev, e); }
    assert Holds(st'.columns, if ev.end > st.lastEnd.value then ev else hub);
    assert Finished(st) == st.done + [st.columns] && Finished(st') == st.done + [st'.columns];
    SeparateInside(st.done, st.columns, st'.columns, hub, ev);
    SomewhereInside(st.done, st.columns, st'.columns, s, ev);
  }

  lemma SeparateInside(done: seq<seq<Column>>, cols: seq<Column>, cols': seq<Column>, hub: Ev, ev: Ev)
    requires Separate(done + [cols]) && Holds(cols, hub) && hub.start <= ev.start
    requires forall e :: Holds(cols', e) <==> Holds(cols, e) || e == ev
    ensures Separate(done + [cols'])
  {
    hide Holds;
    var f, f' := done + [cols], done + [cols'];
    forall c, d, a, b | 0 <= c < d < |f'| && Holds(f'[c], a) && Holds(f'[d], b) ensures a.end <= b.start {
      assert f'[c] == f[c];
      if d < |done| {
        assert f'[d] == f[d];
      } else {
        assert Holds(f[d], hub) && a.end <= hub.start;
        assert b != ev ==> Holds(f[d], b);
      }
    }
  }

  lemma SomewhereInside(done: seq<seq<Column>>, cols: seq<Column>, cols': seq<Column>, s: seq<Ev>, ev: Ev)
    requires forall e :: e in s ==> Somewhere(done + [cols], e)
    requires forall e :: Holds(cols', e) <==> Holds(cols, e) || e == ev
    ensures forall e :: e in s + [ev] ==> Somewhere(done + [cols'], e)
  {
    hide Holds;
    var f, f' := done + [cols], done + [cols'];
    forall e | e in s + [ev] ensures Somewhere(f', e) {
      if e in s {
        assert Somewhere(f, e);
        var c :| 0 <= c < |f| && Holds(f[c], e);
        assert Holds(f'[c], e);
      } else {
        assert Holds(f'[|done|], ev);
      }
    }
  }

  /** The event starts a new cluster. */
  lemma StepOutside(st: State, s: seq<Ev>, ev: Ev)
    requires Kept(st, s) && ev !in s && ev.start <= ev.end
    requires forall e :: e in s ==> NotAfter(e, ev) && e.start <= e.end
    requires st.lastEnd.Some? ==> ev.start >= st.lastEnd.value
    ensures Kept(Step(st, ev), s + [ev])
  {
    hide Good, Holds, NonEmpty, Collide, Separate, Somewhere;
    SingleGood(ev);
    var st' := Step(st, ev);
    assert st'.columns == [[ev]] by { OpensColumn(ev); }
    var f := Finished(st);
    assert st'.done == f && Finished(st') == f + [[[ev]]];
    assert Holds(st'.columns, ev);
    EarlierEnded(st, s, ev);
    SeparateOutside(f, [[ev]], ev);
    SomewhereOutside(f, [[ev]], s, ev);
  }

  lemma EarlierEnded(st: State, s: seq<Ev>, ev: Ev)
    requires Kept(st, s) && forall e :: e in s ==> NotAfter(e, ev)
    requires st.lastEnd.Some? ==> ev.start >= st.lastEnd.value
    ensures forall c, a :: 0 <= c < |Finished(st)| && Holds(Finished(st)[c], a) ==> a.end <= ev.start
  {
    hide Good, Holds, NonEmpty;
    var f := Finished(st);
    forall c, a | 0 <= c < |f| && Holds(f[c], a) ensures a.end <= ev.start {
      if c < |f| - 1 {
        var hub :| Holds(st.columns, hub) && hub.end == st.lastEnd.value;
        assert Holds(f[|f|-1], hub) && a.end <= hub.start;
      }
    }
  }

  lemma SeparateOutside(f: seq<seq<Column>>, cols: seq<Column>, ev: Ev)
    requires Separate(f) && forall e :: Holds(cols, e) <==> e == ev
    requires forall c, a :: 0 <= c < |f| && Holds(f[c], a) ==> a.end <= ev.start
    ensures Separate(f + [cols])
  {
    hide Holds;
  }

  lemma SomewhereOutside(f: seq<seq<Column>>, cols: seq<Column>, s: seq<Ev>, ev: Ev)
    requires Holds(cols, ev) && forall e :: e in s ==> Somewhere(f, e)
    ensures forall e :: e in s + [ev] ==> Somewhere(f + [cols], e)
  {
    hide Holds;
    var f' := f + [cols];
    assert Holds(f'[|f|], ev);
    forall e | e in s ensures Somewhere(f', e) {
      assert Somewhere(f, e);
      var c :| 0 <= c < |f| && Holds(f[c], e);
      assert Holds(f'[c], e);
    }
  }

  lemma OpensColumn(ev: Ev)
    ensures Place([], ev) == [[ev]]
  {
  }

  lemma {:induction false} RunKeeps(s: seq<Ev>)
    requires Sorted(s) && Forward(s) && Distinct(s)
    ensures Kept(Run(s), s)
  {
    hide Good, Kept, NotAfter, Sorted, Forward, Distinct;
    if s == [] {
      NothingKept();
    } else {
      var p, ev := s[..|s|-1], s[|s|-1];
      LastOfSorted(s);
      RunKeeps(p);
      assert p + [ev] == s;
      var st := Run(p);
      if st.lastEnd.Some? && ev.start < st.lastEnd.value { StepInside(st, p, ev); } else { StepOutside(st, p, ev); }
    }
  }

  lemma LastOfSorted(s: seq<Ev>)
    requires s != [] && Sorted(s) && Forward(s) && Distinct(s)
    ensures var p, ev := s[..|s|-1], s[|s|-1];
            && Sorted(p) && Forward(p) && Distinct(p) && ev !in p && ev.start <= ev.end
            && forall e :: e in p ==> NotAfter(e, ev) && e.start <= e.end
  {
    hide NotAfter;
    var p, ev := s[..|s|-1], s[|s|-1];
    assert ev in s && forall e :: e in p ==> e in s;
  }

  lemma NothingKept()
    ensures Kept(State([], [], None), [])
  {
  }

  // ----- the columns are as few as can be -----

  /** No two events of a column collide. */
  ghost predicate CollisionFree(cols: seq<Column>) {
    forall c, i, j :: 0 <= c < |cols| && 0 <= i < j < |cols[c]| ==> !Collide(cols[c][i], cols[c][j])
  }

  lemma DistinctBelow(places: seq<nat>, n: nat)
    requires forall k :: 0 <= k < |places| ==> places[k] < n
    requires forall i, j :: 0 <= i < j < |places| ==> places[i] != places[j]
    ensures |places| <= n
    decreases n
  {
    if places != [] {
      assert places[0] < n;
      if k :| 0 <= k < |places| && places[k] == n - 1 {
        DistinctBelow(places[..k] + places[k+1..], n - 1);
      } else {
        DistinctBelow(places, n - 1);
      }
    }
  }

  /** The events of a clique need as many columns. */
  lemma CliqueNeedsColumns(layout: seq<Column>, q: seq<Ev>)
    requires CollisionFree(layout) && Clique(q) && forall e :: e in q ==> Holds(layout, e)
    ensures |q| <= |layout|
  {
    var places: seq<nat> := [];
    for k := 0 to |q|
      invariant |places| == k
      invariant forall i :: 0 <= i < k ==> places[i] < |layout| && q[i] in layout[places[i]]
    {
      assert q[k] in q;
      var c: nat :| c < |layout| && q[k] in layout[c];
      places := places + [c];
    }
    forall i, j | 0 <= i < j < |q| ensures places[i] != places[j] {
      var a, b := layout[places[i]], layout[places[j]];
      var x :| 0 <= x < |a| && a[x] == q[i];
      var y :| 0 <= y < |b| && b[y] == q[j];
      assert Collide(q[i], q[j]) && Collide(q[j], q[i]);
    }
    DistinctBelow(places, |layout|);
  }

  lemma ChainsAreFree(cols: seq<Column>)
    requires Chains(cols)
    ensures CollisionFree(cols)
  {
    forall c, i, j | 0 <= c < |cols| && 0 <= i < j < |cols[c]| ensures !Collide(cols[c][i], cols[c][j]) {
      assert Chain(cols[c]);
    }
  }

  /** The number of columns of each cluster is the size of the largest set of
      events in it that all collide, and no layout whose columns are free of
      collisions uses fewer. */
  lemma ColumnsOptimal(s: seq<Ev>, c: nat)
    requires Sorted(s) && Forward(s) && Distinct(s) && c < |Clusters(s)|
    ensures var cols := Clusters(s)[c];
            && CollisionFree(cols)
            && (exists q: seq<Ev> :: |q| == |cols| && Clique(q) && forall e :: e in q ==> Holds(cols, e))
            && (forall q: seq<Ev> :: Clique(q) && (forall e :: e in q ==> Holds(cols, e)) ==> |q| <= |cols|)
            && (forall layout: seq<Column> ::
                  CollisionFree(layout) && (forall e :: Holds(cols, e) ==> Holds(layout, e)) ==> |cols| <= |layout|)
  {
    hide Run, Holds, CollisionFree, Clique;
    RunKeeps(s);
    var cols := Clusters(s)[c];
    assert Good(cols);
    ChainsAreFree(cols);
    assert HasClique(cols, |cols|);
    forall q: seq<Ev> | Clique(q) && (forall e :: e in q ==> Holds(cols, e)) ensures |q| <= |cols| {
      CliqueNeedsColumns(cols, q);
    }
    var best: seq<Ev> :| |best| == |cols| && Clique(best) && forall e :: e in best ==> Holds(cols, e);
    forall layout: seq<Column> | CollisionFree(layout) && (forall e :: Holds(cols, e) ==> Holds(layout, e))
      ensures |cols| <= |layout|
    {
      CliqueNeedsColumns(layout, best);
    }
  }

  // ----- the clusters are the components -----

  /** A way from a to b among all the events. */
  ghost predicate Reaches(s: seq<Ev>, a: Ev, b: Ev) {
    exists p: seq<Ev> :: Path(p, a, b) && forall e :: e in p ==> e in s
  }

  lemma {:induction false} PathStays(s: seq<Ev>, p: seq<Ev>, a: Ev, b: Ev, c: nat)
    requires Kept(Run(s), s) && Path(p, a, b) && forall e :: e in p ==> e in s
    requires c < |Clusters(s)| && Holds(Clusters(s)[c], a)
    ensures Holds(Clusters(s)[c], b)
    decreases |p|
  {
    hide Run, Good, Holds;
    if |p| > 1 {
      assert Collide(p[0], p[1]) && p[1] in p;
      assert Somewhere(Clusters(s), p[1]);
      var d :| 0 <= d < |Clusters(s)| && Holds(Clusters(s)[d], p[1]);
      assert c == d;
      PathStays(s, p[1..], p[1], b, c);
    }
  }

  /** Two events are in one cluster exactly if a chain of collisions connects
      them: the clusters are the connected components. */
  lemma ClustersAreComponents(s: seq<Ev>, a: Ev, b: Ev)
    requires Sorted(s) && Forward(s) && Distinct(s) && a in s && b in s
    ensures (exists c :: 0 <= c < |Clusters(s)| && Holds(Clusters(s)[c], a) && Holds(Clusters(s)[c], b))
            <==> Reaches(s, a, b)
  {
    hide Run, Holds, Separate;
    RunKeeps(s);
    if c :| 0 <= c < |Clusters(s)| && Holds(Clusters(s)[c], a) && Holds(Clusters(s)[c], b) {
      assert Good(Clusters(s)[c]);
      assert Linked(Clusters(s)[c], a, b);
      var p: seq<Ev> :| Path(p, a, b) && forall e :: e in p ==> Holds(Clusters(s)[c], e);
      assert forall e :: e in p ==> e in s;
    }
    if Reaches(s, a, b) {
      var p: seq<Ev> :| Path(p, a, b) && forall e :: e in p ==> e in s;
      assert Somewhere(Clusters(s), a);
      var c :| 0 <= c < |Clusters(s)| && Holds(Clusters(s)[c], a);
      PathStays(s, p, a, b, c);
    }
  }
}
