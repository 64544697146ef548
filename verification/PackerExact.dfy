/** The boxes in numbers: where each event of the day stands, and how high and wide
    its box is (Packer.js:6-53). An hour is 70 points high, a day 86400000 ms. */
module PackerExact {
  import opened Wrappers
  import opened PackerModel
  import opened PackerBoxes

  /** The top is the time of day and the height the duration. */
  lemma HeightIsDuration(s: seq<Ev>, width: real, k: nat)
    requires k < |Layout(s, width)|
    ensures var p := Layout(s, width)[k];
            && p.box.top * 3600000.0 == (p.ev.start % 86400000) as real * 70.0
            && p.box.height * 3600000.0 == (p.ev.end - p.ev.start) as real * 70.0
  {
    hide Layout, Left, Width, Span, Clusters;
    var c, i, j := PlacedFrom(s, width, k);
    HoursExactly(Layout(s, width)[k].ev.start % 86400000);
    HoursExactly(Layout(s, width)[k].ev.end - Layout(s, width)[k].ev.start);
  }

  lemma HoursExactly(ms: int)
    ensures Hours(ms) * OFFSET * 3600000.0 == ms as real * 70.0
  {
  }

  /** The columns of a cluster share the width equally; a box starts at its column
      and goes on over the free columns after it, up to the first one with an event
      that collides, less a gap of ten points. */
  lemma WidthIsSpan(s: seq<Ev>, width: real, k: nat) returns (c: nat, i: nat, span: nat)
    requires k < |Layout(s, width)|
    ensures c < |Clusters(s)| && span >= 1 && i + span <= |Clusters(s)[c]|
    ensures var p, cols := Layout(s, width)[k], Clusters(s)[c];
            && p.ev in cols[i]
            && (forall m: int, e: Ev :: i < m < i + span && e in cols[m] ==>
                  !(p.ev.end > e.start && p.ev.start < e.end))
            && (i + span < |cols| ==> exists e: Ev :: e in cols[i + span] && p.ev.end > e.start && p.ev.start < e.end)
            && p.box.left * |cols| as real == width * i as real
            && (p.box.width + 10.0) * |cols| as real == width * span as real
  {
    hide Layout, Left, Width, Clusters, BuildBox;
    var j;
    c, i, j := PlacedFrom(s, width, k);
    var cols := Clusters(s)[c];
    var ev := cols[i][j];
    span := Span(cols, ev, i);
    forall m: int, e: Ev | i < m < i + span && e in cols[m] ensures !(ev.end > e.start && ev.start < e.end) {
      assert ColumnFree(ev, cols[m]);
    }
    LeftExactly(i, |cols|, width);
    WidthExactly(span, |cols|, width);
    BoxParts(ev, Left(i, |cols|, width), Width(span, |cols|, width));
  }

  lemma BoxParts(ev: Ev, left: real, width: real)
    ensures BuildBox(ev, left, width).left == left && BuildBox(ev, left, width).width == width
  {
  }

  lemma LeftExactly(i: nat, n: nat, width: real)
    requires n >= 1
    ensures Left(i, n, width) * n as real == width * i as real
  {
    var x := i as real / n as real;
    assert x * n as real == i as real;
    assert x * width * n as real == (x * n as real) * width;
  }

  lemma WidthExactly(span: nat, n: nat, width: real)
    requires n >= 1
    ensures (Width(span, n, width) + 10.0) * n as real == width * span as real
  {
  }

  // ----- which column -----

  predicate Packed(cols: seq<Column>) {
    forall i, j, ev :: 0 <= j < i < |cols| && ev in cols[i] ==> Meets(cols[j], ev)
  }

  /** The column has an event that collides with this one. */
  predicate Meets(col: Column, ev: Ev) { exists e :: e in col && e.end > ev.start && e.start < ev.end }

  lemma PlacePacked(cols: seq<Column>, ev: Ev)
    requires NonEmpty(cols) && Packed(cols)
    ensures Packed(Place(cols, ev))
  {
    var k, after := FirstFit(cols, ev, 0), Place(cols, ev);
    forall i, j, x | 0 <= j < i < |after| && x in after[i] ensures Meets(after[j], x) {
      assert after[j] == cols[j] || (j == k && after[j] == cols[j] + [ev]);
      if i < |cols| && x in cols[i] {
        assert Meets(cols[j], x);
        var e :| e in cols[j] && e.end > x.start && e.start < x.end;
        assert e in after[j];
      } else {
        assert Last(cols[j]) in after[j] && Collide(Last(cols[j]), ev);
      }
    }
  }

  lemma {:induction false} RunPacked(s: seq<Ev>)
    ensures Packed(Run(s).columns) && forall c :: 0 <= c < |Run(s).done| ==> Packed(Run(s).done[c])
  {
    hide Packed, Place;
    NothingPacked();
    if s != [] {
      var st, ev := Run(s[..|s|-1]), s[|s|-1];
      RunPacked(s[..|s|-1]);
      PlacePacked(st.columns, ev);
      PlacePacked([], ev);
    }
  }

  lemma NothingPacked()
    ensures Packed([])
  {
  }

  /** An event is in the leftmost column with room for it: each one further left has
      an event that collides with it. */
  lemma Leftmost(s: seq<Ev>, c: nat, i: nat, ev: Ev, j: nat)
    requires c < |Clusters(s)| && j < i < |Clusters(s)[c]| && ev in Clusters(s)[c][i]
    ensures exists e: Ev :: e in Clusters(s)[c][j] && e.end > ev.start && e.start < ev.end
  {
    hide Run;
    RunPacked(s);
    assert Meets(Clusters(s)[c][j], ev);
  }

  // ----- in which order -----

  lemma {:induction false} PairInColumns(cols: seq<Column>, n: nat, width: real, k: nat, l: nat)
    returns (i: nat, j: nat, m: nat, o: nat)
    requires n <= |cols| && k < l < |PackColumns(cols, n, width)|
    ensures i <= m < n && j < |cols[i]| && o < |cols[m]| && (i < m || j < o)
    ensures PackColumns(cols, n, width)[k] == PlacedAt(cols, i, j, width)
    ensures PackColumns(cols, n, width)[l] == PlacedAt(cols, m, o, width)
  {
    hide PlacedAt;
    var before := |PackColumns(cols, n - 1, width)|;
    if l < before {
      i, j, m, o := PairInColumns(cols, n - 1, width, k, l);
    } else {
      m, o := n - 1, l - before;
      if k < before { i, j := PlaceInColumns(cols, n - 1, width, k); } else { i, j := n - 1, k - before; }
    }
  }

  lemma {:induction false} PlaceInColumns(cols: seq<Column>, n: nat, width: real, k: nat) returns (i: nat, j: nat)
    requires n <= |cols| && k < |PackColumns(cols, n, width)|
    ensures i < n && j < |cols[i]| && PackColumns(cols, n, width)[k] == PlacedAt(cols, i, j, width)
  {
    hide PlacedAt;
    var before := |PackColumns(cols, n - 1, width)|;
    if k < before { i, j := PlaceInColumns(cols, n - 1, width, k); } else { i, j := n - 1, k - before; }
  }

  /** Where two entries of the layout come from. */
  predicate InTurn(clusters: seq<seq<Column>>, width: real, c: nat, i: nat, j: nat, d: nat, m: nat, o: nat, p: Placed,
                   q: Placed) {
    At(clusters, width, c, i, j, p) && At(clusters, width, d, m, o, q)
    && (c < d || (c == d && (i < m || (i == m && j < o))))
  }

  lemma {:induction false} PairInAll(clusters: seq<seq<Column>>, width: real, k: nat, l: nat)
    returns (c: nat, i: nat, j: nat, d: nat, m: nat, o: nat)
    requires k < l < |PackAll(clusters, width)|
    ensures InTurn(clusters, width, c, i, j, d, m, o, PackAll(clusters, width)[k], PackAll(clusters, width)[l])
    ensures d < |clusters|
  {
    hide PlacedAt;
    var n := |clusters| - 1;
    var before := |PackAll(clusters[..n], width)|;
    if l < before {
      c, i, j, d, m, o := PairInAll(clusters[..n], width, k, l);
    } else {
      d := n;
      if k < before {
        c, i, j := Locate(clusters[..n], width, k);
        m, o := LocateInColumns(clusters[n], |clusters[n]|, width, l - before);
      } else {
        c := n;
        i, j, m, o := PairInColumns(clusters[n], |clusters[n]|, width, k - before, l - before);
      }
    }
  }

  lemma LeftIncreases(i: nat, m: nat, n: nat, width: real)
    requires i < m && n >= 1 && width > 0.0
    ensures Left(i, n, width) < Left(m, n, width)
  {
    var x, y := i as real / n as real, m as real / n as real;
    assert y - x == (m - i) as real / n as real > 0.0;
    assert (y - x) * width > 0.0;
  }

  /** The boxes come cluster by cluster, column by column, and down each column: a
      later one belongs to an event that starts when the earlier one's has ended, or
      stands further right. */
  lemma InOrder(s: seq<Ev>, width: real, k: nat, l: nat)
    requires Sorted(s) && Forward(s) && Distinct(s) && k < l < |Layout(s, width)| && width > 0.0
    ensures var p, q := Layout(s, width)[k], Layout(s, width)[l]; p.ev.end <= q.ev.start || p.box.left < q.box.left
  {
    hide Run, Span, BuildBox, Holds, Left, Width, PackAll;
    var clusters := Clusters(s);
    var c, i, j, d, m, o := PairInAll(clusters, width, k, l);
    RunKeeps(s);
    assert Separate(clusters) && Good(clusters[c]);
    var a, b := clusters[c][i][j], clusters[d][m][o];
    if c < d {
      EventHeld(clusters[c], i, j);
      EventHeld(clusters[d], m, o);
    } else if i < m {
      var n := |clusters[c]|;
      LeftIncreases(i, m, n, width);
      BoxParts(a, Left(i, n, width), Width(Span(clusters[c], a, i), n, width));
      BoxParts(b, Left(m, n, width), Width(Span(clusters[c], b, m), n, width));
    } else {
      assert Chain(clusters[c][i]);
    }
  }

  lemma EventHeld(cols: seq<Column>, i: nat, j: nat)
    requires i < |cols| && j < |cols[i]|
    ensures Holds(cols, cols[i][j])
  {
    assert cols[i][j] in cols[i];
  }
}
