/** The revocation view of src/api.rs: the filter loop of `revocations`, the
    evidentiary cutoff and the standing. */
module RevocationView {
  import opened Text
  import opened Signatif
  import Quorum
  import Wire

  datatype Window = Window(start: Time, end: Option<Time>)

  datatype Query = Query(
    asOf: Time,
    knownBy: Option<Time>,
    subject: Option<string>,
    retroactive: Option<bool>,
    window: Option<Window>)

  datatype Standing = Stands | VoidAbInitio | SuspendedFrom

  datatype Item = Item(
    seqNo: nat, revocation: Revocation, knownAtCutoff: bool, voidsAtAsOf: bool, standing: Standing, quorate: bool)

  /** The window filter: one endpoint of the query lies in the declaration's
      window, where an open window counts as ending at its start. */
  predicate KeptByWindow(q: Window, w: Interval) {
    var end := if w.to.Some? then w.to.value else w.from;
    var containsStart := q.start >= w.from && q.start <= end;
    var containsEnd := if q.end.Some? then q.end.value >= w.from && q.end.value <= end else w.to.None?;
    containsStart || containsEnd
  }

  predicate Selected(env: Env, q: Query, r: Revocation) {
    && (q.retroactive.Some? ==> r.reason.IsRetroactive() == q.retroactive.value)
    && (q.subject.Some? ==> q.subject.value <= Wire.Label(env, r.subject))
    && (q.window.Some? ==> KeptByWindow(q.window.value, r.window))
  }

  predicate Known(q: Query, r: Revocation) {
    q.knownBy.Some? ==> r.declaredAt <= q.knownBy.value
  }

  predicate Voids(env: Env, q: Query, r: Revocation) {
    Known(q, r) && env.voids(r, q.asOf)
  }

  function StandingOf(env: Env, q: Query, r: Revocation): Standing {
    if !Voids(env, q, r) then Stands
    else if r.reason.IsRetroactive() then VoidAbInitio
    else SuspendedFrom
  }

  predicate QuorateNow(env: Env, graph: TrustGraph, r: Revocation) {
    && r.reason.IsRetroactive() && r.quorum.Some?
    && Quorum.VerdictOf(env, graph, r.quorum.value, env.statementBytes(r)).quorate
  }

  function ItemOf(env: Env, graph: TrustGraph, q: Query, r: Revocation, seqNo: nat): Item {
    Item(seqNo, r, Known(q, r), Voids(env, q, r), StandingOf(env, q, r), QuorateNow(env, graph, r))
  }

  // ---------------------------------------------------------------------
  // The loop
  // ---------------------------------------------------------------------

  /** Selecting, in order, under the running position. */
  function ViewOf(env: Env, graph: TrustGraph, q: Query, ledger: seq<Revocation>): seq<Item> {
    if ledger == [] then []
    else
      var init, last := ledger[..|ledger| - 1], ledger[|ledger| - 1];
      ViewOf(env, graph, q, init)
      + if Selected(env, q, last) then [ItemOf(env, graph, q, last, |ledger|)] else []
  }

  /** The body of `revocations`. */
  method Revocations(env: Env, graph: TrustGraph, ledger: seq<Revocation>, q: Query) returns (out: seq<Item>)
    ensures out == ViewOf(env, graph, q, ledger)
  {
    hide Quorum.VerdictOf, Wire.Label, KeptByWindow;
    out := [];
    var seqNo := 0;
    while seqNo < |ledger|
      invariant seqNo <= |ledger|
      invariant out == ViewOf(env, graph, q, ledger[..seqNo])
    {
      var r := ledger[seqNo];
      assert ledger[..seqNo + 1][..seqNo] == ledger[..seqNo];
      assert out + [] == out;
      seqNo := seqNo + 1;
      if q.retroactive.Some? && r.reason.IsRetroactive() != q.retroactive.value {
        continue;
      }
      if q.subject.Some? && !(q.subject.value <= Wire.Label(env, r.subject)) {
        continue;
      }
      if q.window.Some? && !KeptByWindow(q.window.value, r.window) {
        continue;
      }
      var known := q.knownBy.Some? ==> r.declaredAt <= q.knownBy.value;
      var voids := known && env.voids(r, q.asOf);
      var standing := if !voids then Stands else if r.reason.IsRetroactive() then VoidAbInitio else SuspendedFrom;
      var quorate := false;
      if r.reason.IsRetroactive() && r.quorum.Some? {
        var v := Quorum.Judge(env, graph, r.quorum.value, env.statementBytes(r));
        quorate := v.quorate;
      }
      out := out + [Item(seqNo, r, known, voids, standing, quorate)];
    }
    assert ledger[..|ledger|] == ledger;
  }

  ghost predicate Listed(out: seq<Item>, seqNo: nat) {
    exists i :: 0 <= i < |out| && out[i].seqNo == seqNo
  }

  predicate Rising(out: seq<Item>) {
    forall i, j :: 0 <= i < j < |out| ==> out[i].seqNo < out[j].seqNo
  }

  predicate ReadInPlace(env: Env, graph: TrustGraph, q: Query, ledger: seq<Revocation>, item: Item) {
    1 <= item.seqNo <= |ledger| && item == ItemOf(env, graph, q, ledger[item.seqNo - 1], item.seqNo)
  }

  /** A filtered subsequence: positions grow, each item is read from its own
      1-based position, and a declaration is listed exactly when selected. */
  ghost predicate Filtered(env: Env, graph: TrustGraph, q: Query, ledger: seq<Revocation>, out: seq<Item>) {
    && Rising(out)
    && (forall item :: item in out ==> ReadInPlace(env, graph, q, ledger, item))
    && (forall p :: 0 <= p < |ledger| ==> (Selected(env, q, ledger[p]) <==> Listed(out, p + 1)))
  }

  /** The view is the filtered subsequence of the ledger. */
  lemma {:induction false} ViewIsFiltered(env: Env, graph: TrustGraph, q: Query, ledger: seq<Revocation>)
    ensures Filtered(env, graph, q, ledger, ViewOf(env, graph, q, ledger))
  {
    hide Selected, ItemOf, Filtered;
    if ledger == [] {
      FilteredNothing(env, graph, q);
    } else {
      var n := |ledger| - 1;
      ViewIsFiltered(env, graph, q, ledger[..n]);
      var before := ViewOf(env, graph, q, ledger[..n]);
      if Selected(env, q, ledger[n]) {
        FilteredTake(env, graph, q, ledger, before);
      } else {
        FilteredSkip(env, graph, q, ledger, before);
        assert before + [] == before;
      }
    }
  }

  lemma ItemPosition(env: Env, graph: TrustGraph, q: Query, r: Revocation, seqNo: nat)
    ensures ItemOf(env, graph, q, r, seqNo).seqNo == seqNo
  {
  }

  lemma FilteredNothing(env: Env, graph: TrustGraph, q: Query)
    ensures Filtered(env, graph, q, [], [])
  {
  }

  lemma FilteredSkip(env: Env, graph: TrustGraph, q: Query, ledger: seq<Revocation>, out: seq<Item>)
    requires ledger != [] && Filtered(env, graph, q, ledger[..|ledger| - 1], out)
    requires !Selected(env, q, ledger[|ledger| - 1])
    ensures Filtered(env, graph, q, ledger, out)
  {
    hide Selected, ItemOf;
    var n := |ledger| - 1;
    var init := ledger[..n];
    assert forall p :: 0 <= p < n ==> ledger[p] == init[p];
    assert forall item :: item in out ==> ReadInPlace(env, graph, q, init, item);
    NotListed(out, n + 1);
  }

  lemma NotListed(out: seq<Item>, n: nat)
    requires forall item :: item in out ==> item.seqNo < n
    ensures !Listed(out, n)
  {
    assert forall i :: 0 <= i < |out| ==> out[i] in out;
  }

  lemma ListedSnoc(out: seq<Item>, item: Item, n: nat)
    ensures Listed(out + [item], n) <==> Listed(out, n) || item.seqNo == n
  {
    var more := out + [item];
    assert more[|out|] == item;
    if Listed(out, n) {
      var i :| 0 <= i < |out| && out[i].seqNo == n;
      assert more[i] == out[i];
    }
  }

  lemma ListedTake(env: Env, q: Query, ledger: seq<Revocation>, out: seq<Item>, item: Item)
    requires ledger != [] && item.seqNo == |ledger| && Selected(env, q, ledger[|ledger| - 1])
    requires forall p :: 0 <= p < |ledger| - 1 ==> (Selected(env, q, ledger[p]) <==> Listed(out, p + 1))
    ensures forall p :: 0 <= p < |ledger| ==> (Selected(env, q, ledger[p]) <==> Listed(out + [item], p + 1))
  {
    hide Selected, Listed;
    forall p: nat | p < |ledger|
      ensures Selected(env, q, ledger[p]) <==> Listed(out + [item], p + 1)
    {
      ListedSnoc(out, item, p + 1);
    }
  }

  lemma RisingSnoc(out: seq<Item>, item: Item)
    requires Rising(out) && forall x :: x in out ==> x.seqNo < item.seqNo
    ensures Rising(out + [item])
  {
    assert forall i :: 0 <= i < |out| ==> out[i] in out;
  }

  lemma FilteredTake(env: Env, graph: TrustGraph, q: Query, ledger: seq<Revocation>, out: seq<Item>)
    requires ledger != [] && Filtered(env, graph, q, ledger[..|ledger| - 1], out)
    requires Selected(env, q, ledger[|ledger| - 1])
    ensures Filtered(env, graph, q, ledger, out + [ItemOf(env, graph, q, ledger[|ledger| - 1], |ledger|)])
  {
    var n := |ledger| - 1;
    var init := ledger[..n];
    var item := ItemOf(env, graph, q, ledger[n], n + 1);
    ItemPosition(env, graph, q, ledger[n], n + 1);
    hide Selected, ItemOf, Rising, Listed;
    assert forall p :: 0 <= p < n ==> ledger[p] == init[p];
    assert forall x :: x in out ==> ReadInPlace(env, graph, q, init, x);
    RisingSnoc(out, item);
    ListedTake(env, q, ledger, out, item);
    assert forall x :: x in out + [item] <==> x in out || x == item;
  }

  // ---------------------------------------------------------------------
  // The answer, in terms of the query
  // ---------------------------------------------------------------------

  /** Whether a declaration is asked for, filter by filter: a given retroactivity
      is its own, a given subject begins its label, and an end of a given window
      lies in its window, which ends where it begins if it is open; an open query
      keeps every open declaration. */
  lemma AskedFor(env: Env, q: Query, r: Revocation)
    ensures Selected(env, q, r) <==>
      && (match q.retroactive
          case Some(wanted) => wanted <==> r.reason.IsRetroactive()
          case None => true)
      && (match q.subject
          case Some(s) => |s| <= |Wire.Label(env, r.subject)| && Wire.Label(env, r.subject)[..|s|] == s
          case None => true)
      && (match q.window
          case Some(w) =>
            var end := match r.window.to { case Some(t) => t case None => r.window.from };
            || r.window.from <= w.start <= end
            || (match w.end { case Some(e) => r.window.from <= e <= end case None => r.window.to == None })
          case None => true)
  {
    hide Wire.Label;
    if q.subject.Some? {
      var s, l := q.subject.value, Wire.Label(env, r.subject);
      assert s <= l <==> |s| <= |l| && l[..|s|] == s;
    }
  }

  /** The answer: the items stand in ledger order, and there is one for exactly
      the declarations that pass the three filters. Each tells of its own
      declaration whether it was known at the cutoff, whether it voids at the
      instant asked for, what it does then, and whether it is quorate now. */
  lemma AnswerMeans(env: Env, graph: TrustGraph, q: Query, ledger: seq<Revocation>)
    ensures var out := ViewOf(env, graph, q, ledger);
      && (forall i, j :: 0 <= i < j < |out| ==> out[i].seqNo < out[j].seqNo)
      && (forall i :: 0 <= i < |out| ==>
            && 1 <= out[i].seqNo <= |ledger|
            && Tells(env, graph, q, ledger[out[i].seqNo - 1], out[i])
            && (q.retroactive.Some? ==> out[i].revocation.reason.IsRetroactive() == q.retroactive.value)
            && (q.subject.Some? ==> q.subject.value <= Wire.Label(env, out[i].revocation.subject))
            && (q.window.Some? ==> KeptByWindow(q.window.value, out[i].revocation.window)))
      && (forall p :: 0 <= p < |ledger| ==> Listed(out, p + 1) || FailsOne(env, q, ledger[p]))
  {
    var out := ViewOf(env, graph, q, ledger);
    ViewIsFiltered(env, graph, q, ledger);
    hide ViewOf, Quorum.VerdictOf, Wire.Label, KeptByWindow;
    forall i | 0 <= i < |out|
      ensures 1 <= out[i].seqNo <= |ledger|
      ensures Tells(env, graph, q, ledger[out[i].seqNo - 1], out[i])
      ensures Selected(env, q, out[i].revocation)
    {
      assert out[i] in out && ReadInPlace(env, graph, q, ledger, out[i]);
      var r := ledger[out[i].seqNo - 1];
      ItemTells(env, graph, q, r, out[i].seqNo);
      assert Listed(out, out[i].seqNo - 1 + 1);
    }
    forall p | 0 <= p < |ledger|
      ensures Listed(out, p + 1) || FailsOne(env, q, ledger[p])
    {
      assert Selected(env, q, ledger[p]) <==> Listed(out, p + 1);
    }
  }

  /** A filter that the declaration does not pass. */
  predicate FailsOne(env: Env, q: Query, r: Revocation) {
    || (q.retroactive.Some? && r.reason.IsRetroactive() != q.retroactive.value)
    || (q.subject.Some? && !(q.subject.value <= Wire.Label(env, r.subject)))
    || (q.window.Some? && !KeptByWindow(q.window.value, r.window))
  }

  /** What an item says of its declaration. */
  predicate Tells(env: Env, graph: TrustGraph, q: Query, r: Revocation, item: Item) {
    var known := q.knownBy == None || r.declaredAt <= q.knownBy.value;
    var retroactive := r.reason.IsRetroactive();
    && item.revocation == r
    && item.knownAtCutoff == known
    && item.voidsAtAsOf == (known && env.voids(r, q.asOf))
    && (item.standing == VoidAbInitio <==> known && env.voids(r, q.asOf) && retroactive)
    && (item.standing == SuspendedFrom <==> known && env.voids(r, q.asOf) && !retroactive)
    && (item.standing == Stands <==> !known || !env.voids(r, q.asOf))
    && (item.quorate <==>
          && retroactive && r.quorum != None
          && Quorum.VerdictOf(env, graph, r.quorum.value, env.statementBytes(r)).quorate)
  }

  lemma ItemTells(env: Env, graph: TrustGraph, q: Query, r: Revocation, seqNo: nat)
    ensures Tells(env, graph, q, r, ItemOf(env, graph, q, r, seqNo))
  {
    hide Quorum.VerdictOf;
  }

  // ---------------------------------------------------------------------
  // Cutoff and window
  // ---------------------------------------------------------------------

  /** Raising the cutoff, or dropping it, only adds voids; what it adds are
      declarations made after the lower cutoff. */
  lemma CutoffMonotone(env: Env, q: Query, later: Query, r: Revocation)
    requires later.asOf == q.asOf && q.knownBy.Some?
    requires later.knownBy.Some? ==> q.knownBy.value <= later.knownBy.value
    ensures Voids(env, q, r) ==> Voids(env, later, r)
    ensures Voids(env, later, r) && !Voids(env, q, r) ==> q.knownBy.value < r.declaredAt
  {
  }

  predicate OrderedWindow(q: Window) {
    q.end.Some? ==> q.start <= q.end.value
  }

  predicate OrderedInterval(w: Interval) {
    w.to.Some? ==> w.from <= w.to.value
  }

  /** The two closed intervals share an instant. */
  predicate Overlaps(q: Window, w: Interval) {
    (w.to.Some? ==> q.start <= w.to.value) && (q.end.Some? ==> w.from <= q.end.value)
  }

  /** The overlaps that testing endpoints misses: a bounded window that the
      query encloses on both sides; a bounded window that begins after the
      start of an open query; an open window, unless an endpoint of a bounded
      query is its very start. */
  predicate Missed(q: Window, w: Interval) {
    if w.to.Some? then
      q.start < w.from && (q.end.Some? ==> w.to.value < q.end.value)
    else
      q.end.Some? && q.start != w.from && q.end.value != w.from
  }

  /** For windows in order, overlapping is sharing an instant; a window whose
      end lies before its start shares none. */
  lemma OverlapIsSharing(q: Window, w: Interval)
    ensures (exists t: Time :: Shares(q, w, t)) <==> OrderedWindow(q) && OrderedInterval(w) && Overlaps(q, w)
  {
    if OrderedWindow(q) && OrderedInterval(w) && Overlaps(q, w) {
      var t := if q.start < w.from then w.from else q.start;
      assert Shares(q, w, t);
    }
  }

  predicate Shares(q: Window, w: Interval, t: Time) {
    && q.start <= t && (q.end.Some? ==> t <= q.end.value)
    && w.from <= t && (w.to.Some? ==> t <= w.to.value)
  }

  /** A query as the filter reads it: nothing checks that it is in order, and a
      reversed one is read as if it were. */
  function AsRead(q: Window): Window {
    if q.end.Some? && q.end.value < q.start then Window(q.end.value, Some(q.start)) else q
  }

  /** For every query the filter keeps a declaration exactly when the query, put
      in order, overlaps it and does not miss it. */
  lemma WindowFilterExact(q: Window, w: Interval)
    ensures OrderedWindow(AsRead(q)) && (OrderedWindow(q) ==> AsRead(q) == q)
    ensures KeptByWindow(q, w) <==> Overlaps(AsRead(q), w) && !Missed(AsRead(q), w)
  {
  }

  /** So the answer holds declarations that share no instant with the query:
      exactly those that it keeps for a reversed query. */
  lemma KeptWithoutSharing(q: Window, w: Interval)
    ensures KeptByWindow(q, w) && !(exists t: Time :: Shares(q, w, t)) <==> KeptByWindow(q, w) && !OrderedWindow(q)
  {
    OverlapIsSharing(q, w);
    WindowFilterExact(q, w);
  }

  /** A reversed query that keeps a declaration. */
  lemma ReversedQueryKeeps()
    ensures var q, w := Window(10, Some(5)), Interval(4, Some(6));
      KeptByWindow(q, w) && !(exists t: Time :: Shares(q, w, t))
  {
    OverlapIsSharing(Window(10, Some(5)), Interval(4, Some(6)));
  }

  /** A query over a whole year misses a revocation of one day in it. */
  lemma EnclosingQueryMisses(start: Time, from: Time, to: Time, end: Time)
    requires start < from <= to < end
    ensures var q, w := Window(start, Some(end)), Interval(from, Some(to));
      Overlaps(q, w) && !KeptByWindow(q, w)
  {
  }
}
