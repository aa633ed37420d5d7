/** The listing of trust lists in src/api.rs: collect from a hash map in
    whatever order it iterates, then sort by jurisdiction. */
module TrustListView {
  import opened Text
  import opened Signatif
  import opened State
  import opened Histories

  datatype Listing = Listing(jurisdiction: string, framework: Option<string>, entries: map<NodeId, TrustListEntry>)

  predicate Passes(st: State, jurisdiction: Option<string>, framework: Option<string>, key: string) {
    && (jurisdiction.Some? ==> key == jurisdiction.value)
    && (framework.Some? ==> FrameworkOf(st, key) == framework)
  }

  function FrameworkOf(st: State, key: string): Option<string> {
    if key in st.frameworks then st.frameworks[key] else None
  }

  function ListingOf(st: State, key: string): Listing
    requires key in st.trustLists
  {
    Listing(st.trustLists[key].jurisdiction, FrameworkOf(st, key), st.trustLists[key].entries)
  }

  /** The listings that pass the filters. */
  function Wanted(st: State, jurisdiction: Option<string>, framework: Option<string>): set<Listing> {
    set key | key in st.trustLists && Passes(st, jurisdiction, framework, key) :: ListingOf(st, key)
  }

  predicate StrictlySorted(out: seq<Listing>) {
    forall i, j :: 0 <= i < j < |out| ==> Less(out[i].jurisdiction, out[j].jurisdiction)
  }

  /** What `sort_by` puts `x` among the sorted `xs`: after every element that
      does not come later. */
  function Place(x: Listing, xs: seq<Listing>): seq<Listing> {
    if xs == [] then [x]
    else if Less(x.jurisdiction, xs[0].jurisdiction) then [x] + xs
    else [xs[0]] + Place(x, xs[1..])
  }

  lemma {:induction false} PlaceKeepsSorted(x: Listing, xs: seq<Listing>)
    requires StrictlySorted(xs) && forall y :: y in xs ==> y.jurisdiction != x.jurisdiction
    ensures StrictlySorted(Place(x, xs))
    ensures forall y :: y in Place(x, xs) <==> y == x || y in xs
  {
    if xs != [] {
      var head, tail := xs[0], xs[1..];
      assert head in xs;
      LessTrichotomy(x.jurisdiction, head.jurisdiction);
      if Less(x.jurisdiction, head.jurisdiction) {
        forall y | y in xs
          ensures Less(x.jurisdiction, y.jurisdiction)
        {
          var i :| 0 <= i < |xs| && xs[i] == y;
          if i > 0 {
            LessTransitive(x.jurisdiction, head.jurisdiction, y.jurisdiction);
          }
        }
        assert forall y :: y in [x] + xs <==> y == x || y in xs;
      } else {
        PlaceKeepsSorted(x, tail);
        var placed := Place(x, tail);
        forall y | y in placed
          ensures Less(head.jurisdiction, y.jurisdiction)
        {
          if y != x {
            var i :| 0 <= i < |tail| && tail[i] == y;
            assert xs[i + 1] == y;
          }
        }
        assert forall y :: y in [head] + placed <==> y == head || y in placed;
        assert forall y :: y in xs <==> y == head || y in tail;
      }
    }
  }

  /** The listing `l` comes from one of the first `n` keys. */
  ghost predicate From(st: State, jurisdiction: Option<string>, framework: Option<string>, keys: seq<string>,
                       n: nat, l: Listing)
    requires n <= |keys| && forall k :: k in keys ==> k in st.trustLists
  {
    exists k :: 0 <= k < n && Passes(st, jurisdiction, framework, keys[k]) && l == ListingOf(st, keys[k])
  }

  predicate Distinct(ls: seq<Listing>) {
    forall a, b :: 0 <= a < b < |ls| ==> ls[a].jurisdiction != ls[b].jurisdiction
  }

  /** The collecting loop of `trust_lists`. `keys` is the hash map's iteration
      order. */
  method CollectListings(st: State, jurisdiction: Option<string>, framework: Option<string>, keys: seq<string>)
    returns (collected: seq<Listing>)
    requires ListsAligned(st)
    requires forall i, j :: 0 <= i < j < |keys| ==> keys[i] != keys[j]
    requires forall k :: k in keys ==> k in st.trustLists
    ensures Distinct(collected)
    ensures forall l :: l in collected <==> From(st, jurisdiction, framework, keys, |keys|, l)
  {
    collected := [];
    for i := 0 to |keys|
      invariant forall l :: l in collected <==> From(st, jurisdiction, framework, keys, i, l)
      invariant Distinct(collected)
    {
      var key := keys[i];
      assert key in keys;
      if jurisdiction.Some? && key != jurisdiction.value {
        continue;
      }
      if framework.Some? && FrameworkOf(st, key) != framework {
        continue;
      }
      forall l | l in collected
        ensures l.jurisdiction != ListingOf(st, key).jurisdiction
      {
        var k :| 0 <= k < i && Passes(st, jurisdiction, framework, keys[k]) && l == ListingOf(st, keys[k]);
        assert keys[k] in keys;
        assert Upper(st.trustLists[keys[k]].jurisdiction) == keys[k];
      }
      collected := collected + [ListingOf(st, key)];
    }
  }

  function UpperQuery(jurisdiction: Option<string>): Option<string> {
    if jurisdiction.Some? then Some(Upper(jurisdiction.value)) else None
  }

  /** The body of `trust_lists`: collect, then sort. The query's jurisdiction is
      compared in upper case. */
  method TrustLists(st: State, jurisdiction: Option<string>, framework: Option<string>, keys: seq<string>)
    returns (out: seq<Listing>)
    requires ListsAligned(st)
    requires forall i, j :: 0 <= i < j < |keys| ==> keys[i] != keys[j]
    requires forall k :: k in keys <==> k in st.trustLists
    ensures StrictlySorted(out)
    ensures forall l :: l in out <==> l in Wanted(st, UpperQuery(jurisdiction), framework)
  {
    hide ListsAligned, Passes, ListingOf;
    var filter := UpperQuery(jurisdiction);
    var collected := CollectListings(st, filter, framework, keys);
    out := SortByJurisdiction(collected);
    forall l
      ensures l in out <==> l in Wanted(st, filter, framework)
    {
      if l in Wanted(st, filter, framework) {
        var key :| key in st.trustLists && Passes(st, filter, framework, key) && l == ListingOf(st, key);
        assert key in keys;
      }
      if From(st, filter, framework, keys, |keys|, l) {
        var k :| 0 <= k < |keys| && Passes(st, filter, framework, keys[k]) && l == ListingOf(st, keys[k]);
        assert keys[k] in keys;
      }
    }
  }

  /** What is wanted, from the lists themselves: those whose jurisdiction is the
      queried one in whatever case, and whose framework is the queried one; each
      with its own spelling, framework and entries. */
  lemma WantedMeans(st: State, jurisdiction: Option<string>, framework: Option<string>, l: Listing)
    requires ListsAligned(st)
    ensures l in Wanted(st, UpperQuery(jurisdiction), framework) <==>
      exists key ::
        && key in st.trustLists && key in st.frameworks
        && l.jurisdiction == st.trustLists[key].jurisdiction
        && l.framework == st.frameworks[key]
        && l.entries == st.trustLists[key].entries
        && (jurisdiction.Some? ==> Upper(l.jurisdiction) == Upper(jurisdiction.value))
        && (framework.Some? ==> l.framework == Some(framework.value))
  {
    hide Upper;
    var filter := UpperQuery(jurisdiction);
    if l in Wanted(st, filter, framework) {
      var key :| key in st.trustLists && Passes(st, filter, framework, key) && l == ListingOf(st, key);
      assert key in st.frameworks;
    }
  }

  method SortByJurisdiction(xs: seq<Listing>) returns (out: seq<Listing>)
    requires Distinct(xs)
    ensures StrictlySorted(out) && forall l :: l in out <==> l in xs
  {
    out := [];
    for i := 0 to |xs|
      invariant StrictlySorted(out) && forall l :: l in out <==> l in xs[..i]
    {
      forall y | y in out
        ensures y.jurisdiction != xs[i].jurisdiction
      {
        assert y in xs[..i];
      }
      PlaceKeepsSorted(xs[i], out);
      out := Place(xs[i], out);
      assert xs[..i + 1] == xs[..i] + [xs[i]];
    }
    assert xs[..|xs|] == xs;
  }

  /** A sorted listing is determined by its elements, so the answer does not
      depend on the order in which the hash map iterates. */
  lemma {:induction false} IterationOrderIrrelevant(a: seq<Listing>, b: seq<Listing>)
    requires StrictlySorted(a) && StrictlySorted(b) && forall l :: l in a <==> l in b
    ensures a == b
  {
    HeadIsThere(a);
    HeadIsThere(b);
    if a != [] {
      SmallestFirst(a, b[0]);
      SmallestFirst(b, a[0]);
      LessTrichotomy(a[0].jurisdiction, b[0].jurisdiction);
      assert a[0] == b[0];
      forall l
        ensures l in a[1..] <==> l in b[1..]
      {
        TailWithoutHead(a, l);
        TailWithoutHead(b, l);
      }
      IterationOrderIrrelevant(a[1..], b[1..]);
      assert a == [a[0]] + a[1..] && b == [b[0]] + b[1..];
    }
  }

  lemma HeadIsThere(a: seq<Listing>)
    ensures a != [] ==> a[0] in a
  {
  }

  lemma SmallestFirst(a: seq<Listing>, x: Listing)
    requires StrictlySorted(a) && x in a
    ensures x == a[0] || Less(a[0].jurisdiction, x.jurisdiction)
  {
  }

  lemma TailWithoutHead(a: seq<Listing>, l: Listing)
    requires StrictlySorted(a) && a != []
    ensures l in a[1..] <==> l in a && l != a[0]
  {
    LessTrichotomy(l.jurisdiction, l.jurisdiction);
    if l in a[1..] {
      var i :| 0 <= i < |a| - 1 && a[1..][i] == l;
      assert Less(a[0].jurisdiction, a[i + 1].jurisdiction);
    }
  }
}
