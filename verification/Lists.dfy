/** Iterator chains over sequences: `.map(..).collect()`. */
module Lists {
  import opened Text

  function Map<A, B>(f: A -> B, xs: seq<A>): (ys: seq<B>)
    ensures |ys| == |xs|
  {
    if xs == [] then [] else [f(xs[0])] + Map(f, xs[1..])
  }

  /** `.map(f).collect::<Result<Vec<_>, _>>()`. */
  function Collect<A, B>(f: A -> Option<B>, xs: seq<A>): Option<seq<B>> {
    if xs == [] then Some([])
    else
      var y :- f(xs[0]);
      var ys :- Collect(f, xs[1..]);
      Some([y] + ys)
  }

  ghost predicate All<A(!new)>(p: A -> bool, xs: seq<A>) {
    forall x :: x in xs ==> p(x)
  }

  /** If reading back one element gives it when it fits and an error when it
      does not, reading back a list gives it exactly when every element fits. */
  lemma {:induction false} ReadBack<A(!new), B>(to: A -> B, from: B -> Option<A>, fits: A -> bool, xs: seq<A>)
    requires forall x :: x in xs ==> from(to(x)) == if fits(x) then Some(x) else None
    ensures Collect(from, Map(to, xs)) == if All(fits, xs) then Some(xs) else None
  {
    if xs != [] {
      var x, tail := xs[0], xs[1..];
      assert x in xs;
      ReadBack(to, from, fits, tail);
      assert xs == [x] + tail;
      assert Map(to, xs)[0] == to(x) && Map(to, xs)[1..] == Map(to, tail);
      assert All(fits, xs) <==> fits(x) && All(fits, tail);
    }
  }

  lemma {:induction false} CollectSnoc<A, B>(f: A -> Option<B>, xs: seq<A>, x: A)
    ensures var ys, y := Collect(f, xs), f(x);
      Collect(f, xs + [x]) == if ys.None? || y.None? then None else Some(ys.value + [y.value])
  {
    if xs == [] {
      assert xs + [x] == [x] && [x][1..] == [];
      if f(x).Some? {
        assert [f(x).value] + [] == [f(x).value] == [] + [f(x).value];
      }
    } else {
      var all := xs + [x];
      assert all[0] == xs[0] && all[1..] == xs[1..] + [x];
      CollectSnoc(f, xs[1..], x);
      var first, rest := f(xs[0]), Collect(f, xs[1..]);
      if first.Some? && rest.Some? && f(x).Some? {
        assert [first.value] + (rest.value + [f(x).value]) == ([first.value] + rest.value) + [f(x).value];
      }
    }
  }

  lemma {:induction false} CollectFails<A, B>(f: A -> Option<B>, xs: seq<A>, i: nat)
    requires i < |xs| && f(xs[i]).None?
    ensures Collect(f, xs).None?
  {
    if i > 0 {
      CollectFails(f, xs[1..], i - 1);
    }
  }
}
