/** Cutting a sequence into consecutive groups of a fixed size, the way the accumulating loops of
    the repository do. */
module Grouping {
  /** Consecutive groups of `k`. */
  function Groups<T>(xs: seq<T>, k: nat): (gs: seq<seq<T>>)
    requires 0 < k
    ensures forall g :: g in gs ==> |g| == k
    decreases |xs|
  {
    if |xs| < k then [] else [xs[..k]] + Groups(xs[k..], k)
  }

  /** What the last whole group leaves over. */
  function Leftover<T>(xs: seq<T>, k: nat): (rest: seq<T>)
    requires 0 < k
    ensures |rest| < k
    decreases |xs|
  {
    if |xs| < k then xs else Leftover(xs[k..], k)
  }

  function Concat<T>(xss: seq<seq<T>>): seq<T> {
    if xss == [] then [] else xss[0] + Concat(xss[1..])
  }

  lemma {:induction false} ConcatAppend<T>(xss: seq<seq<T>>, xs: seq<T>)
    ensures Concat(xss + [xs]) == Concat(xss) + xs
  {
    if xss == [] {
      assert [xs][1..] == [] && xss + [xs] == [xs];
    } else {
      assert (xss + [xs])[1..] == xss[1..] + [xs];
      ConcatAppend(xss[1..], xs);
    }
  }

  /** The groups and the rest are the input cut up: nothing overlaps, nothing is lost. */
  lemma {:induction false} GroupsCover<T>(xs: seq<T>, k: nat)
    requires 0 < k
    ensures Concat(Groups(xs, k)) + Leftover(xs, k) == xs
    ensures k * |Groups(xs, k)| + |Leftover(xs, k)| == |xs|
    decreases |xs|
  {
    if k <= |xs| {
      GroupsCover(xs[k..], k);
      var gs := Groups(xs[k..], k);
      assert Groups(xs, k)[1..] == gs;
      assert k * (|gs| + 1) == k * |gs| + k;
      assert Concat(Groups(xs, k)) == xs[..k] + Concat(gs);
      assert xs[..k] + (Concat(gs) + Leftover(xs, k)) == xs;
    }
  }

  /** One more element either waits or completes a group. */
  lemma {:induction false} GroupsStep<T>(xs: seq<T>, x: T, k: nat)
    requires 0 < k
    ensures var pending := Leftover(xs, k) + [x];
            if |pending| < k then Groups(xs + [x], k) == Groups(xs, k) && Leftover(xs + [x], k) == pending
            else Groups(xs + [x], k) == Groups(xs, k) + [pending] && Leftover(xs + [x], k) == []
    decreases |xs|
  {
    if |xs| < k {
      if |xs| + 1 == k {
        assert (xs + [x])[..k] == xs + [x];
        assert Groups((xs + [x])[k..], k) == [];
      }
    } else {
      assert (xs + [x])[..k] == xs[..k];
      assert (xs + [x])[k..] == xs[k..] + [x];
      GroupsStep(xs[k..], x, k);
      assert Groups(xs + [x], k) == [xs[..k]] + Groups(xs[k..] + [x], k);
    }
  }
}
