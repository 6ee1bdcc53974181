/** Lists of shared items, on values: a table of items, and lists that name items by their place in it. */
module Lists {
  import opened Sequences

  /** Every place of a list is one of the table's. */
  predicate InRange(list: seq<nat>, size: nat) {
    forall k :: 0 <= k < |list| ==> list[k] < size
  }

  /** The items a list names. */
  function View<T>(items: seq<T>, list: seq<nat>): (view: seq<T>)
    requires InRange(list, |items|)
    ensures |view| == |list|
  {
    seq(|list|, k requires 0 <= k < |list| => items[list[k]])
  }

  function Without<T>(s: seq<T>, k: nat): (rest: seq<T>)
    requires k < |s|
  {
    s[..k] + s[k + 1..]
  }

  /** The first item for which `keep` holds. */
  function First<T>(s: seq<T>, keep: T -> bool): (k: Option<nat>)
    ensures k.Some? ==> k.value < |s| && keep(s[k.value])
    ensures k.Some? ==> forall i :: 0 <= i < k.value ==> !keep(s[i])
    ensures k.None? ==> forall i :: 0 <= i < |s| ==> !keep(s[i])
  {
    if s == [] then None
    else if keep(s[0]) then Some(0)
    else
      var rest := First(s[1..], keep);
      assert forall i :: 1 <= i < |s| ==> s[i] == s[1..][i - 1];
      if rest.Some? then Some(rest.value + 1) else None
  }

  /** The last item for which `keep` holds: what a scan from the end meets first. */
  function Last<T>(s: seq<T>, keep: T -> bool): (k: Option<nat>)
    ensures k.Some? ==> k.value < |s| && keep(s[k.value])
    ensures k.Some? ==> forall i :: k.value < i < |s| ==> !keep(s[i])
    ensures k.None? ==> forall i :: 0 <= i < |s| ==> !keep(s[i])
  {
    if s == [] then None
    else if keep(s[|s| - 1]) then Some(|s| - 1)
    else
      var front := s[..|s| - 1];
      assert forall i :: 0 <= i < |front| ==> s[i] == front[i];
      Last(front, keep)
  }

  /** The places of the items for which `keep` holds, in order. */
  function Positions<T>(s: seq<T>, keep: T -> bool): (places: seq<nat>)
    ensures InRange(places, |s|)
  {
    if s == [] then []
    else Positions(s[..|s| - 1], keep) + if keep(s[|s| - 1]) then [|s| - 1] else []
  }

  lemma {:induction false} PositionsExactly<T>(s: seq<T>, keep: T -> bool)
    ensures forall i :: 0 <= i < |s| && keep(s[i]) <==> i in Positions(s, keep)
    ensures forall k, k' :: 0 <= k < k' < |Positions(s, keep)| ==> Positions(s, keep)[k] < Positions(s, keep)[k']
  {
    if s == [] {
    } else {
      var front := s[..|s| - 1];
      assert forall i :: 0 <= i < |front| ==> s[i] == front[i];
      PositionsExactly(front, keep);
    }
  }

  lemma PositionsAppend<T>(s: seq<T>, x: T, keep: T -> bool)
    ensures Positions(s + [x], keep) == Positions(s, keep) + if keep(x) then [|s|] else []
  {
    assert (s + [x])[..|s|] == s;
  }

  /** An item that stops being kept is taken out of the list of places, and nothing else changes. */
  lemma {:induction false} PositionsDrop<T>(s: seq<T>, j: nat, x: T, keep: T -> bool, k: nat)
    requires j < |s| && keep(s[j]) && !keep(x)
    requires k < |Positions(s, keep)| && Positions(s, keep)[k] == j
    ensures Positions(s[j := x], keep) == Without(Positions(s, keep), k)
  {
    var n := |s| - 1;
    var front, places := s[..n], Positions(s[..n], keep);
    if j == n {
      assert s[j := x][..n] == front;
      assert k == |places|;
      assert Without(places + [n], k) == places;
    } else {
      assert s[j := x][..n] == front[j := x];
      assert k < |places|;
      PositionsDrop(front, j, x, keep, k);
      assert Without(places + [n], k) == Without(places, k) + [n];
    }
  }

  /** An item that changes without starting or stopping to be kept leaves the places as they are. */
  lemma {:induction false} PositionsSame<T>(s: seq<T>, j: nat, x: T, keep: T -> bool)
    requires j < |s| && keep(s[j]) == keep(x)
    ensures Positions(s[j := x], keep) == Positions(s, keep)
  {
    var n := |s| - 1;
    if j == n {
      assert s[j := x][..n] == s[..n];
    } else {
      assert s[j := x][..n] == s[..n][j := x];
      PositionsSame(s[..n], j, x, keep);
    }
  }

  // ---- Sums over a list ----

  function Total<T>(s: seq<T>, weight: T -> nat): (sum: nat) {
    if s == [] then 0 else Total(s[..|s| - 1], weight) + weight(s[|s| - 1])
  }

  lemma TotalAppend<T>(s: seq<T>, x: T, weight: T -> nat)
    ensures Total(s + [x], weight) == Total(s, weight) + weight(x)
  {
    assert (s + [x])[..|s|] == s;
  }

  lemma {:induction false} TotalUpdate<T>(s: seq<T>, j: nat, x: T, weight: T -> nat)
    requires j < |s|
    ensures Total(s[j := x], weight) + weight(s[j]) == Total(s, weight) + weight(x)
  {
    var n := |s| - 1;
    if j == n {
      assert s[j := x][..n] == s[..n];
    } else {
      assert s[j := x][..n] == s[..n][j := x];
      TotalUpdate(s[..n], j, x, weight);
    }
  }

  lemma {:induction false} TotalSame<T>(s: seq<T>, v: T -> nat, w: T -> nat)
    requires forall i :: 0 <= i < |s| ==> v(s[i]) == w(s[i])
    ensures Total(s, v) == Total(s, w)
  {
    if s == [] {
    } else {
      assert forall i :: 0 <= i < |s| - 1 ==> s[..|s| - 1][i] == s[i];
      TotalSame(s[..|s| - 1], v, w);
    }
  }

  lemma {:induction false} TotalAtMost<T>(s: seq<T>, v: T -> nat, w: T -> nat)
    requires forall i :: 0 <= i < |s| ==> v(s[i]) <= w(s[i])
    ensures Total(s, v) <= Total(s, w)
  {
    if s == [] {
    } else {
      assert forall i :: 0 <= i < |s| - 1 ==> s[..|s| - 1][i] == s[i];
      TotalAtMost(s[..|s| - 1], v, w);
    }
  }

  lemma {:induction false} TotalSum<T>(s: seq<T>, u: T -> nat, v: T -> nat, w: T -> nat)
    requires forall i :: 0 <= i < |s| ==> u(s[i]) == v(s[i]) + w(s[i])
    ensures Total(s, u) == Total(s, v) + Total(s, w)
  {
    if s == [] {
    } else {
      assert forall i :: 0 <= i < |s| - 1 ==> s[..|s| - 1][i] == s[i];
      TotalSum(s[..|s| - 1], u, v, w);
    }
  }

  lemma {:induction false} TotalZero<T>(s: seq<T>, weight: T -> nat)
    requires forall k :: 0 <= k < |s| ==> weight(s[k]) == 0
    ensures Total(s, weight) == 0
  {
    if s == [] {
    } else {
      assert forall k :: 0 <= k < |s| - 1 ==> s[..|s| - 1][k] == s[k];
      TotalZero(s[..|s| - 1], weight);
    }
  }

  lemma {:induction false} TotalAtLeast<T>(s: seq<T>, k: nat, weight: T -> nat)
    requires k < |s|
    ensures weight(s[k]) <= Total(s, weight)
  {
    if k < |s| - 1 {
      TotalAtLeast(s[..|s| - 1], k, weight);
    }
  }
}
