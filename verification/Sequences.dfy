/** Facts about sequences that several parts of the model share. */
module Sequences {

  datatype Option<+T> = None | Some(value: T)

  function Flatten<T>(ss: seq<seq<T>>): (s: seq<T>) {
    if ss == [] then [] else ss[0] + Flatten(ss[1..])
  }

  lemma {:induction false} FlattenConcat<T>(a: seq<seq<T>>, b: seq<seq<T>>)
    ensures Flatten(a + b) == Flatten(a) + Flatten(b)
  {
    if a == [] {
      assert a + b == b;
    } else {
      FlattenConcat(a[1..], b);
      assert (a + b)[0] == a[0] && (a + b)[1..] == a[1..] + b;
      assert (a[0] + Flatten(a[1..])) + Flatten(b) == a[0] + (Flatten(a[1..]) + Flatten(b));
    }
  }

  /** Cutting a concatenation behind its first part. */
  lemma CutBehind<T>(a: seq<T>, b: seq<T>, p: nat)
    requires |a| <= p <= |a + b|
    ensures (a + b)[..p][..|a|] == a
    ensures (a + b)[..p][|a|..] == b[..p - |a|]
  {
  }

  lemma Regroup<T>(a: seq<T>, b: seq<T>, c: seq<T>, d: seq<T>)
    ensures a + b + c + d == a + (b + (c + d))
  {
  }

  lemma FlattenSnoc<T>(a: seq<seq<T>>, last: seq<T>)
    ensures Flatten(a + [last]) == Flatten(a) + last
  {
    FlattenConcat(a, [last]);
    FlattenOne(last);
  }

  lemma FlattenOne<T>(s: seq<T>)
    ensures Flatten([s]) == s
  {
    assert |[s][1..]| == 0;
  }

  lemma FlattenNone<T>()
    ensures Flatten<T>([]) == []
  {
  }

  lemma SlicesSnoc<T>(s: seq<T>, x: T, a: nat, b: nat)
    requires a <= b <= |s|
    ensures (s + [x])[a..b] == s[a..b]
    ensures (s + [x])[b..] == s[b..] + [x] && (s + [x])[b..][..|s| - b] == s[b..]
  {
  }
}
