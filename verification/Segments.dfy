/** How an upload cuts a stream of packages into chunks. */
module Segments {
  import opened Text

  function Size(ps: seq<string>): nat {
    if ps == [] then 0 else Size(ps[..|ps| - 1]) + |ps[|ps| - 1]|
  }

  function Flatten(segs: seq<seq<string>>): seq<string> {
    if segs == [] then [] else Flatten(segs[..|segs| - 1]) + segs[|segs| - 1]
  }

  /** A segment that reached the limit, and not before its last package. */
  predicate Full(seg: seq<string>, max: nat) {
    seg != [] && Size(seg) >= max && Size(seg[..|seg| - 1]) < max
  }

  /** The greedy segmentation: every segment but the last is full, and the last, which may be empty, is not. */
  predicate Greedy(segs: seq<seq<string>>, max: nat) {
    && segs != []
    && (forall i :: 0 <= i < |segs| - 1 ==> Full(segs[i], max))
    && Size(segs[|segs| - 1]) < max
  }

  lemma SizeNext(ps: seq<string>, p: string)
    ensures Size(ps + [p]) == Size(ps) + |p|
  {
    assert (ps + [p])[..|ps|] == ps;
  }

  /** The size counts the bytes of the packages: joined, they take one more for each separator. */
  lemma {:induction false} SizeOfJoined(ps: seq<string>)
    requires ps != []
    ensures |Join(ps, '|')| == Size(ps) + |ps| - 1
  {
    if |ps| == 1 {
      assert ps[..0] == [];
    } else {
      SizeOfJoined(ps[..|ps| - 1]);
      JoinAppend(ps[..|ps| - 1], ps[|ps| - 1], '|');
      assert ps[..|ps| - 1] + [ps[|ps| - 1]] == ps;
    }
  }

  lemma FlattenNext(segs: seq<seq<string>>, seg: seq<string>)
    ensures Flatten(segs + [seg]) == Flatten(segs) + seg
  {
    assert (segs + [seg])[..|segs|] == segs;
  }

  lemma {:induction false} SizeMonotone(ps: seq<string>, k: nat)
    requires k <= |ps|
    ensures Size(ps[..k]) <= Size(ps)
  {
    if k < |ps| {
      SizeMonotone(ps[..|ps| - 1], k);
      assert ps[..|ps| - 1][..k] == ps[..k];
    } else {
      assert ps[..k] == ps;
    }
  }

  lemma {:induction false} FlattenFirst(segs: seq<seq<string>>)
    requires segs != []
    ensures Flatten(segs) == segs[0] + Flatten(segs[1..])
  {
    if |segs| > 1 {
      var init, last := segs[..|segs| - 1], segs[|segs| - 1];
      FlattenFirst(init);
      assert init[1..] == segs[1..][..|segs| - 2] && init[0] == segs[0];
      assert Flatten(segs[1..]) == Flatten(init[1..]) + last;
    } else {
      assert segs[..0] == [] && segs[1..] == [];
    }
  }

  /** Two full segments that start the same stream are equal. */
  lemma FullUnique(a: seq<string>, b: seq<string>, s: seq<string>, t: seq<string>, max: nat)
    requires Full(a, max) && Full(b, max) && a + s == b + t
    ensures a == b
  {
    if |a| < |b| {
      assert a == (a + s)[..|a|] == (b + t)[..|a|] == b[..|b| - 1][..|a|];
      SizeMonotone(b[..|b| - 1], |a|);
    } else if |b| < |a| {
      assert b == (b + t)[..|b|] == (a + s)[..|b|] == a[..|a| - 1][..|b|];
      SizeMonotone(a[..|a| - 1], |b|);
    } else {
      assert a == (a + s)[..|a|] == (b + t)[..|a|] == b;
    }
  }

  /** A full segment does not fit into a stream that stays below the limit. */
  lemma FullTooLarge(a: seq<string>, s: seq<string>, max: nat)
    requires Full(a, max)
    ensures Size(a + s) >= max
  {
    SizeMonotone(a + s, |a|);
    assert (a + s)[..|a|] == a;
  }

  /** A stream has one greedy segmentation. */
  lemma {:induction false} GreedyUnique(a: seq<seq<string>>, b: seq<seq<string>>, max: nat)
    requires Greedy(a, max) && Greedy(b, max) && Flatten(a) == Flatten(b)
    ensures a == b
    decreases |a|
  {
    FlattenFirst(a);
    FlattenFirst(b);
    if |a| == 1 && |b| == 1 {
      assert a[1..] == [] && b[1..] == [];
      assert a[0] + [] == a[0] && b[0] + [] == b[0];
      assert a == [a[0]] && b == [b[0]];
    } else if |a| == 1 {
      assert a[1..] == [] && a[0] + [] == a[0];
      FullTooLarge(b[0], Flatten(b[1..]), max);
    } else if |b| == 1 {
      assert b[1..] == [] && b[0] + [] == b[0];
      FullTooLarge(a[0], Flatten(a[1..]), max);
    } else {
      FullUnique(a[0], b[0], Flatten(a[1..]), Flatten(b[1..]), max);
      assert Flatten(a[1..]) == (a[0] + Flatten(a[1..]))[|a[0]|..];
      assert Flatten(b[1..]) == (b[0] + Flatten(b[1..]))[|b[0]|..];
      GreedyUnique(a[1..], b[1..], max);
      assert a == [a[0]] + a[1..] && b == [b[0]] + b[1..];
    }
  }
}
