/**
 * Pellet eating. Each frame the pellets whose squares overlap the player's
 * square are eaten: main.py collects them and removes each by value
 * (list.remove), sketch.js collects their indices and splices them out from
 * the last to the first. Both leave exactly the uneaten pellets, in order.
 */
module Pellets {
  import opened Geometry

  /** The pellets that survive: those the player's square r does not overlap, in order. */
  function Uneaten(ps: seq<Rect>, r: Rect): seq<Rect> {
    if ps == [] then [] else (if Overlap(r, ps[0]) then [] else [ps[0]]) + Uneaten(ps[1..], r)
  }

  /** The pellets eaten: those r overlaps, in order. */
  function Eaten(ps: seq<Rect>, r: Rect): seq<Rect> {
    if ps == [] then [] else (if Overlap(r, ps[0]) then [ps[0]] else []) + Eaten(ps[1..], r)
  }

  lemma {:induction false} UneatenAppend(a: seq<Rect>, b: seq<Rect>, r: Rect)
    ensures Uneaten(a + b, r) == Uneaten(a, r) + Uneaten(b, r)
    ensures Eaten(a + b, r) == Eaten(a, r) + Eaten(b, r)
  {
    if a == [] {
      assert a + b == b;
    } else {
      assert (a + b)[1..] == a[1..] + b;
      UneatenAppend(a[1..], b, r);
    }
  }

  /**
   * Exactly the non-overlapping pellets survive and exactly the overlapping
   * ones are eaten; together they account for every pellet, so the list
   * never grows.
   */
  lemma {:induction false} UneatenMembers(ps: seq<Rect>, r: Rect)
    ensures forall p :: p in Uneaten(ps, r) <==> p in ps && !Overlap(r, p)
    ensures forall p :: p in Eaten(ps, r) <==> p in ps && Overlap(r, p)
    ensures |Uneaten(ps, r)| + |Eaten(ps, r)| == |ps|
  {
    if ps != [] {
      UneatenMembers(ps[1..], r);
      assert ps == [ps[0]] + ps[1..];
    }
  }

  /** A list with no overlapping pellet is left as it is. */
  lemma {:induction false} NoneEaten(ps: seq<Rect>, r: Rect)
    requires forall i :: 0 <= i < |ps| ==> !Overlap(r, ps[i])
    ensures Uneaten(ps, r) == ps
  {
    if ps != [] {
      NoneEaten(ps[1..], r);
    }
  }

  /** Eating twice with the same square eats nothing more. */
  lemma UneatenIdempotent(ps: seq<Rect>, r: Rect)
    ensures Uneaten(Uneaten(ps, r), r) == Uneaten(ps, r)
  {
    UneatenMembers(ps, r);
    var u := Uneaten(ps, r);
    forall i | 0 <= i < |u| ensures !Overlap(r, u[i]) {
      assert u[i] in u;
    }
    NoneEaten(u, r);
  }

  /** Python's list.remove: the first element equal to v is removed (v must be present). */
  function RemoveFirst(s: seq<Rect>, v: Rect): (t: seq<Rect>)
    requires v in s
    ensures |t| == |s| - 1
  {
    if s[0] == v then s[1..] else [s[0]] + RemoveFirst(s[1..], v)
  }

  /** What list.remove leaves: when s[i] is the first occurrence of v, everything but position i, in order. */
  lemma {:induction false} RemoveFirstIsFirst(s: seq<Rect>, v: Rect, i: int)
    requires 0 <= i < |s| && s[i] == v && v !in s[..i]
    ensures RemoveFirst(s, v) == s[..i] + s[i + 1..]
  {
    if i > 0 {
      assert s[0] in s[..i];
      assert s[1..][..i - 1] == s[1..i];
      RemoveFirstIsFirst(s[1..], v, i - 1);
      assert s[..i] == [s[0]] + s[1..i];
    }
  }

  /** The pellet list after removing its first k eaten pellets. */
  function DropEaten(ps: seq<Rect>, r: Rect, k: nat): seq<Rect> {
    if k == 0 || ps == [] then ps
    else if Overlap(r, ps[0]) then DropEaten(ps[1..], r, k - 1)
    else [ps[0]] + DropEaten(ps[1..], r, k)
  }

  /**
   * Removing the next eaten pellet by value removes that very pellet: any
   * equal value earlier in the list would overlap too, and every earlier
   * overlapping pellet is already gone.
   */
  lemma {:induction false} RemoveNextEaten(ps: seq<Rect>, r: Rect, k: nat)
    requires k < |Eaten(ps, r)|
    ensures Eaten(ps, r)[k] in DropEaten(ps, r, k)
    ensures RemoveFirst(DropEaten(ps, r, k), Eaten(ps, r)[k]) == DropEaten(ps, r, k + 1)
  {
    var e := Eaten(ps, r);
    if Overlap(r, ps[0]) {
      if k > 0 {
        RemoveNextEaten(ps[1..], r, k - 1);
      }
    } else {
      RemoveNextEaten(ps[1..], r, k);
      UneatenMembers(ps[1..], r);
      assert e[k] in Eaten(ps[1..], r);
      assert ps[0] != e[k];
    }
  }

  /** Once every eaten pellet is removed, the uneaten ones are left. */
  lemma {:induction false} DropAllEaten(ps: seq<Rect>, r: Rect)
    ensures DropEaten(ps, r, |Eaten(ps, r)|) == Uneaten(ps, r)
  {
    if ps != [] {
      DropAllEaten(ps[1..], r);
      if !Overlap(r, ps[0]) && |Eaten(ps, r)| == 0 {
        NoEatenNoneDropped(ps[1..], r);
      }
    }
  }

  lemma {:induction false} NoEatenNoneDropped(ps: seq<Rect>, r: Rect)
    requires |Eaten(ps, r)| == 0
    ensures Uneaten(ps, r) == ps
  {
    if ps != [] {
      NoEatenNoneDropped(ps[1..], r);
    }
  }

  /**
   * main.py's pellet loop: collect the overlapping pellets (each scoring),
   * then remove each from the list by value.
   */
  method EatByValue(ps: seq<Rect>, r: Rect) returns (rest: seq<Rect>, eaten: seq<Rect>)
    ensures eaten == Eaten(ps, r)
    ensures rest == Uneaten(ps, r)
  {
    eaten := [];
    for i := 0 to |ps|
      invariant eaten == Eaten(ps[..i], r)
    {
      assert ps[..i + 1] == ps[..i] + [ps[i]];
      UneatenAppend(ps[..i], [ps[i]], r);
      if Overlap(r, ps[i]) {
        eaten := eaten + [ps[i]];
      }
    }
    assert ps[..|ps|] == ps;
    rest := ps;
    for k := 0 to |eaten|
      invariant rest == DropEaten(ps, r, k)
    {
      RemoveNextEaten(ps, r, k);
      rest := RemoveFirst(rest, eaten[k]);
    }
    DropAllEaten(ps, r);
  }

  /** The index list of sketch.js: ascending, in range, exactly the overlapping positions. */
  ghost predicate EatenIndices(ps: seq<Rect>, r: Rect, idx: seq<int>) {
    (forall k :: 0 <= k < |idx| ==> 0 <= idx[k] < |ps|) &&
    (forall k, l :: 0 <= k < l < |idx| ==> idx[k] < idx[l]) &&
    (forall i :: 0 <= i < |ps| ==> (i in idx <==> Overlap(r, ps[i])))
  }

  /** sketch.js's first pellet loop: the indices of the overlapping pellets, in ascending order. */
  method CollectEaten(ps: seq<Rect>, r: Rect) returns (idx: seq<int>)
    ensures EatenIndices(ps, r, idx)
    ensures |idx| == |Eaten(ps, r)|
  {
    idx := [];
    for i := 0 to |ps|
      invariant forall k :: 0 <= k < |idx| ==> 0 <= idx[k] < i
      invariant forall k, l :: 0 <= k < l < |idx| ==> idx[k] < idx[l]
      invariant forall j :: 0 <= j < i ==> (j in idx <==> Overlap(r, ps[j]))
      invariant |idx| == |Eaten(ps[..i], r)|
    {
      assert |Eaten(ps[..i + 1], r)| == |Eaten(ps[..i], r)| + (if Overlap(r, ps[i]) then 1 else 0) by {
        assert ps[..i + 1] == ps[..i] + [ps[i]];
        UneatenAppend(ps[..i], [ps[i]], r);
      }
      if Overlap(r, ps[i]) {
        idx := idx + [i];
      }
    }
    assert ps[..|ps|] == ps;
  }

  /** The first position at or after the k-th collected index, or the list's end. */
  function Bound(ps: seq<Rect>, idx: seq<int>, k: nat): int
    requires k <= |idx|
  {
    if k == |idx| then |ps| else idx[k]
  }

  /** No position strictly between two consecutive collected indices overlaps. */
  lemma Between(ps: seq<Rect>, r: Rect, idx: seq<int>, k: nat, i: int)
    requires EatenIndices(ps, r, idx) && 0 < k <= |idx|
    requires idx[k - 1] < i < Bound(ps, idx, k)
    ensures !Overlap(r, ps[i])
  {
  }

  /** The uneaten pellets from an eaten position j on: the clean stretch up to the next index b, then the rest. */
  lemma UneatenAfterIndex(ps: seq<Rect>, r: Rect, idx: seq<int>, k: nat)
    requires EatenIndices(ps, r, idx) && 0 < k <= |idx|
    ensures idx[k - 1] < Bound(ps, idx, k)
    ensures Uneaten(ps[idx[k - 1]..], r) == ps[idx[k - 1] + 1..Bound(ps, idx, k)] + Uneaten(ps[Bound(ps, idx, k)..], r)
  {
    var j, b := idx[k - 1], Bound(ps, idx, k);
    assert j < b by {
      if k < |idx| {
        assert idx[k - 1] < idx[k];
      }
    }
    var mid := ps[j + 1..b];
    forall i | 0 <= i < |mid| ensures !Overlap(r, mid[i]) {
      Between(ps, r, idx, k, j + 1 + i);
    }
    NoneEaten(mid, r);
    assert ps[j..] == [ps[j]] + mid + ps[b..];
    UneatenAppend([ps[j]] + mid, ps[b..], r);
    UneatenAppend([ps[j]], mid, r);
    assert j in idx;
    assert Uneaten([ps[j]], r) == [];
  }

  /** No position before the first collected index overlaps. */
  lemma BeforeFirst(ps: seq<Rect>, r: Rect, idx: seq<int>, i: int)
    requires EatenIndices(ps, r, idx)
    requires 0 <= i < Bound(ps, idx, 0)
    ensures !Overlap(r, ps[i])
  {
  }

  /** One splice of sketch.js, from the back: removing idx[k-1] extends the uneaten suffix. */
  lemma SpliceStep(ps: seq<Rect>, r: Rect, idx: seq<int>, k: nat, rest: seq<Rect>)
    requires EatenIndices(ps, r, idx) && 0 < k <= |idx|
    requires rest == ps[..Bound(ps, idx, k)] + Uneaten(ps[Bound(ps, idx, k)..], r)
    ensures 0 <= idx[k - 1] < |rest|
    ensures rest[..idx[k - 1]] + rest[idx[k - 1] + 1..] == ps[..idx[k - 1]] + Uneaten(ps[idx[k - 1]..], r)
  {
    UneatenAfterIndex(ps, r, idx, k);
    var j, b := idx[k - 1], Bound(ps, idx, k);
    var tail := Uneaten(ps[b..], r);
    assert rest[..j] == ps[..j];
    assert rest[j + 1..] == ps[j + 1..b] + tail;
  }

  /**
   * sketch.js's pellet loop: collect the overlapping indices, then splice
   * them out in descending order (the sort of the ascending list), so that
   * each splice leaves the positions still to be removed in place.
   */
  method EatBySplice(ps: seq<Rect>, r: Rect) returns (rest: seq<Rect>, count: nat)
    ensures count == |Eaten(ps, r)|
    ensures rest == Uneaten(ps, r)
  {
    var idx := CollectEaten(ps, r);
    count := |idx|;
    rest := ps;
    var k := |idx|;
    while k > 0
      invariant 0 <= k <= |idx|
      invariant rest == ps[..Bound(ps, idx, k)] + Uneaten(ps[Bound(ps, idx, k)..], r)
    {
      SpliceStep(ps, r, idx, k, rest);
      rest := rest[..idx[k - 1]] + rest[idx[k - 1] + 1..];
      k := k - 1;
    }
    var b := Bound(ps, idx, 0);
    forall i | 0 <= i < b ensures !Overlap(r, ps[..b][i]) {
      BeforeFirst(ps, r, idx, i);
    }
    NoneEaten(ps[..b], r);
    assert ps == ps[..b] + ps[b..];
    UneatenAppend(ps[..b], ps[b..], r);
  }
}
