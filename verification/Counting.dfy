/** The sizes of finite sets of positions. */
module Counting {
  lemma {:induction false} SubsetSize<T>(a: set<T>, b: set<T>)
    requires a <= b
    ensures |a| <= |b|
  {
    if a != {} {
      var x :| x in a;
      SubsetSize(a - {x}, b - {x});
    }
  }

  /** The numbers from a up to but not including b. */
  ghost function Interval(a: nat, b: nat): (r: set<nat>)
    ensures forall j {:trigger j in r} :: j in r <==> a <= j < b
    ensures |r| == if a < b then b - a else 0
  {
    if a >= b then {} else Interval(a, b - 1) + {b - 1}
  }

  /** The values of a sequence at some positions. */
  ghost function Image(f: seq<nat>, x: set<nat>): set<nat>
    requires forall j :: j in x ==> j < |f|
  {
    set j | j in x :: f[j]
  }

  ghost predicate Injective(f: seq<nat>) {
    forall j, k :: 0 <= j < k < |f| ==> f[j] != f[k]
  }

  lemma {:induction false} ImageSize(f: seq<nat>, x: set<nat>)
    requires Injective(f) && forall j :: j in x ==> j < |f|
    ensures |Image(f, x)| == |x|
  {
    if x != {} {
      var j :| j in x;
      ImageSize(f, x - {j});
      assert Image(f, x) == Image(f, x - {j}) + {f[j]};
      assert f[j] !in Image(f, x - {j});
    }
  }

  /** The pigeonhole principle: n different numbers below n are all of them. */
  lemma {:induction false} Pigeonhole(f: seq<nat>, r: nat) returns (k: nat)
    requires Injective(f) && (forall j :: 0 <= j < |f| ==> f[j] < |f|) && r < |f|
    ensures k < |f| && f[k] == r
  {
    var all := Interval(0, |f|);
    if r !in Image(f, all) {
      ImageSize(f, all);
      SubsetSize(Image(f, all) + {r}, all);
      assert false;
    }
    k :| k in all && f[k] == r;
  }

  ghost function PairedWith(i: nat, x: set<nat>): set<(nat, nat)> {
    set k | k in x :: (i, k)
  }

  lemma {:induction false} PairedSize(i: nat, x: set<nat>)
    ensures |PairedWith(i, x)| == |x|
  {
    if x != {} {
      var j :| j in x;
      PairedSize(i, x - {j});
      assert PairedWith(i, x) == PairedWith(i, x - {j}) + {(i, j)};
    }
  }
}
