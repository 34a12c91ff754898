/** The elements of a sequence for which a predicate holds. */
module Selections {
  /** The elements for which f holds, in order. */
  function Select<T>(s: seq<T>, f: T -> bool): seq<T> {
    if s == [] then [] else (if f(s[0]) then [s[0]] else []) + Select(s[1..], f)
  }

  lemma {:induction false} SelectConcat<T>(a: seq<T>, b: seq<T>, f: T -> bool)
    ensures Select(a + b, f) == Select(a, f) + Select(b, f)
  {
    if a == [] {
      assert a + b == b;
    } else {
      assert (a + b)[1..] == a[1..] + b;
      SelectConcat(a[1..], b, f);
      var x := if f(a[0]) then [a[0]] else [];
      assert x + (Select(a[1..], f) + Select(b, f)) == (x + Select(a[1..], f)) + Select(b, f);
    }
  }

  lemma {:induction false} SelectNothing<T>(s: seq<T>, f: T -> bool)
    requires forall j :: 0 <= j < |s| ==> !f(s[j])
    ensures Select(s, f) == []
  {
    if s != [] {
      SelectNothing(s[1..], f);
    }
  }

  /** One element more */
  lemma {:induction false} SelectOneMore<T>(s: seq<T>, x: T, f: T -> bool)
    ensures Select(s + [x], f) == if f(x) then Select(s, f) + [x] else Select(s, f)
  {
    SelectConcat(s, [x], f);
    assert Select([x], f) == if f(x) then [x] else [];
  }

  /** Equal predicates select the same. */
  lemma {:induction false} SelectSame<T>(s: seq<T>, f: T -> bool, g: T -> bool)
    requires forall j :: 0 <= j < |s| ==> f(s[j]) == g(s[j])
    ensures Select(s, f) == Select(s, g)
  {
    if s != [] {
      SelectSame(s[1..], f, g);
    }
  }

  /** A selection falls into those elements for which g holds, too, and those for which it does not. */
  lemma {:induction false} SelectSplits<T>(s: seq<T>, f: T -> bool, g: T -> bool, h: T -> bool)
    requires forall j :: 0 <= j < |s| ==> (f(s[j]) <==> g(s[j]) || h(s[j])) && !(g(s[j]) && h(s[j]))
    ensures multiset(Select(s, f)) == multiset(Select(s, g)) + multiset(Select(s, h))
  {
    if s != [] {
      SelectSplits(s[1..], f, g, h);
    }
  }

  lemma {:induction false} SelectedHold<T>(s: seq<T>, f: T -> bool)
    ensures forall k :: 0 <= k < |Select(s, f)| ==> f(Select(s, f)[k])
  {
    if s != [] {
      SelectedHold(s[1..], f);
    }
  }
}
