/**
 Lists without repetitions, and what is left of a list when some of its elements are dropped: as many as are kept,
 each after those kept before it.
 */
module Lists {
  import opened Options

  /** Everything in the list is there once. */
  predicate NoRepeats<T(==)>(s: seq<T>) {
    s == [] || (s[0] !in s[1..] && NoRepeats(s[1..]))
  }

  lemma {:induction false} NoRepeatsConcat<T>(a: seq<T>, b: seq<T>)
    ensures NoRepeats(a + b) <==> NoRepeats(a) && NoRepeats(b) && forall x :: x in b ==> x !in a
  {
    if a == [] {
      assert a + b == b;
    } else {
      NoRepeatsConcat(a[1..], b);
      assert (a + b)[1..] == a[1..] + b;
      assert forall x :: x in a <==> x == a[0] || x in a[1..];
    }
  }

  lemma SubsetSize<T>(a: set<T>, b: set<T>)
    requires a <= b
    ensures |a| <= |b|
  {
    if a == {} {
    } else {
      var x :| x in a;
      SubsetSize(a - {x}, b - {x});
    }
  }

  /** How many of the first `p` elements `g` keeps. */
  ghost function KeptBefore<S, T>(all: seq<S>, g: S -> Option<T>, p: nat): nat {
    |set q: nat | q < p && q < |all| && g(all[q]).Some?|
  }

  /** If `g` keeps the element at `p`, it comes after those kept before it. */
  ghost predicate KeptAt<S, T>(all: seq<S>, kept: seq<T>, g: S -> Option<T>, p: nat) {
    p < |all| && g(all[p]).Some? ==>
      var k := KeptBefore(all, g, p); k < |kept| && kept[k] == g(all[p]).value
  }

  /** `kept` is what `g` makes of the elements it does not drop, in their order, and nothing else. */
  ghost predicate Selected<S, T>(all: seq<S>, kept: seq<T>, g: S -> Option<T>) {
    |kept| == KeptBefore(all, g, |all|) && forall p: nat :: KeptAt(all, kept, g, p)
  }

  lemma KeptNext<S, T>(all: seq<S>, g: S -> Option<T>, p: nat)
    requires p < |all|
    ensures KeptBefore(all, g, p + 1) == KeptBefore(all, g, p) + if g(all[p]).Some? then 1 else 0
  {
    var earlier := set q: nat | q < p && q < |all| && g(all[q]).Some?;
    assert (set q: nat | q < p + 1 && q < |all| && g(all[q]).Some?)
        == if g(all[p]).Some? then earlier + {p} else earlier;
  }

  lemma KeptSnoc<S, T>(all: seq<S>, g: S -> Option<T>, x: S, p: nat)
    requires p <= |all|
    ensures KeptBefore(all + [x], g, p) == KeptBefore(all, g, p)
  {
    assert (set q: nat | q < p && q < |all + [x]| && g((all + [x])[q]).Some?)
        == set q: nat | q < p && q < |all| && g(all[q]).Some?;
  }

  lemma {:induction false} KeptCons<S, T>(x: S, all: seq<S>, g: S -> Option<T>, p: nat)
    requires p <= |all|
    ensures KeptBefore([x] + all, g, p + 1) == KeptBefore(all, g, p) + if g(x).Some? then 1 else 0
  {
    KeptNext([x] + all, g, p);
    if p == 0 {
    } else {
      KeptCons(x, all, g, p - 1);
      KeptNext(all, g, p - 1);
    }
  }

  lemma SelectedSnoc<S, T>(all: seq<S>, kept: seq<T>, g: S -> Option<T>, x: S)
    requires Selected(all, kept, g)
    ensures Selected(all + [x], if g(x).Some? then kept + [g(x).value] else kept, g)
  {
    var (more, longer) := (all + [x], if g(x).Some? then kept + [g(x).value] else kept);
    KeptNext(more, g, |all|);
    KeptSnoc(all, g, x, |all|);
    forall p: nat ensures KeptAt(more, longer, g, p) {
      if p < |all| {
        KeptSnoc(all, g, x, p);
        assert KeptAt(all, kept, g, p);
      }
    }
  }

  lemma SelectedCons<S, T>(x: S, all: seq<S>, kept: seq<T>, g: S -> Option<T>)
    requires Selected(all, kept, g)
    ensures Selected([x] + all, if g(x).Some? then [g(x).value] + kept else kept, g)
  {
    var (more, longer) := ([x] + all, if g(x).Some? then [g(x).value] + kept else kept);
    KeptCons(x, all, g, |all|);
    forall p: nat ensures KeptAt(more, longer, g, p) {
      if 0 < p <= |all| {
        KeptCons(x, all, g, p - 1);
        assert KeptAt(all, kept, g, p - 1);
      }
    }
  }

  lemma SelectedAlike<S, T>(all: seq<S>, kept: seq<T>, g: S -> Option<T>, h: S -> Option<T>)
    requires Selected(all, kept, g) && forall i :: 0 <= i < |all| ==> g(all[i]) == h(all[i])
    ensures Selected(all, kept, h)
  {
    forall p: nat ensures KeptBefore(all, g, p) == KeptBefore(all, h, p) {
      assert (set q: nat | q < p && q < |all| && g(all[q]).Some?)
          == set q: nat | q < p && q < |all| && h(all[q]).Some?;
    }
    forall p: nat ensures KeptAt(all, kept, h, p) { assert KeptAt(all, kept, g, p); }
  }
}
