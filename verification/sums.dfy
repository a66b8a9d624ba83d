/** Weight sums over finite sets, and over lists of distinct keys. */
module Sums {

  ghost function Sum<K>(ks: set<K>, f: K -> nat): nat
    decreases ks
  {
    if ks == {} then 0 else var k :| k in ks; f(k) + Sum(ks - {k}, f)
  }

  /** Any element can be split off, whichever one `Sum` happened to pick. */
  lemma {:induction false} SumSplit<K>(ks: set<K>, f: K -> nat, k: K)
    requires k in ks
    ensures Sum(ks, f) == f(k) + Sum(ks - {k}, f)
    decreases ks
  {
    var p :| p in ks && Sum(ks, f) == f(p) + Sum(ks - {p}, f);
    if p != k {
      SumSplit(ks - {p}, f, k);
      SumSplit(ks - {k}, f, p);
      assert ks - {p} - {k} == ks - {k} - {p};
    }
  }

  lemma {:induction false} SumCongruent<K>(ks: set<K>, f: K -> nat, g: K -> nat)
    requires forall k :: k in ks ==> f(k) == g(k)
    ensures Sum(ks, f) == Sum(ks, g)
    decreases ks
  {
    if ks != {} {
      var k :| k in ks;
      SumSplit(ks, f, k);
      SumSplit(ks, g, k);
      SumCongruent(ks - {k}, f, g);
    }
  }

  /** Changing one key's weight changes the sum by exactly that much. */
  lemma SumUpdate<K>(ks: set<K>, f: K -> nat, g: K -> nat, k: K)
    requires k in ks
    requires forall x :: x in ks && x != k ==> f(x) == g(x)
    ensures Sum(ks, g) + f(k) == Sum(ks, f) + g(k)
  {
    SumSplit(ks, f, k);
    SumSplit(ks, g, k);
    SumCongruent(ks - {k}, f, g);
  }

  lemma {:induction false} SumSubset<K>(a: set<K>, b: set<K>, f: K -> nat)
    requires a <= b
    ensures Sum(a, f) <= Sum(b, f)
    decreases a
  {
    if a != {} {
      var k :| k in a;
      SumSplit(a, f, k);
      SumSplit(b, f, k);
      SumSubset(a - {k}, b - {k}, f);
    }
  }

  lemma {:induction false} SumAtMost<K>(ks: set<K>, f: K -> nat, g: K -> nat)
    requires forall k :: k in ks ==> f(k) <= g(k)
    ensures Sum(ks, f) <= Sum(ks, g)
    decreases ks
  {
    if ks != {} {
      var k :| k in ks;
      SumSplit(ks, f, k);
      SumSplit(ks, g, k);
      SumAtMost(ks - {k}, f, g);
    }
  }

  /** Keys outside `a` that weigh nothing do not matter. */
  lemma {:induction false} SumSupport<K>(a: set<K>, b: set<K>, f: K -> nat)
    requires a <= b
    requires forall k :: k in b - a ==> f(k) == 0
    ensures Sum(a, f) == Sum(b, f)
    decreases b - a
  {
    if k :| k in b && k !in a {
      SumSplit(a + {k}, f, k);
      assert a + {k} - {k} == a;
      SumSupport(a + {k}, b, f);
    } else {
      assert a == b;
    }
  }

  lemma {:induction false} SumOverlap<K>(a: set<K>, b: set<K>, f: K -> nat)
    ensures Sum(a, f) + Sum(b, f) == Sum(a + b, f) + Sum(a * b, f)
    decreases a
  {
    if a == {} {
      assert a + b == b && a * b == {};
    } else {
      var k :| k in a;
      SumSplit(a, f, k);
      SumOverlap(a - {k}, b, f);
      if k in b {
        assert a - {k} + b == a + b;
        SumSplit(a * b, f, k);
        assert (a - {k}) * b == a * b - {k};
      } else {
        SumSplit(a + b, f, k);
        assert a + b - {k} == a - {k} + b;
        assert (a - {k}) * b == a * b;
      }
    }
  }

  lemma {:induction false} SumZero<K>(ks: set<K>, f: K -> nat)
    ensures Sum(ks, f) == 0 <==> forall k :: k in ks ==> f(k) == 0
    decreases ks
  {
    if k :| k in ks {
      SumSplit(ks, f, k);
      SumZero(ks - {k}, f);
      assert forall x :: x in ks <==> x == k || x in ks - {k};
    }
  }

  lemma SumPositive<K>(ks: set<K>, f: K -> nat)
    requires Sum(ks, f) > 0
    ensures ks != {}
  {
  }

  // ---------------------------------------------------------------- lists

  ghost function Elements<K>(s: seq<K>): set<K> {
    set k | k in s
  }

  predicate Distinct<K(==)>(s: seq<K>) {
    forall i, j :: 0 <= i < j < |s| ==> s[i] != s[j]
  }

  function SeqSum(ws: seq<nat>): nat {
    if ws == [] then 0 else SeqSum(ws[..|ws| - 1]) + ws[|ws| - 1]
  }

  /** Listing distinct keys and adding up their weights is summing over the set. */
  lemma {:induction false} SeqSumIsSum<K>(s: seq<K>, ws: seq<nat>, f: K -> nat)
    requires Distinct(s) && |ws| == |s|
    requires forall i :: 0 <= i < |s| ==> ws[i] == f(s[i])
    ensures SeqSum(ws) == Sum(Elements(s), f)
  {
    if s == [] {
      assert Elements(s) == {};
    } else {
      var n := |s| - 1;
      SeqSumIsSum(s[..n], ws[..n], f);
      SumSplit(Elements(s), f, s[n]);
      assert Elements(s) - {s[n]} == Elements(s[..n]);
    }
  }

  lemma {:induction false} SeqSumPrefix(ws: seq<nat>, i: nat)
    requires i <= |ws|
    ensures SeqSum(ws[..i]) <= SeqSum(ws)
    decreases |ws| - i
  {
    if i < |ws| {
      assert ws[..i + 1][..i] == ws[..i];
      SeqSumPrefix(ws, i + 1);
    } else {
      assert ws[..i] == ws;
    }
  }
}
