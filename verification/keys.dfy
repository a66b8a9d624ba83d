/** Public keys, their order, and the sorted key list. A key is a string of bytes in
    lexicographic order; the 33-byte and the 32-byte keys of the two signature schemes
    are instances. */
module Keys {
  import opened Ints
  import opened Sums

  type byte = x: nat | x < 256
  type Key = seq<byte>

  predicate Less(a: Key, b: Key) {
    b != [] && (a == [] || a[0] < b[0] || (a[0] == b[0] && Less(a[1..], b[1..])))
  }

  lemma {:induction false} LessIsIrreflexive(a: Key)
    ensures !Less(a, a)
  {
    if a != [] {
      LessIsIrreflexive(a[1..]);
    }
  }

  lemma {:induction false} LessIsTransitive(a: Key, b: Key, c: Key)
    requires Less(a, b) && Less(b, c)
    ensures Less(a, c)
  {
    if a != [] && a[0] == b[0] == c[0] {
      LessIsTransitive(a[1..], b[1..], c[1..]);
    }
  }

  lemma {:induction false} LessIsTotal(a: Key, b: Key)
    ensures Less(a, b) || a == b || Less(b, a)
  {
    if a != [] && b != [] && a[0] == b[0] {
      LessIsTotal(a[1..], b[1..]);
      if a[1..] == b[1..] {
        assert a == [a[0]] + a[1..] && b == [b[0]] + b[1..];
      }
    }
  }

  /** Keys agree before byte `i`, where `a` has the smaller one. */
  ghost predicate FirstDifference(a: Key, b: Key, i: int) {
    0 <= i < |a| && i < |b| && a[..i] == b[..i] && a[i] < b[i]
  }

  lemma DifferenceShifts(a: Key, b: Key, i: int)
    requires a != [] && b != [] && a[0] == b[0]
    ensures FirstDifference(a, b, i) <==> FirstDifference(a[1..], b[1..], i - 1)
  {
    if 0 < i <= |a| && i <= |b| {
      assert a[..i] == [a[0]] + a[1..][..i - 1] && b[..i] == [b[0]] + b[1..][..i - 1];
      assert a[1..][..i - 1] == a[..i][1..] && b[1..][..i - 1] == b[..i][1..];
    }
  }

  /** The order is the lexicographic one on bytes: the first differing byte decides, and a
      proper prefix comes first. */
  lemma {:induction false} LessIsLexicographic(a: Key, b: Key)
    ensures Less(a, b) <==> (exists i :: FirstDifference(a, b, i)) || (|a| < |b| && a == b[..|a|])
  {
    if a == [] || b == [] {
    } else if a[0] != b[0] {
      assert a[0] < b[0] ==> FirstDifference(a, b, 0);
      assert forall i :: FirstDifference(a, b, i) && i > 0 ==> a[..i][0] == b[..i][0];
    } else {
      LessIsLexicographic(a[1..], b[1..]);
      if i :| FirstDifference(a, b, i) {
        DifferenceShifts(a, b, i);
      }
      if i :| FirstDifference(a[1..], b[1..], i) {
        DifferenceShifts(a, b, i + 1);
      }
      assert a == [a[0]] + a[1..];
      assert |a| < |b| ==> b[..|a|] == [b[0]] + b[1..][..|a| - 1];
    }
  }

  /** Keys of one length, as the contracts' keys are, are never proper prefixes of one
      another: the first differing byte alone decides. */
  lemma LessComparesBytes(a: Key, b: Key)
    requires |a| == |b|
    ensures Less(a, b) <==> exists i :: 0 <= i < |a| && a[..i] == b[..i] && a[i] < b[i]
  {
    LessIsLexicographic(a, b);
    assert forall i :: FirstDifference(a, b, i) <==> 0 <= i < |a| && a[..i] == b[..i] && a[i] < b[i];
  }

  // ---------------------------------------------------------------- sorted lists

  ghost predicate Sorted(s: seq<Key>) {
    forall i, j :: 0 <= i < j < |s| ==> Less(s[i], s[j])
  }

  /** Checking neighbours is enough. */
  lemma {:induction false} NeighboursSort(s: seq<Key>)
    requires forall i :: 0 < i < |s| ==> Less(s[i - 1], s[i])
    ensures Sorted(s)
  {
    if |s| > 0 {
      var n := |s| - 1;
      NeighboursSort(s[..n]);
      forall i | 0 <= i < n ensures Less(s[i], s[n]) {
        assert Less(s[n - 1], s[n]);
        if i < n - 1 {
          assert Less(s[..n][i], s[..n][n - 1]);
          LessIsTransitive(s[i], s[n - 1], s[n]);
        }
      }
    }
  }

  lemma SortedIsDistinct(s: seq<Key>)
    requires Sorted(s)
    ensures Distinct(s)
  {
    forall i, j | 0 <= i < j < |s| ensures s[i] != s[j] {
      LessIsIrreflexive(s[i]);
    }
  }

  /** A set of keys has one sorted listing. */
  lemma {:induction false} SortedIsUnique(a: seq<Key>, b: seq<Key>)
    requires Sorted(a) && Sorted(b) && Elements(a) == Elements(b)
    ensures a == b
  {
    if a == [] {
      assert forall i :: 0 <= i < |b| ==> b[i] in Elements(b);
    } else {
      assert a[0] in Elements(b);
      assert b != [] && b[0] in Elements(a);
      SameHead(a, b);
      SortedIsDistinct(a);
      SortedIsDistinct(b);
      assert Elements(a[1..]) == Elements(a) - {a[0]};
      assert Elements(b[1..]) == Elements(b) - {b[0]};
      SortedIsUnique(a[1..], b[1..]);
      assert a == [a[0]] + a[1..] && b == [b[0]] + b[1..];
    }
  }

  lemma SameHead(a: seq<Key>, b: seq<Key>)
    requires Sorted(a) && Sorted(b) && a != [] && b != []
    requires a[0] in b && b[0] in a
    ensures a[0] == b[0]
  {
    if a[0] != b[0] {
      var i :| 0 <= i < |b| && b[i] == a[0];
      var j :| 0 <= j < |a| && a[j] == b[0];
      assert Less(b[0], a[0]) && Less(a[0], b[0]);
      LessIsTransitive(a[0], b[0], a[0]);
      LessIsIrreflexive(a[0]);
    }
  }

  // ---------------------------------------------------------------- insert and remove

  /** Put `k` before the first larger key; a key already met is left alone. */
  function Insert(s: seq<Key>, k: Key): seq<Key> {
    if s == [] || Less(k, s[0]) then [k] + s
    else if k == s[0] then s
    else [s[0]] + Insert(s[1..], k)
  }

  /** Remove the first `k`, giving up at the first larger key. */
  function Remove(s: seq<Key>, k: Key): seq<Key> {
    if s == [] then []
    else if s[0] == k then s[1..]
    else if Less(k, s[0]) then s
    else [s[0]] + Remove(s[1..], k)
  }

  lemma HeadLess(k: Key, s: seq<Key>)
    requires forall x :: x in s ==> Less(k, x)
    requires Sorted(s)
    ensures Sorted([k] + s)
  {
    var t := [k] + s;
    forall i, j | 0 <= i < j < |t| ensures Less(t[i], t[j]) {
      assert t[j] == s[j - 1] && s[j - 1] in s;
    }
  }

  lemma {:induction false} InsertIsSorted(s: seq<Key>, k: Key)
    requires Sorted(s)
    ensures Sorted(Insert(s, k)) && Elements(Insert(s, k)) == Elements(s) + {k}
  {
    if s == [] {
    } else if Less(k, s[0]) {
      forall x | x in s ensures Less(k, x) {
        var i :| 0 <= i < |s| && s[i] == x;
        if i > 0 {
          LessIsTransitive(k, s[0], x);
        }
      }
      HeadLess(k, s);
    } else if k != s[0] {
      LessIsTotal(k, s[0]);
      var rest := Insert(s[1..], k);
      InsertIsSorted(s[1..], k);
      forall x | x in rest ensures Less(s[0], x) {
        assert x in Elements(rest);
      }
      HeadLess(s[0], rest);
      assert Elements([s[0]] + rest) == {s[0]} + Elements(rest);
      assert Elements(s) == {s[0]} + Elements(s[1..]);
    }
  }

  /** Stopping at the first larger key is safe: a sorted list cannot hold `k` later. */
  lemma {:induction false} RemoveIsSorted(s: seq<Key>, k: Key)
    requires Sorted(s)
    ensures Sorted(Remove(s, k)) && Elements(Remove(s, k)) == Elements(s) - {k}
  {
    if s == [] {
    } else if s[0] == k {
      SortedIsDistinct(s);
      assert Elements(s[1..]) == Elements(s) - {k};
    } else if Less(k, s[0]) {
      if k in s {
        var i :| 0 <= i < |s| && s[i] == k;
        LessIsTransitive(k, s[0], k);
        LessIsIrreflexive(k);
      }
    } else {
      var rest := Remove(s[1..], k);
      RemoveIsSorted(s[1..], k);
      forall x | x in rest ensures Less(s[0], x) {
        assert x in Elements(rest);
      }
      HeadLess(s[0], rest);
      assert Elements([s[0]] + rest) == {s[0]} + Elements(rest);
      assert Elements(s) == {s[0]} + Elements(s[1..]);
    }
  }

  // ---------------------------------------------------------------- the scans

  /** The scan for `k` has passed `i` keys without deciding. */
  ghost predicate InsertsBeyond(s: seq<Key>, k: Key, i: nat) {
    i <= |s| && Insert(s, k) == s[..i] + Insert(s[i..], k)
  }

  lemma InsertScan(s: seq<Key>, k: Key, i: nat)
    requires InsertsBeyond(s, k, i)
    ensures i == |s| || Less(k, s[i]) ==> Insert(s, k) == s[..i] + [k] + s[i..]
    ensures i < |s| && !Less(k, s[i]) && k == s[i] ==> Insert(s, k) == s
    ensures i < |s| && !Less(k, s[i]) && k != s[i] ==> InsertsBeyond(s, k, i + 1)
  {
    if i < |s| && !Less(k, s[i]) && k != s[i] {
      assert s[i..][1..] == s[i + 1..];
    } else if i < |s| && !Less(k, s[i]) {
      assert s[..i] + s[i..] == s;
    }
  }

  ghost predicate RemovesBeyond(s: seq<Key>, k: Key, i: nat) {
    i <= |s| && Remove(s, k) == s[..i] + Remove(s[i..], k)
  }

  lemma RemoveScan(s: seq<Key>, k: Key, i: nat)
    requires RemovesBeyond(s, k, i)
    ensures i < |s| && s[i] == k ==> Remove(s, k) == s[..i] + s[i + 1..]
    ensures i == |s| || (s[i] != k && Less(k, s[i])) ==> Remove(s, k) == s
    ensures i < |s| && s[i] != k && !Less(k, s[i]) ==> RemovesBeyond(s, k, i + 1)
  {
    if i < |s| && (s[i] == k || !Less(k, s[i])) {
      assert s[i..][1..] == s[i + 1..];
    } else {
      assert Remove(s[i..], k) == s[i..];
      assert s[..i] + s[i..] == s;
    }
  }
}
