/** The stable sort of a device's mappings by target start
    (`mappings.sort_by(|a, b| a.target_start.cmp(&b.target_start))`).
    Rust's `sort_by` is stable; the model is a stable insertion sort, and
    `StableSortUnique` shows that every stable sort yields the same sequence. */
module TargetSort {
  import opened Mappings

  /** Target starts never decrease along `s`. */
  predicate SortedByTarget(s: seq<LedMapping>) {
    forall i, j :: 0 <= i < j < |s| ==> s[i].targetStart <= s[j].targetStart
  }

  /** The mappings of `s` whose target start is `key`, in their order in `s`. */
  function WithTarget(s: seq<LedMapping>, key: nat): (r: seq<LedMapping>)
    ensures |r| <= |s|
  {
    if |s| == 0 then []
    else WithTarget(s[..|s| - 1], key) + (if s[|s| - 1].targetStart == key then [s[|s| - 1]] else [])
  }

  /** Places `m` after every element of the sorted `s` whose key is not larger. */
  function Insert(s: seq<LedMapping>, m: LedMapping): (r: seq<LedMapping>)
    ensures |r| == |s| + 1
  {
    if |s| == 0 || s[|s| - 1].targetStart <= m.targetStart then s + [m]
    else Insert(s[..|s| - 1], m) + [s[|s| - 1]]
  }

  function SortByTarget(s: seq<LedMapping>): (r: seq<LedMapping>)
    ensures |r| == |s|
  {
    if |s| == 0 then [] else Insert(SortByTarget(s[..|s| - 1]), s[|s| - 1])
  }

  lemma {:induction false} InsertPermutes(s: seq<LedMapping>, m: LedMapping)
    ensures multiset(Insert(s, m)) == multiset(s) + multiset{m}
  {
    if |s| == 0 || s[|s| - 1].targetStart <= m.targetStart {
    } else {
      var init := s[..|s| - 1];
      InsertPermutes(init, m);
      assert s == init + [s[|s| - 1]];
    }
  }

  lemma {:induction false} InsertSorted(s: seq<LedMapping>, m: LedMapping)
    requires SortedByTarget(s)
    ensures SortedByTarget(Insert(s, m))
    ensures forall k :: 0 <= k < |s| + 1 ==>
      Insert(s, m)[k].targetStart == m.targetStart || Insert(s, m)[k] in s
  {
    if |s| == 0 || s[|s| - 1].targetStart <= m.targetStart {
    } else {
      var init := s[..|s| - 1];
      InsertSorted(init, m);
      var r := Insert(init, m);
      forall k | 0 <= k < |r|
        ensures r[k].targetStart <= s[|s| - 1].targetStart
      {
        if r[k].targetStart != m.targetStart {
          var i :| 0 <= i < |init| && init[i] == r[k];
        }
      }
    }
  }

  lemma {:induction false} WithTargetAppend(a: seq<LedMapping>, b: seq<LedMapping>, key: nat)
    ensures WithTarget(a + b, key) == WithTarget(a, key) + WithTarget(b, key)
    decreases |b|
  {
    if |b| == 0 {
      assert a + b == a;
    } else {
      var bi := b[..|b| - 1];
      assert (a + b)[..|a + b| - 1] == a + bi;
      WithTargetAppend(a, bi, key);
    }
  }

  lemma WithTargetSingle(m: LedMapping, key: nat)
    ensures WithTarget([m], key) == if m.targetStart == key then [m] else []
  {
    assert [m][..0] == [];
  }

  /** Insertion keeps the relative order of equal keys and puts `m` after the equal keys already present. */
  lemma {:induction false} InsertStable(s: seq<LedMapping>, m: LedMapping, key: nat)
    ensures WithTarget(Insert(s, m), key) == WithTarget(s, key) + WithTarget([m], key)
  {
    WithTargetSingle(m, key);
    if |s| == 0 || s[|s| - 1].targetStart <= m.targetStart {
      WithTargetAppend(s, [m], key);
    } else {
      var init := s[..|s| - 1];
      var last := s[|s| - 1];
      InsertStable(init, m, key);
      WithTargetAppend(Insert(init, m), [last], key);
      WithTargetSingle(last, key);
      assert s == init + [last];
      WithTargetAppend(init, [last], key);
    }
  }

  /** The sort is a permutation, ordered by target start, and stable. */
  lemma {:induction false} SortByTargetCorrect(s: seq<LedMapping>)
    ensures multiset(SortByTarget(s)) == multiset(s)
    ensures SortedByTarget(SortByTarget(s))
    ensures forall key: nat :: WithTarget(SortByTarget(s), key) == WithTarget(s, key)
  {
    if |s| > 0 {
      var init := s[..|s| - 1];
      var last := s[|s| - 1];
      SortByTargetCorrect(init);
      InsertPermutes(SortByTarget(init), last);
      InsertSorted(SortByTarget(init), last);
      assert s == init + [last];
      forall key: nat
        ensures WithTarget(SortByTarget(s), key) == WithTarget(s, key)
      {
        InsertStable(SortByTarget(init), last, key);
        WithTargetAppend(init, [last], key);
      }
    }
  }

  lemma WithTargetOfLast(s: seq<LedMapping>)
    requires |s| > 0
    ensures |WithTarget(s, s[|s| - 1].targetStart)| > 0
    ensures WithTarget(s, s[|s| - 1].targetStart)[|WithTarget(s, s[|s| - 1].targetStart)| - 1] == s[|s| - 1]
  {
  }

  lemma {:induction false} WithTargetMember(s: seq<LedMapping>, key: nat)
    ensures |WithTarget(s, key)| > 0 <==> exists k :: 0 <= k < |s| && s[k].targetStart == key
  {
    if |s| > 0 {
      var init := s[..|s| - 1];
      WithTargetMember(init, key);
      if exists k :: 0 <= k < |s| && s[k].targetStart == key {
        var k :| 0 <= k < |s| && s[k].targetStart == key;
        if k < |s| - 1 {
          assert init[k] == s[k];
        }
      }
      if exists k :: 0 <= k < |init| && init[k].targetStart == key {
        var k :| 0 <= k < |init| && init[k].targetStart == key;
        assert s[k] == init[k];
      }
    }
  }

  /** A sorted arrangement is determined by its per-key subsequences: two sorted sequences
      that agree on every key's subsequence are equal. So the stable insertion sort equals
      the result of any other stable sort by target start. */
  lemma {:induction false} StableSortUnique(a: seq<LedMapping>, b: seq<LedMapping>)
    requires SortedByTarget(a) && SortedByTarget(b)
    requires forall key: nat :: WithTarget(a, key) == WithTarget(b, key)
    ensures a == b
    decreases |a| + |b|
  {
    if |a| == 0 && |b| == 0 {
    } else if |a| == 0 {
      WithTargetOfLast(b);
      assert false;
    } else if |b| == 0 {
      WithTargetOfLast(a);
      assert false;
    } else {
      var ka := a[|a| - 1].targetStart;
      var kb := b[|b| - 1].targetStart;
      WithTargetOfLast(a);
      WithTargetOfLast(b);
      WithTargetMember(b, ka);
      WithTargetMember(a, kb);
      assert ka == kb;
      assert WithTarget(a, ka) == WithTarget(b, ka);
      assert a[|a| - 1] == b[|b| - 1];
      var a', b' := a[..|a| - 1], b[..|b| - 1];
      forall key: nat
        ensures WithTarget(a', key) == WithTarget(b', key)
      {
        assert WithTarget(a, key) == WithTarget(b, key);
        if key == ka {
          assert WithTarget(a, key) == WithTarget(a', key) + [a[|a| - 1]];
          assert WithTarget(b, key) == WithTarget(b', key) + [b[|b| - 1]];
          assert WithTarget(a', key) == WithTarget(a, key)[..|WithTarget(a, key)| - 1];
          assert WithTarget(b', key) == WithTarget(b, key)[..|WithTarget(b, key)| - 1];
        } else {
          assert WithTarget(a, key) == WithTarget(a', key) + [];
          assert WithTarget(a', key) + [] == WithTarget(a', key);
          assert WithTarget(b, key) == WithTarget(b', key) + [];
          assert WithTarget(b', key) + [] == WithTarget(b', key);
        }
      }
      StableSortUnique(a', b');
      assert a == a' + [a[|a| - 1]];
      assert b == b' + [b[|b| - 1]];
    }
  }

  /** Two lists agree on everything the sort and the overlap check look at. */
  predicate SameShape(s: seq<LedMapping>, t: seq<LedMapping>) {
    |s| == |t| &&
    forall k :: 0 <= k < |s| ==> s[k].targetStart == t[k].targetStart && Len(s[k]) == Len(t[k])
  }

  lemma {:induction false} InsertSameShape(s: seq<LedMapping>, m: LedMapping, t: seq<LedMapping>, n: LedMapping)
    requires SameShape(s, t) && m.targetStart == n.targetStart && Len(m) == Len(n)
    ensures SameShape(Insert(s, m), Insert(t, n))
  {
    if |s| == 0 || s[|s| - 1].targetStart <= m.targetStart {
    } else {
      InsertSameShape(s[..|s| - 1], m, t[..|t| - 1], n);
    }
  }

  /** The sort moves mappings by target start only, so lists of the same shape sort to lists of the same shape. */
  lemma {:induction false} SortSameShape(s: seq<LedMapping>, t: seq<LedMapping>)
    requires SameShape(s, t)
    ensures SameShape(SortByTarget(s), SortByTarget(t))
  {
    if |s| > 0 {
      SortSameShape(s[..|s| - 1], t[..|t| - 1]);
      InsertSameShape(SortByTarget(s[..|s| - 1]), s[|s| - 1], SortByTarget(t[..|t| - 1]), t[|t| - 1]);
    }
  }
}
