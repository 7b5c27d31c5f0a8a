// Counting facts about sequences without repetition and finite maps.
module FiniteSets {

  predicate Distinct<T(==)>(s: seq<T>) {
    forall i, j | 0 <= i < j < |s| :: s[i] != s[j]
  }

  function Entries<T>(s: seq<T>): set<T> {
    set x | x in s
  }

  lemma {:induction false} DistinctEntriesCount<T>(s: seq<T>)
    requires Distinct(s)
    ensures |Entries(s)| == |s|
  {
    if s != [] {
      var front, last := s[..|s| - 1], s[|s| - 1];
      DistinctEntriesCount(front);
      assert Entries(s) == Entries(front) + {last};
    }
  }

  lemma SubsetOfEqualSizeIsEqual<T>(a: set<T>, b: set<T>)
    requires a <= b && |a| == |b|
    ensures a == b
  {
    assert |b - a| == |b| - |a|;
  }

  ghost predicate OneToOne<K, V>(m: map<K, V>) {
    forall k, l | k in m && l in m && k != l :: m[k] != m[l]
  }

  lemma {:induction false} OneToOneKeepsSize<K, V>(m: map<K, V>)
    requires OneToOne(m)
    ensures |m.Values| == |m|
  {
    if m != map[] {
      var k :| k in m;
      var rest := m - {k};
      OneToOneKeepsSize(rest);
      assert m.Values == rest.Values + {m[k]} by {
        forall v | v in m.Values ensures v in rest.Values + {m[k]} {
          var l :| l in m && m[l] == v;
          if l != k {
            assert l in rest;
          }
        }
      }
      assert m.Keys == rest.Keys + {k};
      assert m[k] !in rest.Values;
    }
  }

  // The pigeonhole step: a one-to-one map into a set of the same size reaches all of it.
  lemma OneToOneIntoEqualSizeIsOnto<K, V>(m: map<K, V>, target: set<V>)
    requires OneToOne(m) && m.Values <= target && |m| == |target|
    ensures m.Values == target
  {
    OneToOneKeepsSize(m);
    SubsetOfEqualSizeIsEqual(m.Values, target);
  }
}
