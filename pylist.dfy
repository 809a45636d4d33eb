/** The operations of Python's `list` that the drawing procedure relies on. */
module PyList {
  import opened Wrappers

  /** No value occurs twice. */
  predicate Distinct<T(==)>(s: seq<T>)
  {
    forall i, j :: 0 <= i < j < |s| ==> s[i] != s[j]
  }

  /** Position of the first occurrence of `x`, as `list.index` finds it. */
  function IndexOf<T(==)>(xs: seq<T>, x: T): (k: nat)
    requires x in xs
    ensures k < |xs| && xs[k] == x
    ensures forall j :: 0 <= j < k ==> xs[j] != x
  {
    if xs[0] == x then 0 else 1 + IndexOf(xs[1..], x)
  }

  /**
   * `list.remove(x)`: drops the first element equal to `x`, or raises
   * `ValueError` (here `None`) when there is none.
   */
  function Remove<T(==)>(xs: seq<T>, x: T): (r: Option<seq<T>>)
    ensures r.None? <==> x !in xs
    ensures r.Some? ==> |r.value| == |xs| - 1
    ensures r.Some? ==> multiset(xs) == multiset(r.value) + multiset{x}
  {
    if x in xs then
      var k := IndexOf(xs, x);
      assert xs == xs[..k] + [x] + xs[k + 1..];
      Some(xs[..k] + xs[k + 1..])
    else
      None
  }

  /** On a list without repetitions, `remove(xs[k])` takes out exactly position `k`. */
  lemma RemoveAt<T>(xs: seq<T>, k: nat)
    requires Distinct(xs) && k < |xs|
    ensures Remove(xs, xs[k]) == Some(xs[..k] + xs[k + 1..])
  {
  }

  /** In a list without repetitions, a value occurs at most once. */
  lemma {:induction false} SingleCount<T>(s: seq<T>, x: T)
    requires Distinct(s)
    ensures multiset(s)[x] <= 1
  {
    if s != [] {
      var t := s[1..];
      assert s == [s[0]] + t;
      assert Distinct(t) by {
        forall i, j | 0 <= i < j < |t| ensures t[i] != t[j] {
          assert t[i] == s[i + 1] && t[j] == s[j + 1];
        }
      }
      SingleCount(t, x);
      if x == s[0] {
        assert x !in t by {
          forall j | 0 <= j < |t| ensures t[j] != x {
            assert t[j] == s[j + 1];
          }
        }
      }
    }
  }

  /** A value that occurs at most once cannot sit at two positions. */
  lemma NoRepeat<T>(s: seq<T>, i: nat, j: nat)
    requires i < j < |s| && multiset(s)[s[i]] <= 1
    ensures s[i] != s[j]
  {
    assert s == s[..j] + s[j..];
    assert s[..j][i] == s[i];
    assert s[j..][0] == s[j];
    assert multiset(s)[s[j]] == multiset(s[..j])[s[j]] + multiset(s[j..])[s[j]];
  }

  /** Rearranging a list without repetitions keeps it without repetitions and keeps its values. */
  lemma PermutationOfDistinct<T>(r: seq<T>, s: seq<T>)
    requires Distinct(s) && multiset(r) == multiset(s)
    ensures Distinct(r)
    ensures forall x :: x in r <==> x in s
  {
    forall i, j | 0 <= i < j < |r| ensures r[i] != r[j] {
      SingleCount(s, r[i]);
      NoRepeat(r, i, j);
    }
    forall x ensures x in r <==> x in s {
      assert x in r <==> x in multiset(r);
      assert x in s <==> x in multiset(s);
    }
  }
}
