/**
 * Kotlin's `Set` values in the filter record are `LinkedHashSet`s: duplicate-free
 * and iterated in insertion order. They are modelled as duplicate-free sequences,
 * which keeps the iteration order that `mergeTags` and the chip list depend on.
 */
module LinkedSets {

  /** No element occurs twice. */
  predicate Distinct<T(==)>(s: seq<T>) {
    forall i, j :: 0 <= i < j < |s| ==> s[i] != s[j]
  }

  /** Putting a new element in front keeps a sequence duplicate-free. */
  lemma DistinctCons<T>(x: T, s: seq<T>)
    requires Distinct(s) && x !in s
    ensures Distinct([x] + s)
  {
    var l := [x] + s;
    forall i, j | 0 <= i < j < |l| ensures l[i] != l[j] {
      assert l[j] == s[j - 1];
      if i > 0 {
        assert l[i] == s[i - 1];
      }
    }
  }

  /** `s - x`: every occurrence of `x` dropped, order of the rest kept. */
  function Without<T(==,!new)>(s: seq<T>, x: T): (r: seq<T>)
    ensures forall y :: y in r <==> y in s && y != x
    ensures Distinct(s) ==> Distinct(r)
    ensures |r| <= |s|
    ensures x !in s ==> r == s
  {
    if |s| == 0 then []
    else if s[0] == x then Without(s[1..], x)
    else
      var rest := Without(s[1..], x);
      assert Distinct(s) ==> Distinct(s[1..]) && s[0] !in rest;
      assert x !in s ==> x !in s[1..];
      [s[0]] + rest
  }

  /** The tail of a duplicate-free sequence is duplicate-free and misses the head. */
  lemma DistinctTail<T>(s: seq<T>)
    requires Distinct(s) && |s| > 0
    ensures Distinct(s[1..]) && s[0] !in s[1..]
  {
    forall i | 0 <= i < |s[1..]| ensures s[1..][i] != s[0] {
      assert s[1..][i] == s[i + 1];
    }
  }

  /** Two duplicate-free sequences with no element in common concatenate to a duplicate-free one. */
  lemma DistinctConcat<T>(a: seq<T>, b: seq<T>)
    requires Distinct(a) && Distinct(b)
    requires forall x | x in a :: x !in b
    ensures Distinct(a + b)
  {
    var l := a + b;
    forall i, j | 0 <= i < j < |l| ensures l[i] != l[j] {
      if i >= |a| {
        assert l[i] == b[i - |a|] && l[j] == b[j - |a|];
      } else if j >= |a| {
        assert l[i] == a[i] && a[i] in a && l[j] == b[j - |a|];
      } else {
        assert l[i] == a[i] && l[j] == a[j];
      }
    }
  }

  /** In a duplicate-free sequence every element occurs exactly once. */
  lemma {:induction false} DistinctOnce<T>(s: seq<T>, x: T)
    requires Distinct(s)
    ensures multiset(s)[x] == if x in s then 1 else 0
    decreases |s|
  {
    if |s| > 0 {
      DistinctTail(s);
      DistinctOnce(s[1..], x);
      assert s == [s[0]] + s[1..];
    }
  }

  /** In a duplicate-free sequence `Without` cuts the one occurrence out and leaves the rest in place. */
  lemma WithoutCutsOut<T(!new)>(s: seq<T>, k: nat)
    requires Distinct(s) && k < |s|
    ensures Without(s, s[k]) == s[..k] + s[k + 1..]
  {
    var front, back := s[..k], s[k + 1..];
    forall i | 0 <= i < |front| ensures front[i] != s[k] {
      assert front[i] == s[i];
    }
    forall i | 0 <= i < |back| ensures back[i] != s[k] {
      assert back[i] == s[k + 1 + i];
    }
    CutOutAt(s, k);
  }

  /** Cutting out an element that occurs only at index `k`. */
  lemma {:induction false} CutOutAt<T(!new)>(s: seq<T>, k: nat)
    requires k < |s| && s[k] !in s[..k] && s[k] !in s[k + 1..]
    ensures Without(s, s[k]) == s[..k] + s[k + 1..]
  {
    var x, tail := s[k], s[1..];
    if k == 0 {
      assert tail == s[k + 1..];
      assert Without(s, x) == Without(tail, x) == tail;
      assert s[..0] + s[1..] == tail;
    } else {
      assert s[0] in s[..k];
      var front, back := tail[..k - 1], tail[k..];
      assert front == s[..k][1..] && back == s[k + 1..] && tail[k - 1] == x;
      CutOutAt(tail, k - 1);
      assert Without(s, x) == [s[0]] + (front + back);
      assert [s[0]] + (front + back) == ([s[0]] + front) + back;
      assert s[..k] == [s[0]] + front;
    }
  }

  /** `s + x`: appended at the end unless already present. */
  function With<T(==,!new)>(s: seq<T>, x: T): (r: seq<T>)
    ensures forall y :: y in r <==> y in s || y == x
    ensures Distinct(s) ==> Distinct(r)
    ensures x in s ==> r == s
    ensures x !in s ==> r == s + [x]
  {
    if x in s then s else s + [x]
  }

  /** Same elements, regardless of order: Kotlin's `Set.equals`. */
  predicate SameElements<T(==)>(a: seq<T>, b: seq<T>) {
    (forall x :: x in a ==> x in b) && (forall x :: x in b ==> x in a)
  }
}
