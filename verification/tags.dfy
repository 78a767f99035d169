/**
 * Manga tags, their title key, and `mergeTags`: two tag sets poured into a
 * `TreeSet` ordered by `TagTitleComparator`, so that tags whose lower-cased
 * titles compare equal collapse into the one inserted first.
 */
module Tags {

  /** `MangaTag`: the display title and the source's own key. */
  datatype Tag = Tag(title: string, key: string)

  // ---------------------------------------------------------------------------
  // Case handling (ASCII letters only)
  // ---------------------------------------------------------------------------

  function LowerChar(c: char): (r: char)
    ensures 'A' <= c <= 'Z' ==> r as int == c as int + 32
    ensures !('A' <= c <= 'Z') ==> r == c
  {
    if 'A' <= c <= 'Z' then (c as int + 32) as char else c
  }

  /** `String.lowercase()` (the invariant locale's case mapping), restricted to ASCII letters. */
  function Lower(s: string): (r: string)
    ensures |r| == |s|
    ensures forall i :: 0 <= i < |s| ==> r[i] == LowerChar(s[i])
  {
    if |s| == 0 then [] else [LowerChar(s[0])] + Lower(s[1..])
  }

  /** `p` occurs in `s` starting at offset 0. */
  predicate IsPrefix(p: string, s: string) {
    |p| <= |s| && s[..|p|] == p
  }

  /** `p` occurs somewhere in `s`. */
  predicate IsInfix(p: string, s: string)
    decreases |s|
  {
    IsPrefix(p, s) || (|s| > 0 && IsInfix(p, s[1..]))
  }

  /** `title.contains(query, ignoreCase = true)`. */
  predicate ContainsIgnoreCase(title: string, query: string) {
    IsInfix(Lower(query), Lower(title))
  }

  /** The key the comparator looks at: the lower-cased title. */
  function TitleKey(t: Tag): string {
    Lower(t.title)
  }

  // ---------------------------------------------------------------------------
  // The collator
  // ---------------------------------------------------------------------------

  /**
   * A locale's `Collator` is a total preorder on strings: `le(a, b)` holds when
   * `compare(a, b) <= 0`. Distinct strings may compare equal.
   */
  ghost predicate IsTotalPreorder(le: (string, string) -> bool) {
    && (forall a, b :: le(a, b) || le(b, a))
    && (forall a, b, c :: le(a, b) && le(b, c) ==> le(a, c))
  }

  /** `compare(a, b) < 0` for the comparator on tags. */
  predicate Before(le: (string, string) -> bool, a: Tag, b: Tag) {
    !le(TitleKey(b), TitleKey(a))
  }

  /** `compare(a, b) == 0`: the tree set treats `a` and `b` as the same element. */
  predicate SameKey(le: (string, string) -> bool, a: Tag, b: Tag) {
    le(TitleKey(a), TitleKey(b)) && le(TitleKey(b), TitleKey(a))
  }

  /**
   * `compareValues(t1, t2)`, used when the source has no locale: lexicographic
   * order on characters, a proper prefix coming first. A Dafny `char` is a
   * Unicode scalar value, while `String.compareTo` compares UTF-16 code units;
   * the two orders agree on text without characters above U+FFFF.
   */
  predicate LexLe(a: string, b: string) {
    if |a| == 0 then true
    else if |b| == 0 then false
    else if a[0] != b[0] then a[0] < b[0]
    else LexLe(a[1..], b[1..])
  }

  lemma {:induction false} LexLeTotal(a: string, b: string)
    ensures LexLe(a, b) || LexLe(b, a)
    decreases |a|
  {
    if |a| > 0 && |b| > 0 && a[0] == b[0] {
      LexLeTotal(a[1..], b[1..]);
    }
  }

  lemma {:induction false} LexLeTransitive(a: string, b: string, c: string)
    requires LexLe(a, b) && LexLe(b, c)
    ensures LexLe(a, c)
    decreases |a|
  {
    if |a| > 0 && |b| > 0 && |c| > 0 && a[0] == b[0] && b[0] == c[0] {
      LexLeTransitive(a[1..], b[1..], c[1..]);
    }
  }

  lemma {:induction false} LexLeAntisymmetric(a: string, b: string)
    requires LexLe(a, b) && LexLe(b, a)
    ensures a == b
    decreases |a|
  {
    if |a| > 0 && |b| > 0 {
      LexLeAntisymmetric(a[1..], b[1..]);
      assert a == [a[0]] + a[1..] && b == [b[0]] + b[1..];
    }
  }

  /** Without a locale the comparator is a legitimate collator, and only equal keys tie. */
  lemma LexLeIsTotalPreorder()
    ensures IsTotalPreorder(LexLe)
    ensures forall a, b :: LexLe(a, b) && LexLe(b, a) ==> a == b
  {
    forall a, b ensures LexLe(a, b) || LexLe(b, a) {
      LexLeTotal(a, b);
    }
    forall a, b, c | LexLe(a, b) && LexLe(b, c) ensures LexLe(a, c) {
      LexLeTransitive(a, b, c);
    }
    forall a, b | LexLe(a, b) && LexLe(b, a) ensures a == b {
      LexLeAntisymmetric(a, b);
    }
  }

  // ---------------------------------------------------------------------------
  // The tree set
  // ---------------------------------------------------------------------------

  /** A tree set's contents in iteration order: strictly ascending keys. */
  predicate StrictlySorted(le: (string, string) -> bool, s: seq<Tag>) {
    forall i, j :: 0 <= i < j < |s| ==> Before(le, s[i], s[j])
  }

  /** Some element of `s` ties with `x`. */
  predicate HasSameKey(le: (string, string) -> bool, s: seq<Tag>, x: Tag) {
    exists y :: y in s && SameKey(le, x, y)
  }

  /** Ties are an equivalence relation under a total preorder. */
  lemma SameKeyTransitive(le: (string, string) -> bool, a: Tag, b: Tag, c: Tag)
    requires IsTotalPreorder(le)
    requires SameKey(le, a, b) && SameKey(le, b, c)
    ensures SameKey(le, a, c)
  {
  }

  /**
   * `TreeSet.add`: `x` is placed at its key's position, unless an element with
   * the same key is already present, in which case the set is left unchanged.
   */
  function Insert(le: (string, string) -> bool, s: seq<Tag>, x: Tag): (r: seq<Tag>)
    requires IsTotalPreorder(le)
    requires StrictlySorted(le, s)
    ensures StrictlySorted(le, r)
    ensures HasSameKey(le, s, x) ==> r == s
    ensures !HasSameKey(le, s, x) ==> x in r && |r| == |s| + 1
    ensures forall y :: y in r <==> y in s || (y == x && !HasSameKey(le, s, x))
    decreases |s|
  {
    if |s| == 0 then [x]
    else if Before(le, x, s[0]) then
      assert !HasSameKey(le, s, x) by {
        forall y | y in s ensures !SameKey(le, x, y) {
          var k :| 0 <= k < |s| && s[k] == y;
          if k > 0 { assert Before(le, s[0], s[k]); }
        }
      }
      [x] + s
    else if le(TitleKey(x), TitleKey(s[0])) then
      assert SameKey(le, x, s[0]);
      s
    else
      var rest := Insert(le, s[1..], x);
      assert HasSameKey(le, s, x) <==> HasSameKey(le, s[1..], x) by {
        assert s == [s[0]] + s[1..];
        assert !SameKey(le, x, s[0]);
      }
      assert forall y :: y in rest ==> Before(le, s[0], y);
      [s[0]] + rest
  }

  /** `TreeSet.addAll`: the elements of `xs` inserted one by one, in order. */
  function AddAll(le: (string, string) -> bool, s: seq<Tag>, xs: seq<Tag>): (r: seq<Tag>)
    requires IsTotalPreorder(le)
    requires StrictlySorted(le, s)
    ensures StrictlySorted(le, r)
    ensures forall y :: y in s ==> y in r
    ensures forall y :: y in r ==> y in s || y in xs
    decreases |xs|
  {
    if |xs| == 0 then s
    else AddAll(le, Insert(le, s, xs[0]), xs[1..])
  }

  /**
   * `mergeTags(primary, secondary)`: a tree set filled with `secondary` first,
   * then with `primary`.
   */
  function MergeTags(le: (string, string) -> bool, primary: seq<Tag>, secondary: seq<Tag>): (r: seq<Tag>)
    requires IsTotalPreorder(le)
    ensures StrictlySorted(le, r)
    ensures forall y :: y in r ==> y in primary || y in secondary
  {
    AddAll(le, AddAll(le, [], secondary), primary)
  }

  // ---------------------------------------------------------------------------
  // Properties of the merge
  // ---------------------------------------------------------------------------

  /** Strictly ascending keys leave no two entries tied. */
  lemma SortedHasNoTies(le: (string, string) -> bool, s: seq<Tag>)
    requires IsTotalPreorder(le)
    requires StrictlySorted(le, s)
    ensures forall i, j :: 0 <= i < |s| && 0 <= j < |s| && i != j ==> !SameKey(le, s[i], s[j])
  {
    forall i, j | 0 <= i < |s| && 0 <= j < |s| && i != j
      ensures !SameKey(le, s[i], s[j])
    {
      if i < j { assert Before(le, s[i], s[j]); } else { assert Before(le, s[j], s[i]); }
    }
  }

  /** Every tag poured into the set has a tied representative in it. */
  lemma {:induction false} AddAllCovers(le: (string, string) -> bool, s: seq<Tag>, xs: seq<Tag>)
    requires IsTotalPreorder(le)
    requires StrictlySorted(le, s)
    ensures forall y :: y in xs ==> HasSameKey(le, AddAll(le, s, xs), y)
    decreases |xs|
  {
    if |xs| > 0 {
      var s' := Insert(le, s, xs[0]);
      AddAllCovers(le, s', xs[1..]);
      var r := AddAll(le, s, xs);
      assert r == AddAll(le, s', xs[1..]);
      forall y | y in xs ensures HasSameKey(le, r, y) {
        if y == xs[0] {
          var z :| z in s' && SameKey(le, y, z);
          assert z in r;
        } else {
          assert y in xs[1..];
        }
      }
    }
  }

  /**
   * A tag that entered the set during `addAll` tied with nothing that was
   * already there: existing elements are never replaced.
   */
  lemma {:induction false} AddAllNeverReplaces(le: (string, string) -> bool, s: seq<Tag>, xs: seq<Tag>)
    requires IsTotalPreorder(le)
    requires StrictlySorted(le, s)
    ensures forall r :: r in AddAll(le, s, xs) ==> r in s || !HasSameKey(le, s, r)
    decreases |xs|
  {
    if |xs| > 0 {
      var s' := Insert(le, s, xs[0]);
      AddAllNeverReplaces(le, s', xs[1..]);
      forall r | r in AddAll(le, s, xs) && r !in s && r !in s'
        ensures !HasSameKey(le, s, r)
      {
        forall y | y in s ensures !SameKey(le, r, y) {
          assert y in s';
        }
      }
    }
  }

  /** Every tag of either input has a tied representative in the merge. */
  lemma MergeCovers(le: (string, string) -> bool, primary: seq<Tag>, secondary: seq<Tag>)
    requires IsTotalPreorder(le)
    ensures forall y :: y in primary ==> HasSameKey(le, MergeTags(le, primary, secondary), y)
    ensures forall y :: y in secondary ==> HasSameKey(le, MergeTags(le, primary, secondary), y)
  {
    var base := AddAll(le, [], secondary);
    AddAllCovers(le, [], secondary);
    AddAllCovers(le, base, primary);
    forall y | y in secondary ensures HasSameKey(le, MergeTags(le, primary, secondary), y) {
      var z :| z in base && SameKey(le, y, z);
      assert z in MergeTags(le, primary, secondary);
    }
  }

  /**
   * On a clash the `secondary` tag survives: any merged tag that ties with a
   * `secondary` tag is itself one of the `secondary` tags.
   */
  lemma MergePrefersSecondary(le: (string, string) -> bool, primary: seq<Tag>, secondary: seq<Tag>)
    requires IsTotalPreorder(le)
    ensures forall r, y ::
              r in MergeTags(le, primary, secondary) && y in secondary && SameKey(le, r, y) ==> r in secondary
  {
    var base := AddAll(le, [], secondary);
    AddAllCovers(le, [], secondary);
    AddAllNeverReplaces(le, base, primary);
    forall r, y | r in MergeTags(le, primary, secondary) && y in secondary && SameKey(le, r, y)
      ensures r in secondary
    {
      if r !in base {
        var z :| z in base && SameKey(le, y, z);
        SameKeyTransitive(le, r, y, z);
        assert HasSameKey(le, base, r);
      }
    }
  }

  /** A tag tied with no `secondary` tag enters the merge through `primary`, unchanged or tied. */
  lemma MergeKeepsUnmatchedPrimary(le: (string, string) -> bool, primary: seq<Tag>, secondary: seq<Tag>, p: Tag)
    requires IsTotalPreorder(le)
    requires p in primary && !HasSameKey(le, secondary, p)
    ensures exists r :: r in MergeTags(le, primary, secondary) && r in primary && SameKey(le, r, p)
  {
    MergeCovers(le, primary, secondary);
    var r :| r in MergeTags(le, primary, secondary) && SameKey(le, p, r);
  }
}
