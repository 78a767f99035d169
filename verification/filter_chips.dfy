/**
 * `createChipsList`: the chips shown above the manga list. Tag suggestions
 * come from the search repository and are taken here as inputs.
 */
module FilterChips {
  import opened LinkedSets
  import opened Tags
  import opened Wrappers
  import opened FilterModel

  /** A chip of the header row; `data` is the tag it toggles. */
  datatype Chip = Chip(title: string, isChecked: bool, data: Tag)

  /** Kotlin's `take(n)`: the first `n` elements, or all when there are fewer. */
  function Take<T>(s: seq<T>, n: nat): (r: seq<T>)
    ensures |r| == if n < |s| then n else |s|
    ensures r <= s
  {
    if n < |s| then s[..n] else s
  }

  /**
   * The candidate tags: the suggestions (cut to `limit` when a selection
   * exists), padded from the available tags up to `limit`.
   */
  function Candidates(selected: seq<Tag>, suggestions: seq<Tag>, available: seq<Tag>, limit: nat): (r: seq<Tag>)
    ensures |selected| > 0 ==> |r| <= limit
    ensures |r| > limit ==> |selected| == 0 && r == suggestions
    ensures forall t | t in r :: t in suggestions || t in available
    ensures forall i | 0 <= i < |r| && i < |suggestions| && (|selected| == 0 || i < limit) :: r[i] == suggestions[i]
    ensures |r| < limit ==> forall t | t in suggestions :: t in r
    ensures |r| < limit ==> forall t | t in available :: t in r
    // the (cut) suggestions come first; the padding is a prefix of the available tags
    ensures var n := if |selected| == 0 || |suggestions| <= limit then |suggestions| else limit;
      && n <= |r| && r[..n] == suggestions[..n] && r[n..] <= available
      && (n >= limit ==> |r| == n)
      && (n < limit ==> |r| <= limit && (|r| < limit ==> r[n..] == available))
  {
    var head := if |selected| == 0 then suggestions else Take(suggestions, limit);
    if |head| < limit then head + Take(available, limit - |head|) else head
  }

  /** Padding does not skip tags already suggested, so a tag can be a candidate twice. */
  lemma CandidatesMayRepeat(a: Tag, b: Tag)
    requires a != b
    ensures Candidates([], [a], [a, b], 8) == [a, a, b]
    ensures !Distinct(Candidates([], [a], [a, b], 8))
  {
    assert Candidates([], [a], [a, b], 8) == [a] + [a, b];
    assert Candidates([], [a], [a, b], 8)[0] == Candidates([], [a], [a, b], 8)[1];
  }

  /** The tags of a chip list, in order. */
  function TagsOf(r: seq<Chip>): (ts: seq<Tag>)
    ensures |ts| == |r|
  {
    if |r| == 0 then [] else [r[0].data] + TagsOf(r[1..])
  }

  /** The tags of the checked chips, in order. */
  function CheckedTags(r: seq<Chip>): seq<Tag> {
    if |r| == 0 then []
    else (if r[0].isChecked then [r[0].data] else []) + CheckedTags(r[1..])
  }

  /** The tags of the unchecked chips, in order. */
  function UncheckedTags(r: seq<Chip>): seq<Tag> {
    if |r| == 0 then []
    else (if r[0].isChecked then [] else [r[0].data]) + UncheckedTags(r[1..])
  }

  /** The elements of `s` that are not in `excluded`, in order. */
  function Outside(s: seq<Tag>, excluded: seq<Tag>): (r: seq<Tag>)
    ensures forall t {:trigger t in r} :: t in r <==> t in s && t !in excluded
    ensures |r| <= |s|
  {
    if |s| == 0 then []
    else (if s[0] in excluded then [] else [s[0]]) + Outside(s[1..], excluded)
  }

  /** Every checked chip comes before every unchecked one. */
  predicate CheckedFirst(r: seq<Chip>) {
    forall i, j | 0 <= i < j < |r| :: r[j].isChecked ==> r[i].isChecked
  }

  /** Filtering a sequence extended by one element. */
  lemma {:induction false} OutsideAppend(s: seq<Tag>, x: Tag, excluded: seq<Tag>)
    ensures Outside(s + [x], excluded) == Outside(s, excluded) + (if x in excluded then [] else [x])
  {
    var last := if x in excluded then [] else [x];
    if |s| == 0 {
      assert s + [x] == [x] && [x][1..] == [];
      assert Outside(s, excluded) == [];
    } else {
      var l, tail := s + [x], s[1..];
      var head := if s[0] in excluded then [] else [s[0]];
      assert l[0] == s[0] && l[1..] == tail + [x];
      OutsideAppend(tail, x, excluded);
      var o := Outside(tail, excluded);
      assert Outside(l, excluded) == head + (o + last);
      assert Outside(s, excluded) == head + o;
      assert head + (o + last) == (head + o) + last;
    }
  }

  /** Putting a checked chip in front: `LinkedList.addFirst`. */
  lemma PrependChecked(r: seq<Chip>, c: Chip)
    requires c.isChecked && CheckedFirst(r)
    ensures CheckedFirst([c] + r)
    ensures TagsOf([c] + r) == [c.data] + TagsOf(r)
    ensures CheckedTags([c] + r) == [c.data] + CheckedTags(r)
    ensures UncheckedTags([c] + r) == UncheckedTags(r)
  {
    assert ([c] + r)[1..] == r;
    var l := [c] + r;
    forall i, j | 0 <= i < j < |l| && l[j].isChecked ensures l[i].isChecked {
      if i > 0 {
        assert l[i] == r[i - 1] && l[j] == r[j - 1];
      }
    }
  }

  // ---------------------------------------------------------------------------
  // The exact order of the chips
  // ---------------------------------------------------------------------------

  /** One chip per tag, in order, all checked or all unchecked. */
  function ChipsFor(ts: seq<Tag>, checked: bool): seq<Chip> {
    seq(|ts|, k requires 0 <= k < |ts| => Chip(ts[k].title, checked, ts[k]))
  }

  /** `ChipsFor` distributes over concatenation. */
  lemma ChipsForConcat(a: seq<Tag>, b: seq<Tag>, checked: bool)
    ensures ChipsFor(a + b, checked) == ChipsFor(a, checked) + ChipsFor(b, checked)
  {
    var l, m := ChipsFor(a + b, checked), ChipsFor(a, checked) + ChipsFor(b, checked);
    forall k | 0 <= k < |l| ensures l[k] == m[k] {
      if k >= |a| {
        assert (a + b)[k] == b[k - |a|];
      }
    }
  }

  /** A sequence backwards. */
  function Reverse<T>(s: seq<T>): (r: seq<T>)
    ensures |r| == |s|
    ensures forall k | 0 <= k < |s| :: r[k] == s[|s| - 1 - k]
  {
    if |s| == 0 then [] else [s[|s| - 1]] + Reverse(s[..|s| - 1])
  }

  /**
   * The selected tags among the candidates, each at its first occurrence,
   * latest first: the order in which `addFirst` leaves their checked chips.
   */
  function Matches(tags: seq<Tag>, selected: seq<Tag>): seq<Tag>
    decreases |tags|
  {
    if |tags| == 0 then []
    else
      var i := |tags| - 1;
      (if tags[i] in selected && tags[i] !in tags[..i] then [tags[i]] else []) + Matches(tags[..i], selected)
  }

  /** The candidates other than the first occurrence of a selected tag, in candidate order. */
  function Unmatched(tags: seq<Tag>, selected: seq<Tag>): seq<Tag>
    decreases |tags|
  {
    if |tags| == 0 then []
    else
      var i := |tags| - 1;
      Unmatched(tags[..i], selected) + (if tags[i] in selected && tags[i] !in tags[..i] then [] else [tags[i]])
  }

  /** With a repeated selected candidate, the first copy is checked and the later one stays unchecked. */
  lemma FirstOccurrenceIsChecked(a: Tag, b: Tag)
    requires a != b
    ensures Matches([a, b, a], [a]) == [a]
    ensures Unmatched([a, b, a], [a]) == [b, a]
  {
    assert [a, b, a][..2] == [a, b] && [a, b][..1] == [a] && [a][..0] == [];
    assert Matches([], [a]) == [] && Unmatched([], [a]) == [];
    assert Matches([a], [a]) == [a] && Unmatched([a], [a]) == [];
    assert Matches([a, b], [a]) == [a] && Unmatched([a, b], [a]) == [b];
  }

  /** The checked and the unchecked candidates together are the candidates, repeats counted. */
  lemma {:induction false} MatchesPartition(tags: seq<Tag>, selected: seq<Tag>)
    ensures multiset(Matches(tags, selected)) + multiset(Unmatched(tags, selected)) == multiset(tags)
    decreases |tags|
  {
    if |tags| > 0 {
      var i := |tags| - 1;
      var pre, t := tags[..i], tags[i];
      assert tags == pre + [t];
      MatchesPartition(pre, selected);
      MatchesSnoc(pre, t, selected);
    }
  }

  /**
   * However often a selected tag is repeated among the candidates, exactly one
   * copy is checked and every further copy stays unchecked; a tag that is not
   * selected is never checked.
   */
  lemma CheckedOncePerTag(tags: seq<Tag>, selected: seq<Tag>, t: Tag)
    ensures t in selected && t in tags ==>
      multiset(Matches(tags, selected))[t] == 1 && multiset(Unmatched(tags, selected))[t] == multiset(tags)[t] - 1
    ensures t !in selected ==>
      multiset(Matches(tags, selected))[t] == 0 && multiset(Unmatched(tags, selected))[t] == multiset(tags)[t]
  {
    MatchesPartition(tags, selected);
    MatchesFacts(tags, selected);
    DistinctOnce(Matches(tags, selected), t);
  }

  /** Without repeated candidates, the unchecked ones are exactly the unselected candidates. */
  lemma {:induction false} UnmatchedWithoutRepeats(tags: seq<Tag>, selected: seq<Tag>)
    requires Distinct(tags)
    ensures Unmatched(tags, selected) == Outside(tags, selected)
    decreases |tags|
  {
    if |tags| > 0 {
      var i := |tags| - 1;
      var init := tags[..i];
      assert tags == init + [tags[i]];
      assert Distinct(init);
      assert tags[i] !in init;
      UnmatchedWithoutRepeats(init, selected);
      OutsideAppend(init, tags[i], selected);
    }
  }

  /** `Outside(s, excluded)` as `excluded` grows by one tag: that tag is dropped as well. */
  lemma {:induction false} OutsideGrows(s: seq<Tag>, excluded: seq<Tag>, t: Tag)
    ensures Outside(s, excluded + [t]) == Without(Outside(s, excluded), t)
    decreases |s|
  {
    if |s| > 0 {
      OutsideGrows(s[1..], excluded, t);
      var o := Outside(s[1..], excluded);
      assert s[0] in excluded + [t] <==> s[0] in excluded || s[0] == t;
      if s[0] !in excluded {
        assert Outside(s, excluded) == [s[0]] + o;
        assert ([s[0]] + o)[0] == s[0] && ([s[0]] + o)[1..] == o;
      } else {
        assert Outside(s, excluded) == o;
      }
    }
  }

  /** Excluding nothing keeps everything. */
  lemma {:induction false} OutsideNothing(s: seq<Tag>)
    ensures Outside(s, []) == s
  {
    if |s| > 0 {
      OutsideNothing(s[1..]);
      assert s == [s[0]] + s[1..];
    }
  }

  /** The chip list the candidate loop has built after the candidates `pre`, and the selected tags still unmatched. */
  ghost predicate CandidateShape(selected: seq<Tag>, pre: seq<Tag>, r: seq<Chip>, remaining: seq<Tag>) {
    && r == ChipsFor(Matches(pre, selected), true) + ChipsFor(Unmatched(pre, selected), false)
    && remaining == Outside(selected, pre)
  }

  /** One turn of the candidate loop, after the candidates `pre`, with the next one `t`, keeps the shape. */
  lemma ShapeSnoc(selected: seq<Tag>, pre: seq<Tag>, t: Tag, pre': seq<Tag>, r: seq<Chip>, remaining: seq<Tag>,
                  chip: Chip, r': seq<Chip>, remaining': seq<Tag>)
    requires pre' == pre + [t]
    requires r == ChipsFor(Matches(pre, selected), true) + ChipsFor(Unmatched(pre, selected), false)
    requires remaining == Outside(selected, pre)
    requires chip == Chip(t.title, t in remaining, t)
    requires remaining' == Without(remaining, t)
    requires r' == if chip.isChecked then [chip] + r else r + [chip]
    ensures r' == ChipsFor(Matches(pre', selected), true) + ChipsFor(Unmatched(pre', selected), false)
    ensures remaining' == Outside(selected, pre')
  {
    OutsideGrows(selected, pre, t);
    MatchesSnoc(pre, t, selected);
    assert chip.isChecked <==> t in selected && t !in pre;
    if chip.isChecked {
      ChipInFront(Matches(pre, selected), Unmatched(pre, selected), t, r, chip, r');
    } else {
      ChipAtBack(Matches(pre, selected), Unmatched(pre, selected), t, r, chip, r');
    }
  }

  /** A checked chip put in front extends the checked run at its start. */
  lemma ChipInFront(m: seq<Tag>, u: seq<Tag>, t: Tag, r: seq<Chip>, chip: Chip, r': seq<Chip>)
    requires r == ChipsFor(m, true) + ChipsFor(u, false)
    requires chip == Chip(t.title, true, t) && r' == [chip] + r
    ensures r' == ChipsFor([t] + m, true) + ChipsFor(u, false)
  {
    ChipsForConcat([t], m, true);
    assert ChipsFor([t], true) == [chip];
  }

  /** An unchecked chip put at the back extends the unchecked run at its end. */
  lemma ChipAtBack(m: seq<Tag>, u: seq<Tag>, t: Tag, r: seq<Chip>, chip: Chip, r': seq<Chip>)
    requires r == ChipsFor(m, true) + ChipsFor(u, false)
    requires chip == Chip(t.title, false, t) && r' == r + [chip]
    ensures r' == ChipsFor(m, true) + ChipsFor(u + [t], false)
  {
    ChipsForConcat(u, [t], false);
    assert ChipsFor([t], false) == [chip];
  }

  /** `Matches` and `Unmatched` of a list extended by one candidate. */
  lemma MatchesSnoc(pre: seq<Tag>, t: Tag, selected: seq<Tag>)
    ensures t in selected && t !in pre ==>
      Matches(pre + [t], selected) == [t] + Matches(pre, selected) && Unmatched(pre + [t], selected) == Unmatched(pre, selected)
    ensures !(t in selected && t !in pre) ==>
      Matches(pre + [t], selected) == Matches(pre, selected) && Unmatched(pre + [t], selected) == Unmatched(pre, selected) + [t]
  {
    assert (pre + [t])[..|pre|] == pre;
  }

  /** One turn of the loop over the unmatched selected tags keeps the shape. */
  lemma PrependStep(r0: seq<Chip>, rest: seq<Tag>, j: nat, r: seq<Chip>)
    requires j < |rest| && r == ChipsFor(Reverse(rest[..j]), true) + r0
    ensures [Chip(rest[j].title, true, rest[j])] + r == ChipsFor(Reverse(rest[..j + 1]), true) + r0
  {
    assert rest[..j + 1][..j] == rest[..j];
    assert Reverse(rest[..j + 1]) == [rest[j]] + Reverse(rest[..j]);
    ChipsForConcat([rest[j]], Reverse(rest[..j]), true);
  }

  /**
   * The loop over the candidates: each becomes a chip, checked (and put in
   * front) when it is still among the selected tags, which it then leaves.
   * Returns the chips and the selected tags no candidate matched.
   */
  method CandidateChips(tags: seq<Tag>, selected: seq<Tag>) returns (r: seq<Chip>, remaining: seq<Tag>)
    requires Distinct(selected)
    ensures |r| == |tags|
    ensures |remaining| <= |selected|
    ensures Distinct(remaining)
    ensures forall t :: t in remaining <==> t in selected && t !in tags
    ensures CheckedFirst(r)
    ensures forall c | c in r :: c.title == c.data.title
    ensures forall t :: t in TagsOf(r) <==> t in tags
    ensures multiset(TagsOf(r)) == multiset(tags)
    ensures Distinct(CheckedTags(r))
    ensures forall t :: t in CheckedTags(r) <==> t in selected && t in tags
    ensures Distinct(tags) ==> UncheckedTags(r) == Outside(tags, selected)
    // a candidate is checked at its first occurrence among the candidates; checked chips stack up in front
    ensures r == ChipsFor(Matches(tags, selected), true) + ChipsFor(Unmatched(tags, selected), false)
    ensures remaining == Outside(selected, tags)
  {
    r, remaining := CandidateLoop(tags, selected);
    RowOrder(tags, selected, r);
    RowContents(tags, selected, r);
    OutsideDistinct(selected, tags);
  }

  /** The loop of `CandidateChips`, building the row in the shape of the reference split. */
  method CandidateLoop(tags: seq<Tag>, selected: seq<Tag>) returns (r: seq<Chip>, remaining: seq<Tag>)
    ensures r == ChipsFor(Matches(tags, selected), true) + ChipsFor(Unmatched(tags, selected), false)
    ensures remaining == Outside(selected, tags)
  {
    remaining := selected;
    r := [];
    var i := 0;
    OutsideNothing(selected);
    while i < |tags|
      invariant 0 <= i <= |tags|
      invariant CandidateShape(selected, tags[..i], r, remaining)
    {
      var tag := tags[i];
      var chip := Chip(tag.title, tag in remaining, tag);
      var r', remaining' := if chip.isChecked then [chip] + r else r + [chip], Without(remaining, tag);
      assert tags[..i + 1] == tags[..i] + [tag];
      ShapeSnoc(selected, tags[..i], tag, tags[..i + 1], r, remaining, chip, r', remaining');
      r, remaining := r', remaining';
      i := i + 1;
    }
    assert tags[..i] == tags;
  }

  /** A row made of a checked run followed by an unchecked run: its order and its projections. */
  lemma RunsRow(m: seq<Tag>, u: seq<Tag>, r: seq<Chip>)
    requires r == ChipsFor(m, true) + ChipsFor(u, false)
    ensures |r| == |m| + |u|
    ensures CheckedFirst(r)
    ensures forall c | c in r :: c.title == c.data.title
    ensures TagsOf(r) == m + u
    ensures CheckedTags(r) == m
    ensures UncheckedTags(r) == u
  {
    var cm, cu := ChipsFor(m, true), ChipsFor(u, false);
    ChipsForProjections(m, true);
    ChipsForProjections(u, false);
    TagsOfConcat(cm, cu);
    CheckedTagsConcat(cm, cu);
    UncheckedTagsConcat(cm, cu);
    assert m + [] == m && [] + u == u;
    forall k | 0 <= k < |r| ensures r[k].isChecked <==> k < |m| {
      if k < |m| { assert r[k] == cm[k]; } else { assert r[k] == cu[k - |m|]; }
    }
  }

  /** The finished candidate row: as long as the candidates, checked chips first, titles from the tags. */
  lemma RowOrder(tags: seq<Tag>, selected: seq<Tag>, r: seq<Chip>)
    requires r == ChipsFor(Matches(tags, selected), true) + ChipsFor(Unmatched(tags, selected), false)
    ensures |r| == |tags|
    ensures CheckedFirst(r)
    ensures forall c | c in r :: c.title == c.data.title
  {
    RunsRow(Matches(tags, selected), Unmatched(tags, selected), r);
    MatchesFacts(tags, selected);
  }

  /** The finished candidate row: which tags it holds, which are checked, and the unchecked ones without repeats. */
  lemma RowContents(tags: seq<Tag>, selected: seq<Tag>, r: seq<Chip>)
    requires r == ChipsFor(Matches(tags, selected), true) + ChipsFor(Unmatched(tags, selected), false)
    ensures forall t :: t in TagsOf(r) <==> t in tags
    ensures multiset(TagsOf(r)) == multiset(tags)
    ensures Distinct(CheckedTags(r))
    ensures forall t :: t in CheckedTags(r) <==> t in selected && t in tags
    ensures Distinct(tags) ==> UncheckedTags(r) == Outside(tags, selected)
  {
    RunsRow(Matches(tags, selected), Unmatched(tags, selected), r);
    MatchesPartition(tags, selected);
    MatchesFacts(tags, selected);
    if Distinct(tags) {
      UnmatchedWithoutRepeats(tags, selected);
    }
  }

  /** A reversed sequence has the same elements, and no repeats when the original has none. */
  lemma ReverseFacts<T>(s: seq<T>)
    ensures forall x :: x in Reverse(s) <==> x in s
    ensures Distinct(s) ==> Distinct(Reverse(s))
  {
    var r := Reverse(s);
    forall x | x in s ensures x in r {
      var k :| 0 <= k < |s| && s[k] == x;
      assert r[|s| - 1 - k] == x;
    }
    forall x | x in r ensures x in s {
      var k :| 0 <= k < |r| && r[k] == x;
      assert s[|s| - 1 - k] == x;
    }
  }

  /** The projections of a run of chips made by `ChipsFor`. */
  lemma {:induction false} ChipsForProjections(ts: seq<Tag>, checked: bool)
    ensures TagsOf(ChipsFor(ts, checked)) == ts
    ensures CheckedTags(ChipsFor(ts, checked)) == if checked then ts else []
    ensures UncheckedTags(ChipsFor(ts, checked)) == if checked then [] else ts
    ensures forall c | c in ChipsFor(ts, checked) :: c.title == c.data.title
    decreases |ts|
  {
    if |ts| > 0 {
      assert ChipsFor(ts, checked)[1..] == ChipsFor(ts[1..], checked);
      ChipsForProjections(ts[1..], checked);
      assert ts == [ts[0]] + ts[1..];
    }
  }

  /** The tags of a concatenation are the concatenated tags. */
  lemma {:induction false} TagsOfConcat(a: seq<Chip>, b: seq<Chip>)
    ensures TagsOf(a + b) == TagsOf(a) + TagsOf(b)
    decreases |a|
  {
    if |a| == 0 {
      assert a + b == b;
    } else {
      assert (a + b)[0] == a[0] && (a + b)[1..] == a[1..] + b;
      TagsOfConcat(a[1..], b);
    }
  }

  /** The checked tags of a concatenation are the concatenated checked tags. */
  lemma {:induction false} CheckedTagsConcat(a: seq<Chip>, b: seq<Chip>)
    ensures CheckedTags(a + b) == CheckedTags(a) + CheckedTags(b)
    decreases |a|
  {
    if |a| == 0 {
      assert a + b == b;
    } else {
      assert (a + b)[0] == a[0] && (a + b)[1..] == a[1..] + b;
      CheckedTagsConcat(a[1..], b);
    }
  }

  /** The unchecked tags of a concatenation are the concatenated unchecked tags. */
  lemma {:induction false} UncheckedTagsConcat(a: seq<Chip>, b: seq<Chip>)
    ensures UncheckedTags(a + b) == UncheckedTags(a) + UncheckedTags(b)
    decreases |a|
  {
    if |a| == 0 {
      assert a + b == b;
    } else {
      assert (a + b)[0] == a[0] && (a + b)[1..] == a[1..] + b;
      UncheckedTagsConcat(a[1..], b);
    }
  }

  /** Membership, size and duplicate-freedom of the split into matched and unmatched candidates. */
  lemma {:induction false} MatchesFacts(tags: seq<Tag>, selected: seq<Tag>)
    ensures forall t :: t in Matches(tags, selected) <==> t in selected && t in tags
    ensures Distinct(Matches(tags, selected))
    ensures forall t :: t in Unmatched(tags, selected) ==> t in tags
    ensures forall t :: t in tags ==> t in Matches(tags, selected) || t in Unmatched(tags, selected)
    ensures |Matches(tags, selected)| + |Unmatched(tags, selected)| == |tags|
    decreases |tags|
  {
    if |tags| > 0 {
      var i := |tags| - 1;
      var pre, t := tags[..i], tags[i];
      assert tags == pre + [t];
      MatchesFacts(pre, selected);
      MatchesSnoc(pre, t, selected);
      if t in selected && t !in pre {
        DistinctCons(t, Matches(pre, selected));
      }
    }
  }

  /** Filtering a duplicate-free sequence keeps it duplicate-free. */
  lemma {:induction false} OutsideDistinct(s: seq<Tag>, excluded: seq<Tag>)
    requires Distinct(s)
    ensures Distinct(Outside(s, excluded))
    decreases |s|
  {
    if |s| > 0 {
      DistinctTail(s);
      OutsideDistinct(s[1..], excluded);
      if s[0] !in excluded {
        DistinctCons(s[0], Outside(s[1..], excluded));
      }
    }
  }

  /** What the loop over the unmatched selected tags keeps after handling `rest[..j]`. */
  ghost predicate SelectedLoop(r0: seq<Chip>, rest: seq<Tag>, j: nat, r: seq<Chip>)
    requires j <= |rest|
  {
    && |r| == |r0| + j
    && CheckedFirst(r)
    && (forall c | c in r0 :: c in r)
    && (forall c | c in r :: c in r0 || (c.isChecked && c.title == c.data.title))
    && (forall t :: t in TagsOf(r) <==> t in TagsOf(r0) || t in rest[..j])
    && Distinct(CheckedTags(r))
    && (forall t :: t in CheckedTags(r) <==> t in CheckedTags(r0) || t in rest[..j])
    && UncheckedTags(r) == UncheckedTags(r0)
  }

  /** One turn of the loop over the unmatched selected tags. */
  lemma SelectedStep(r0: seq<Chip>, rest: seq<Tag>, j: nat, r: seq<Chip>)
    requires Distinct(rest) && forall t | t in rest :: t !in TagsOf(r0)
    requires j < |rest| && SelectedLoop(r0, rest, j, r)
    ensures SelectedLoop(r0, rest, j + 1, [Chip(rest[j].title, true, rest[j])] + r)
  {
    var chip := Chip(rest[j].title, true, rest[j]);
    assert rest[..j + 1] == rest[..j] + [rest[j]];
    CheckedInTags(r0);
    PrependChecked(r, chip);
    assert rest[j] !in rest[..j];
    DistinctCons(rest[j], CheckedTags(r));
  }

  /** The loop over the unmatched selected tags: each is put in front, checked. */
  method PrependSelected(r0: seq<Chip>, rest: seq<Tag>) returns (r: seq<Chip>)
    requires Distinct(rest) && CheckedFirst(r0)
    requires forall t | t in rest :: t !in TagsOf(r0)
    requires Distinct(CheckedTags(r0))
    ensures |r| == |r0| + |rest|
    ensures CheckedFirst(r)
    ensures forall c | c in r0 :: c in r
    ensures forall c | c in r :: c in r0 || (c.isChecked && c.title == c.data.title)
    ensures forall t :: t in TagsOf(r) <==> t in TagsOf(r0) || t in rest
    ensures Distinct(CheckedTags(r))
    ensures forall t :: t in CheckedTags(r) <==> t in CheckedTags(r0) || t in rest
    ensures UncheckedTags(r) == UncheckedTags(r0)
    // each tag goes in front in turn, so the new chips precede `r0`, last tag first
    ensures r == ChipsFor(Reverse(rest), true) + r0
  {
    r := r0;
    var j := 0;
    assert ChipsFor(Reverse(rest[..0]), true) == [];
    while j < |rest|
      invariant 0 <= j <= |rest|
      invariant SelectedLoop(r0, rest, j, r)
      invariant r == ChipsFor(Reverse(rest[..j]), true) + r0
    {
      SelectedStep(r0, rest, j, r);
      PrependStep(r0, rest, j, r);
      r := [Chip(rest[j].title, true, rest[j])] + r;
      j := j + 1;
    }
    assert rest[..j] == rest;
  }

  /** A checked tag is a tag of the list. */
  lemma {:induction false} CheckedInTags(r: seq<Chip>)
    ensures forall t | t in CheckedTags(r) :: t in TagsOf(r)
  {
    if |r| > 0 {
      CheckedInTags(r[1..]);
    }
  }

  /**
   * `createChipsList(state, availableTags, limit)` where `selected` is the
   * filter's tag set and `suggestions` what the search repository returned.
   * A candidate is checked the first time it meets a selected tag; selected
   * tags that are not candidates are shown checked in front.
   */
  method CreateChipsList(selected: seq<Tag>, suggestions: seq<Tag>, available: seq<Tag>, limit: nat)
    returns (r: seq<Chip>)
    requires Distinct(selected)
    ensures var cands := Candidates(selected, suggestions, available, limit);
      r == [] <==> |cands| == 0 && |selected| == 0
    ensures var cands := Candidates(selected, suggestions, available, limit);
      |cands| <= |r| <= |cands| + |selected|
    ensures CheckedFirst(r)
    ensures forall c | c in r :: c.title == c.data.title
    // every selected tag has exactly one checked chip, and nothing else is checked
    ensures Distinct(CheckedTags(r))
    ensures forall t :: t in CheckedTags(r) <==> t in selected
    ensures forall t :: t in TagsOf(r) <==> t in Candidates(selected, suggestions, available, limit) || t in selected
    // without repeated candidates, the unselected ones follow in candidate order
    ensures var cands := Candidates(selected, suggestions, available, limit);
      Distinct(cands) ==> UncheckedTags(r) == Outside(cands, selected)
    // the whole row: unmatched selected tags (last first), then matched candidates (latest
    // first), all checked, then the other candidates unchecked in candidate order
    ensures var cands := Candidates(selected, suggestions, available, limit);
      r == ChipsFor(Reverse(Outside(selected, cands)), true)
         + ChipsFor(Matches(cands, selected), true)
         + ChipsFor(Unmatched(cands, selected), false)
  {
    var tags := Candidates(selected, suggestions, available, limit);
    if |tags| == 0 && |selected| == 0 {
      assert Outside(selected, tags) == [] && Matches(tags, selected) == [] && Unmatched(tags, selected) == [];
      return [];
    }
    r := ChipRow(tags, selected);
    ChipsListOrder(selected, tags, r);
    ChipsListContents(selected, tags, r);
  }

  /** The two loops of `createChipsList`, one after the other. */
  method ChipRow(tags: seq<Tag>, selected: seq<Tag>) returns (r: seq<Chip>)
    requires Distinct(selected)
    ensures r == ChipsFor(Reverse(Outside(selected, tags)), true)
               + ChipsFor(Matches(tags, selected), true)
               + ChipsFor(Unmatched(tags, selected), false)
  {
    var fromTags, rest := CandidateChips(tags, selected);
    r := PrependSelected(fromTags, rest);
  }

  /** The exact chip row's length, emptiness and order. */
  lemma ChipsListOrder(selected: seq<Tag>, tags: seq<Tag>, r: seq<Chip>)
    requires r == ChipsFor(Reverse(Outside(selected, tags)), true)
                + ChipsFor(Matches(tags, selected), true)
                + ChipsFor(Unmatched(tags, selected), false)
    ensures r == [] <==> |tags| == 0 && |selected| == 0
    ensures |tags| <= |r| <= |tags| + |selected|
    ensures CheckedFirst(r)
    ensures forall c | c in r :: c.title == c.data.title
  {
    var o, m, u := Reverse(Outside(selected, tags)), Matches(tags, selected), Unmatched(tags, selected);
    ChipsForConcat(o, m, true);
    RunsRow(o + m, u, r);
    MatchesFacts(tags, selected);
    ReverseFacts(Outside(selected, tags));
    if |selected| > 0 {
      assert selected[0] in o + m;
    }
  }

  /** Which tags the exact chip row holds and which of them are checked. */
  lemma ChipsListContents(selected: seq<Tag>, tags: seq<Tag>, r: seq<Chip>)
    requires Distinct(selected)
    requires r == ChipsFor(Reverse(Outside(selected, tags)), true)
                + ChipsFor(Matches(tags, selected), true)
                + ChipsFor(Unmatched(tags, selected), false)
    ensures Distinct(CheckedTags(r))
    ensures forall t :: t in CheckedTags(r) <==> t in selected
    ensures forall t :: t in TagsOf(r) <==> t in tags || t in selected
    ensures Distinct(tags) ==> UncheckedTags(r) == Outside(tags, selected)
  {
    var o, m, u := Reverse(Outside(selected, tags)), Matches(tags, selected), Unmatched(tags, selected);
    ChipsForConcat(o, m, true);
    RunsRow(o + m, u, r);
    MatchesFacts(tags, selected);
    OutsideDistinct(selected, tags);
    ReverseFacts(Outside(selected, tags));
    DistinctConcat(o, m);
    if Distinct(tags) {
      UnmatchedWithoutRepeats(tags, selected);
    }
  }


  /** The chip row holds at most this many candidates. */
  const ChipLimit: nat := 8

  /** `FilterHeaderModel`: the chips, the sort order, and the two flags the header reads. */
  datatype FilterHeader = FilterHeader(chips: seq<Chip>, sortOrder: SortOrder, hasSelectedTags: bool, allowMultipleTags: bool)

  /**
   * `getHeaderFlow`'s combination of the filter record with the available
   * tags (absent until loaded, and after a failed load).
   */
  method BuildHeader(f: Filter, repo: Repository, suggestions: seq<Tag>, available: Option<seq<Tag>>)
    returns (h: FilterHeader)
    requires f.Valid()
    ensures h.sortOrder == f.sortOrder
    ensures h.hasSelectedTags <==> |f.tags| > 0
    ensures h.allowMultipleTags == repo.isMultipleTagsSupported
    ensures forall t :: t in CheckedTags(h.chips) <==> t in f.tags
    ensures CheckedFirst(h.chips)
    ensures |f.tags| > 0 ==> |h.chips| <= ChipLimit + |f.tags|
    // the chip row of `createChipsList` over at most `ChipLimit` candidates, with no known tags read as none
    ensures var cands := Candidates(f.tags, suggestions, available.GetOr([]), ChipLimit);
      h.chips == ChipsFor(Reverse(Outside(f.tags, cands)), true)
               + ChipsFor(Matches(cands, f.tags), true)
               + ChipsFor(Unmatched(cands, f.tags), false)
  {
    var chips := CreateChipsList(f.tags, suggestions, available.GetOr([]), ChipLimit);
    h := FilterHeader(chips, f.sortOrder, |f.tags| > 0, repo.isMultipleTagsSupported);
  }
}
