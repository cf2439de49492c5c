/**
 * The section controls of the editor (`moveUp`, `moveDown`, `deleteSection`,
 * `addSection`). The children of the `#resume` container are modelled as the
 * sequence of their element identities; a button stands for the section that
 * contains it (`btn.closest('section')`), and `confirm()` becomes a boolean
 * input.
 */
module Sections {

  type SectionId = nat

  predicate Distinct(xs: seq<SectionId>) {
    forall i, j :: 0 <= i < j < |xs| ==> xs[i] != xs[j]
  }

  /** The position of `x` in `xs`. */
  function IndexOf(xs: seq<SectionId>, x: SectionId): (i: nat)
    requires x in xs
    ensures i < |xs| && xs[i] == x && x !in xs[..i]
  {
    if xs[0] == x then 0 else 1 + IndexOf(xs[1..], x)
  }

  /** `insertBefore(section, prev)`: the section trades places with its
      previous sibling, if it has one. */
  function MovedUp(xs: seq<SectionId>, x: SectionId): seq<SectionId>
    requires x in xs
  {
    var i := IndexOf(xs, x);
    if i == 0 then xs else xs[i - 1 := x][i := xs[i - 1]]
  }

  /** `insertBefore(next, section)`: the next sibling, if any, is moved in
      front of the section. */
  function MovedDown(xs: seq<SectionId>, x: SectionId): seq<SectionId>
    requires x in xs
  {
    var i := IndexOf(xs, x);
    if i == |xs| - 1 then xs else xs[i := xs[i + 1]][i + 1 := x]
  }

  /** `section.remove()`. */
  function Removed(xs: seq<SectionId>, x: SectionId): seq<SectionId>
    requires x in xs
  {
    var i := IndexOf(xs, x);
    xs[..i] + xs[i + 1..]
  }

  /** Moving up swaps the section with its predecessor, does nothing to the
      first section, and keeps every other position. */
  lemma MoveUpSwaps(xs: seq<SectionId>, x: SectionId)
    requires x in xs
    ensures var i, ys := IndexOf(xs, x), MovedUp(xs, x);
      && |ys| == |xs|
      && (i == 0 ==> ys == xs)
      && (i > 0 ==> ys[i - 1] == x && ys[i] == xs[i - 1])
      && (forall k :: 0 <= k < |xs| && k != i && k != i - 1 ==> ys[k] == xs[k])
      && multiset(ys) == multiset(xs)
  {
  }

  /** Moving down swaps the section with its successor, does nothing to the
      last section, and keeps every other position. */
  lemma MoveDownSwaps(xs: seq<SectionId>, x: SectionId)
    requires x in xs
    ensures var i, ys := IndexOf(xs, x), MovedDown(xs, x);
      && |ys| == |xs|
      && (i == |xs| - 1 ==> ys == xs)
      && (i < |xs| - 1 ==> ys[i] == xs[i + 1] && ys[i + 1] == x)
      && (forall k :: 0 <= k < |xs| && k != i && k != i + 1 ==> ys[k] == xs[k])
      && multiset(ys) == multiset(xs)
  {
  }

  lemma IndexOfDistinct(xs: seq<SectionId>, k: nat)
    requires Distinct(xs) && k < |xs|
    ensures IndexOf(xs, xs[k]) == k
  {
    var i := IndexOf(xs, xs[k]);
    assert xs[i] == xs[k];
  }

  /** In a list of distinct sections, moving a section that is not first up
      and then down restores the order. */
  lemma MoveDownUndoesMoveUp(xs: seq<SectionId>, x: SectionId)
    requires Distinct(xs) && x in xs && IndexOf(xs, x) > 0
    ensures x in MovedUp(xs, x) && MovedDown(MovedUp(xs, x), x) == xs
  {
    var i := IndexOf(xs, x);
    var ys := MovedUp(xs, x);
    MoveUpSwaps(xs, x);
    assert ys[i - 1] == x;
    assert Distinct(ys) by {
      forall a, b | 0 <= a < b < |ys| ensures ys[a] != ys[b] {
        var a' := if a == i - 1 then i else if a == i then i - 1 else a;
        var b' := if b == i - 1 then i else if b == i then i - 1 else b;
        assert ys[a] == xs[a'] && ys[b] == xs[b'];
      }
    }
    IndexOfDistinct(ys, i - 1);
    MoveDownSwaps(ys, x);
  }

  /** In a list of distinct sections, moving a section that is not last
      down and then up restores the order. */
  lemma MoveUpUndoesMoveDown(xs: seq<SectionId>, x: SectionId)
    requires Distinct(xs) && x in xs && IndexOf(xs, x) < |xs| - 1
    ensures x in MovedDown(xs, x) && MovedUp(MovedDown(xs, x), x) == xs
  {
    var i := IndexOf(xs, x);
    var ys := MovedDown(xs, x);
    MoveDownSwaps(xs, x);
    assert ys[i + 1] == x;
    assert Distinct(ys) by {
      forall a, b | 0 <= a < b < |ys| ensures ys[a] != ys[b] {
        var a' := if a == i then i + 1 else if a == i + 1 then i else a;
        var b' := if b == i then i + 1 else if b == i + 1 then i else b;
        assert ys[a] == xs[a'] && ys[b] == xs[b'];
      }
    }
    IndexOfDistinct(ys, i + 1);
    MoveUpSwaps(ys, x);
  }

  /** Removing a section takes out exactly that section and keeps the order
      of the rest. */
  lemma RemovedExactly(xs: seq<SectionId>, x: SectionId)
    requires Distinct(xs) && x in xs
    ensures var i, ys := IndexOf(xs, x), Removed(xs, x);
      && |ys| == |xs| - 1 && x !in ys && Distinct(ys)
      && (forall k :: 0 <= k < i ==> ys[k] == xs[k])
      && (forall k :: i <= k < |ys| ==> ys[k] == xs[k + 1])
      && multiset(ys) == multiset(xs) - multiset{x}
  {
    var i := IndexOf(xs, x);
    RemovedMultiset(xs, i);
    var ys := Removed(xs, x);
    assert forall k :: 0 <= k < |ys| ==> ys[k] == xs[if k < i then k else k + 1];
  }

  lemma RemovedMultiset(xs: seq<SectionId>, i: nat)
    requires i < |xs|
    ensures multiset(xs[..i] + xs[i + 1..]) == multiset(xs) - multiset{xs[i]}
  {
    assert xs == xs[..i] + [xs[i]] + xs[i + 1..];
  }

  /** The `#resume` container. */
  class Resume {
    var sections: seq<SectionId>
    /** Identities not yet given to any element. */
    var unused: SectionId

    ghost predicate Valid()
      reads this
    {
      Distinct(sections) && forall i :: 0 <= i < |sections| ==> sections[i] < unused
    }

    /** The sections the page is served with. */
    constructor (initial: seq<SectionId>, firstUnused: SectionId)
      requires Distinct(initial) && forall i :: 0 <= i < |initial| ==> initial[i] < firstUnused
      ensures Valid() && sections == initial
    {
      sections := initial;
      unused := firstUnused;
    }

    method MoveUp(s: SectionId)
      requires Valid() && s in sections
      modifies this
      ensures Valid() && sections == MovedUp(old(sections), s) && unused == old(unused)
    {
      var i := IndexOf(sections, s);
      if i > 0 {
        MoveUpSwaps(sections, s);
        var ys := MovedUp(sections, s);
        forall a, b | 0 <= a < b < |ys| ensures ys[a] != ys[b] {
          var a' := if a == i - 1 then i else if a == i then i - 1 else a;
          var b' := if b == i - 1 then i else if b == i then i - 1 else b;
          assert ys[a] == sections[a'] && ys[b] == sections[b'];
        }
        sections := ys;
      }
    }

    method MoveDown(s: SectionId)
      requires Valid() && s in sections
      modifies this
      ensures Valid() && sections == MovedDown(old(sections), s) && unused == old(unused)
    {
      var i := IndexOf(sections, s);
      if i < |sections| - 1 {
        MoveDownSwaps(sections, s);
        var ys := MovedDown(sections, s);
        forall a, b | 0 <= a < b < |ys| ensures ys[a] != ys[b] {
          var a' := if a == i then i + 1 else if a == i + 1 then i else a;
          var b' := if b == i then i + 1 else if b == i + 1 then i else b;
          assert ys[a] == sections[a'] && ys[b] == sections[b'];
        }
        sections := ys;
      }
    }

    method DeleteSection(s: SectionId, confirmed: bool)
      requires Valid() && s in sections
      modifies this
      ensures Valid() && unused == old(unused)
      ensures sections == if confirmed then Removed(old(sections), s) else old(sections)
    {
      if confirmed {
        RemovedExactly(sections, s);
        sections := Removed(sections, s);
      }
    }

    /** `appendChild` of a newly created section. */
    method AddSection() returns (s: SectionId)
      requires Valid()
      modifies this
      ensures Valid() && s !in old(sections) && sections == old(sections) + [s]
    {
      s := unused;
      sections := sections + [s];
      unused := unused + 1;
    }
  }
}
