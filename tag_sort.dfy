/** `sortTags`: sorts the caller's array of tags in place, private tags
    before public ones and, within the same visibility, by name. */
module TagSort {

  /** The two fields of a tag that the comparator reads. The rest of the
      record (defined by the front end's models, not part of this model)
      travels with it as `other`. */
  datatype Tag<Other> = Tag(name: string, isPublic: bool, other: Other)

  /** `a.localeCompare(b)`: negative, zero or positive. */
  type NameCompare = (string, string) -> int

  /** A consistent comparator in the sense of ECMAScript's
      `Array.prototype.sort` (section 23.1.3.30 of ECMA-262): a value
      compares equal to itself, swapping the arguments flips the sign, and
      "x before-or-equal y" (`compare(x, y) <= 0`) is transitive. String
      collation by `localeCompare` is one. */
  ghost predicate Consistent(compare: NameCompare) {
    && (forall x :: compare(x, x) == 0)
    && (forall x, y :: compare(x, y) < 0 <==> compare(y, x) > 0)
    && (forall x, y, z :: compare(x, y) <= 0 && compare(y, z) <= 0 ==> compare(x, z) <= 0)
  }

  /** The comparator handed to `tags.sort`: a private tag sorts before a
      public one; tags of the same visibility compare by name. */
  function TagCompare<Other>(localeCompare: NameCompare, a: Tag<Other>, b: Tag<Other>): (r: int)
    ensures a.isPublic != b.isPublic ==> r != 0 && (r < 0 <==> b.isPublic)
    ensures a.isPublic == b.isPublic ==> r == localeCompare(a.name, b.name)
  {
    if a.isPublic != b.isPublic then
      (if a.isPublic then 1 else -1)
    else
      localeCompare(a.name, b.name)
  }

  /** `a` may stay before `b` in the sorted array. */
  predicate TagLe<Other>(localeCompare: NameCompare, a: Tag<Other>, b: Tag<Other>) {
    TagCompare(localeCompare, a, b) <= 0
  }

  /** Ordered by the comparator: no pair is out of order. */
  ghost predicate Sorted<Other>(localeCompare: NameCompare, s: seq<Tag<Other>>) {
    forall i, j :: 0 <= i < j < |s| ==> TagLe(localeCompare, s[i], s[j])
  }

  /** The tag comparator inherits a total preorder from the name
      comparator, so sorting by it is well defined. */
  lemma TagOrderIsTotalPreorder<Other>(localeCompare: NameCompare)
    requires Consistent(localeCompare)
    ensures forall a: Tag<Other>, b: Tag<Other> :: TagLe(localeCompare, a, b) || TagLe(localeCompare, b, a)
    ensures forall a: Tag<Other>, b: Tag<Other>, c: Tag<Other> ::
      TagLe(localeCompare, a, b) && TagLe(localeCompare, b, c) ==> TagLe(localeCompare, a, c)
  {
    forall a: Tag<Other>, b: Tag<Other>
      ensures TagLe(localeCompare, a, b) || TagLe(localeCompare, b, a)
    {
      if a.isPublic == b.isPublic && localeCompare(a.name, b.name) > 0 {
        assert localeCompare(b.name, a.name) < 0;
      }
    }
    forall a: Tag<Other>, b: Tag<Other>, c: Tag<Other> |
      TagLe(localeCompare, a, b) && TagLe(localeCompare, b, c)
      ensures TagLe(localeCompare, a, c)
    {
      if a.isPublic == b.isPublic == c.isPublic {
        assert localeCompare(a.name, b.name) <= 0 && localeCompare(b.name, c.name) <= 0;
      }
    }
  }

  /** Sorted by the tag comparator means: every private tag comes before
      every public tag, and tags of equal visibility are in name order. */
  lemma SortedMeans<Other>(localeCompare: NameCompare, s: seq<Tag<Other>>)
    requires Sorted(localeCompare, s)
    ensures forall i, j :: 0 <= i < j < |s| && s[i].isPublic ==> s[j].isPublic
    ensures forall i, j :: 0 <= i < j < |s| && s[i].isPublic == s[j].isPublic ==>
      localeCompare(s[i].name, s[j].name) <= 0
  {
    forall i, j | 0 <= i < j < |s|
      ensures s[i].isPublic ==> s[j].isPublic
      ensures s[i].isPublic == s[j].isPublic ==> localeCompare(s[i].name, s[j].name) <= 0
    {
      assert TagLe(localeCompare, s[i], s[j]);
    }
  }

  /** `tags.sort(comparator)`: sorts `tags` in place and returns the same
      array. (The engine's algorithm is not observable; insertion by
      adjacent swaps stands in for it.) */
  method SortTags<Other>(tags: array<Tag<Other>>, localeCompare: NameCompare) returns (sorted: array<Tag<Other>>)
    requires Consistent(localeCompare)
    modifies tags
    ensures sorted == tags
    ensures multiset(tags[..]) == multiset(old(tags[..]))
    ensures Sorted(localeCompare, tags[..])
    ensures forall i, j :: 0 <= i < j < tags.Length && tags[i].isPublic ==> tags[j].isPublic
    ensures forall i, j :: 0 <= i < j < tags.Length && tags[i].isPublic == tags[j].isPublic ==>
      localeCompare(tags[i].name, tags[j].name) <= 0
  {
    var i := 0;
    while i < tags.Length
      invariant 0 <= i <= tags.Length
      invariant multiset(tags[..]) == multiset(old(tags[..]))
      invariant Sorted(localeCompare, tags[..i])
    {
      InsertAt(tags, i, localeCompare);
      i := i + 1;
    }
    assert tags[..i] == tags[..];
    SortedMeans(localeCompare, tags[..]);
    sorted := tags;
  }

  /** A caller's view: a public "Zeta" given before a private "Alpha" comes
      back with "Alpha" first, whatever the collation of the two names. */
  method SortTagsExample(localeCompare: NameCompare) returns (first: Tag<bool>, second: Tag<bool>)
    requires Consistent(localeCompare)
    ensures first == Tag("Alpha", false, true) && second == Tag("Zeta", true, false)
  {
    var zeta, alpha := Tag("Zeta", true, false), Tag("Alpha", false, true);
    var tags := new Tag<bool>[2];
    tags[0], tags[1] := zeta, alpha;
    assert tags[..] == [zeta, alpha];
    var sorted := SortTags(tags, localeCompare);
    assert sorted[..] == [sorted[0], sorted[1]];
    assert sorted[0] in multiset([zeta, alpha]);
    first, second := sorted[0], sorted[1];
    assert first != zeta;
    assert multiset([alpha, second]) == multiset([zeta, alpha]);
  }

  /** One step of the sort: moves `tags[i]` down past every element that
      must follow it, so that the first `i + 1` elements are sorted. */
  method InsertAt<Other>(tags: array<Tag<Other>>, i: nat, localeCompare: NameCompare)
    requires Consistent(localeCompare)
    requires i < tags.Length && Sorted(localeCompare, tags[..i])
    modifies tags
    ensures multiset(tags[..]) == multiset(old(tags[..]))
    ensures multiset(tags[..i + 1]) == multiset(old(tags[..i + 1]))
    ensures tags[i + 1..] == old(tags[i + 1..])
    ensures Sorted(localeCompare, tags[..i + 1])
  {
    var j := i;
    InsertingStart(localeCompare, tags[..], i);
    while j > 0 && !TagLe(localeCompare, tags[j - 1], tags[j])
      invariant 0 <= j <= i
      invariant multiset(tags[..i + 1]) == multiset(old(tags[..i + 1]))
      invariant tags[i + 1..] == old(tags[i + 1..])
      invariant Inserting(localeCompare, tags[..], i, j)
    {
      ghost var before := tags[..];
      tags[j - 1], tags[j] := tags[j], tags[j - 1];
      assert tags[..] == before[j - 1 := before[j]][j := before[j - 1]];
      SwapKeepsPrefixAndRest(before, tags[..], i, j);
      InsertingSwap(localeCompare, before, i, j);
      j := j - 1;
    }
    assert tags[..] == tags[..i + 1] + tags[i + 1..];
    assert old(tags[..]) == old(tags[..i + 1]) + old(tags[i + 1..]);
    InsertingDone(localeCompare, tags[..], i, j);
  }

  /** Swapping two neighbours inside the first `i + 1` elements permutes that
      prefix and leaves the rest alone. */
  lemma SwapKeepsPrefixAndRest<T>(before: seq<T>, after: seq<T>, i: nat, j: nat)
    requires 0 < j <= i < |before|
    requires after == before[j - 1 := before[j]][j := before[j - 1]]
    ensures multiset(after[..i + 1]) == multiset(before[..i + 1])
    ensures after[i + 1..] == before[i + 1..]
  {
    assert after[..i + 1] == before[..i + 1][j - 1 := before[j]][j := before[j - 1]];
  }

  /** The loop invariant of `InsertAt` while the moving element sits at `j`:
      the first `i + 1` elements are in order apart from position `j`, and
      everything after `j` may follow the moving element. */
  ghost predicate Inserting<Other>(localeCompare: NameCompare, s: seq<Tag<Other>>, i: nat, j: nat)
    requires j <= i < |s|
  {
    && (forall p, q :: 0 <= p < q <= i && p != j && q != j ==> TagLe(localeCompare, s[p], s[q]))
    && (forall q :: j < q <= i ==> TagLe(localeCompare, s[j], s[q]))
  }

  lemma InsertingStart<Other>(localeCompare: NameCompare, s: seq<Tag<Other>>, i: nat)
    requires i < |s| && Sorted(localeCompare, s[..i])
    ensures Inserting(localeCompare, s, i, i)
  {
    forall p, q | 0 <= p < q <= i && p != i && q != i
      ensures TagLe(localeCompare, s[p], s[q])
    {
      assert s[..i][p] == s[p] && s[..i][q] == s[q];
    }
  }

  /** Swapping the moving element with a predecessor that must follow it
      keeps the invariant one position further down. */
  lemma InsertingSwap<Other>(localeCompare: NameCompare, s: seq<Tag<Other>>, i: nat, j: nat)
    requires Consistent(localeCompare)
    requires 0 < j <= i < |s| && Inserting(localeCompare, s, i, j)
    requires !TagLe(localeCompare, s[j - 1], s[j])
    ensures Inserting(localeCompare, s[j - 1 := s[j]][j := s[j - 1]], i, j - 1)
  {
    TagOrderIsTotalPreorder<Other>(localeCompare);
    var t := s[j - 1 := s[j]][j := s[j - 1]];
    forall q | j - 1 < q <= i
      ensures TagLe(localeCompare, t[j - 1], t[q])
    {
      if q == j {
        assert TagLe(localeCompare, s[j], s[j - 1]);
      }
    }
  }

  /** When the moving element may stay after its predecessor (or has
      reached the front), the first `i + 1` elements are sorted. */
  lemma InsertingDone<Other>(localeCompare: NameCompare, s: seq<Tag<Other>>, i: nat, j: nat)
    requires Consistent(localeCompare)
    requires j <= i < |s| && Inserting(localeCompare, s, i, j)
    requires j == 0 || TagLe(localeCompare, s[j - 1], s[j])
    ensures Sorted(localeCompare, s[..i + 1])
  {
    TagOrderIsTotalPreorder<Other>(localeCompare);
    forall p, q | 0 <= p < q <= i
      ensures TagLe(localeCompare, s[p], s[q])
    {
      if q == j && p < j - 1 {
        assert TagLe(localeCompare, s[p], s[j - 1]);
      }
    }
  }
}
