/** `listImageDetails`: one repository's listing split into plain images,
    image indexes and SOCI indexes, each sorted newest first, plus the index
    from every tag in the listing to the digest carrying it. The paginated
    `DescribeImages` calls are replaced by the concatenated listing. */
module Listing {
  import opened Image
  import opened Seqs
  import opened StableSort

  /** The `less` of the three sorts: the image pushed later comes first. */
  predicate PushedLater(a: ImageDetail, b: ImageDetail)
  {
    a.pushedAt > b.pushedAt
  }

  /** `sort.SliceStable` by push time, newest first. */
  function NewestFirst(s: seq<ImageDetail>): seq<ImageDetail>
  {
    SortStable(s, PushedLater)
  }

  /** The records of one kind, in listing order. */
  function OfKind(s: seq<ImageDetail>, k: Kind): seq<ImageDetail>
  {
    Filter(s, (d: ImageDetail) => d.kind == k)
  }

  /** Every tag of `tags` mapped to `digest`. */
  function TagsTo(tags: seq<string>, digest: string): map<string, string>
  {
    if |tags| == 0 then map[]
    else TagsTo(tags[..|tags| - 1], digest)[tags[|tags| - 1] := digest]
  }

  /** `foundTags`: every tag of the listing mapped to the digest of the last
      record carrying it (later records overwrite earlier ones). */
  function TagIndex(s: seq<ImageDetail>): map<string, string>
  {
    if |s| == 0 then map[]
    else TagIndex(s[..|s| - 1]) + TagsTo(s[|s| - 1].tags, s[|s| - 1].digest)
  }

  /** The inner loop: each tag of one record is mapped to its digest. */
  method AddTags(foundTags0: map<string, string>, tags: seq<string>, digest: string)
    returns (foundTags: map<string, string>)
    ensures foundTags == foundTags0 + TagsTo(tags, digest)
  {
    foundTags := foundTags0;
    for j := 0 to |tags|
      invariant foundTags == foundTags0 + TagsTo(tags[..j], digest)
    {
      assert tags[..j + 1][..j] == tags[..j];
      foundTags := foundTags[tags[j] := digest];
    }
    assert tags[..|tags|] == tags;
  }

  method ListImageDetails(listing: seq<ImageDetail>)
    returns (images: seq<ImageDetail>, imageIndexes: seq<ImageDetail>,
             sociIndexes: seq<ImageDetail>, foundTags: map<string, string>)
    ensures images == NewestFirst(OfKind(listing, ContainerImage))
    ensures imageIndexes == NewestFirst(OfKind(listing, ImageIndex))
    ensures sociIndexes == NewestFirst(OfKind(listing, SociIndex))
    ensures foundTags == TagIndex(listing)
  {
    images, imageIndexes, sociIndexes := [], [], [];
    foundTags := map[];
    for i := 0 to |listing|
      invariant images == OfKind(listing[..i], ContainerImage)
      invariant imageIndexes == OfKind(listing[..i], ImageIndex)
      invariant sociIndexes == OfKind(listing[..i], SociIndex)
      invariant foundTags == TagIndex(listing[..i])
    {
      var img := listing[i];
      assert listing[..i + 1][..i] == listing[..i];
      if img.kind == ContainerImage {
        images := images + [img];
      } else if img.kind == ImageIndex {
        imageIndexes := imageIndexes + [img];
      } else if img.kind == SociIndex {
        sociIndexes := sociIndexes + [img];
      }
      foundTags := AddTags(foundTags, img.tags, img.digest);
    }
    assert listing[..|listing|] == listing;
    images := NewestFirst(images);
    imageIndexes := NewestFirst(imageIndexes);
    sociIndexes := NewestFirst(sociIndexes);
  }

  lemma PushedLaterIsStrictWeakOrder()
    ensures StrictWeakOrder(PushedLater)
  {
    forall a, b ensures Asymmetric(PushedLater, a, b) { }
    forall a, b, c ensures NegTransitive(PushedLater, a, b, c) { }
  }

  /** Each bucket is a permutation of the records of its kind, ordered newest
      first, and records pushed at the same time keep their listing order. */
  lemma NewestFirstSpec(s: seq<ImageDetail>, e: ImageDetail)
    ensures multiset(NewestFirst(s)) == multiset(s)
    ensures forall i, j :: 0 <= i < j < |NewestFirst(s)| ==>
              NewestFirst(s)[i].pushedAt >= NewestFirst(s)[j].pushedAt
    ensures ClassOf(NewestFirst(s), e, PushedLater) == ClassOf(s, e, PushedLater)
  {
    PushedLaterIsStrictWeakOrder();
    SortPermutes(s, PushedLater);
    SortSorted(s, PushedLater);
    SortKeepsClasses(s, e, PushedLater);
  }

  /** Every record lands in exactly one of the three buckets or in none;
      no record is dropped or duplicated by the split. */
  lemma BucketsPartition(s: seq<ImageDetail>)
    ensures multiset(OfKind(s, ContainerImage)) + multiset(OfKind(s, ImageIndex))
          + multiset(OfKind(s, SociIndex)) + multiset(OfKind(s, Other)) == multiset(s)
  {
    var parts := multiset(OfKind(s, ContainerImage)) + multiset(OfKind(s, ImageIndex))
               + multiset(OfKind(s, SociIndex)) + multiset(OfKind(s, Other));
    forall d ensures parts[d] == multiset(s)[d] {
      FilterCount(s, (d: ImageDetail) => d.kind == ContainerImage, d);
      FilterCount(s, (d: ImageDetail) => d.kind == ImageIndex, d);
      FilterCount(s, (d: ImageDetail) => d.kind == SociIndex, d);
      FilterCount(s, (d: ImageDetail) => d.kind == Other, d);
    }
    assert parts == multiset(s);
  }

  lemma {:induction false} TagsToSpec(tags: seq<string>, digest: string, t: string)
    ensures t in TagsTo(tags, digest) <==> t in tags
    ensures t in TagsTo(tags, digest) ==> TagsTo(tags, digest)[t] == digest
  {
    if |tags| > 0 {
      TagsToSpec(tags[..|tags| - 1], digest, t);
      assert tags == tags[..|tags| - 1] + [tags[|tags| - 1]];
    }
  }

  /** A tag is in `foundTags` exactly when some record of the listing, of
      any kind, carries it. */
  lemma {:induction false} TagIndexKeys(s: seq<ImageDetail>, t: string)
    ensures t in TagIndex(s) <==> exists i :: 0 <= i < |s| && t in s[i].tags
  {
    if |s| > 0 {
      var init := s[..|s| - 1];
      TagIndexKeys(init, t);
      TagsToSpec(s[|s| - 1].tags, s[|s| - 1].digest, t);
      if exists i :: 0 <= i < |s| && t in s[i].tags {
        var i :| 0 <= i < |s| && t in s[i].tags;
        if i < |s| - 1 {
          assert t in init[i].tags;
        }
      }
    }
  }

  /** The digest recorded for a tag is that of the last record carrying it. */
  lemma {:induction false} TagIndexLast(s: seq<ImageDetail>, i: nat, t: string)
    requires i < |s| && t in s[i].tags
    requires forall j :: i < j < |s| ==> t !in s[j].tags
    ensures t in TagIndex(s) && TagIndex(s)[t] == s[i].digest
  {
    var init := s[..|s| - 1];
    TagsToSpec(s[|s| - 1].tags, s[|s| - 1].digest, t);
    if i < |s| - 1 {
      TagIndexLast(init, i, t);
    }
  }
}
