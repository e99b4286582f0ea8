/** `unusedImageIdentifiers`: the expiration decision for one repository.
    Plain images are decided first (age, keep-count budget, hold set, tag
    patterns); an image index expires when it carries the link tag of an
    expired image; a SOCI index expires when the manifest behind such a link
    tag lists it. */
module Engine {
  import opened Wrappers
  import opened Image
  import opened Seqs
  import opened Listing
  import opened Soci
  import opened Summary

  /** What the decision consults besides the listing: the region the
      references are built for, the repository's policy and the hold set
      (the references in use by tasks, task definitions and functions). */
  datatype Scope = Scope(region: string, rc: Policy, hold: set<string>)

  predicate Tagged(d: ImageDetail)
  {
    ImageTag(d).1
  }

  predicate AgeExpired(d: ImageDetail, rc: Policy)
  {
    rc.isExpired(d.pushedAt)
  }

  /** The `keepCount` counter after the first `n` images: how many of them
      are past the age cutoff and tagged. */
  function BudgetUsed(images: seq<ImageDetail>, rc: Policy, n: nat): nat
    requires n <= |images|
  {
    if n == 0 then 0
    else BudgetUsed(images, rc, n - 1)
         + (if AgeExpired(images[n - 1], rc) && Tagged(images[n - 1]) then 1 else 0)
  }

  /** Image `i` is retained by the keep-count budget. */
  predicate KeptByBudget(images: seq<ImageDetail>, rc: Policy, i: nat)
    requires i < |images|
  {
    AgeExpired(images[i], rc) && Tagged(images[i]) && BudgetUsed(images, rc, i) + 1 <= rc.keepCount
  }

  /** A tag that keeps its image: it matches a tag pattern of the policy,
      or the image is held under that tag. */
  predicate TagProtects(d: ImageDetail, sc: Scope, t: string)
  {
    sc.rc.matchTag(t) || TagUri(d, sc.region, t) in sc.hold
  }

  /** The image is held by digest, or one of its tags protects it. */
  predicate HeldOrMatched(d: ImageDetail, sc: Scope)
  {
    DigestUri(d, sc.region) in sc.hold || exists t :: t in d.tags && TagProtects(d, sc, t)
  }

  /** Plain image `i` (newest first) expires. */
  predicate PlainExpires(images: seq<ImageDetail>, sc: Scope, i: nat)
    requires i < |images|
  {
    AgeExpired(images[i], sc.rc) && !KeptByBudget(images, sc.rc, i) && !HeldOrMatched(images[i], sc)
  }

  /** The expired plain images among the first `n`, in order. */
  function ExpiredPlain(images: seq<ImageDetail>, sc: Scope, n: nat): seq<ImageDetail>
    requires n <= |images|
  {
    if n == 0 then []
    else ExpiredPlain(images, sc, n - 1) + (if PlainExpires(images, sc, n - 1) then [images[n - 1]] else [])
  }

  /** `expiredImageIndexes`: the link tags of the expired plain images among
      the first `n` that some record of the listing carries. */
  function Links(images: seq<ImageDetail>, sc: Scope, foundTags: map<string, string>, n: nat): set<string>
    requires n <= |images|
  {
    if n == 0 then {}
    else
      var d := images[n - 1];
      Links(images, sc, foundTags, n - 1)
      + (if PlainExpires(images, sc, n - 1) && LinkTag(d.digest) in foundTags then {LinkTag(d.digest)} else {})
  }

  /** An image index expires when one of its tags is a link tag. */
  predicate IndexExpires(d: ImageDetail, links: set<string>)
  {
    exists t :: t in d.tags && t in links
  }

  function IndexRule(links: set<string>): ImageDetail -> bool
  {
    (d: ImageDetail) => IndexExpires(d, links)
  }

  function ExpiredIndexes(indexes: seq<ImageDetail>, links: set<string>): seq<ImageDetail>
  {
    Filter(indexes, IndexRule(links))
  }

  /** A SOCI index expires when its digest is that of a SOCI descriptor in
      the parsed manifest fetched for one of the link tags. */
  ghost predicate SociExpires(d: ImageDetail, links: set<string>, m: Manifests)
  {
    exists t, x :: t in links && t in m && m[t].Some? && x in m[t].value
                   && x.artifactType == MediaTypeSociIndex && x.digest == d.digest
  }

  ghost function SociRule(links: set<string>, m: Manifests): ImageDetail -> bool
  {
    (d: ImageDetail) => SociExpires(d, links, m)
  }

  ghost function ExpiredSoci(socis: seq<ImageDetail>, links: set<string>, m: Manifests): seq<ImageDetail>
  {
    Filter(socis, SociRule(links, m))
  }

  /** The test the `SOCI_INDEX` loop makes: the digest is among those
      `findSociIndex` returned. */
  function DigestIn(ids: seq<string>): ImageDetail -> bool
  {
    (d: ImageDetail) => d.digest in ids
  }

  /** The link tags of a listing under a scope. */
  function LinksOf(l: seq<ImageDetail>, sc: Scope): set<string>
  {
    var images := NewestFirst(OfKind(l, ContainerImage));
    Links(images, sc, TagIndex(l), |images|)
  }

  /** Everything the engine expires in a listing, tier by tier: plain
      images, then image indexes, then SOCI indexes, each newest first. */
  ghost function ExpiredRecords(l: seq<ImageDetail>, sc: Scope, m: Manifests): seq<ImageDetail>
  {
    var images := NewestFirst(OfKind(l, ContainerImage));
    ExpiredPlain(images, sc, |images|)
    + ExpiredIndexes(NewestFirst(OfKind(l, ImageIndex)), LinksOf(l, sc))
    + ExpiredSoci(NewestFirst(OfKind(l, SociIndex)), LinksOf(l, sc), m)
  }

  /** The records the summary counts: the three buckets. */
  function Counted(l: seq<ImageDetail>): seq<ImageDetail>
  {
    NewestFirst(OfKind(l, ContainerImage)) + NewestFirst(OfKind(l, ImageIndex))
    + NewestFirst(OfKind(l, SociIndex))
  }

  /** The image identifiers (digests) of records, in order. */
  function Digests(rs: seq<ImageDetail>): (r: seq<string>)
    ensures |r| == |rs|
  {
    if |rs| == 0 then [] else Digests(rs[..|rs| - 1]) + [rs[|rs| - 1].digest]
  }

  function SizeSum(rs: seq<ImageDetail>): int
  {
    if |rs| == 0 then 0 else SizeSum(rs[..|rs| - 1]) + rs[|rs| - 1].size
  }

  /** A summary after `Add` of every record of `all` and `Expire` of every
      record of `expired`. */
  function Tally(s: Summary, all: seq<ImageDetail>, expired: seq<ImageDetail>): Summary
  {
    s.(totalImages := s.totalImages + |all|,
       totalImageSize := s.totalImageSize + SizeSum(all),
       expiredImages := s.expiredImages + |expired|,
       expiredImageSize := s.expiredImageSize + SizeSum(expired))
  }

  /** The labelled loop over an image's tags: is any tag protecting? Tag
      patterns are tried before the hold set, tag by tag. */
  method TagProtected(d: ImageDetail, sc: Scope) returns (keep: bool)
    ensures keep <==> exists t :: t in d.tags && TagProtects(d, sc, t)
  {
    for j := 0 to |d.tags|
      invariant forall k :: 0 <= k < j ==> !TagProtects(d, sc, d.tags[k])
    {
      var tag := d.tags[j];
      if sc.rc.matchTag(tag) {
        assert TagProtects(d, sc, tag);
        return true;
      }
      if TagUri(d, sc.region, tag) in sc.hold {
        assert TagProtects(d, sc, tag);
        return true;
      }
    }
    keep := false;
  }

  /** The checks of the `IMAGE` loop body for plain image `i`, in the
      order of the source, given the `keepCount` counter so far: the age
      cutoff, the keep-count budget (tagged images only), the hold set by
      digest, then the tags. */
  method CheckImage(images: seq<ImageDetail>, sc: Scope, i: nat, keepCount0: nat)
    returns (expired: bool, keepCount: nat)
    requires i < |images| && keepCount0 == BudgetUsed(images, sc.rc, i)
    ensures keepCount == BudgetUsed(images, sc.rc, i + 1)
    ensures expired <==> PlainExpires(images, sc, i)
  {
    var d := images[i];
    var tagged := ImageTag(d).1;
    keepCount := keepCount0;
    if !sc.rc.isExpired(d.pushedAt) {
      return false, keepCount;
    }
    if tagged {
      keepCount := keepCount + 1;
      if keepCount <= sc.rc.keepCount {
        return false, keepCount;
      }
    }
    if DigestUri(d, sc.region) in sc.hold {
      return false, keepCount;
    }
    var keep := TagProtected(d, sc);
    expired := !keep;
  }

  /** The `IMAGE` loop over the plain images, newest first: every image is
      counted into the summary before any check; the expired ones are
      recorded, counted as expired, and their link tags collected when some
      record of the listing carries them. */
  method PlainPass(images: seq<ImageDetail>, sc: Scope, foundTags: map<string, string>, sums0: Summary)
    returns (ids: seq<string>, links: set<string>, sums: Summary)
    ensures ids == Digests(ExpiredPlain(images, sc, |images|))
    ensures links == Links(images, sc, foundTags, |images|)
    ensures sums == Tally(sums0, images, ExpiredPlain(images, sc, |images|))
  {
    ids, links, sums := [], {}, sums0;
    var keepCount := 0;
    for i := 0 to |images|
      invariant keepCount == BudgetUsed(images, sc.rc, i)
      invariant ids == Digests(ExpiredPlain(images, sc, i))
      invariant links == Links(images, sc, foundTags, i)
      invariant sums == Tally(sums0, images[..i], ExpiredPlain(images, sc, i))
    {
      var d := images[i];
      PlainStep(images, sc, sums0, i);
      sums := Add(sums, d.size);
      var expired;
      expired, keepCount := CheckImage(images, sc, i, keepCount);
      if expired {
        ids, links, sums := RecordExpired(d, foundTags, ids, links, sums);
      }
    }
    assert images[..|images|] == images;
  }

  /** An expired plain image: its digest is recorded, it is counted as
      expired, and its link tag is kept when some record carries it. */
  method RecordExpired(d: ImageDetail, foundTags: map<string, string>,
                       ids0: seq<string>, links0: set<string>, sums0: Summary)
    returns (ids: seq<string>, links: set<string>, sums: Summary)
    ensures ids == ids0 + [d.digest]
    ensures links == links0 + (if LinkTag(d.digest) in foundTags then {LinkTag(d.digest)} else {})
    ensures sums == Expire(sums0, d.size)
  {
    ids, links := ids0 + [d.digest], links0;
    sums := Expire(sums0, d.size);
    var tagSha256 := LinkTag(d.digest);
    if tagSha256 in foundTags {
      links := links + {tagSha256};
    }
  }

  /** How the loop's specification advances by one image. */
  lemma PlainStep(images: seq<ImageDetail>, sc: Scope, sums0: Summary, i: nat)
    requires i < |images|
    ensures Digests(ExpiredPlain(images, sc, i + 1))
         == Digests(ExpiredPlain(images, sc, i)) + (if PlainExpires(images, sc, i) then [images[i].digest] else [])
    ensures Tally(sums0, images[..i + 1], ExpiredPlain(images, sc, i + 1))
         == (var s := Add(Tally(sums0, images[..i], ExpiredPlain(images, sc, i)), images[i].size);
             if PlainExpires(images, sc, i) then Expire(s, images[i].size) else s)
  {
    var d := images[i];
    var before := ExpiredPlain(images, sc, i);
    assert images[..i + 1] == images[..i] + [d];
    SizeSumAppend(images[..i], [d]);
    if PlainExpires(images, sc, i) {
      assert ExpiredPlain(images, sc, i + 1) == before + [d];
      DigestsAppend(before, [d]);
      SizeSumAppend(before, [d]);
      assert Digests([d]) == [d.digest];
    } else {
      assert ExpiredPlain(images, sc, i + 1) == before;
    }
  }

  /** The loop over an image index's tags: does it carry a link tag? */
  method HasLinkTag(d: ImageDetail, links: set<string>) returns (found: bool)
    ensures found <==> IndexExpires(d, links)
  {
    for j := 0 to |d.tags|
      invariant forall k :: 0 <= k < j ==> d.tags[k] !in links
    {
      if d.tags[j] in links {
        return true;
      }
    }
    found := false;
  }

  /** The `IMAGE_INDEX` loop: every index is counted; one carrying a link
      tag is expired and recorded once. */
  method IndexPass(indexes: seq<ImageDetail>, links: set<string>, ids0: seq<string>, sums0: Summary)
    returns (ids: seq<string>, sums: Summary)
    ensures ids == ids0 + Digests(ExpiredIndexes(indexes, links))
    ensures sums == Tally(sums0, indexes, ExpiredIndexes(indexes, links))
  {
    ids, sums := ids0, sums0;
    for i := 0 to |indexes|
      invariant ids == ids0 + Digests(Filter(indexes[..i], IndexRule(links)))
      invariant sums == Tally(sums0, indexes[..i], Filter(indexes[..i], IndexRule(links)))
    {
      var d := indexes[i];
      FilterPassStep(indexes, IndexRule(links), sums0, i);
      sums := Add(sums, d.size);
      var expired := HasLinkTag(d, links);
      if expired {
        sums := Expire(sums, d.size);
        ids := ids + [d.digest];
      }
    }
    assert indexes[..|indexes|] == indexes;
  }

  /** The loop over `findSociIndex`'s identifiers: is `digest` among them? */
  method Returned(ids: seq<string>, digest: string) returns (found: bool)
    ensures found <==> digest in ids
  {
    for j := 0 to |ids|
      invariant digest !in ids[..j]
    {
      assert ids[..j + 1] == ids[..j] + [ids[j]];
      if ids[j] == digest {
        return true;
      }
    }
    assert ids[..|ids|] == ids;
    found := false;
  }

  /** The `SOCI_INDEX` loop: every SOCI index is counted; one whose digest
      `findSociIndex` returned is expired and recorded once. */
  method SociPass(socis: seq<ImageDetail>, sociIds: seq<string>, ids0: seq<string>, sums0: Summary)
    returns (ids: seq<string>, sums: Summary)
    ensures ids == ids0 + Digests(Filter(socis, DigestIn(sociIds)))
    ensures sums == Tally(sums0, socis, Filter(socis, DigestIn(sociIds)))
  {
    ids, sums := ids0, sums0;
    for i := 0 to |socis|
      invariant ids == ids0 + Digests(Filter(socis[..i], DigestIn(sociIds)))
      invariant sums == Tally(sums0, socis[..i], Filter(socis[..i], DigestIn(sociIds)))
    {
      var d := socis[i];
      FilterPassStep(socis, DigestIn(sociIds), sums0, i);
      sums := Add(sums, d.size);
      var found := Returned(sociIds, d.digest);
      if found {
        sums := Expire(sums, d.size);
        ids := ids + [d.digest];
      }
    }
    assert socis[..|socis|] == socis;
  }

  /** How a filtering pass's specification advances by one record. */
  lemma FilterPassStep(s: seq<ImageDetail>, p: ImageDetail -> bool, sums0: Summary, i: nat)
    requires i < |s|
    ensures Digests(Filter(s[..i + 1], p))
         == Digests(Filter(s[..i], p)) + (if p(s[i]) then [s[i].digest] else [])
    ensures Tally(sums0, s[..i + 1], Filter(s[..i + 1], p))
         == (var t := Add(Tally(sums0, s[..i], Filter(s[..i], p)), s[i].size);
             if p(s[i]) then Expire(t, s[i].size) else t)
  {
    var d := s[i];
    var before := Filter(s[..i], p);
    assert s[..i + 1] == s[..i] + [d];
    assert s[..i + 1][..i] == s[..i];
    SizeSumAppend(s[..i], [d]);
    if p(d) {
      assert Filter(s[..i + 1], p) == before + [d];
      DigestsAppend(before, [d]);
      SizeSumAppend(before, [d]);
      assert Digests([d]) == [d.digest];
    } else {
      assert Filter(s[..i + 1], p) == before;
    }
  }

  /** `set.members()`: the elements of a set in an unspecified order. */
  method Members(s: set<string>) returns (r: seq<string>)
    ensures forall x :: x in r <==> x in s
    ensures Distinct(r)
  {
    r := [];
    var rest := s;
    while rest != {}
      invariant rest <= s
      invariant forall x :: x in r <==> x in s && x !in rest
      invariant Distinct(r)
      decreases rest
    {
      var x :| x in rest;
      r := r + [x];
      rest := rest - {x};
    }
  }

  /** `tags` lists each element of `links` exactly once, in some order:
      what `set.members()` can return. */
  ghost predicate Enumerates(tags: seq<string>, links: set<string>)
  {
    Distinct(tags) && forall x :: x in tags <==> x in links
  }

  /** Every `BatchGetImage` request the engine can make for listing `l`
      succeeds: whatever order `set.members()` gives the link tags, no
      `BatchGetImageLimit`-tag chunk of that order fails. */
  ghost predicate SociRequestsSucceed(l: seq<ImageDetail>, sc: Scope, batchGetError: seq<string> -> Option<string>)
  {
    forall tags :: Enumerates(tags, LinksOf(l, sc)) ==>
      forall c :: c in Chunk(tags, BatchGetImageLimit) ==> batchGetError(c).None?
  }

  /** A request the engine can make for listing `l`, a chunk of some order
      of its link tags, fails with error `e`. */
  ghost predicate SociRequestFails(l: seq<ImageDetail>, sc: Scope, batchGetError: seq<string> -> Option<string>, e: string)
  {
    exists tags, c :: Enumerates(tags, LinksOf(l, sc)) && c in Chunk(tags, BatchGetImageLimit) && batchGetError(c) == Some(e)
  }

  /** A listing without link tags makes no `BatchGetImage` request, so the
      engine cannot fail on one, however the service would answer. */
  lemma NoLinkTagsNoRequest(l: seq<ImageDetail>, sc: Scope, batchGetError: seq<string> -> Option<string>)
    requires LinksOf(l, sc) == {}
    ensures SociRequestsSucceed(l, sc, batchGetError)
  {
    forall tags | Enumerates(tags, LinksOf(l, sc))
      ensures forall c :: c in Chunk(tags, BatchGetImageLimit) ==> batchGetError(c).None?
    {
      assert forall x :: x !in tags;
      NoMembersEmpty(tags);
      assert |Chunk(tags, BatchGetImageLimit)| == 0;
    }
  }

  /** `unusedImageIdentifiers` for one repository. The listing stands for
      the `DescribeImages` pages (or the error fetching them); the
      manifests and `batchGetError` stand for `BatchGetImage`. On success
      the expired identifiers are those of `ExpiredRecords`, tier by tier,
      and the summary counts every record of the three buckets once and
      every expired one once more as expired. */
  method UnusedImageIdentifiers(repo: string, sc: Scope, listing: Result<seq<ImageDetail>>,
                                manifests: Manifests, batchGetError: seq<string> -> Option<string>)
    returns (expiredIds: seq<string>, sums: Summary, err: Option<string>)
    ensures listing.Err? ==> expiredIds == [] && sums == NewRepoSummary(repo) && err == Some(listing.error)
    ensures listing.Ok? && err.None? ==>
              && expiredIds == Digests(ExpiredRecords(listing.value, sc, manifests))
              && sums == Tally(NewRepoSummary(repo), Counted(listing.value),
                               ExpiredRecords(listing.value, sc, manifests))
    ensures listing.Ok? && err.Some? ==> expiredIds == []
    ensures listing.Ok? && SociRequestsSucceed(listing.value, sc, batchGetError) ==> err.None?
    ensures listing.Ok? && err.Some? ==> SociRequestFails(listing.value, sc, batchGetError, err.value)
    ensures listing.Ok? && err.Some? ==> !SociRequestsSucceed(listing.value, sc, batchGetError)
  {
    sums := NewRepoSummary(repo);
    if listing.Err? {
      return [], sums, Some(listing.error);
    }
    var l := listing.value;
    var images, imageIndexes, sociIndexes, idByTags := ListImageDetails(l);

    var links;
    expiredIds, links, sums := PlainPass(images, sc, idByTags, sums);
    expiredIds, sums := IndexPass(imageIndexes, links, expiredIds, sums);

    var tags := Members(links);
    var sociIds, requests := FindSociIndex(tags, manifests, batchGetError);
    assert links == LinksOf(l, sc);
    if sociIds.Err? {
      var c := requests[|requests| - 1];
      assert c in Chunk(tags, BatchGetImageLimit);
      assert Enumerates(tags, LinksOf(l, sc));
      return [], sums, Some(sociIds.error);
    }
    expiredIds, sums := SociPass(sociIndexes, sociIds.value, expiredIds, sums);
    err := None;

    // the SOCI test on returned digests is `SociRule`'s test
    forall d | d in sociIndexes ensures DigestIn(sociIds.value)(d) == SociRule(links, manifests)(d) {
      SociIdsMembers(tags, manifests, d.digest);
    }
    FilterCongruent(sociIndexes, DigestIn(sociIds.value), SociRule(links, manifests));
    ghost var plain := ExpiredPlain(images, sc, |images|);
    ghost var idx := ExpiredIndexes(imageIndexes, links);
    ghost var soc := ExpiredSoci(sociIndexes, links, manifests);
    DigestsAppend(plain, idx);
    DigestsAppend(plain + idx, soc);
    TallyAppend(NewRepoSummary(repo), images, plain, imageIndexes, idx);
    TallyAppend(NewRepoSummary(repo), images + imageIndexes, plain + idx, sociIndexes, soc);
  }

  lemma TallyAppend(s: Summary, a1: seq<ImageDetail>, e1: seq<ImageDetail>, a2: seq<ImageDetail>, e2: seq<ImageDetail>)
    ensures Tally(Tally(s, a1, e1), a2, e2) == Tally(s, a1 + a2, e1 + e2)
  {
    SizeSumAppend(a1, a2);
    SizeSumAppend(e1, e2);
  }

  lemma {:induction false} DigestsAppend(a: seq<ImageDetail>, b: seq<ImageDetail>)
    ensures Digests(a + b) == Digests(a) + Digests(b)
  {
    if |b| == 0 {
      assert a + b == a;
    } else {
      var init, last := b[..|b| - 1], b[|b| - 1];
      DigestsAppend(a, init);
      AppendInit(a, b);
      calc {
        Digests(a + b);
        Digests(a + init) + [last.digest];
        Digests(a) + Digests(init) + [last.digest];
        Digests(a) + (Digests(init) + [last.digest]);
        Digests(a) + Digests(b);
      }
    }
  }

  lemma {:induction false} SizeSumAppend(a: seq<ImageDetail>, b: seq<ImageDetail>)
    ensures SizeSum(a + b) == SizeSum(a) + SizeSum(b)
  {
    if |b| == 0 {
      assert a + b == a;
    } else {
      var init := b[..|b| - 1];
      SizeSumAppend(a, init);
      AppendInit(a, b);
    }
  }

  lemma {:induction false} DigestsAt(rs: seq<ImageDetail>, k: nat)
    requires k < |rs|
    ensures Digests(rs)[k] == rs[k].digest
  {
    if k < |rs| - 1 {
      DigestsAt(rs[..|rs| - 1], k);
    }
  }

  /** A record is expired as a plain image exactly when it stands at a
      position where `PlainExpires` holds. */
  lemma {:induction false} ExpiredPlainMembers(images: seq<ImageDetail>, sc: Scope, n: nat, d: ImageDetail)
    requires n <= |images|
    ensures d in ExpiredPlain(images, sc, n)
        <==> exists i :: 0 <= i < n && images[i] == d && PlainExpires(images, sc, i)
  {
    if n > 0 {
      ExpiredPlainMembers(images, sc, n - 1, d);
    }
  }

  /** An image for which the policy's age test fails is never expired, and
      neither is one held by digest, held by one of its tags, or carrying a
      tag that matches a tag pattern. Whatever is expired passed the age
      test, and, if tagged, found the keep-count budget spent. */
  lemma PlainExpiryConditions(images: seq<ImageDetail>, sc: Scope, d: ImageDetail)
    ensures !AgeExpired(d, sc.rc) ==> d !in ExpiredPlain(images, sc, |images|)
    ensures DigestUri(d, sc.region) in sc.hold ==> d !in ExpiredPlain(images, sc, |images|)
    ensures (exists t :: t in d.tags && (sc.rc.matchTag(t) || TagUri(d, sc.region, t) in sc.hold))
            ==> d !in ExpiredPlain(images, sc, |images|)
    ensures d in ExpiredPlain(images, sc, |images|) ==>
              exists i :: 0 <= i < |images| && images[i] == d && AgeExpired(d, sc.rc)
                          && (Tagged(d) ==> BudgetUsed(images, sc.rc, i) >= sc.rc.keepCount)
  {
    ExpiredPlainMembers(images, sc, |images|, d);
  }

  /** The records that consume the keep-count budget. */
  function BudgetRule(rc: Policy): ImageDetail -> bool
  {
    (d: ImageDetail) => AgeExpired(d, rc) && Tagged(d)
  }

  /** The counter counts exactly the tagged images past the age cutoff;
      untagged images never consume the budget. */
  lemma {:induction false} BudgetCountsTaggedExpired(images: seq<ImageDetail>, rc: Policy, n: nat)
    requires n <= |images|
    ensures BudgetUsed(images, rc, n) == |Filter(images[..n], BudgetRule(rc))|
  {
    if n > 0 {
      BudgetCountsTaggedExpired(images, rc, n - 1);
      assert images[..n][..n - 1] == images[..n - 1];
    }
  }

  lemma {:induction false} BudgetMonotone(images: seq<ImageDetail>, rc: Policy, i: nat, j: nat)
    requires i <= j <= |images|
    ensures BudgetUsed(images, rc, i) <= BudgetUsed(images, rc, j)
  {
    if i < j {
      BudgetMonotone(images, rc, i, j - 1);
    }
  }

  /** The budget protects the newest tagged images past the cutoff: if one
      of them is kept by it, so is every newer one. */
  lemma BudgetKeepsNewest(images: seq<ImageDetail>, rc: Policy, i: nat, j: nat)
    requires i < j < |images|
    requires AgeExpired(images[i], rc) && Tagged(images[i])
    requires KeptByBudget(images, rc, j)
    ensures KeptByBudget(images, rc, i)
  {
    BudgetMonotone(images, rc, i + 1, j);
  }

  /** How many of the first `n` images the budget keeps. */
  function KeptCount(images: seq<ImageDetail>, rc: Policy, n: nat): nat
    requires n <= |images|
  {
    if n == 0 then 0
    else KeptCount(images, rc, n - 1) + (if KeptByBudget(images, rc, n - 1) then 1 else 0)
  }

  /** The budget keeps exactly `keepCount` of the tagged images past the
      cutoff, or all of them when there are fewer. */
  lemma {:induction false} BudgetKeepsExactly(images: seq<ImageDetail>, rc: Policy, n: nat)
    requires n <= |images|
    ensures KeptCount(images, rc, n)
         == (var k := if rc.keepCount < 0 then 0 else rc.keepCount;
             var used := BudgetUsed(images, rc, n);
             if used < k then used else k)
  {
    if n > 0 {
      BudgetKeepsExactly(images, rc, n - 1);
    }
  }

  lemma DigestsSnoc(rs: seq<ImageDetail>, r: ImageDetail)
    ensures Digests(rs + [r]) == Digests(rs) + [r.digest]
    ensures SizeSum(rs + [r]) == SizeSum(rs) + r.size
  {
    assert (rs + [r])[..|rs|] == rs;
  }

  lemma ExpiredPlainStep(images: seq<ImageDetail>, sc: Scope, n: nat)
    requires 0 < n <= |images|
    ensures Digests(ExpiredPlain(images, sc, n))
         == Digests(ExpiredPlain(images, sc, n - 1)) + (if PlainExpires(images, sc, n - 1) then [images[n - 1].digest] else [])
    ensures SizeSum(ExpiredPlain(images, sc, n))
         == SizeSum(ExpiredPlain(images, sc, n - 1)) + (if PlainExpires(images, sc, n - 1) then images[n - 1].size else 0)
  {
    var before := ExpiredPlain(images, sc, n - 1);
    if PlainExpires(images, sc, n - 1) {
      DigestsSnoc(before, images[n - 1]);
    } else {
      assert ExpiredPlain(images, sc, n) == before;
    }
  }

  /** With distinct digests in the listing, no digest is recorded twice:
      each expired image is sent for deletion once. */
  lemma {:induction false} ExpiredPlainDistinct(images: seq<ImageDetail>, sc: Scope, n: nat)
    requires n <= |images|
    requires Distinct(Digests(images))
    ensures Distinct(Digests(ExpiredPlain(images, sc, n)))
  {
    if n > 0 {
      ExpiredPlainDistinct(images, sc, n - 1);
      ExpiredPlainStep(images, sc, n);
      if PlainExpires(images, sc, n - 1) {
        var x := images[n - 1].digest;
        forall k | 0 <= k < n - 1 ensures images[k].digest != x {
          DigestsAt(images, k);
          DigestsAt(images, n - 1);
        }
        ExpiredPlainAbsent(images, sc, n - 1, x);
        DistinctSnoc(Digests(ExpiredPlain(images, sc, n - 1)), x);
      }
    }
  }

  lemma DistinctSnoc(s: seq<string>, x: string)
    requires Distinct(s) && x !in s
    ensures Distinct(s + [x])
  {
  }

  lemma ExpiredPlainAbsent(images: seq<ImageDetail>, sc: Scope, n: nat, x: string)
    requires n <= |images|
    requires forall k :: 0 <= k < n ==> images[k].digest != x
    ensures x !in Digests(ExpiredPlain(images, sc, n))
  {
    var ep := ExpiredPlain(images, sc, n);
    if x in Digests(ep) {
      var k :| 0 <= k < |ep| && Digests(ep)[k] == x;
      DigestsAt(ep, k);
      ExpiredPlainMembers(images, sc, n, ep[k]);
      assert false;
    }
  }

  /** A link tag is collected exactly when it is the link tag of an expired
      plain image and some record carries it as a tag. */
  lemma {:induction false} LinksMembers(images: seq<ImageDetail>, sc: Scope, foundTags: map<string, string>,
                                        n: nat, t: string)
    requires n <= |images|
    ensures t in Links(images, sc, foundTags, n)
        <==> t in foundTags && exists i :: 0 <= i < n && PlainExpires(images, sc, i) && LinkTag(images[i].digest) == t
  {
    if n > 0 {
      LinksMembers(images, sc, foundTags, n - 1, t);
    }
  }

  /** For a listing: a tag is a link tag exactly when it is the link tag of
      an expired plain image and some record of the listing, of any kind,
      carries it. */
  lemma LinkTagIffCarried(l: seq<ImageDetail>, sc: Scope, t: string)
    ensures t in LinksOf(l, sc)
        <==> (var images := NewestFirst(OfKind(l, ContainerImage));
              && (exists i :: 0 <= i < |images| && PlainExpires(images, sc, i) && LinkTag(images[i].digest) == t)
              && (exists j :: 0 <= j < |l| && t in l[j].tags))
  {
    var images := NewestFirst(OfKind(l, ContainerImage));
    LinksMembers(images, sc, TagIndex(l), |images|, t);
    TagIndexKeys(l, t);
  }

  /** An image index expires exactly when one of its tags is a link tag,
      whatever its age, and it is recorded once per occurrence in the
      listing. */
  lemma IndexExpiry(indexes: seq<ImageDetail>, links: set<string>, d: ImageDetail)
    ensures d in ExpiredIndexes(indexes, links) <==> d in indexes && exists t :: t in d.tags && t in links
    ensures multiset(ExpiredIndexes(indexes, links))[d]
         == if IndexExpires(d, links) then multiset(indexes)[d] else 0
  {
    FilterMembers(indexes, IndexRule(links), d);
    FilterCount(indexes, IndexRule(links), d);
  }

  /** A SOCI index expires exactly when its digest is that of a SOCI
      descriptor in the parsed manifest of some link tag, and it is
      recorded once per occurrence in the listing. */
  lemma SociExpiry(socis: seq<ImageDetail>, links: set<string>, m: Manifests, d: ImageDetail)
    ensures d in ExpiredSoci(socis, links, m)
        <==> d in socis && exists t, x :: t in links && t in m && m[t].Some? && x in m[t].value
                                          && x.artifactType == MediaTypeSociIndex && x.digest == d.digest
    ensures multiset(ExpiredSoci(socis, links, m))[d]
         == if SociExpires(d, links, m) then multiset(socis)[d] else 0
  {
    FilterMembers(socis, SociRule(links, m), d);
    FilterCount(socis, SociRule(links, m), d);
  }

  ghost predicate NonNegativeSizes(rs: seq<ImageDetail>)
  {
    forall k :: 0 <= k < |rs| ==> rs[k].size >= 0
  }

  lemma {:induction false} ExpiredPlainWithin(images: seq<ImageDetail>, sc: Scope, n: nat)
    requires n <= |images|
    requires NonNegativeSizes(images)
    ensures |ExpiredPlain(images, sc, n)| <= n
    ensures 0 <= SizeSum(ExpiredPlain(images, sc, n)) <= SizeSum(images[..n])
  {
    if n > 0 {
      var d := images[n - 1];
      ExpiredPlainWithin(images, sc, n - 1);
      ExpiredPlainStep(images, sc, n);
      assert images[..n] == images[..n - 1] + [d];
      DigestsSnoc(images[..n - 1], d);
      assert d.size >= 0;
      assert |ExpiredPlain(images, sc, n)| <= |ExpiredPlain(images, sc, n - 1)| + 1;
    }
  }

  lemma {:induction false} FilterWithin(s: seq<ImageDetail>, p: ImageDetail -> bool)
    requires NonNegativeSizes(s)
    ensures |Filter(s, p)| <= |s|
    ensures 0 <= SizeSum(Filter(s, p)) <= SizeSum(s)
  {
    if |s| > 0 {
      var init, last := s[..|s| - 1], s[|s| - 1];
      FilterWithin(init, p);
      if p(last) {
        DigestsSnoc(Filter(init, p), last);
      } else {
        assert Filter(s, p) == Filter(init, p);
      }
    }
  }

  lemma {:induction false} NonNegativeFilter(s: seq<ImageDetail>, p: ImageDetail -> bool)
    requires NonNegativeSizes(s)
    ensures NonNegativeSizes(Filter(s, p))
  {
    forall k | 0 <= k < |Filter(s, p)| ensures Filter(s, p)[k].size >= 0 {
      var x := Filter(s, p)[k];
      FilterMembers(s, p, x);
    }
  }

  lemma NonNegativeBucket(l: seq<ImageDetail>, kind: Kind)
    requires NonNegativeSizes(l)
    ensures NonNegativeSizes(NewestFirst(OfKind(l, kind)))
  {
    NonNegativeFilter(l, (d: ImageDetail) => d.kind == kind);
    var b := OfKind(l, kind);
    StableSort.SortPermutes(b, PushedLater);
    forall k | 0 <= k < |NewestFirst(b)| ensures NewestFirst(b)[k].size >= 0 {
      var x := NewestFirst(b)[k];
      StableSort.SortPermutes(b, PushedLater);
      assert x in multiset(b);
    }
  }

  /** Expired counts and sizes never exceed the totals, so the kept figures
      of a summary row are never negative. */
  lemma SummaryConsistent(repo: string, l: seq<ImageDetail>, sc: Scope, m: Manifests)
    requires NonNegativeSizes(l)
    ensures var s := Tally(NewRepoSummary(repo), Counted(l), ExpiredRecords(l, sc, m));
            && 0 <= s.expiredImages <= s.totalImages
            && 0 <= s.expiredImageSize <= s.totalImageSize
  {
    var images := NewestFirst(OfKind(l, ContainerImage));
    var indexes := NewestFirst(OfKind(l, ImageIndex));
    var socis := NewestFirst(OfKind(l, SociIndex));
    var links := LinksOf(l, sc);
    NonNegativeBucket(l, ContainerImage);
    NonNegativeBucket(l, ImageIndex);
    NonNegativeBucket(l, SociIndex);
    ExpiredPlainWithin(images, sc, |images|);
    assert images[..|images|] == images;
    FilterWithin(indexes, IndexRule(links));
    FilterWithin(socis, SociRule(links, m));
    var plain, idx, soc := ExpiredPlain(images, sc, |images|), ExpiredIndexes(indexes, links), ExpiredSoci(socis, links, m);
    SizeSumAppend(images, indexes);
    SizeSumAppend(images + indexes, socis);
    SizeSumAppend(plain, idx);
    SizeSumAppend(plain + idx, soc);
  }

  /** The row printed for a repository: the kept count is what is left of
      the total once the expired images are taken away, never negative, and
      while the total size fits an `int64` the kept and expired sizes add up
      to the total size. */
  lemma RepositoryRow(repo: string, l: seq<ImageDetail>, sc: Scope, m: Manifests)
    requires NonNegativeSizes(l)
    requires SizeSum(Counted(l)) < TwoTo64 / 2
    ensures var s := Tally(NewRepoSummary(repo), Counted(l), ExpiredRecords(l, sc, m));
            && Row(s)[0] == Name(repo)
            && Row(s)[3].count == s.totalImages - s.expiredImages >= 0
            && Row(s)[3].bytes + Row(s)[2].bytes == Row(s)[1].bytes == s.totalImageSize
  {
    SummaryConsistent(repo, l, sc, m);
    RowKeepsRemainder(Tally(NewRepoSummary(repo), Counted(l), ExpiredRecords(l, sc, m)));
  }

  /** The summary counts every record of the listing that is a plain image,
      an image index or a SOCI index, each exactly once. */
  lemma CountedCoversListing(l: seq<ImageDetail>)
    ensures multiset(Counted(l)) + multiset(OfKind(l, Other)) == multiset(l)
  {
    BucketsPartition(l);
    StableSort.SortPermutes(OfKind(l, ContainerImage), PushedLater);
    StableSort.SortPermutes(OfKind(l, ImageIndex), PushedLater);
    StableSort.SortPermutes(OfKind(l, SociIndex), PushedLater);
  }

  /** A manifest that fails to parse never causes a SOCI index to expire:
      replacing any fetched manifest by a parse failure can only shrink the
      expired set. */
  lemma ParseFailureOnlyRetains(socis: seq<ImageDetail>, links: set<string>, m: Manifests, t: string, d: ImageDetail)
    ensures d in ExpiredSoci(socis, links, m[t := None]) ==> d in ExpiredSoci(socis, links, m)
  {
    SociExpiry(socis, links, m[t := None], d);
    SociExpiry(socis, links, m, d);
    if d in ExpiredSoci(socis, links, m[t := None]) {
      var t', x :| t' in links && t' in m[t := None] && m[t := None][t'].Some? && x in m[t := None][t'].value
                   && x.artifactType == MediaTypeSociIndex && x.digest == d.digest;
      assert t' != t && t' in m && m[t'] == m[t := None][t'];
    }
  }

  /** When no link tag has a parsed manifest, no SOCI index expires. */
  lemma NoManifestNoSoci(socis: seq<ImageDetail>, links: set<string>, m: Manifests)
    requires forall t :: t in links && t in m ==> m[t].None?
    ensures ExpiredSoci(socis, links, m) == []
  {
    if ExpiredSoci(socis, links, m) != [] {
      var d := ExpiredSoci(socis, links, m)[0];
      SociExpiry(socis, links, m, d);
    }
  }

  /** A tagged record pushed `age` days ago. */
  function AgedImage(age: int): ImageDetail
  {
    ImageDetail("", "", "sha256:" + [(48 + age / 10 % 10) as char], ["v"], -age, 0, ContainerImage)
  }

  /** The keep-count scenario: a 30-day cutoff and a budget of two on five
      tagged images aged 0, 10, 40, 50 and 60 days, newest first. The two
      fresh ones stay by age, the 40- and 50-day ones by the budget, and
      only the 60-day one expires. */
  lemma KeepCountScenario(region: string)
    ensures var rc := Policy((name: string) => true, (pushedAt: int) => -pushedAt >= 30, 2, (tag: string) => false);
            var images := [AgedImage(0), AgedImage(10), AgedImage(40), AgedImage(50), AgedImage(60)];
            ExpiredPlain(images, Scope(region, rc, {}), 5) == [AgedImage(60)]
  {
    var rc := Policy((name: string) => true, (pushedAt: int) => -pushedAt >= 30, 2, (tag: string) => false);
    var images := [AgedImage(0), AgedImage(10), AgedImage(40), AgedImage(50), AgedImage(60)];
    var sc := Scope(region, rc, {});
    forall i | 0 <= i < 5 ensures !HeldOrMatched(images[i], sc) && Tagged(images[i]) {
      assert images[i].tags == ["v"];
    }
    assert BudgetUsed(images, rc, 2) == 0;
    assert BudgetUsed(images, rc, 4) == 2;
    assert !PlainExpires(images, sc, 0) && !PlainExpires(images, sc, 1);
    assert !PlainExpires(images, sc, 2) && !PlainExpires(images, sc, 3);
    assert PlainExpires(images, sc, 4);
    assert ExpiredPlain(images, sc, 1) == ExpiredPlain(images, sc, 0) == [];
    assert ExpiredPlain(images, sc, 2) == ExpiredPlain(images, sc, 1);
    assert ExpiredPlain(images, sc, 3) == ExpiredPlain(images, sc, 2);
    assert ExpiredPlain(images, sc, 4) == ExpiredPlain(images, sc, 3);
  }

  /** The scenario's listing has distinct digests, as a registry's has. */
  lemma KeepCountScenarioDigests()
    ensures Distinct(Digests([AgedImage(0), AgedImage(10), AgedImage(40), AgedImage(50), AgedImage(60)]))
  {
    var images := [AgedImage(0), AgedImage(10), AgedImage(40), AgedImage(50), AgedImage(60)];
    forall i, j | 0 <= i < j < 5 ensures Digests(images)[i] != Digests(images)[j] {
      DigestsAt(images, i);
      DigestsAt(images, j);
      assert images[i].digest[7] != images[j].digest[7];
    }
  }
}
