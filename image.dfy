/** The registry's image records and the references built from them, as the
    expiration engine sees them: `ecrTypes.ImageDetail`, the URIs looked up in
    the hold set, the "link tag" that ties an image index to an image, and the
    retention policy (`RepositoryConfig`). */
module Image {

  /** The artifact type that marks a SOCI index descriptor inside an OCI
      image index (`MediaTypeSociIndex`). */
  const MediaTypeSociIndex: string := "application/vnd.amazon.soci.index.v1+json"

  /** Display name of an image without tags (`untaggedStr`). */
  const UntaggedStr: string := "__UNTAGGED__"

  /** The bucket a record falls in: `isContainerImage`, `isImageIndex`,
      `isSociIndex` (tried in that order), or none of them. */
  datatype Kind = ContainerImage | ImageIndex | SociIndex | Other

  /** One record of a `DescribeImages` listing. `pushedAt` is a point in time
      and `size` the reported size in bytes. */
  datatype ImageDetail = ImageDetail(
    registryId: string,
    repositoryName: string,
    digest: string,
    tags: seq<string>,
    pushedAt: int,
    size: int,
    kind: Kind)

  /** One entry of the `manifests` list of an OCI image index. */
  datatype Descriptor = Descriptor(digest: string, artifactType: string)

  /** A repository retention policy (`RepositoryConfig`) as the engine
      consults it. Its matchers and its age test are defined outside the
      model, so they are carried as functions. */
  datatype Policy = Policy(
    matchName: string -> bool,
    isExpired: int -> bool,
    keepCount: int,
    matchTag: string -> bool)

  /** The queries on an `ImageURI` that the usage collector makes, likewise
      defined outside the model. */
  datatype UriOps = UriOps(
    isEcrImage: string -> bool,
    isDigestUri: string -> bool,
    base: string -> string)

  /** `<registry>.dkr.ecr.<region>.amazonaws.com/<repository>` */
  function RepositoryUri(d: ImageDetail, region: string): string
  {
    d.registryId + ".dkr.ecr." + region + ".amazonaws.com/" + d.repositoryName
  }

  /** The digest-qualified reference of an image, looked up in the hold set. */
  function DigestUri(d: ImageDetail, region: string): string
  {
    RepositoryUri(d, region) + "@" + d.digest
  }

  /** The tag-qualified reference of an image for one of its tags. */
  function TagUri(d: ImageDetail, region: string, tag: string): string
  {
    RepositoryUri(d, region) + ":" + tag
  }

  /** A digest reference and a tag reference of the same image never
      coincide: holding an image by tag does not hold it by digest. */
  lemma DigestUriIsNotTagUri(d: ImageDetail, region: string, tag: string)
    ensures DigestUri(d, region) != TagUri(d, region, tag)
  {
    var n := |RepositoryUri(d, region)|;
    assert DigestUri(d, region)[n] == '@';
    assert TagUri(d, region, tag)[n] == ':';
  }

  /** Two records of one repository have the same digest reference exactly
      when they have the same digest. */
  lemma DigestUriInjective(d: ImageDetail, e: ImageDetail, region: string)
    requires d.registryId == e.registryId && d.repositoryName == e.repositoryName
    ensures DigestUri(d, region) == DigestUri(e, region) <==> d.digest == e.digest
  {
    var p := RepositoryUri(d, region) + "@";
    assert DigestUri(d, region) == p + d.digest;
    assert DigestUri(e, region) == p + e.digest;
    if DigestUri(d, region) == DigestUri(e, region) {
      assert d.digest == (p + d.digest)[|p|..];
    }
  }

  /** `strings.Join(parts, sep)` */
  function Join(parts: seq<string>, sep: string): string
  {
    if |parts| == 0 then ""
    else if |parts| == 1 then parts[0]
    else parts[0] + sep + Join(parts[1..], sep)
  }

  /** `imageTag`: the display form of an image's tags and whether it is
      tagged. Only tagged images consume the keep-count budget. */
  function ImageTag(d: ImageDetail): (r: (string, bool))
    ensures r.1 <==> |d.tags| > 0
    ensures !r.1 ==> r.0 == UntaggedStr
    ensures |d.tags| == 1 ==> r.0 == d.tags[0]
  {
    if |d.tags| > 1 then ("{" + Join(d.tags, ",") + "}", true)
    else if |d.tags| == 1 then (d.tags[0], true)
    else (UntaggedStr, false)
  }

  /** `strings.Replace(s, pat, rep, 1)`: the first occurrence of `pat`
      replaced by `rep`. */
  function ReplaceFirst(s: string, pat: string, rep: string): string
    decreases |s|
  {
    if pat <= s then rep + s[|pat|..]
    else if |s| == 0 then s
    else [s[0]] + ReplaceFirst(s[1..], pat, rep)
  }

  ghost predicate OccursAt(s: string, pat: string, i: nat)
  {
    i + |pat| <= |s| && s[i..i + |pat|] == pat
  }

  lemma OccursAtStart(s: string, pat: string)
    ensures OccursAt(s, pat, 0) <==> pat <= s
  {
    if |pat| <= |s| {
      assert s[0..|pat|] == s[..|pat|];
    }
  }

  lemma OccursAtShift(s: string, pat: string, j: nat)
    requires |s| > 0
    ensures OccursAt(s, pat, j + 1) <==> OccursAt(s[1..], pat, j)
  {
    if j + 1 + |pat| <= |s| {
      assert s[1..][j..j + |pat|] == s[j + 1..j + 1 + |pat|];
    }
  }

  /** `ReplaceFirst` rewrites exactly the first occurrence. */
  lemma {:induction false} ReplaceFirstAt(s: string, pat: string, rep: string, i: nat)
    requires OccursAt(s, pat, i)
    requires forall j :: 0 <= j < i ==> !OccursAt(s, pat, j)
    ensures ReplaceFirst(s, pat, rep) == s[..i] + rep + s[i + |pat|..]
  {
    OccursAtStart(s, pat);
    if i == 0 {
      assert s[..0] + rep == rep;
    } else {
      forall j | 0 <= j < i - 1 ensures !OccursAt(s[1..], pat, j) {
        OccursAtShift(s, pat, j);
      }
      OccursAtShift(s, pat, i - 1);
      ReplaceFirstAt(s[1..], pat, rep, i - 1);
      calc {
        ReplaceFirst(s, pat, rep);
        [s[0]] + ReplaceFirst(s[1..], pat, rep);
        [s[0]] + (s[1..][..i - 1] + rep + s[1..][i - 1 + |pat|..]);
        { assert [s[0]] + s[1..][..i - 1] == s[..i];
          assert s[1..][i - 1 + |pat|..] == s[i + |pat|..]; }
        s[..i] + rep + s[i + |pat|..];
      }
    }
  }

  /** Without an occurrence, `ReplaceFirst` changes nothing. */
  lemma {:induction false} ReplaceFirstAbsent(s: string, pat: string, rep: string)
    requires forall j :: 0 <= j <= |s| ==> !OccursAt(s, pat, j)
    ensures ReplaceFirst(s, pat, rep) == s
  {
    OccursAtStart(s, pat);
    if |s| > 0 {
      forall j | 0 <= j <= |s[1..]| ensures !OccursAt(s[1..], pat, j) {
        OccursAtShift(s, pat, j);
      }
      ReplaceFirstAbsent(s[1..], pat, rep);
      assert s == [s[0]] + s[1..];
    }
  }

  /** The tag an image index carries when it refers to the image with this
      digest: the first `sha256:` turned into `sha256-`. */
  function LinkTag(digest: string): string
  {
    ReplaceFirst(digest, "sha256:", "sha256-")
  }

  /** For a well-formed digest the link tag is `sha256-<hex>`. */
  lemma LinkTagOfSha256(hex: string)
    ensures LinkTag("sha256:" + hex) == "sha256-" + hex
  {
    ReplaceFirstAt("sha256:" + hex, "sha256:", "sha256-", 0);
  }
}
