/** What keeps images alive: the images of the task definitions in use
    (`collectImages`) and the images of the containers running in a cluster
    (`availableResourcesInCluster`). Image references are strings; the
    ECR-reference tests and `Base` are the abstract `UriOps`. */
module Usage {
  import opened Wrappers
  import opened Seqs
  import opened Image

  /** `extractECRImages` after `DescribeTaskDefinition`: the container images
      of a task definition that are ECR images, in order. */
  method ExtractEcrImages(containerImages: seq<string>, uri: UriOps) returns (images: seq<string>)
    ensures images == Filter(containerImages, uri.isEcrImage)
  {
    images := [];
    for i := 0 to |containerImages|
      invariant images == Filter(containerImages[..i], uri.isEcrImage)
    {
      assert containerImages[..i + 1][..i] == containerImages[..i];
      if uri.isEcrImage(containerImages[i]) {
        images := images + [containerImages[i]];
      }
    }
    assert containerImages[..|containerImages|] == containerImages;
  }

  /** The ECR images of the task definitions `tds`, each described with
      `describe` (which yields the container images of a task definition,
      or an error). */
  function TaskdefImages(tds: seq<string>, describe: string -> Result<seq<string>>, uri: UriOps): set<string>
  {
    if |tds| == 0 then {}
    else
      var td := tds[|tds| - 1];
      TaskdefImages(tds[..|tds| - 1], describe, uri)
      + (if describe(td).Ok? then set u | u in Filter(describe(td).value, uri.isEcrImage) else {})
  }

  /** An image is in use exactly when it is an ECR image of one of the task
      definitions that could be described. */
  lemma {:induction false} TaskdefImagesMembers(tds: seq<string>, describe: string -> Result<seq<string>>,
                                                uri: UriOps, u: string)
    ensures u in TaskdefImages(tds, describe, uri)
        <==> exists td :: td in tds && describe(td).Ok? && u in describe(td).value && uri.isEcrImage(u)
  {
    if |tds| > 0 {
      var init, td := tds[..|tds| - 1], tds[|tds| - 1];
      assert tds == init + [td];
      TaskdefImagesMembers(init, describe, uri, u);
      if describe(td).Ok? {
        FilterMembers(describe(td).value, uri.isEcrImage, u);
      }
    }
  }

  /** Describing each distinct task definition once loses no image. */
  lemma DedupKeepsImages(tds: seq<string>, describe: string -> Result<seq<string>>, uri: UriOps)
    ensures TaskdefImages(Dedup(tds), describe, uri) == TaskdefImages(tds, describe, uri)
  {
    forall u ensures u in TaskdefImages(Dedup(tds), describe, uri) <==> u in TaskdefImages(tds, describe, uri) {
      TaskdefImagesMembers(Dedup(tds), describe, uri, u);
      TaskdefImagesMembers(tds, describe, uri, u);
    }
  }

  lemma {:induction false} DedupPrefix<T(!new)>(s: seq<T>, i: nat, j: nat)
    requires i <= j <= |s|
    ensures Dedup(s[..i]) <= Dedup(s[..j])
  {
    if i < j {
      DedupPrefix(s, i, j - 1);
      assert s[..j][..j - 1] == s[..j - 1];
    }
  }

  /** `collectImages`. `taskdefs` are the task definitions in use, as
      strings; `describe` stands for `DescribeTaskDefinition`. `described`
      lists the task definitions described, in order. Each distinct task
      definition is described once, and the first failure ends the scan. */
  method CollectImages(taskdefs: seq<string>, describe: string -> Result<seq<string>>, uri: UriOps)
    returns (r: Result<set<string>>, described: seq<string>)
    ensures described <= Dedup(taskdefs)
    ensures forall k :: 0 <= k < |described| - 1 ==> describe(described[k]).Ok?
    ensures r.Ok? <==> forall td :: td in taskdefs ==> describe(td).Ok?
    ensures r.Ok? ==> described == Dedup(taskdefs) && r.value == TaskdefImages(taskdefs, describe, uri)
    ensures r.Err? ==> |described| > 0 && describe(described[|described| - 1]) == Err(r.error)
  {
    var images: set<string> := {};
    var dup: set<string> := {};
    described := [];
    for i := 0 to |taskdefs|
      invariant forall x :: x in dup <==> x in taskdefs[..i]
      invariant described == Dedup(taskdefs[..i])
      invariant forall k :: 0 <= k < |described| ==> describe(described[k]).Ok?
      invariant images == TaskdefImages(described, describe, uri)
    {
      var td := taskdefs[i];
      SeenStep(taskdefs, i, dup, described);
      if td in dup {
        continue;
      }
      dup := dup + {td};
      TaskdefImagesSnoc(described, td, describe, uri);
      described := described + [td];
      var failed;
      images, failed := DescribeOne(images, td, describe, uri);
      if failed.Some? {
        DedupPrefix(taskdefs, i + 1, |taskdefs|);
        assert taskdefs[..|taskdefs|] == taskdefs;
        assert td in taskdefs;
        return Err(failed.value), described;
      }
    }
    assert taskdefs[..|taskdefs|] == taskdefs;
    DedupKeepsImages(taskdefs, describe, uri);
    DescribedCoversAll(taskdefs, described, describe);
    r := Ok(images);
  }

  /** One `DescribeTaskDefinition` call: the images of `td` are added, or
      the call's error is returned. */
  method DescribeOne(images: set<string>, td: string, describe: string -> Result<seq<string>>, uri: UriOps)
    returns (images': set<string>, failed: Option<string>)
    ensures failed.Some? <==> describe(td).Err?
    ensures failed.Some? ==> describe(td) == Err(failed.value)
    ensures failed.None? ==> images' == images + set u | u in Filter(describe(td).value, uri.isEcrImage)
  {
    match describe(td)
    case Err(e) =>
      return images, Some(e);
    case Ok(containerImages) =>
      var ids := ExtractEcrImages(containerImages, uri);
      return images + (set u | u in ids), None;
  }

  /** The "seen" set and the described list after visiting `tds[i]`. */
  lemma SeenStep(tds: seq<string>, i: nat, dup: set<string>, described: seq<string>)
    requires i < |tds|
    requires forall x :: x in dup <==> x in tds[..i]
    requires described == Dedup(tds[..i])
    ensures tds[i] in dup ==> described == Dedup(tds[..i + 1])
    ensures tds[i] !in dup ==> described + [tds[i]] == Dedup(tds[..i + 1])
    ensures forall x :: x in dup + {tds[i]} <==> x in tds[..i + 1]
  {
    assert tds[..i + 1] == tds[..i] + [tds[i]];
  }

  lemma TaskdefImagesSnoc(tds: seq<string>, td: string, describe: string -> Result<seq<string>>, uri: UriOps)
    ensures TaskdefImages(tds + [td], describe, uri)
         == TaskdefImages(tds, describe, uri)
            + (if describe(td).Ok? then set u | u in Filter(describe(td).value, uri.isEcrImage) else {})
  {
    assert (tds + [td])[..|tds|] == tds;
  }

  lemma DescribedCoversAll(tds: seq<string>, described: seq<string>, describe: string -> Result<seq<string>>)
    requires described == Dedup(tds)
    requires forall k :: 0 <= k < |described| ==> describe(described[k]).Ok?
    ensures forall td :: td in tds ==> describe(td).Ok?
  {
    forall td | td in tds ensures describe(td).Ok? {
      var k :| 0 <= k < |described| && described[k] == td;
    }
  }

  /** A running container: its image reference and the digest it runs. */
  datatype Container = Container(image: string, imageDigest: string)

  /** A running task: its task definition ARN and its containers. */
  datatype Task = Task(taskDefinitionArn: string, containers: seq<Container>)

  /** The images the containers `cs` hold: ECR images only; a digest
      reference as it is, a tag reference resolved to
      `Base() + "@" + digest`. */
  function ContainerImages(cs: seq<Container>, uri: UriOps): set<string>
  {
    if |cs| == 0 then {}
    else
      var c := cs[|cs| - 1];
      ContainerImages(cs[..|cs| - 1], uri)
      + (if !uri.isEcrImage(c.image) then {}
         else if uri.isDigestUri(c.image) then {c.image}
         else {uri.base(c.image) + "@" + c.imageDigest})
  }

  function TaskImages(tasks: seq<Task>, uri: UriOps): set<string>
  {
    if |tasks| == 0 then {}
    else TaskImages(tasks[..|tasks| - 1], uri) + ContainerImages(tasks[|tasks| - 1].containers, uri)
  }

  /** How a container holds an image. */
  predicate Holds(c: Container, uri: UriOps, u: string)
  {
    uri.isEcrImage(c.image)
    && (if uri.isDigestUri(c.image) then u == c.image else u == uri.base(c.image) + "@" + c.imageDigest)
  }

  lemma {:induction false} ContainerImagesMembers(cs: seq<Container>, uri: UriOps, u: string)
    ensures u in ContainerImages(cs, uri) <==> exists c :: c in cs && Holds(c, uri, u)
  {
    if |cs| > 0 {
      var c := cs[|cs| - 1];
      assert cs == cs[..|cs| - 1] + [c];
      ContainerImagesMembers(cs[..|cs| - 1], uri, u);
      assert u in ContainerImages(cs, uri) <==> u in ContainerImages(cs[..|cs| - 1], uri) || Holds(c, uri, u);
    }
  }

  /** An image is held by a cluster exactly when a container of one of its
      running tasks holds it: non-ECR images never, digest references
      unchanged, tag references by the digest actually running. */
  lemma {:induction false} TaskImagesMembers(tasks: seq<Task>, uri: UriOps, u: string)
    ensures u in TaskImages(tasks, uri) <==> exists t, c :: t in tasks && c in t.containers && Holds(c, uri, u)
  {
    if |tasks| > 0 {
      var init, t := tasks[..|tasks| - 1], tasks[|tasks| - 1];
      assert tasks == init + [t];
      TaskImagesMembers(init, uri, u);
      ContainerImagesMembers(t.containers, uri, u);
    }
  }

  /** The container loop for one task. */
  method AddContainerImages(images0: set<string>, cs: seq<Container>, uri: UriOps) returns (images: set<string>)
    ensures images == images0 + ContainerImages(cs, uri)
  {
    images := images0;
    for i := 0 to |cs|
      invariant images == images0 + ContainerImages(cs[..i], uri)
    {
      assert cs[..i + 1][..i] == cs[..i];
      var c := cs[i];
      if !uri.isEcrImage(c.image) {
        continue;
      }
      if uri.isDigestUri(c.image) {
        images := images + {c.image};
      } else {
        var base := uri.base(c.image);
        images := images + {base + "@" + c.imageDigest};
      }
    }
    assert cs[..|cs|] == cs;
  }

  /** `availableResourcesInCluster`, given the cluster's running tasks and
      the task definitions of its services' deployments: the task
      definitions in use and the images held. */
  method ClusterResources(tasks: seq<Task>, deployments: seq<string>, uri: UriOps)
    returns (tdArns: set<string>, images: set<string>)
    ensures forall a :: a in tdArns <==> (exists t :: t in tasks && t.taskDefinitionArn == a) || a in deployments
    ensures images == TaskImages(tasks, uri)
  {
    tdArns, images := {}, {};
    for i := 0 to |tasks|
      invariant forall a :: a in tdArns <==> exists t :: t in tasks[..i] && t.taskDefinitionArn == a
      invariant images == TaskImages(tasks[..i], uri)
    {
      assert tasks[..i + 1][..i] == tasks[..i];
      assert tasks[..i + 1] == tasks[..i] + [tasks[i]];
      tdArns := tdArns + {tasks[i].taskDefinitionArn};
      images := AddContainerImages(images, tasks[i].containers, uri);
    }
    assert tasks[..|tasks|] == tasks;
    ghost var fromTasks := tdArns;
    for i := 0 to |deployments|
      invariant tdArns == fromTasks + set a | a in deployments[..i]
    {
      assert deployments[..i + 1] == deployments[..i] + [deployments[i]];
      tdArns := tdArns + {deployments[i]};
    }
    assert deployments[..|deployments|] == deployments;
  }
}
