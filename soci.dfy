/** `findSociIndex`: the digests of the SOCI indexes that the image indexes
    with the given link tags point to. `BatchGetImage` is replaced by the
    manifests it would return per tag and by the error, if any, that each
    batch call returns; decoding the manifest JSON is replaced by its outcome. */
module Soci {
  import opened Wrappers
  import opened Image
  import opened Seqs

  /** `batchGetImageLimit`: tags per `BatchGetImage` call. */
  const BatchGetImageLimit: nat := 100

  /** What the registry holds for a tag: no entry when it returns no image
      for it, `None` when the manifest is nil or does not parse as an image
      index, otherwise the index's `manifests` descriptors. */
  type Manifests = map<string, Option<seq<Descriptor>>>

  /** The digests of the SOCI descriptors of one index, in order. */
  function SociDescriptors(ds: seq<Descriptor>): seq<string>
  {
    if |ds| == 0 then []
    else SociDescriptors(ds[..|ds| - 1])
         + (if ds[|ds| - 1].artifactType == MediaTypeSociIndex then [ds[|ds| - 1].digest] else [])
  }

  /** The SOCI digests found through one tag; nothing for a missing, nil or
      unparseable manifest. */
  function SociOfTag(m: Manifests, tag: string): seq<string>
  {
    if tag in m && m[tag].Some? then SociDescriptors(m[tag].value) else []
  }

  /** The SOCI digests found through the tags, tag by tag. */
  function SociIds(tags: seq<string>, m: Manifests): seq<string>
  {
    if |tags| == 0 then []
    else SociIds(tags[..|tags| - 1], m) + SociOfTag(m, tags[|tags| - 1])
  }

  /** `x` is the digest of a SOCI descriptor in the parsed manifest of one
      of the tags. */
  ghost predicate IsSociOf(tags: seq<string>, m: Manifests, x: string)
  {
    exists t, d :: t in tags && t in m && m[t].Some? && d in m[t].value
                   && d.artifactType == MediaTypeSociIndex && d.digest == x
  }

  method FindSociIndex(imageTags: seq<string>, manifests: Manifests, batchGetError: seq<string> -> Option<string>)
    returns (r: Result<seq<string>>, requests: seq<seq<string>>)
    ensures requests <= Chunk(imageTags, BatchGetImageLimit)
    ensures forall k :: 0 <= k < |requests| - 1 ==> batchGetError(requests[k]).None?
    ensures r.Ok? <==> forall c :: c in Chunk(imageTags, BatchGetImageLimit) ==> batchGetError(c).None?
    ensures r.Ok? ==> requests == Chunk(imageTags, BatchGetImageLimit) && r.value == SociIds(imageTags, manifests)
    ensures r.Err? ==> |requests| > 0 && batchGetError(requests[|requests| - 1]) == Some(r.error)
  {
    r, requests := LookupBatches(Chunk(imageTags, BatchGetImageLimit), manifests, batchGetError);
  }

  /** The loop over the chunks: one `BatchGetImage` request per chunk, in
      order, until one fails. */
  method LookupBatches(chunks: seq<seq<string>>, manifests: Manifests, batchGetError: seq<string> -> Option<string>)
    returns (r: Result<seq<string>>, requests: seq<seq<string>>)
    ensures requests <= chunks
    ensures forall k :: 0 <= k < |requests| - 1 ==> batchGetError(requests[k]).None?
    ensures r.Ok? <==> forall c :: c in chunks ==> batchGetError(c).None?
    ensures r.Ok? ==> requests == chunks && r.value == SociIds(Flatten(chunks), manifests)
    ensures r.Err? ==> |requests| > 0 && batchGetError(requests[|requests| - 1]) == Some(r.error)
  {
    var ids: seq<string> := [];
    requests := [];
    for k := 0 to |chunks|
      invariant requests == chunks[..k]
      invariant forall j :: 0 <= j < k ==> batchGetError(chunks[j]).None?
      invariant ids == SociIds(Flatten(chunks[..k]), manifests)
    {
      var c := chunks[k];
      requests := requests + [c];
      if batchGetError(c).Some? {
        assert c in chunks;
        assert requests == chunks[..k + 1];
        return Err(batchGetError(c).value), requests;
      }
      ids := CollectBatch(ids, c, manifests);
      FlattenSnoc(chunks, k);
      SociIdsAppend(Flatten(chunks[..k]), c, manifests);
    }
    assert chunks[..|chunks|] == chunks;
    assert forall c :: c in chunks ==> batchGetError(c).None? by {
      forall c | c in chunks ensures batchGetError(c).None? {
        var k :| 0 <= k < |chunks| && chunks[k] == c;
      }
    }
    r := Ok(ids);
  }

  /** The loop over one batch's returned images: appends the SOCI digests
      found through each tag of the batch. */
  method CollectBatch(ids0: seq<string>, batch: seq<string>, manifests: Manifests)
    returns (ids: seq<string>)
    ensures ids == ids0 + SociIds(batch, manifests)
  {
    ids := ids0;
    for j := 0 to |batch|
      invariant ids == ids0 + SociIds(batch[..j], manifests)
    {
      assert batch[..j + 1][..j] == batch[..j];
      var tag := batch[j];
      if tag in manifests && manifests[tag].Some? {
        ids := CollectDescriptors(ids, manifests[tag].value);
      }
    }
    assert batch[..|batch|] == batch;
  }

  /** The loop over one index's descriptors: appends those of the SOCI
      artifact type. */
  method CollectDescriptors(ids0: seq<string>, ds: seq<Descriptor>) returns (ids: seq<string>)
    ensures ids == ids0 + SociDescriptors(ds)
  {
    ids := ids0;
    for n := 0 to |ds|
      invariant ids == ids0 + SociDescriptors(ds[..n])
    {
      assert ds[..n + 1][..n] == ds[..n];
      if ds[n].artifactType == MediaTypeSociIndex {
        ids := ids + [ds[n].digest];
      }
    }
    assert ds[..|ds|] == ds;
  }

  lemma {:induction false} SociIdsAppend(a: seq<string>, b: seq<string>, m: Manifests)
    ensures SociIds(a + b, m) == SociIds(a, m) + SociIds(b, m)
  {
    if |b| == 0 {
      assert a + b == a;
    } else {
      var init := b[..|b| - 1];
      SociIdsAppend(a, init, m);
      AppendInit(a, b);
      calc {
        SociIds(a + b, m);
        SociIds(a + init, m) + SociOfTag(m, b[|b| - 1]);
        SociIds(a, m) + SociIds(init, m) + SociOfTag(m, b[|b| - 1]);
        SociIds(a, m) + (SociIds(init, m) + SociOfTag(m, b[|b| - 1]));
        SociIds(a, m) + SociIds(b, m);
      }
    }
  }

  lemma {:induction false} SociDescriptorsMembers(ds: seq<Descriptor>, x: string)
    ensures x in SociDescriptors(ds)
        <==> exists d :: d in ds && d.artifactType == MediaTypeSociIndex && d.digest == x
  {
    if |ds| > 0 {
      var init := ds[..|ds| - 1];
      SociDescriptorsMembers(init, x);
      assert ds == init + [ds[|ds| - 1]];
    }
  }

  /** A digest is collected exactly when it is the digest of a SOCI
      descriptor in the parsed manifest of one of the tags; nil and
      unparseable manifests contribute nothing. */
  lemma {:induction false} SociIdsMembers(tags: seq<string>, m: Manifests, x: string)
    ensures x in SociIds(tags, m) <==> IsSociOf(tags, m, x)
  {
    if |tags| > 0 {
      var init, last := tags[..|tags| - 1], tags[|tags| - 1];
      SociIdsMembers(init, m, x);
      assert tags == init + [last];
      if last in m && m[last].Some? {
        SociDescriptorsMembers(m[last].value, x);
      }
      if IsSociOf(tags, m, x) {
        var t, d :| t in tags && t in m && m[t].Some? && d in m[t].value
                    && d.artifactType == MediaTypeSociIndex && d.digest == x;
        if t != last {
          assert t in init;
        }
      }
    }
  }
}
