/** `DeleteImages`: deletes one repository's expired images in batches of at
    most `BatchDeleteImageIdsLimit` identifiers, stopping at the first batch
    that fails and counting what the batches report as deleted. */
module Deletion {
  import opened Wrappers
  import opened Seqs

  const BatchDeleteImageIdsLimit: nat := 100

  /** What one `BatchDeleteImage` call reports: the identifiers it deleted,
      or the error it returned. */
  datatype DeleteResponse = Deleted(ids: seq<string>) | Failed(error: string)

  /** The number of identifiers reported deleted by the batches `calls`. */
  function DeletedSum(calls: seq<seq<string>>, batchDelete: seq<string> -> DeleteResponse): nat
  {
    if |calls| == 0 then 0
    else
      DeletedSum(calls[..|calls| - 1], batchDelete)
      + (match batchDelete(calls[|calls| - 1])
         case Deleted(done) => |done|
         case Failed(_) => 0)
  }

  /** The batch loop runs: there is something to delete, the command is in
      delete mode, and either `--force` was given or the prompt was
      answered yes. */
  predicate Proceeds(ids: seq<string>, delete: bool, force: bool, confirmed: bool)
  {
    |ids| > 0 && delete && (force || confirmed)
  }

  /** `DeleteImages`. `confirmed` is the answer the prompt would get (it is
      only consulted without `--force`); `batchDelete` stands for
      `BatchDeleteImage`. `calls` are the batches sent, in order, and
      `deletedCount` is the count logged when the method returns. */
  method DeleteImages(ids: seq<string>, delete: bool, force: bool, confirmed: bool,
                      batchDelete: seq<string> -> DeleteResponse)
    returns (err: Option<string>, calls: seq<seq<string>>, deletedCount: nat)
    ensures |ids| == 0 || !delete ==> err == None && calls == [] && deletedCount == 0
    ensures |ids| > 0 && delete && !force && !confirmed ==> err == Some("aborted") && calls == [] && deletedCount == 0
    ensures Proceeds(ids, delete, force, confirmed) ==> |calls| > 0 && calls <= Chunk(ids, BatchDeleteImageIdsLimit)
    ensures forall k :: 0 <= k < |calls| - 1 ==> batchDelete(calls[k]).Deleted?
    ensures Proceeds(ids, delete, force, confirmed) ==>
              (err.None? <==> forall c :: c in Chunk(ids, BatchDeleteImageIdsLimit) ==> batchDelete(c).Deleted?)
    ensures Proceeds(ids, delete, force, confirmed) && err.None? ==> calls == Chunk(ids, BatchDeleteImageIdsLimit)
    ensures Proceeds(ids, delete, force, confirmed) && err.Some? ==> batchDelete(calls[|calls| - 1]) == Failed(err.value)
    ensures deletedCount == DeletedSum(calls, batchDelete)
  {
    if |ids| == 0 || !delete {
      return None, [], 0;
    }
    if !force && !confirmed {
      return Some("aborted"), [], 0;
    }
    err, calls, deletedCount := SendBatches(Chunk(ids, BatchDeleteImageIdsLimit), batchDelete);
  }

  /** The batch loop: sends `chunks` in order until one fails. */
  method SendBatches(chunks: seq<seq<string>>, batchDelete: seq<string> -> DeleteResponse)
    returns (err: Option<string>, calls: seq<seq<string>>, deletedCount: nat)
    ensures calls <= chunks
    ensures |chunks| > 0 ==> |calls| > 0
    ensures forall k :: 0 <= k < |calls| - 1 ==> batchDelete(calls[k]).Deleted?
    ensures err.None? <==> forall c :: c in chunks ==> batchDelete(c).Deleted?
    ensures err.None? ==> calls == chunks
    ensures err.Some? ==> |calls| > 0 && batchDelete(calls[|calls| - 1]) == Failed(err.value)
    ensures deletedCount == DeletedSum(calls, batchDelete)
  {
    calls, deletedCount := [], 0;
    var i := 0;
    while i < |chunks|
      invariant 0 <= i <= |chunks|
      invariant calls == chunks[..i]
      invariant forall k :: 0 <= k < i ==> batchDelete(chunks[k]).Deleted?
      invariant deletedCount == DeletedSum(calls, batchDelete)
    {
      var c := chunks[i];
      calls := calls + [c];
      assert calls[..|calls| - 1] == chunks[..i];
      match batchDelete(c)
      case Failed(e) =>
        assert c in chunks;
        return Some(e), calls, deletedCount;
      case Deleted(done) =>
        deletedCount := deletedCount + |done|;
      i := i + 1;
    }
    assert calls == chunks;
    forall c | c in chunks ensures batchDelete(c).Deleted? {
      var k :| 0 <= k < |chunks| && chunks[k] == c;
    }
    err := None;
  }

  /** When every batch deletes exactly what it was sent, the count logged is
      the number of identifiers sent. */
  lemma {:induction false} DeletedSumAllDeleted(calls: seq<seq<string>>, batchDelete: seq<string> -> DeleteResponse)
    requires forall k :: 0 <= k < |calls| ==> batchDelete(calls[k]) == Deleted(calls[k])
    ensures DeletedSum(calls, batchDelete) == |Flatten(calls)|
  {
    if |calls| > 0 {
      var k := |calls| - 1;
      DeletedSumAllDeleted(calls[..k], batchDelete);
      FlattenSnoc(calls, k);
      assert calls[..k + 1] == calls;
    }
  }

  /** With every batch deleting what it was sent, a confirmed deletion
      issues `Chunk(ids, 100)` and deletes every identifier. */
  lemma DeleteEverything(ids: seq<string>, batchDelete: seq<string> -> DeleteResponse)
    requires forall c :: batchDelete(c) == Deleted(c)
    ensures DeletedSum(Chunk(ids, BatchDeleteImageIdsLimit), batchDelete) == |ids|
  {
    DeletedSumAllDeleted(Chunk(ids, BatchDeleteImageIdsLimit), batchDelete);
  }

  /** 250 identifiers go out as three batches of 100, 100 and 50. */
  lemma TwoHundredFiftyIds(ids: seq<string>)
    requires |ids| == 250
    ensures var chunks := Chunk(ids, BatchDeleteImageIdsLimit);
            |chunks| == 3 && |chunks[0]| == 100 && |chunks[1]| == 100 && |chunks[2]| == 50
  {
    var rest := ids[100..];
    assert Chunk(ids, 100) == [ids[..100]] + Chunk(rest, 100);
    assert Chunk(rest, 100) == [rest[..100]] + Chunk(rest[100..], 100);
    assert Chunk(rest[100..], 100) == [rest[100..]];
  }
}
