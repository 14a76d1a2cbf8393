/** The loop of `download_and_process_images`: every selected sample is tried
    once, at its raw position i; a failure saves nothing and the loop goes on;
    a success is cropped and saved under the partition of position i, with the
    name built from i. */
module Driver {
  import opened Crop
  import opened Split
  import opened FileNames

  datatype Option<T> = None | Some(value: T)

  /** What decoding the response body yields. */
  datatype Payload = Undecodable | Picture(width: nat, height: nat)

  /** Everything the outside world decides about one sample: whether the
      request raised (no 'URL' key, timeout, connection error), else the HTTP
      status, what the body decodes to, and whether writing the file succeeds. */
  datatype Candidate =
    | RequestFailed
    | Fetched(status: int, payload: Payload, saveSucceeds: bool)

  /** One saved image: its raw position, the partition directory it went to,
      its file name and the box it was cropped with. */
  datatype Saved = Saved(index: nat, partition: Partition, fileName: string, box: Box)

  /** A sample ends up saved exactly when the request returned, with status
      200, a decodable body, and the save did not raise. */
  predicate Succeeds(cand: Candidate)
  {
    && cand.Fetched?
    && cand.status == 200
    && cand.payload.Picture?
    && cand.saveSucceeds
  }

  /** One pass of the loop body for the sample at position i. */
  function Attempt(i: nat, cand: Candidate, c: Counts): (r: Option<Saved>)
    ensures r.Some? <==> Succeeds(cand)
    ensures r.Some? ==> r.value.index == i && r.value.partition == PartitionOf(i, c)
  {
    match cand
    case RequestFailed => None
    case Fetched(status, payload, saveSucceeds) =>
      if status != 200 then None
      else match payload
        case Undecodable => None
        case Picture(width, height) =>
          if saveSucceeds
          then Some(Saved(i, PartitionOf(i, c), FileName(i), CropBox(width, height)))
          else None
  }

  /** The records one pass appends: none or one. */
  function Emitted(i: nat, cand: Candidate, c: Counts): (e: seq<Saved>)
    ensures |e| == if Succeeds(cand) then 1 else 0
    ensures e != [] ==> e[0] == Attempt(i, cand, c).value
  {
    match Attempt(i, cand, c)
    case None => []
    case Some(r) => [r]
  }

  /** The records saved by a run over the selected samples, in saving order. */
  function Process(cands: seq<Candidate>, c: Counts): seq<Saved>
  {
    if cands == [] then []
    else Process(cands[..|cands| - 1], c) + Emitted(|cands| - 1, cands[|cands| - 1], c)
  }

  /** Unfolding Process one step, stated on an explicit prefix. */
  lemma ProcessSnoc(cands: seq<Candidate>, k: nat, c: Counts)
    requires k < |cands|
    ensures Process(cands[..k + 1], c) == Process(cands[..k], c) + Emitted(k, cands[k], c)
  {
    assert cands[..k + 1][..k] == cands[..k];
  }

  /** Every saved record belongs to a successful sample and is what that
      sample's own attempt produces: it depends on its position and on that
      sample alone, never on how earlier samples fared. */
  lemma {:induction false} ProcessSound(cands: seq<Candidate>, c: Counts)
    ensures forall k :: 0 <= k < |Process(cands, c)| ==>
              && Process(cands, c)[k].index < |cands|
              && Attempt(Process(cands, c)[k].index, cands[Process(cands, c)[k].index], c)
                 == Some(Process(cands, c)[k])
  {
    if cands != [] {
      var n := |cands| - 1;
      ProcessSound(cands[..n], c);
      assert cands[..n + 1] == cands;
      ProcessSnoc(cands, n, c);
    }
  }

  /** Records are saved in increasing order of position, so no position is saved twice. */
  lemma {:induction false} ProcessOrdered(cands: seq<Candidate>, c: Counts)
    ensures forall k1, k2 :: 0 <= k1 < k2 < |Process(cands, c)| ==>
              Process(cands, c)[k1].index < Process(cands, c)[k2].index
  {
    if cands != [] {
      var n := |cands| - 1;
      ProcessOrdered(cands[..n], c);
      ProcessSound(cands[..n], c);
    }
  }

  /** Every successful sample is saved. */
  lemma {:induction false} ProcessComplete(cands: seq<Candidate>, c: Counts, i: nat)
    requires i < |cands| && Succeeds(cands[i])
    ensures Attempt(i, cands[i], c).value in Process(cands, c)
  {
    var n := |cands| - 1;
    if i < n {
      ProcessComplete(cands[..n], c, i);
    }
  }

  /** Whether every sample succeeds. */
  predicate AllSucceed(cands: seq<Candidate>)
  {
    forall i :: 0 <= i < |cands| ==> Succeeds(cands[i])
  }

  /** The last sample extends AllSucceed of the prefix by its own outcome. */
  lemma AllSucceedSnoc(cands: seq<Candidate>)
    requires cands != []
    ensures AllSucceed(cands)
            <==> AllSucceed(cands[..|cands| - 1]) && Succeeds(cands[|cands| - 1])
  {
    var n := |cands| - 1;
    if AllSucceed(cands[..n]) && Succeeds(cands[n]) {
      forall i | 0 <= i < |cands|
        ensures Succeeds(cands[i])
      {
        if i < n {
          assert cands[..n][i] == cands[i];
        }
      }
    }
  }

  /** A run saves at most one file per sample, and as many as there are
      samples exactly when every sample succeeds. */
  lemma {:induction false} ProcessLength(cands: seq<Candidate>, c: Counts)
    ensures |Process(cands, c)| <= |cands|
    ensures |Process(cands, c)| == |cands| <==> AllSucceed(cands)
  {
    if cands != [] {
      var n := |cands| - 1;
      var prefix := cands[..n];
      ProcessLength(prefix, c);
      assert cands[..n + 1] == cands;
      ProcessSnoc(cands, n, c);
      AllSucceedSnoc(cands);
      assert |Process(cands, c)| == |Process(prefix, c)| + |Emitted(n, cands[n], c)|;
    }
  }

  /** No two saved records share a file name: no save overwrites another. */
  lemma DistinctFileNames(cands: seq<Candidate>, c: Counts)
    ensures forall k1, k2 :: 0 <= k1 < k2 < |Process(cands, c)| ==>
              Process(cands, c)[k1].fileName != Process(cands, c)[k2].fileName
  {
    var saved := Process(cands, c);
    ProcessSound(cands, c);
    ProcessOrdered(cands, c);
    forall k1, k2 | 0 <= k1 < k2 < |saved|
      ensures saved[k1].fileName != saved[k2].fileName
    {
      if saved[k1].fileName == saved[k2].fileName {
        assert saved[k1].fileName == FileName(saved[k1].index);
        assert saved[k2].fileName == FileName(saved[k2].index);
        FileNameInjective(saved[k1].index, saved[k2].index);
      }
    }
  }

  /** The records whose position is not j, in order. */
  function Without(saved: seq<Saved>, j: nat): seq<Saved>
  {
    if saved == [] then []
    else Without(saved[..|saved| - 1], j)
         + (if saved[|saved| - 1].index == j then [] else [saved[|saved| - 1]])
  }

  lemma WithoutSnoc(saved: seq<Saved>, extra: seq<Saved>, j: nat)
    requires |extra| <= 1
    ensures Without(saved + extra, j)
            == Without(saved, j) + (if extra == [] || extra[0].index == j then [] else extra)
  {
    if extra != [] {
      assert (saved + extra)[..|saved|] == saved;
    } else {
      assert saved + extra == saved;
    }
  }

  /** Removing a position no record has changes nothing. */
  lemma {:induction false} WithoutAbsent(saved: seq<Saved>, j: nat)
    requires forall k :: 0 <= k < |saved| ==> saved[k].index != j
    ensures Without(saved, j) == saved
  {
    if saved != [] {
      WithoutAbsent(saved[..|saved| - 1], j);
    }
  }

  /** A sample that fails removes its own record and nothing else: every
      other sample keeps its partition and its file name. This is where
      assignment by raw position differs from filling partitions by success
      count, under which a failure would move every later sample along. */
  lemma {:induction false} FailureRemovesOnlyItsOwnRecord(cands: seq<Candidate>, c: Counts, j: nat)
    requires j < |cands|
    ensures Process(cands[j := RequestFailed], c) == Without(Process(cands, c), j)
  {
    var n := |cands| - 1;
    var failed := cands[j := RequestFailed];
    assert cands[..n + 1] == cands;
    assert failed[..n + 1] == failed;
    ProcessSnoc(cands, n, c);
    ProcessSnoc(failed, n, c);
    WithoutSnoc(Process(cands[..n], c), Emitted(n, cands[n], c), j);
    if j == n {
      assert failed[..n] == cands[..n];
      ProcessSound(cands[..n], c);
      WithoutAbsent(Process(cands[..n], c), j);
    } else {
      assert failed[..n] == cands[..n][j := RequestFailed];
      FailureRemovesOnlyItsOwnRecord(cands[..n], c, j);
    }
  }

  /** Number of records saved under partition p. */
  function CountIn(saved: seq<Saved>, p: Partition): nat
  {
    if saved == [] then 0
    else CountIn(saved[..|saved| - 1], p) + (if saved[|saved| - 1].partition == p then 1 else 0)
  }

  lemma CountInSnoc(saved: seq<Saved>, extra: seq<Saved>, p: Partition)
    requires |extra| <= 1
    ensures CountIn(saved + extra, p)
            == CountIn(saved, p) + (if extra != [] && extra[0].partition == p then 1 else 0)
  {
    if extra != [] {
      assert (saved + extra)[..|saved|] == saved;
    } else {
      assert saved + extra == saved;
    }
  }

  /** Whether every sample at a position of partition p succeeded, checked
      sample by sample as the loop meets them. */
  predicate PartitionIntact(cands: seq<Candidate>, c: Counts, p: Partition)
  {
    cands == []
    || (&& PartitionIntact(cands[..|cands| - 1], c, p)
        && (PartitionOf(|cands| - 1, c) == p ==> Succeeds(cands[|cands| - 1])))
  }

  /** PartitionIntact says that no sample at a position of p failed. */
  lemma {:induction false} PartitionIntactAll(cands: seq<Candidate>, c: Counts, p: Partition)
    ensures PartitionIntact(cands, c, p)
            <==> forall i :: 0 <= i < |cands| && PartitionOf(i, c) == p ==> Succeeds(cands[i])
  {
    if cands != [] {
      var n := |cands| - 1;
      PartitionIntactAll(cands[..n], c, p);
      if PartitionIntact(cands, c, p) {
        forall i | 0 <= i < |cands| && PartitionOf(i, c) == p
          ensures Succeeds(cands[i])
        {
          if i < n {
            assert cands[..n][i] == cands[i];
          }
        }
      } else if !PartitionIntact(cands[..n], c, p) {
        var i :| 0 <= i < n && PartitionOf(i, c) == p && !Succeeds(cands[..n][i]);
        assert cands[..n][i] == cands[i];
      }
    }
  }

  /** The last sample adds one file to its partition exactly when it succeeds. */
  lemma CountInProcessSnoc(cands: seq<Candidate>, c: Counts, p: Partition)
    requires cands != []
    ensures var n := |cands| - 1;
            CountIn(Process(cands, c), p)
            == CountIn(Process(cands[..n], c), p)
               + (if PartitionOf(n, c) == p && Succeeds(cands[n]) then 1 else 0)
  {
    var n := |cands| - 1;
    assert cands[..n + 1] == cands;
    ProcessSnoc(cands, n, c);
    CountInSnoc(Process(cands[..n], c), Emitted(n, cands[n], c), p);
  }

  /** A partition receives at most as many files as it has positions, and
      exactly that many only when every sample at one of its positions
      succeeds: a failure leaves its partition one file short. */
  lemma {:induction false} PartitionFill(cands: seq<Candidate>, c: Counts, p: Partition)
    ensures CountIn(Process(cands, c), p) <= Occurrences(Assignment(|cands|, c), p)
    ensures CountIn(Process(cands, c), p) == Occurrences(Assignment(|cands|, c), p)
            <==> PartitionIntact(cands, c, p)
  {
    if cands != [] {
      var n := |cands| - 1;
      PartitionFill(cands[..n], c, p);
      CountInProcessSnoc(cands, c, p);
      AssignmentStep(n + 1, c, p);
    }
  }

  /** Every record is counted under exactly one partition. */
  lemma {:induction false} CountInTotal(saved: seq<Saved>)
    ensures CountIn(saved, Train) + CountIn(saved, Test) + CountIn(saved, Validation) == |saved|
  {
    if saved != [] {
      CountInTotal(saved[..|saved| - 1]);
    }
  }

  /** With the split computed from the number of selected samples, no
      partition receives more files than its count, and a partition reaches
      its count exactly when none of its samples failed. */
  lemma PartitionsWithinCounts(cands: seq<Candidate>, trainPercent: nat, testPercent: nat)
    requires trainPercent + testPercent <= 100
    ensures var c := SplitCounts(|cands|, trainPercent, testPercent);
            var saved := Process(cands, c);
            && CountIn(saved, Train) <= c.train
            && CountIn(saved, Test) <= c.test
            && CountIn(saved, Validation) <= c.val
            && (CountIn(saved, Train) == c.train
                <==> forall i :: 0 <= i < |cands| && i < c.train ==> Succeeds(cands[i]))
  {
    var c := SplitCounts(|cands|, trainPercent, testPercent);
    SplitAssignment(|cands|, trainPercent, testPercent);
    PartitionFill(cands, c, Train);
    PartitionFill(cands, c, Test);
    PartitionFill(cands, c, Validation);
    PartitionIntactAll(cands, c, Train);
  }

  /** When every sample succeeds the saved positions are dense: record k is
      the sample at position k. */
  lemma {:induction false} AllSucceedDense(cands: seq<Candidate>, c: Counts)
    requires AllSucceed(cands)
    ensures |Process(cands, c)| == |cands|
    ensures forall k :: 0 <= k < |cands| ==> Process(cands, c)[k] == Attempt(k, cands[k], c).value
  {
    if cands != [] {
      var n := |cands| - 1;
      AllSucceedSnoc(cands);
      AllSucceedDense(cands[..n], c);
    }
  }

  /** The body of the `try` block for the sample at position i: each early
      return is one of the program's skips (a raised request, a status other
      than 200, an undecodable body, a failed save). */
  method TrySample(i: nat, sample: Candidate, counts: Counts) returns (record: Option<Saved>)
    ensures record == Attempt(i, sample, counts)
  {
    record := None;
    if sample.RequestFailed? {
      return;
    }
    if sample.status != 200 {
      return;
    }
    if sample.payload.Undecodable? {
      return;
    }
    var box := CropBox(sample.payload.width, sample.payload.height);
    var partition: Partition;
    if i < counts.train {
      partition := Train;
    } else if i < counts.train + counts.test {
      partition := Test;
    } else {
      partition := Validation;
    }
    var fileName := FileName(i);
    if !sample.saveSucceeds {
      return;
    }
    record := Some(Saved(i, partition, fileName, box));
  }

  /** The whole of `download_and_process_images` after the dataset is loaded
      and shuffled: clamp to NUM_IMAGES, split, then try every selected sample
      once, appending what gets saved; a failed sample is skipped and the loop
      goes on. */
  method DownloadAndProcess(dataset: seq<Candidate>) returns (counts: Counts, saved: seq<Saved>)
    ensures counts == SplitCounts(NumToDownload(|dataset|), TRAIN_PERCENT, TEST_PERCENT)
    ensures saved == Process(dataset[..NumToDownload(|dataset|)], counts)
  {
    var numToDownload: nat;
    if |dataset| < NUM_IMAGES {
      numToDownload := |dataset|;
    } else {
      numToDownload := NUM_IMAGES;
    }
    var sampled := dataset[..numToDownload];
    counts := SplitCounts(numToDownload, TRAIN_PERCENT, TEST_PERCENT);

    saved := [];
    for i := 0 to |sampled|
      invariant saved == Process(sampled[..i], counts)
    {
      ProcessSnoc(sampled, i, counts);
      var record := TrySample(i, sampled[i], counts);
      if record.Some? {
        saved := saved + [record.value];
      }
    }
    assert sampled[..|sampled|] == sampled;
  }
}
