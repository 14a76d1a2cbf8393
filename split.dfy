/** How many samples are downloaded and how they are divided between the
    train, test and validation partitions. The float ratios 0.9 / 0.05 / 0.05
    of the program are written here as whole percentages. */
module Split {

  /** Requested number of images. */
  const NUM_IMAGES: nat := 300
  /** TRAIN_RATIO = 0.9 */
  const TRAIN_PERCENT: nat := 90
  /** TEST_RATIO = 0.05 */
  const TEST_PERCENT: nat := 5
  /** VAL_RATIO = 0.05; it is never read: validation takes the remainder. */
  const VAL_PERCENT: nat := 5

  /** The number of samples to process: all that are available when there are
      fewer than NUM_IMAGES, NUM_IMAGES otherwise. */
  function NumToDownload(available: nat): (n: nat)
    ensures n <= available && n <= NUM_IMAGES
    ensures n == available || n == NUM_IMAGES
  {
    if available < NUM_IMAGES then available else NUM_IMAGES
  }

  /** The three split counts. Validation may come out negative when the two
      ratios add up to more than one, as it would in the program. */
  datatype Counts = Counts(train: int, test: int, val: int)

  /** Floor of n * percent / 100, characterised by its bounds. */
  lemma FloorPercent(n: nat, percent: nat)
    ensures var q := n * percent / 100;
            0 <= q && q * 100 <= n * percent < (q + 1) * 100
  {
  }

  /** The three shares of n add up to all of n. */
  lemma DistributeShares(n: nat, trainPercent: nat, testPercent: nat)
    ensures n * trainPercent + n * testPercent + n * (100 - trainPercent - testPercent) == n * 100
  {
  }

  /** `int(n * TRAIN_RATIO)`, `int(n * TEST_RATIO)`, and the remainder for validation. */
  function SplitCounts(n: nat, trainPercent: nat, testPercent: nat): (c: Counts)
    // the three counts always add up to the number downloaded
    ensures c.train + c.test + c.val == n
    // train and test are the floors of their shares
    ensures 0 <= c.train && c.train * 100 <= n * trainPercent < (c.train + 1) * 100
    ensures 0 <= c.test && c.test * 100 <= n * testPercent < (c.test + 1) * 100
    // when the ratios leave room for validation it gets its share plus what
    // the two floors dropped (strictly less than two samples' worth)
    ensures trainPercent + testPercent <= 100 ==>
              0 <= c.val && c.train + c.test <= n
    ensures trainPercent + testPercent <= 100 ==>
              n * (100 - trainPercent - testPercent) <= c.val * 100
              < n * (100 - trainPercent - testPercent) + 200
  {
    var train := n * trainPercent / 100;
    var test := n * testPercent / 100;
    FloorPercent(n, trainPercent);
    FloorPercent(n, testPercent);
    DistributeShares(n, trainPercent, testPercent);
    Counts(train, test, n - train - test)
  }

  /** With the program's constants and a full dataset the split is 270 / 15 / 15. */
  lemma ConfiguredSplit()
    ensures SplitCounts(NumToDownload(NUM_IMAGES), TRAIN_PERCENT, TEST_PERCENT) == Counts(270, 15, 15)
  {
  }

  /** Ten samples split 9 / 0 / 1: the test floor drops to zero and validation
      takes the whole remainder. */
  lemma TenSamplesSplit()
    ensures SplitCounts(10, TRAIN_PERCENT, TEST_PERCENT) == Counts(9, 0, 1)
  {
  }

  /** The three partitions, i.e. the directories TRAIN_DIR, TEST_DIR and VAL_DIR. */
  datatype Partition = Train | Test | Validation

  /** The partition of the sample at raw position i of the selected samples:
      positions below train go to train, the next test positions to test, the
      rest to validation. */
  function PartitionOf(i: nat, c: Counts): Partition
  {
    if i < c.train then Train
    else if i < c.train + c.test then Test
    else Validation
  }

  /** Position in the order train < test < validation. */
  function Rank(p: Partition): nat
  {
    match p
    case Train => 0
    case Test => 1
    case Validation => 2
  }

  /** Train positions come before test positions, which come before validation positions. */
  lemma PartitionMonotone(i: nat, j: nat, c: Counts)
    requires i <= j
    requires 0 <= c.test
    ensures Rank(PartitionOf(i, c)) <= Rank(PartitionOf(j, c))
  {
  }

  /** The partitions of positions 0 .. n-1, in order. */
  function Assignment(n: nat, c: Counts): (s: seq<Partition>)
    ensures |s| == n
  {
    if n == 0 then [] else Assignment(n - 1, c) + [PartitionOf(n - 1, c)]
  }

  /** Entry i of the assignment is the partition of position i. */
  lemma {:induction false} AssignmentAt(n: nat, c: Counts, i: nat)
    requires i < n
    ensures Assignment(n, c)[i] == PartitionOf(i, c)
  {
    if i < n - 1 {
      AssignmentAt(n - 1, c, i);
    }
  }

  /** Number of occurrences of p in s. */
  function Occurrences(s: seq<Partition>, p: Partition): nat
  {
    if s == [] then 0
    else Occurrences(s[..|s| - 1], p) + (if s[|s| - 1] == p then 1 else 0)
  }

  /** One more position adds one occurrence to its own partition only. */
  lemma AssignmentStep(n: nat, c: Counts, p: Partition)
    requires n > 0
    ensures Occurrences(Assignment(n, c), p)
            == Occurrences(Assignment(n - 1, c), p) + (if PartitionOf(n - 1, c) == p then 1 else 0)
  {
    assert Assignment(n, c)[..n - 1] == Assignment(n - 1, c);
  }

  /** Of the first n positions, min(n, train) go to train. */
  lemma {:induction false} TrainOccurrences(n: nat, c: Counts)
    requires 0 <= c.train
    ensures Occurrences(Assignment(n, c), Train) == Min(n, c.train)
  {
    if n > 0 {
      TrainOccurrences(n - 1, c);
      AssignmentStep(n, c, Train);
    }
  }

  /** Of the first n positions, those from train up to train + test go to test. */
  lemma {:induction false} TestOccurrences(n: nat, c: Counts)
    requires 0 <= c.train && 0 <= c.test
    ensures Occurrences(Assignment(n, c), Test) == Min(n, c.train + c.test) - Min(n, c.train)
  {
    if n > 0 {
      TestOccurrences(n - 1, c);
      AssignmentStep(n, c, Test);
    }
  }

  /** Of the first n positions, those from train + test on go to validation. */
  lemma {:induction false} ValidationOccurrences(n: nat, c: Counts)
    requires 0 <= c.train && 0 <= c.test
    ensures Occurrences(Assignment(n, c), Validation) == n - Min(n, c.train + c.test)
  {
    if n > 0 {
      ValidationOccurrences(n - 1, c);
      AssignmentStep(n, c, Validation);
    }
  }

  /** Min on integers, used for the counts. */
  function Min(a: int, b: int): int
  {
    if b < a then b else a
  }

  /** Over the positions 0 .. n-1 of a split computed by SplitCounts, exactly
      train positions map to train, test to test and val to validation. */
  lemma SplitAssignment(n: nat, trainPercent: nat, testPercent: nat)
    requires trainPercent + testPercent <= 100
    ensures var c := SplitCounts(n, trainPercent, testPercent);
            && Occurrences(Assignment(n, c), Train) == c.train
            && Occurrences(Assignment(n, c), Test) == c.test
            && Occurrences(Assignment(n, c), Validation) == c.val
  {
    var c := SplitCounts(n, trainPercent, testPercent);
    TrainOccurrences(n, c);
    TestOccurrences(n, c);
    ValidationOccurrences(n, c);
  }
}
