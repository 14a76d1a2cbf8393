# Random-image acquisition for the melanoma dataset, modelled in Dafny

`download_random.py` builds the "random" (non-lesion) class of the melanoma
image dataset. It loads a slice of the LAION-400M dataset and shuffles it. It
keeps at most `NUM_IMAGES` = 300 samples and splits their positions 90 / 5 / 5
between train, test and validation. Then it tries every kept sample once: it
downloads the URL, decodes the image, centre-crops it to a square and saves it
as `RANDOM_{i:06d}.jpg` in the directory of its partition.

The model has four modules:

- `Crop` (crop.dfy): the box arithmetic of `crop_to_square`.
- `Split` (split.dfy): the `num_to_download` clamp, the three split counts, and the
  partition chosen for each raw position.
- `FileNames` (filenames.dfy): the zero-padded decimal file name, with a parser that
  reads it back.
- `Driver` (driver.dfy): the loop. Each sample is a `Candidate`: either the
  request raised, or it returned a status, a body that does or does not decode, and a
  save that does or does not succeed. `Process` is the specification function
  giving the saved records. `DownloadAndProcess` is the loop itself, written
  imperatively. Its body is `TrySample`, which has an early return for each skip.
  The loop is proved equal to `Process`.

The program assigns partitions and names by the raw position `i` of `enumerate`,
not by the number of successes so far. A failed sample still uses up its index and
its partition slot. Saved indices can have gaps, and a partition can end up with
fewer files than its count. The model keeps this behaviour. `FailureRemovesOnlyItsOwnRecord`
and `PartitionFill` state it exactly. A design in which the partition and a dense
index come from the success count (greedy fill) is not what the code does, so it
is not modelled.

A sample counts as failed when the HTTP status is anything other than exactly 200.
Other 2xx codes also count as failures, because the code tests `!= 200`.

## Model

| member | source | states |
|---|---|---|
| `Crop.CropBox` | download_random.py:34-48 | the box is side x side with side = min(width, height); it lies inside the image; it is offset 0 along the shorter dimension; the right (bottom) margin equals the left (top) one or exceeds it by one |
| `Crop.CropBoxUnique` | download_random.py:42-45 | any square of the shorter side whose right (bottom) margin equals its left (top) margin or exceeds it by one is exactly the box computed |
| `Crop.SquareKeptWhole` | download_random.py:36-48 | a square image is kept whole: box (0, 0, w, h) |
| `Crop.CropIdempotent` | download_random.py:36-48 | cropping the cropped image again keeps all of it |
| `Split.NumToDownload` | download_random.py:62-66 | the number processed is at most the samples available and at most NUM_IMAGES, and equals one of them (min) |
| `Split.SplitCounts` | download_random.py:72-74 | train and test are the floors of their percentage shares; the three counts sum to the number downloaded; when the ratios sum to at most 1, validation is non-negative and gets its share plus less than two samples of floor remainder |
| `Split.ConfiguredSplit` | download_random.py:15-17 | with the program's constants and 300 samples the split is 270 / 15 / 15 |
| `Split.TenSamplesSplit` | download_random.py:72-74 | 10 samples split 9 / 0 / 1: test floors to 0 and validation takes the remainder |
| `Split.PartitionMonotone` | download_random.py:95-100 | train positions precede test positions, which precede validation positions |
| `Split.AssignmentAt` | download_random.py:95-100 | entry i of the positional assignment is the partition chosen for position i |
| `Split.TrainOccurrences` | download_random.py:95-96 | among positions 0..n-1, exactly min(n, train_count) go to train |
| `Split.TestOccurrences` | download_random.py:97-98 | among positions 0..n-1, those from train_count up to train_count + test_count go to test |
| `Split.ValidationOccurrences` | download_random.py:99-100 | among positions 0..n-1, all from train_count + test_count on go to validation |
| `Split.SplitAssignment` | download_random.py:72-100 | over the positions of a computed split, exactly train_count map to train, test_count to test and val_count to validation |
| `FileNames.ZeroPadded` | download_random.py:103 | `{i:06d}` is all digits and has max(6, number of digits of i) characters |
| `FileNames.ParseDecimal` | download_random.py:103 | the decimal digits of n read back as n |
| `FileNames.ParseZeroPadded` | download_random.py:103 | the zero-padded number reads back as the number: leading zeros lose nothing |
| `FileNames.SixDigitNames` | download_random.py:103 | below one million the padded number has exactly six digits and the name 17 characters |
| `FileNames.FileNameInjective` | download_random.py:103 | different positions never give the same file name |
| `FileNames.SingleDigitName` | download_random.py:103 | a single-digit position i is named `RANDOM_00000<i>.jpg` |
| `Driver.Attempt` | download_random.py:80-110 | one loop pass saves a record exactly when the request returned status 200, the body decoded and the save succeeded, and the record carries the pass's own position |
| `Driver.TrySample` | download_random.py:80-110 | the try block, with an early return for each skip, yields exactly what `Attempt` specifies for that position and sample |
| `Driver.ProcessSound` | download_random.py:79-110 | every saved record comes from a successful sample at a position in range, and is what that sample alone yields at that position (partition, name, box) |
| `Driver.ProcessOrdered` | download_random.py:79 | records are saved in strictly increasing position order |
| `Driver.ProcessComplete` | download_random.py:79-110 | every successful sample's record is among those saved: a failure never stops the run |
| `Driver.ProcessLength` | download_random.py:79-112 | at most one file per sample is saved; as many as num_to_download only when every sample succeeds |
| `Driver.DistinctFileNames` | download_random.py:103-107 | no two saved files share a name, so no save overwrites another |
| `Driver.FailureRemovesOnlyItsOwnRecord` | download_random.py:79-110 | making sample j fail removes exactly the record of position j; every other record, with its partition and name, is unchanged |
| `Driver.PartitionIntactAll` | download_random.py:95-100 | checking sample by sample whether the positions of a partition all succeeded is the same as checking every such position |
| `Driver.PartitionFill` | download_random.py:95-100 | a partition receives at most as many files as it has positions, and exactly that many iff every sample at its positions succeeds |
| `Driver.CountInTotal` | download_random.py:95-100 | each saved file lies in exactly one partition |
| `Driver.PartitionsWithinCounts` | download_random.py:72-100 | with the computed split, train, test and validation files never exceed train_count, test_count and val_count; train is full iff no train-position sample failed |
| `Driver.AllSucceedDense` | download_random.py:79-103 | when every sample succeeds, record k is the sample at position k, so indices are dense |
| `Driver.DownloadAndProcess` | download_random.py:62-110 | the loop computes the clamp and split as specified and saves exactly the records `Process` gives for the first num_to_download samples |

## Left out

- Loading LAION-400M and shuffling with seed 42 (download_random.py:54-59, 69) are not modelled. The input is the already shuffled dataset, given as a sequence of `Candidate`s.
- `requests.get`, `Image.open`, `image.crop` and `image.save` are foreign I/O. Each sample's outcome is an input: the status code, whether the body decodes (with its size), and whether the save succeeds. The pixels that `image.crop` copies are not modelled; only the box passed to it is.
- `SplitCounts` uses integer percentages (90 and 5) with floor division in place of `int(n * 0.9)` and `int(n * 0.05)`. The rounding of the float products is not verified.
- The directory paths (`os.path.join` of `BASE_DIR`, split and `RANDOM_CLASS`) are not modelled. The partition stands for the directory.
- Logging, the `tqdm` progress bar, `create_directories` and the final "Successfully downloaded" message are not modelled (download_random.py:10-12, 27-32, 76, 112). The final message always reports num_to_download. `ProcessLength` states when that figure matches the number actually saved.
- transform.py (augmentation through PIL/torchvision calls, random zoom and crop with float ratios, directory walking) and gen.py (a fixed fetch/sleep/save script) are not part of this model.
