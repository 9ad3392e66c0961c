# Face-similarity pipeline — a Dafny model

This project models a small pipeline that scores how similar a set of "variant" images is to
one source face image. There are four comparison runners: FaceNet, DeepFace/ArcFace, AWS
Rekognition and Face++. Each one lists a folder, skips the source and every non-image, and
scores each remaining target. It writes one CSV row per target with a cleaned file name, a
percentage `p` and a risk bucket, sorted by `p` (highest first). A target whose scoring
raises is dropped with a warning.

A merge step joins the four result tables on the file name. It uses a pandas outer merge,
takes the mean of the available percentages, buckets that mean and sorts by it with missing
means last. A report step then counts the buckets and takes the top and bottom `k` rows. A
CLI parses the `--engines` list and decides which runners to launch. AWS and Face++ are only
launched when their credentials are set.

Modules, one per file:

- `Wrappers`: `Option` and `Result`.
- `Text`: the Python string operations used, over `seq<char>`.
- `Sorting`: a stable insertion sort and its correctness and stability lemmas.
- `Bucketer`: the four risk buckets.
- `Engines`: engine names.
- `FilenameCleaner`: `clean_filename`.
- `Rounding`: `round(x, 1)` and `round(x, 3)`.
- `CompareRunner`: the four runners.
- `Merge`: `merge_4models.py`.
- `Report`: `make_report.py`.
- `Cli`: `cli.py`.

Everything the code reaches outside itself becomes a parameter:

- the folder listing and the source's existence;
- the embedding model, through a cosine function;
- the AWS `compare_faces` call;
- the Face++ HTTP reply;
- the CSV files read by the merge step;
- the process environment;
- the outcome of each launched sub-process.

Facts about the code that a reader might not expect:

- **No retry.** There is no retry or backoff around the remote calls. A failed call simply drops that target, as the `try`/`except` blocks do.
- **Four runners.** There are four runners: FaceNet, DeepFace, AWS and Face++.
- **The cleaner is not idempotent.** `clean_filename` is not idempotent: `FilenameCleaner.NotIdempotent` shows `_abcdef12.png` cleaning to `.png`, which cleans again to `_png`.
- **The AWS threshold is never forwarded.** `--similarity-threshold` is never passed on. The guard at `run_aws_compare.py:50` asks `hasattr(args, "similarity-threshold")`, but argparse stores the option as `similarity_threshold`. So every request is sent with threshold `0.0`, and `CompareRunner.ThresholdAlwaysZero` proves this for any set of declared options.

## Model

| member | source | states |
|---|---|---|
| Bucketer.BucketFromP | src/utils/bucketer.py:9-15 | the bucket is Safe exactly below 50, Buffer exactly on [50,70), Warning exactly on [70,85), High-Risk exactly from 85; out-of-range values fall into the end buckets |
| Bucketer.Monotone | src/utils/bucketer.py:9-15 | a higher percentage never gets a lower-risk bucket |
| Bucketer.LabelsDistinct | src/utils/bucketer.py:9-15 | the labels are the four strings of the source and distinct buckets have distinct labels |
| Bucketer.Boundaries | tests/test_utils.py:15-22 | the boundary values of the unit test (0, 49.9, 50, 69.9, 70, 84.9, 85) land in the expected buckets, and so do -12.5 and 140 |
| Engines.FromName | src/cli.py:36 | a recognised name names exactly that engine, and a name is unrecognised exactly when it is not one of the four in `KnownNames` |
| Engines.NameRoundTrip | src/cli.py:36 | every engine is recognised back from its name |
| Text.Strip | src/cli.py:35 | the result is the slice of the input after its leading whitespace, everything after it is whitespace, and a non-empty result neither starts nor ends with whitespace; an empty result means the input was all whitespace |
| Text.SplitOnJoin | src/cli.py:35 | splitting on ',' undoes joining comma-free parts with ',' |
| FilenameCleaner.Basename | src/utils/filename_cleaner.py:14 | the base name contains no '/' |
| FilenameCleaner.BasenameIsLastComponent | src/utils/filename_cleaner.py:14 | the base name is the suffix of the path after its last '/' |
| FilenameCleaner.SplitExt | src/utils/filename_cleaner.py:15 | root and extension concatenate back to the name; the extension is empty or one '.' followed by dot-free text; it is non-empty exactly when some non-dot character comes before a dot, so `..png` and `.bashrc` have none |
| FilenameCleaner.SplitExtAtLastDot | src/utils/filename_cleaner.py:14-15 | a stem with a non-dot character, a '.' and a dot-free extension split back into that stem and `.` + extension |
| FilenameCleaner.Tokens | src/utils/filename_cleaner.py:18 | splitting on runs of whitespace, '.', '_' and '-' yields at least one token and no token holds a separator |
| FilenameCleaner.TokensRebuild | src/utils/filename_cleaner.py:18 | the tokens, with a non-empty run of separator characters between each two, spell the input again; so multi-character runs (`a - b`) count as one cut, and a leading or trailing run gives an empty first or last token |
| FilenameCleaner.TokensOfJoin | src/utils/filename_cleaner.py:18 | splitting non-empty separator-free tokens joined by '_' gives the tokens back |
| FilenameCleaner.UuidTokenIsHash | src/utils/filename_cleaner.py:4-5 | for a separator-free token, the UUID pattern adds nothing to the hash pattern |
| FilenameCleaner.LongHexRunIsNoHash | src/utils/filename_cleaner.py:5 | a hex run longer than 32 characters is not hash-like |
| FilenameCleaner.NotHashes | src/utils/filename_cleaner.py:4-5 | "v5", "600" and "" are not hash-like; "123abc" and "ba41dfa2" are |
| FilenameCleaner.KeepBeforeHash | src/utils/filename_cleaner.py:19-23 | the kept tokens are a prefix with no hash-like token, stopped exactly at the first hash-like token |
| FilenameCleaner.IgnoresDirectory | src/utils/filename_cleaner.py:14 | the directory part of the name does not affect the result |
| FilenameCleaner.KeepsExtension | src/utils/filename_cleaner.py:15-25 | the extension is always kept at the end |
| FilenameCleaner.TruncatesAtFirstHash | src/utils/filename_cleaner.py:18-25 | when the first token is not hash-like, the result is the tokens before the first hash-like token joined by '_', then the extension |
| FilenameCleaner.FallsBackToBasename | src/utils/filename_cleaner.py:24 | when the first token is hash-like nothing is kept, and the root is used unchanged |
| FilenameCleaner.StemHasNoSeparators | src/utils/filename_cleaner.py:24 | a cleaned stem holds no whitespace, '.' or '-' |
| FilenameCleaner.CleanOfPlainName | src/utils/filename_cleaner.py:7-25 | for a name made of plain tokens joined by '_', cleaning keeps the tokens up to the first hash-like one |
| FilenameCleaner.CleanDropsHashTail | src/utils/filename_cleaner.py:7-25 | a trailing hash token after plain words is dropped and the extension kept |
| FilenameCleaner.ExampleHashTail | tests/test_utils.py:8-10 | a 32-hex-digit tail is removed from `kpopdemonhunters_v5_600_….jpg` |
| FilenameCleaner.ExampleShortHashTail | tests/test_utils.py:12-13 | `semi_ghibli_123abc.png` cleans to `semi_ghibli.png` |
| FilenameCleaner.LeadingSeparatorBeforeHash | src/utils/filename_cleaner.py:18-24 | a name `_<hash>.<ext>` splits into an empty token and a hash and cleans to `.<ext>` |
| FilenameCleaner.LeadingDotOnly | src/utils/filename_cleaner.py:15-24 | a dot-file `.<word>` has no extension and cleans to `_<word>` |
| FilenameCleaner.NotIdempotent | src/utils/filename_cleaner.py:7-25 | cleaning a cleaned name can change it again |
| Rounding.NearestInt | src/compare/run_facenet_compare.py:73-74 | the chosen integer is within one half of its input |
| Rounding.Round1 | src/compare/run_facenet_compare.py:74 | `round(x, 1)` is within 0.05 of x |
| Rounding.Round1Monotone | src/compare/run_facenet_compare.py:74 | rounding keeps the order of its inputs |
| Rounding.Round1Idempotent | src/compare/run_facenet_compare.py:74 | rounding a rounded value changes nothing |
| Rounding.Round3 | src/compare/run_facenet_compare.py:73 | `round(x, 3)` is within 0.0005 of x |
| Rounding.Round3Exact | src/compare/run_facenet_compare.py:73 | a value with at most three decimals is unchanged |
| Sorting.Sort | src/compare/run_facenet_compare.py:82 | the sorted list is a permutation of the input |
| Sorting.SortSorted | src/compare/run_facenet_compare.py:82 | under a total preorder the result is sorted |
| Sorting.SortStable | src/compare/run_facenet_compare.py:82 | elements that tie keep their input order |
| CompareRunner.Suffix | src/compare/run_facenet_compare.py:62 | `Path.suffix` is an end of the name that starts with its only '.', and is neither the whole name nor a bare '.'; it is empty exactly when the name is empty, ends in '.', or has no '.' after its first character |
| CompareRunner.SuffixExamples | src/compare/run_facenet_compare.py:62 | the suffix of `a.JPG`, `archive.tar.png`, `.png`, `x.png.` and `noext` |
| CompareRunner.UpperCaseExtensionEligible | src/compare/run_facenet_compare.py:57-63 | an upper-case image extension is accepted |
| CompareRunner.IneligibleExamples | src/compare/run_facenet_compare.py:60-63 | the source, a directory and a dot-file named like an extension are skipped |
| CompareRunner.OtherExtensionIneligible | src/compare/run_facenet_compare.py:60-63 | a file with a non-image extension (`.txt`) is skipped |
| CompareRunner.ByNamePreorder | src/compare/run_facenet_compare.py:59 | the listing order by name is a total preorder |
| CompareRunner.Listing | src/compare/run_facenet_compare.py:59 | the visited listing is the folder's entries in name order |
| CompareRunner.CollectCount | src/compare/run_facenet_compare.py:58-79 | the loop appends exactly one row per target that is eligible and scored without raising |
| CompareRunner.CollectAppend | src/compare/run_facenet_compare.py:58-79 | the loop over two listings in sequence is the two loops' rows in sequence |
| CompareRunner.SkippedTargetLeavesNoRow | src/compare/run_facenet_compare.py:60-79 | a skipped or failing target contributes nothing and does not disturb the others |
| CompareRunner.CollectRowsFromTargets | src/compare/run_facenet_compare.py:58-79 | every row is the row of an eligible target that scored |
| CompareRunner.KeptTargetHasRow | src/compare/run_facenet_compare.py:58-79 | every eligible target that scored has its row |
| CompareRunner.RowsAtMostEligible | src/compare/run_facenet_compare.py:58-79 | there are never more rows than eligible targets |
| CompareRunner.RowsWhenNothingFails | src/compare/run_facenet_compare.py:58-79 | when no scoring raises, every eligible target has a row |
| CompareRunner.CollectRows | src/compare/run_facenet_compare.py:58-79 | the loop computes the rows of the kept targets in visiting order |
| CompareRunner.Run | src/compare/run_facenet_compare.py:46-82 | a missing source stops the run with no rows; otherwise the rows are those of the kept targets, sorted by `p` highest first |
| CompareRunner.RunStable | src/compare/run_facenet_compare.py:82 | rows with equal rounded `p` keep the listing's name order |
| CompareRunner.RunRowsFromTargets | src/compare/run_facenet_compare.py:58-82 | every output row comes from an eligible target of the folder that scored |
| CompareRunner.RunKeepsEveryTarget | src/compare/run_facenet_compare.py:58-82 | every eligible target that scored is in the output |
| CompareRunner.BucketUsesUnroundedPercent | src/compare/run_facenet_compare.py:74-75 | the bucket comes from the unrounded percentage, so a row can read `p` = 50.0 with bucket Safe |
| CompareRunner.CosineToPercent | src/compare/run_facenet_compare.py:31-33 | the mapping sends exactly the cosines in [-1,1] into [0,100] |
| CompareRunner.CosineToPercentInverse | src/compare/run_deepface_compare.py:18-20 | the percentage mapping is a bijection with inverse `p/50 - 1` |
| CompareRunner.CosineToPercentIncreasing | src/compare/run_deepface_compare.py:18-20 | a larger cosine gives a larger percentage |
| CompareRunner.CosineToPercentExamples | src/compare/run_facenet_compare.py:32 | -1, 0, 1 and 0.725 map to 0, 50, 100 and 86.25 |
| CompareRunner.EmbeddingRowsInRange | src/compare/run_deepface_compare.py:53-62 | with cosines in [-1,1], every row's rounded cosine is in [-1,1] and its `p` in [0,100] |
| CompareRunner.MaxSimilarity | src/compare/run_aws_compare.py:53-54 | the best similarity is 0 without matches, bounds every match (a missing similarity counting 0) and is attained |
| CompareRunner.Dest | src/compare/run_aws_compare.py:20 | an option's attribute name never contains '-' |
| CompareRunner.ThresholdAlwaysZero | src/compare/run_aws_compare.py:20-50 | whatever options are declared, the threshold sent is 0.0 |
| CompareRunner.CompareAws | src/compare/run_aws_compare.py:31-65 | an AWS run is the generic run with every request sent at threshold 0.0 |
| CompareRunner.AwsRows | src/compare/run_aws_compare.py:47-61 | AWS rows leave the cosine empty; the filename is the target's cleaned name; `p` is the rounded best similarity of an eligible target's reply to a request at threshold 0.0, and the bucket is that unrounded similarity's bucket |
| CompareRunner.FaceppReading | src/compare/run_facepp_compare.py:52-55 | a reply yields a reading exactly when the request went through and its status is below 400 or at least 600; the reading's percentage is the confidence, 0 when absent |
| CompareRunner.CompareFacepp | src/compare/run_facepp_compare.py:21-30 | missing key or secret stops the run first; with both set, the run succeeds exactly when the source exists |
| CompareRunner.FaceppRows | src/compare/run_facepp_compare.py:52-62 | Face++ rows leave the cosine empty; for an eligible target with a non-error reply, the filename is its cleaned name, `p` is the rounded confidence (0 when absent), and the bucket is that of the unrounded confidence |
| Merge.Selected | src/analysis/merge_4models.py:28-31 | the tables read are those whose option is non-empty, in the order aws, facepp, facenet, deepface |
| Merge.ReadOptional | src/analysis/merge_4models.py:8-16 | a missing file reads as an empty table |
| Merge.Lookup | src/analysis/merge_4models.py:37 | a key finds a value exactly when the table has it |
| Merge.JoinAllUnique | src/analysis/merge_4models.py:37 | with unique keys per table, the outer merge has one row per file name in any table, and row k's percentages are each table's value for k or missing |
| Merge.OuterMergeUnique | src/analysis/merge_4models.py:37 | one pairwise outer merge keeps unique keys and extends each row by the new table's value for its key |
| Merge.OuterMergeKeyCount | src/analysis/merge_4models.py:37 | one outer merge on a key held by `m` left rows and `n` right rows gives `m * n` rows for that key when both are non-zero, and otherwise keeps the `m` or `n` rows of the side that has it |
| Merge.DuplicateKeysMultiply | src/analysis/merge_4models.py:37 | for any two tables and any key both hold, the join has as many rows for that key as the product of the two tables' row counts for it |
| Merge.DuplicateKeysExample | src/analysis/merge_4models.py:37 | example: two rows by two rows sharing a key join to four rows |
| Merge.MergeExample | src/analysis/merge_4models.py:37-44 | a two-table example joins to the expected means and buckets |
| Merge.MeanSkip | src/analysis/merge_4models.py:40-41 | the mean is missing exactly when every percentage is missing |
| Merge.MeanBetween | src/analysis/merge_4models.py:40-41 | the mean of the available percentages lies between their bounds |
| Merge.MeanOfOne | src/analysis/merge_4models.py:40-41 | with one available percentage, the mean is that percentage |
| Merge.BucketMean | src/analysis/merge_4models.py:44 | the bucket cell is empty exactly when the mean is missing |
| Merge.Summarize | src/analysis/merge_4models.py:40-44 | summarising keeps every row's name and percentages, sets `p_mean` to the mean of the present percentages skipping missing ones (`MeanSkip`), and sets `bucket_mean` to that mean's bucket, or "" when there is no mean (`BucketMean`) |
| Merge.MissingMeansLast | src/analysis/merge_4models.py:47 | in the sorted table missing means come last and present means descend |
| Merge.MergeMain | src/analysis/merge_4models.py:27-47 | no input option is an error; otherwise the output is the summarised outer merge of the selected tables, sorted by mean |
| Report.BlankBucketIffNoMean | src/analysis/make_report.py:37 | for a merged row read back, the bucket is blank exactly when the mean is missing |
| Report.Tally | src/analysis/make_report.py:24 | counting one more row adds one to its bucket's count and nothing else |
| Report.Histogram | src/analysis/make_report.py:24-25 | one count per distinct bucket value, blank included; each count is the number of rows carrying the value; the counts add up to the row count |
| Report.HistogramCounts | src/analysis/make_report.py:24-25 | each listed count is the number of rows carrying its bucket |
| Report.Distribution | src/analysis/make_report.py:35-41 | one line per bucket with "(blank)" for a missing bucket, or the single "(no data)" line when the total is 0 |
| Report.EffectiveK | src/analysis/make_report.py:46 | k is at least 1 and at least `topk`, and is either 1 or `topk`: the maximum of the two |
| Report.Head | src/analysis/make_report.py:48 | the first k rows, or all of them |
| Report.Tail | src/analysis/make_report.py:49 | the last k rows, or all of them |
| Report.MakeReport | src/analysis/make_report.py:17-49 | a missing `p_mean` column is an error; otherwise the total is the row count, "(no data)" appears exactly for an empty table, and there is one ordering of all the rows, a permutation sorted by mean with missing means last, whose first `max(1, topk)` rows are the top slice and whose last `max(1, topk)` rows are the bottom slice; the distribution lines are those of the bucket counts over all rows |
| Report.SlicesOfSmallTable | src/analysis/make_report.py:46-49 | with at most k rows both slices are the whole sorted table, and otherwise each holds k rows |
| Report.TopBeforeBottom | src/analysis/make_report.py:21-49 | a top row placed before a bottom row in the sorted table has at least its mean |
| Report.EveryBucketListed | src/analysis/make_report.py:24-39 | every bucket value present, blank included, gets a line with its row count |
| Report.OnlyBucketsListed | src/analysis/make_report.py:24-39 | conversely, every line of a non-empty table names a bucket value present, with its row count |
| Report.BucketsListedOnce | src/analysis/make_report.py:24-39 | a non-empty table has as many lines as distinct bucket values, so each value has one line |
| Cli.CleanNames | src/cli.py:35 | a name is kept exactly when it is `Lower(Strip(p))` for some part `p` that is not blank (` FaceNet ` gives `facenet`), and there are at most as many names as parts |
| Cli.StripLowerClean | src/cli.py:35 | a stripped, lower-cased non-blank part is non-empty, has no surrounding space and no upper-case letter |
| Cli.ParsedNamesClean | src/cli.py:35 | every parsed engine name is non-empty, trimmed, lower-case and comma-free |
| Cli.CleanNamesOfClean | src/cli.py:35 | already clean names pass through unchanged |
| Cli.ParseJoined | src/cli.py:35 | parsing a comma-joined list of clean names gives the names back |
| Cli.ParseEmpty | src/cli.py:35 | an empty `--engines` parses to no names |
| Cli.Known | src/cli.py:36 | a name survives the filter exactly when it is given and is one of the four engines |
| Cli.Dispatched | src/cli.py:40-72 | an engine is dispatched exactly when its name was selected, in the fixed order facenet, deepface, aws, facepp |
| Cli.Steps | src/cli.py:40-72 | one step per dispatched engine, in dispatch order |
| Cli.Plan | src/cli.py:27-72 | a missing folder stops first; no valid engine is an error exactly when the folder exists and no recognised name remains; otherwise the result is `Ok`, holding a non-empty list with one step per dispatched engine |
| Cli.PlanOrder | src/cli.py:40-72 | the steps follow the fixed order facenet, deepface, aws, facepp, so no engine appears twice |
| Cli.PlanNames | src/cli.py:35-72 | an engine has a step exactly when its name is in the parsed list |
| Cli.StepsEngines | src/cli.py:40-72 | the steps mention exactly the dispatched engines |
| Cli.PlanGating | src/cli.py:8-72 | a launched engine has all its environment variables set and non-empty and writes `<outdir>/<engine>_results.csv`; a skipped engine is AWS or Face++ with a variable missing or empty |
| Cli.PlanIgnoresOrderAndDuplicates | src/cli.py:35-72 | the plan depends only on which engine names are present |
| Cli.RunPlan | src/cli.py:11-16 | every launch finishes or warns, and the run carries on; every skip is reported as a skip |

## Left out

- Image decoding, the embedding models and the numeric cosine similarity are left out. The model takes the cosine of a target as a parameter, and `None` stands for a target whose scoring raised.
- The AWS client and the Face++ HTTP request are left out. Their responses are parameters, and a request that raises is `None`. Opening and closing the files sent to Face++ is not modelled either.
- CSV reading and writing, directory creation, printing and `load_env` are left out as I/O.
- The merge step's file reads are a parameter map from path to table. A missing path reads as the empty table.
- `Rounding.Round1`, `Rounding.Round3`: round exact reals, not binary floating-point values. A decimal that is not representable, such as 0.15 at one place or 0.0015 at three, can round differently in Python.
- `CompareRunner.CosineToPercent`: uses exact arithmetic, so the float error of `(cos + 1.0) * 50.0` is not modelled.
- `Text.Lower`: lower-cases ASCII letters only. Python's Unicode lower-casing is reduced to ASCII. No non-ASCII character lower-cases into an image extension or an engine name, so suffix and engine membership agree.
- `Merge.MergeMain`: states the rows as a permutation of the summarised join, sorted by mean. Where two rows' means tie, pandas' unstable sort order is not modelled, and the row order of the outer merge itself is not modelled either.
- `Report.MakeReport`: the order of the distribution lines is not modelled. `value_counts` orders them by count.
- `Report.MakeReport`: which of several rows with tied means falls inside a slice, and their order there, is not modelled, because pandas' default sort is not stable. The contract fixes the slices up to that choice.
- Reading the merged CSV back as a table is left out. A `filename` column that parses as numbers could change type there.
- The `Path` joins that form output paths are kept as a pair `OutFile(dir, file)` and never concatenated, so path normalisation is not modelled.
- Path normalisation of `--outdir` is not modelled.
- The sub-processes launched by the CLI are reduced to their outcome, success or failure. Their command lines are reduced to the engine and the output file.
