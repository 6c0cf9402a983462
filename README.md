# Time tracker capture tick, modelled in Dafny

This project models the core of a Qt desktop time tracker (`TimeTracker`).
Once a minute, while its timer runs, it captures the screen and encodes it as PNG.
It computes an additive "hash sum" of the encoded bytes.
It scores the bytes against a cached previous capture with a byte-wise mean-squared-error percentage.
It inserts `(image, similarity, hash_sum)` into an SQLite table `images`.
When a previous capture was cached and scored against, it then emits `newItemAdded`, which refreshes the grid view.

The model has five modules:

- `Primitives`: bytes as unsigned values 0..255 and their signed `char` reading, a `double` abstracted as a real number or NaN, and `Option`.
- `Checksum`: `HashSum`, the sum of the signed byte values, and its properties.
- `Mse`: the squared-difference sum and `Similarity`, the `(1 - mse/255) * 100` score, and its properties.
- `Store`: the `images` table as an append-only `seq<Record>`. The record at index i has id i + 1. An insert either appends one record or, on failure, changes nothing.
- `Tracker`: the `Controls` toggle, `Tick`, a pure specification of one timer tick, and the class `TimeTracker`. The class has the fields the source updates: timer activity and interval, the start/stop label, `previousScreen` and the table. Its methods are proved against `Clicked`, `Tick`, `HashSum` and `Similarity`.

Inputs that come from outside the program are method parameters:

- the encoded capture bytes;
- whether the INSERT succeeds;
- the rows already in the table when the tracker is built.

The `newItemAdded` signal is the boolean result of `TakeScreenshot`.

Some behaviours of the code are easy to misread:

- The score is only taken when the in-memory cache is non-empty, not whenever the table is non-empty. The constructor never loads the cache. So the first tick after the tracker is constructed stores similarity 0.0 even if the table already holds rows (`TickWithoutCacheScoresZero`). Every tick stores 0.0 until one caches a non-empty image, and a stored empty capture empties the cache again once a refresh reads it. Stopping and restarting the timer keeps the cache.
- The score is not confined to [0, 100]. For non-empty captures of equal length it lies in [-25400, 100] (`SimilarityRange`). Captures of different lengths score 0.0, and two empty captures give NaN.
- A failed insert does not abandon the tick. In the scoring branch `newItemAdded` is still emitted. In the other branch the cache is still refreshed from whatever the table holds.
- Two empty captures give 0.0 / 0, that is NaN. The model keeps NaN as a value instead of excluding empty input.

## Model

| member | source | states |
|---|---|---|
| `Primitives.Signed` | timetracker.cpp:85-87 | reading a byte as `char` gives the unique value in [-128, 127] congruent to it modulo 256 |
| `Checksum.HashSumBounds` | timetracker.cpp:82-90 | the hash sum of n bytes lies in [-128 n, 127 n]; the empty array sums to 0 |
| `Checksum.HashSumConcat` | timetracker.cpp:84-88 | the hash sum of a concatenation is the sum of the parts' hash sums |
| `Checksum.HashSumPermutation` | timetracker.cpp:84-88 | any two byte arrays that are permutations of each other have the same hash sum |
| `Checksum.HashSumCollides` | timetracker.cpp:82-90 | two different byte arrays can have the same hash sum |
| `Checksum.HashSumFitsInt64` | timetracker.cpp:84-88 | for fewer than 2^31 bytes the sum fits the `qint64` accumulator, so the unbounded sum is exact |
| `Mse.SquaredDiff` | timetracker.cpp:103-104 | each squared difference of unsigned bytes lies in [0, 65025] and is 0 exactly for equal bytes |
| `Mse.SumSquaredDiffBounds` | timetracker.cpp:101-105 | the accumulated sum lies in [0, 65025 n] |
| `Mse.SumSquaredDiffSymmetric` | timetracker.cpp:101-105 | the accumulated sum is unchanged when the two arrays are swapped |
| `Mse.SumSquaredDiffZero` | timetracker.cpp:101-105 | the accumulated sum is 0 if and only if the arrays are equal |
| `Mse.SumSquaredDiffExactInDouble` | timetracker.cpp:100-105 | below 2^31 bytes the sum stays below 2^53, so the `double` accumulator adds exactly |
| `Mse.SimilarityLengthMismatch` | timetracker.cpp:95-98 | arrays of different lengths score 0.0 whatever their contents |
| `Mse.SimilarityOfEmpty` | timetracker.cpp:99-109 | two empty arrays give 0.0 / 0, i.e. NaN |
| `Mse.PercentageIsFullIff` | timetracker.cpp:106-109 | the percentage is 100 exactly when the squared-difference sum is 0 |
| `Mse.PercentageRange` | timetracker.cpp:106-109 | a sum within [0, 65025 n] maps to a percentage in [-25400, 100], with no clamping |
| `Mse.PercentageAntitone` | timetracker.cpp:106-109 | a strictly lower mean squared error gives a strictly higher percentage |
| `Mse.SimilarityLowerErrorScoresHigher` | timetracker.cpp:93-110 | against the same previous screen, of two captures of its length the one with the smaller squared-difference sum scores strictly higher |
| `Mse.SimilarityRange` | timetracker.cpp:93-110 | equal-length non-empty arrays get a finite score in [-25400, 100] |
| `Mse.SimilarityIsFullIff` | timetracker.cpp:93-110 | equal-length non-empty arrays score 100 if and only if they are identical |
| `Mse.SimilarityWithSelf` | timetracker.cpp:93-110 | a non-empty array scored against itself gives exactly 100 |
| `Mse.SimilaritySymmetric` | timetracker.cpp:93-110 | the score does not depend on which array is the previous screen |
| `Mse.SimilarityOfOppositeImages` | timetracker.cpp:106-109 | four 0x00 bytes against four 0xFF bytes give mse 65025 and the unclamped score -25400 |
| `Mse.SimilarityOfEqualImages` | timetracker.cpp:93-110 | two identical 4-byte images `[10,10,10,10]` score 100 |
| `Store.LatestImageHasHighestId` | timetracker.cpp:197-201 | the latest-image query finds nothing exactly on an empty table; otherwise the last record has the highest id and the query returns its image |
| `Store.InsertedAppendsOnly` | timetracker.cpp:141-151 | a successful insert appends exactly the given record with the next id; a failed one changes nothing; earlier records are never changed |
| `Store.LatestImageAfterInsert` | timetracker.cpp:141-151 | after a successful insert the latest image is the inserted one; after a failed one it is unchanged |
| `Tracker.ClickedToggles` | timetracker.cpp:59-71 | a click flips the timer; starting sets the 60000 ms interval and label "Stop", stopping keeps the interval and sets "Start" |
| `Tracker.ClickedTwice` | timetracker.cpp:59-71 | two clicks restore the timer's activity and the label, and the whole controls once the timer has been started |
| `Tracker.TickAppendsOnly` | timetracker.cpp:112-137 | a tick appends one record (the capture with its hash sum) when the insert succeeds, none when it fails, and never changes stored records |
| `Tracker.TickKeepsCacheStored` | timetracker.cpp:112-137 | after a tick the cached previous screen is still empty or the image of a stored record |
| `Tracker.TickScoresAgainstLatest` | timetracker.cpp:120-131 | with a non-empty cache a tick caches the latest stored image, scores the capture against it, and emits `newItemAdded` even if the insert fails |
| `Tracker.TickWithoutCacheScoresZero` | timetracker.cpp:132-136 | with an empty cache a tick stores similarity 0.0 without emitting `newItemAdded`, then caches the capture (insert succeeded) or the latest old record (insert failed) |
| `Tracker.FirstRecordScoresZero` | timetracker.cpp:132-136 | the first record of an empty table is stored with similarity 0.0 |
| `Tracker.ConsecutiveTicks` | timetracker.cpp:112-137 | once the cache is primed, each stored record is scored against the capture stored by the tick before it |
| `Tracker.TimeTracker.constructor` | timetracker.cpp:4-8 | a new tracker has a stopped timer, label "Start", an empty cache, and the table as it already was |
| `Tracker.TimeTracker.StartEndButtonClicked` | timetracker.cpp:59-71 | the controls become `Clicked` of the old controls, the label keeps matching the timer, and the cache and table are unchanged |
| `Tracker.TimeTracker.CalculateHashSum` | timetracker.cpp:82-90 | the loop returns `HashSum` of the bytes, within [-128 n, 127 n] |
| `Tracker.TimeTracker.CalculateSimilarity` | timetracker.cpp:93-110 | the loop returns `Similarity` of the image against the cached previous screen: 0.0 on a length mismatch, NaN for two empty arrays, else a score in [-25400, 100] |
| `Tracker.TimeTracker.UploadToDatabase` | timetracker.cpp:139-152 | the table gains exactly the record `(image, similarity, hashSum)` on success and is unchanged on failure |
| `Tracker.TimeTracker.SetLastScreenFromDB` | timetracker.cpp:195-202 | the cache becomes the latest stored image, or stays as it was when the table is empty |
| `Tracker.TimeTracker.TakeScreenshot` | timetracker.cpp:112-137 | the cache, the table and the emitted signal are exactly those of `Tick`, and the tracker's invariant is kept |

## Left out

- Screen grabbing and PNG encoding (`pixmapToByteArray`, timetracker.cpp:73-80, 114-117) are foreign Qt and codec calls. The encoded bytes are an input of `TakeScreenshot`.
- The SQLite connection, the message box when it fails to open, the schema creation and the SQL text are left out. The table is a sequence of records, and whether an INSERT succeeds is an input. Storing `hash_sum` as TEXT and reading it back with `toInt()` is display-only and not modelled.
- `updateGridView` and `clearGridLayout` (the newest-first grid, timetracker.cpp:154-193), the widget layout and `ScreenshotGridItem` are UI code. `newItemAdded` is only reported as a boolean.
- `QtConcurrent::run` and `QMutex`: the future is awaited at once, so the score is computed synchronously.
- `QTimer` scheduling is left out. Only the activity flag and the interval are kept, so the model cannot state that no tick happens while the timer is stopped.
- `double` rounding is not modelled. Scores are real numbers, and NaN is kept as its own value.
- `Primitives.Signed` assumes `char` is signed, as on the compilers the project targets. Where `char` is unsigned, the hash sum would add the unsigned values instead.
- The commented-out SHA-256 and SSIM functions (timetracker.cpp:204-224) are dead code.
- `Store.Refreshed`, `Tracker.TimeTracker.SetLastScreenFromDB`: the latest-image SELECT is assumed to succeed. In the code a failed SELECT (a locked database, a missing `images` table) also leaves the cache unchanged while the table holds rows; the model cannot express that. The `qDebug` logging of `uploadToDatabase` (timetracker.cpp:148, 151) is dropped, and so is SQLite storing a NaN similarity as NULL in the REAL column.
