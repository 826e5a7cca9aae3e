# DeskTok video categoriser: a Dafny model of its integer and string core

`catagorize.py` sorts the videos of a "mixed" folder into category folders.
For each video it builds a feature vector. With OpenCV, the vector is a colour
histogram, a mean ORB descriptor and a hashed bag of words from the file name.
Without OpenCV, or when no frame gave a histogram, it is the file size's bytes
and the same bag of words. It then clusters the vectors with scikit-learn, or
puts every video into category 0 when scikit-learn is missing. Finally it
moves the files.

This project models the deterministic integer and string logic of that file
and proves its properties:

- **Tokens**: the file name's basename, lower-cased and cut into its
  alphanumeric runs. This is a scanner modelling `str.split()` on the masked
  name. An independent "maximal runs" definition is proved equal to it.
- **TextVector**: the bag of words. `sum(ord(c)) % dim` picks the bucket of
  each token. A method fills an array one token at a time, and is proved
  against the function giving the count vector. Lemmas prove bucket bounds,
  that the counts sum to the number of tokens, that anagrams share a bucket,
  that the counts do not depend on token order, and when the normalisation
  branch runs.
- **SizeVector**: the eight `(size >> i) & 0xff` entries. They are the
  little-endian bytes of the size. Both round trips are proved.
- **FramePicks**: the evenly spread frame indices. They have the right length,
  start at 0, stay within the video, never go backwards, and are distinct
  when there are enough frames. The clamp to the last frame never takes effect.
- **Clustering**: the PCA component count, the cluster count, the
  single-category fallback and the empty-folder guard.
- **Features**: which branch of `extract_video_features` produces which
  layout (72 or 352 entries), the frames it reads, and the integer content
  of the fallback vector.
- **Arith**, **Wrappers**: shared facts about floor division, and the
  `Option` type for the source's `None` results.

Characters are modelled as ASCII: letters and digits are alphanumeric, and
`lower` maps `A`–`Z` to `a`–`z`. The basename is whatever follows the last
`/`. Every division the source performs on non-negative values
(`int(i * total / n)`, `int(len / 10)`) is modelled as floor division.

## Model

| member | source | states |
|---|---|---|
| `Tokens.IsAlnum` | catagorize.py:55 | `ch.isalnum()` holds only for ASCII characters above the space, so the space that `Mask` writes is never part of a token |
| `Tokens.LowerChar` | catagorize.py:54 | lower-casing maps each upper-case letter `A`–`Z` to the lower-case letter at the same position in the alphabet, changes no other character, leaves no upper-case letter, and keeps a character alphanumeric exactly when it was |
| `Tokens.Lower` | catagorize.py:54 | `.lower()` keeps the length and lower-cases each character in place |
| `Tokens.Basename` | catagorize.py:54 | the basename contains no `/`, is a suffix of the path, and is preceded by a `/` whenever it is shorter than the path |
| `Tokens.Mask` | catagorize.py:55 | the join keeps the length, keeps every letter and digit in place, and turns every other character into a space |
| `Tokens.SplitFrom` | catagorize.py:55 | the scanner behind `str.split()`, started with a partial token that holds no space, yields only non-empty pieces without spaces |
| `Tokens.Split` | catagorize.py:55 | `str.split()` yields only non-empty pieces that hold no space |
| `Tokens.Tokenize` | catagorize.py:54-55 | `toks` is exactly the list of maximal alphanumeric runs of the lower-cased basename, in order (further properties in `Tokens.TokenizeIsRuns`) |
| `Tokens.DropEmpty` | catagorize.py:55 | the `if t` filter keeps exactly the non-empty tokens: a string is in the result exactly when it is a non-empty input token, and each non-empty token keeps its multiplicity; a list with no empty token comes back unchanged |
| `Tokens.LeadingRun` | catagorize.py:55 | reference definition: the longest alphanumeric prefix; the next character, if any, is not alphanumeric; it is non-empty when the string starts with a letter or digit |
| `Tokens.SplitMaskFrom` | catagorize.py:55 | the split scanner started with a partial token yields that token extended by the leading run, then the remaining maximal runs |
| `Tokens.SplitMaskIsRuns` | catagorize.py:55 | splitting the masked string yields exactly the maximal alphanumeric runs, in order |
| `Tokens.RunsWellFormed` | catagorize.py:55 | every run is non-empty and wholly alphanumeric |
| `Tokens.RunsCoverAlnum` | catagorize.py:55 | the runs, concatenated, are exactly the string's alphanumeric characters in order |
| `Tokens.RunsEmptyIff` | catagorize.py:55 | there are no runs exactly when the string has no alphanumeric character |
| `Tokens.TokenizeIsRuns` | catagorize.py:54-55 | the tokens are the maximal alphanumeric runs of the lower-cased basename; each is non-empty and alphanumeric; together they hold all its alphanumeric characters |
| `Tokens.TokenizeEmptyIff` | catagorize.py:54-55 | a name has no tokens exactly when its basename has no letter or digit |
| `TextVector.Ord` | catagorize.py:58 | `ord(c)` is a Unicode code point, outside the surrogate range, that converts back to `c` |
| `TextVector.OrdSum` | catagorize.py:58 | `sum(ord(c) for c in t)` is 0 for the empty token and at least the code of each of its characters; by `TextVector.AnagramsShareBucket` it depends only on the multiset of characters |
| `TextVector.Bucket` | catagorize.py:58 | a token's bucket `sum(ord(c)) % dim` lies in `[0, dim)` |
| `TextVector.CountVector` | catagorize.py:56-59 | the count vector has `dim` entries |
| `TextVector.CountTokens` | catagorize.py:56-59 | the array of zeros, incremented once per token at its bucket, ends as the count vector of the tokens |
| `TextVector.TextCounts` | catagorize.py:53-61 | the counts are the count vector of the name's tokens, and the division branch is taken exactly when there is a token |
| `TextVector.CountVectorSnoc` | catagorize.py:57-59 | one more token adds one to its own bucket and leaves every other bucket unchanged |
| `TextVector.CountVectorSum` | catagorize.py:56-59 | the entries of the count vector add up to the number of tokens |
| `TextVector.AnagramsShareBucket` | catagorize.py:58 | tokens with the same multiset of characters have the same `sum(ord(c))` and land in the same bucket |
| `TextVector.CountVectorOrderFree` | catagorize.py:57-59 | two token sequences with the same multiset of tokens give the same count vector |
| `TextVector.CountVectorZeroIff` | catagorize.py:56-59 | the count vector is all zero exactly when there are no tokens |
| `TextVector.SquaredNorm` | catagorize.py:60 | the square of `np.linalg.norm(vec)` is at least the square of every entry |
| `TextVector.SquaredNormPositive` | catagorize.py:60 | the norm of a count vector is positive exactly when some entry is positive |
| `TextVector.NormalisedIffTokens` | catagorize.py:60-61 | the test `n > 0` holds exactly when there is at least one token |
| `TextVector.NoAlnumGivesZero` | catagorize.py:53-61 | a name whose basename has no letter or digit gives the all-zero vector and skips the division |
| `SizeVector.ShiftRight` | catagorize.py:68 | `x >> k` is the floor of `x / 2^k`: its product with `2^k` is at most `x`, and the next multiple is above `x` |
| `SizeVector.LowByte` | catagorize.py:68 | `x & 0xff` is below 256 and differs from `x` by a multiple of 256 |
| `SizeVector.SizeBytes` | catagorize.py:67-68 | the size vector has 8 entries, each in `[0, 255]` |
| `SizeVector.BytesAt` | catagorize.py:68 | entry `j` of the byte-peeling encoder is `(x >> 8j) & 0xff` |
| `SizeVector.SizeBytesIsBytes` | catagorize.py:68 | the eight shifted-and-masked entries are the size's low eight bytes, least significant first |
| `SizeVector.DecodeBytes` | catagorize.py:68 | reading `k` peeled bytes little-endian gives the value modulo `2^(8k)` |
| `SizeVector.BytesOfDecode` | catagorize.py:68 | peeling the bytes of a little-endian value gives those bytes back |
| `SizeVector.SizeBytesDecode` | catagorize.py:68 | `sum(v[j] * 256^j) == size mod 2^64` |
| `SizeVector.SizeBytesRoundTrip` | catagorize.py:68 | for `0 <= size < 2^64` the eight entries decode back to the size |
| `SizeVector.DecodeRoundTrip` | catagorize.py:68 | any eight bytes are the size vector of the value they encode |
| `SizeVector.SizeBytesEqualIff` | catagorize.py:68 | two sizes have the same size vector exactly when they agree modulo `2^64` |
| `FramePicks.Pick` | catagorize.py:82 | each pick lies in `[0, total_frames - 1]` |
| `FramePicks.Picks` | catagorize.py:82 | there are `max(0, num_frames)` picks, all valid frame indices |
| `FramePicks.ProportionBelowTotal` | catagorize.py:82 | for `i < num_frames` the unclamped index `floor(i * total / n)` is at most `total - 1` |
| `FramePicks.PickIsProportional` | catagorize.py:82 | for `i < num_frames` the clamp never applies: the pick is `floor(i * total / n)`, the frame at fraction `i / n` of the video |
| `FramePicks.PicksStartAtZero` | catagorize.py:82 | the first pick is frame 0 |
| `FramePicks.PicksNonDecreasing` | catagorize.py:82 | the picks never go backwards |
| `FramePicks.PicksStrictlyIncreasing` | catagorize.py:82 | with at least as many frames as picks, the picks are distinct and increasing |
| `Clustering.NumComponents` | catagorize.py:181 | as written, the PCA component count lies in `[1, 50]`, is below the feature count when there are two or more features, and is 50 for more than 50 features |
| `Clustering.NumComponentsAcceptedIff` | catagorize.py:181-183 | PCA accepts the written component count exactly when there are at least that many videos |
| `Clustering.NumComponentsRejectedForTenVideos` | catagorize.py:181-183 | ten videos with 352 features get 50 components, which PCA rejects |
| `Clustering.FittedComponents` | catagorize.py:181-183 | the corrected count is in `[1, 50]`, is always accepted by PCA, and equals the written count whenever there are enough videos |
| `Clustering.NumClusters` | catagorize.py:186-187 | for `n >= 1` videos the cluster count lies in `[1, n]`; it is `floor(n / 10)` from ten videos on and 1 below twenty |
| `Clustering.ClusterVideos` | catagorize.py:170-190 | as written: without scikit-learn, `n` labels, all 0, so every video goes to one category; with it, `PCA.fit_transform` raises exactly when there are fewer videos than `min(50, max(1, d - 1))`, and otherwise a KMeans run with that component count and between 1 and `n` clusters |
| `Clustering.ClusterVideosFixed` | catagorize.py:170-190 | with the corrected component count: with scikit-learn always a KMeans run whose component count PCA accepts, with between 1 and `n` clusters; the same as `ClusterVideos` without scikit-learn or with at least as many videos as the written count |
| `Clustering.Organize` | catagorize.py:246-256 | an empty folder stops before clustering; otherwise the videos are clustered as written, and the PCA exception occurs exactly when there are fewer videos than the written component count |
| `Clustering.RejectedBelowFiftyVideos` | catagorize.py:181-183 | for both vector lengths the function returns, 72 and 352, the written count is 50, so with scikit-learn a folder of 1 to 49 videos ends in the exception and any larger folder is clustered |
| `Features.ExtractLayout` | catagorize.py:64-131 | `None` exactly when OpenCV is present and the capture is closed or reports no frames; the 352-entry layout exactly when OpenCV is present, the guards pass, at least one frame is sampled and a histogram was read, and then at least one frame is sought; otherwise the 72-entry fallback |
| `Features.FramesRead` | catagorize.py:73-92 | frames are read only when OpenCV is present and the guards pass; then `max(0, num_frames)` of them, each a valid frame index |
| `Features.FallbackRaw` | catagorize.py:66-71 | the fallback vector before normalisation has 72 entries: 8 bytes decoding to the size modulo `2^64`, then the 64 text counts, which sum to the number of tokens |
| `Features.FullFeature` | catagorize.py:136-143 | the full vector has at most `256 + 32 + text` entries; with a 256-bin histogram, a 32-entry ORB mean and 64 text entries it has 352 entries, laid out as histogram, ORB, text |
| `Features.ExtractedLengths` | catagorize.py:64-145 | the vector each layout's branch builds has that layout's length: the fallback concatenation 72 entries, the full one 352 given 256 histogram bins and 32 ORB entries |
| `Features.DefaultSamplesDistinct` | catagorize.py:64-82 | with the default eight samples and at least eight frames, eight distinct frames are read, starting at frame 0 |

## Left out

- OpenCV frame reading, resizing, HSV histograms and ORB descriptors (catagorize.py:73-123) are not modelled. They are foreign calls. Whether any sampled frame produced a histogram is taken as an input to `Features.ExtractLayout`.
- scikit-learn's `StandardScaler`, `PCA` and `KMeans` are not modelled, because they are foreign calls. Only the integers passed to them are. The labels a KMeans run assigns are therefore not modelled. `Clustering.PcaAccepts` states scikit-learn's documented bound on an integer `n_components`.
- Floating-point work is not modelled: the L2 normalisations, their `+ 1e-9` epsilons, and the float type of the vectors. The text vector is modelled by its integer counts and the `n > 0` test. The square of the norm, an integer, stands in for the norm.
- `get_all_video_features` is not modelled: directory listing, the extension filter and path joining are I/O. Nor does the model check that all vectors of one run share a length before NumPy stacks them.
- `move_videos_to_categories` is I/O (`os.makedirs`, `shutil.move`, the moved/failed counters, the CSV report and the printed report), as are all `print` calls. None of it is modelled.
- The environment-variable folder configuration and the `__main__` driver are not modelled.
- Tokens.IsAlnum: only ASCII letters and digits are alphanumeric. Python's `str.isalnum` also accepts non-ASCII letters and digits, which the model treats as separators.
- Tokens.LowerChar: only ASCII `A`–`Z` are lower-cased. Python's `str.lower` also lower-cases non-ASCII letters, which the model leaves unchanged.
- Tokens.Basename: only `/` is a separator. The Windows `\` separator is not modelled.
- TextVector.TextCounts: requires `dim > 0`, and every caller in the source passes 64. In the source, a negative `dim` raises in `np.zeros`, and `dim == 0` raises on `% 0` once there is a token. With `dim == 0` and no token the source returns an empty vector, which the model does not cover.
- FramePicks.Pick: `int(i * total / n)` is modelled as exact floor division. Float rounding of very large products is not modelled.
- Clustering.NumClusters: `int(len / 10)` is modelled as exact floor division.

## Findings

| source | as written | input that shows it | evidently intended | confidence | as-written member | corrected member |
|---|---|---|---|---|---|---|
| catagorize.py:181-183 | `n_components = min(50, max(1, d - 1))` looks only at the number of features `d`. scikit-learn's PCA rejects an integer `n_components` above `min(n_samples, n_features)`. | 10 videos with 352-entry feature vectors: `n_components` is 50, above `min(10, 352)`, so `PCA.fit_transform` raises; the same holds for any 1 to 49 videos of either vector length (`Clustering.RejectedBelowFiftyVideos`) | also bound the count by the number of videos: `min(50, max(1, d - 1), n)` | medium; not executed | `Clustering.NumComponents` (with `Clustering.NumComponentsRejectedForTenVideos`) | `Clustering.FittedComponents`, used by `Clustering.ClusterVideosFixed` |
