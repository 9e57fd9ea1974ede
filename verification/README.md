# Music-production site: verified model of the upload-processing rules

The site's `app.py` has three processing routes. `/analyze` estimates the
tempo and key of an uploaded track. `/separator` splits it into stems with
demucs. `/converter` transcodes it with ffmpeg. Almost all of each route is
calls into other systems. This project models the rules the routes add
themselves, as pure Dafny functions, and proves what they guarantee:

- **Octave-aware tempo vote** (`TempoVote`, `Ranking`). The analyzer starts
  from per-frame tempo estimates rounded to integers. It builds a histogram
  of them. Each tempo that occurs is scored with its own count plus the
  counts of its half and its double. The tempo reported is the head of the
  candidates stably sorted by descending score.
- **Upload acceptance** (`Uploads`). Each route checks, in order: is the
  file field missing, is the name empty, is the type or target format
  wrong, is the file too large. The first check that fails gives a 400
  answer.
- **Names and paths** (`Naming`, `Text`). This covers the stored name
  `uuid_name`, the converter's output names, and the separator's search for
  its output directory. It also covers the stem map, where the source stem
  `other` is reported as `melody`.
- **The three POST handlers** (`Routes`). Each one is built from the pieces
  above. The outputs of the external tools are parameters. The result is
  the JSON response plus the path the upload was saved at.

The model does not copy the histogram argmax. It states the vote against a
reference score computed straight from the tempo list: `Votes(xs, u)` is
the number of occurrences of `u`, plus those of `u / 2`, plus those of
`2 * u`. The main theorem (`BestTempoIsSmallestTopVote`) says what the
selected tempo is. It is a tempo that was observed. No observed tempo has a
higher vote. Among observed tempos with the same top vote, it is the
smallest.

Python's `sorted` is modelled by an insertion sort. The sort is proved to
give a descending permutation that keeps each score class in its original
order (`SortDescStable`). It is also proved to be the only such order
(`SortDescIsTheStableSort`). So it returns the same list as the Timsort
`app.py` calls.

## Model

| member | source | states |
|---|---|---|
| `TempoVote.Width` | app.py:147 | the histogram length is one more than the largest tempo and 0 for an empty list; every tempo is below it and some tempo reaches it |
| `TempoVote.Histogram` | app.py:147 | `np.bincount`: the length is `Width(xs)` and slot `v` holds the number of occurrences of `v` in the tempo list |
| `TempoVote.NothingBeyondWidth` | app.py:147 | no tempo at or beyond the histogram length occurs in the list |
| `TempoVote.Candidates` | app.py:148 | `np.where(freq > 0)`: every candidate is a histogram slot with a nonzero count, and the candidates are strictly ascending |
| `TempoVote.CandidatesComplete` | app.py:148 | every slot with a nonzero count is a candidate, so together with `Candidates` the candidates are exactly the observed tempos |
| `TempoVote.ScoreOfCandidate` | app.py:158-161 | for a candidate, the guards on `t` and `t // 2` always pass, so only `2t` can fall outside the histogram; at `t = 0` the score is three times `freq[0]` |
| `TempoVote.ScoreIsVotes` | app.py:157-162 | for every tempo, the guarded histogram score equals the reference vote counted straight from the tempo list |
| `TempoVote.ObservedIsCandidate` | app.py:147-148 | every observed tempo appears among the candidates |
| `Ranking.InsertDesc` | app.py:165 | one insertion step adds exactly the new pair; a new pair that ties the head stays in front of it |
| `Ranking.InsertDescMembers` | app.py:165 | an insertion step adds only the new pair; every other element comes from the list |
| `Ranking.InsertDescSorted` | app.py:165 | inserting into a descending list keeps it descending |
| `Ranking.SortDesc` | app.py:165 | the sorted list is a permutation of the pairs and is in descending score order |
| `Ranking.SortDescStable` | app.py:165 | pairs with the same score keep their original relative order, as `sorted(..., reverse=True)` guarantees |
| `Ranking.StableOrderUnique` | app.py:165 | two descending lists whose score classes are equal, each in the same order, are the same list |
| `Ranking.SortDescIsTheStableSort` | app.py:165 | any stable descending sort of the pairs, Python's included, yields exactly `SortDesc` |
| `Ranking.SortDescHead` | app.py:165 | the head of the sorted list is the first pair holding the maximal score |
| `TempoVote.SelectedPosition` | app.py:165 | with some tempo observed, the selection is the candidate at the first top-scoring position |
| `TempoVote.SelectedBeats` | app.py:165 | the selected tempo's vote is at least that of any observed tempo, and a tempo with the same vote is not smaller |
| `TempoVote.BestTempoNoneIffEmpty` | app.py:157-165 | the selection fails (`[0]` on an empty list) exactly when the tempo list is empty |
| `TempoVote.BestTempoIsSmallestTopVote` | app.py:147-165 | the selected tempo was observed and has the highest vote, and it is the smallest observed tempo with that vote |
| `TempoVote.TieExampleVotes` | app.py:158-161 | in the estimates `[120, 60, 120, 61]`, 60 gains 120's count through its double and ties 120 at 3 votes, so 60 is the only smallest top-vote tempo |
| `TempoVote.HalfTempoWinsTie` | app.py:147-165 | on `[120, 60, 120, 61]` the analyzer reports 60, not the most frequent estimate 120 |
| `Uploads.CheckAnalyze` | app.py:97-119 | the analyzer accepts a named file of at most 10 MiB; a missing or unnamed file is refused first, then an oversize one |
| `Uploads.CheckSeparate` | app.py:208-238 | the separator accepts a named file whose lower-cased name has an accepted suffix and whose size is at most 15 MiB; the checks run missing/unnamed, then type, then size |
| `Uploads.CheckConvert` | app.py:412-430 | the converter accepts a named file whose target format is `mp3`, `wav` or `flac`, with no size limit; an absent format is refused |
| `Uploads.EndsWithAnyMeansSome` | app.py:222 | `endswith` with a tuple holds when the string ends with at least one of the suffixes, and only then |
| `Uploads.AudioNameIsSuffixMatch` | app.py:222 | a name passes the type check exactly when its lower-cased form ends with `.mp3`, `.wav`, `.m4a` or `.flac` |
| `Uploads.AnalyzeLimitInclusive` | app.py:115 | a file of exactly 10 485 760 bytes passes the analyzer's check and one byte more does not |
| `Uploads.SeparateLimitInclusive` | app.py:234 | an audio file of exactly 15 728 640 bytes passes the separator's check and one byte more does not |
| `Uploads.TypeCheckedBeforeSize` | app.py:221-238 | a file with the wrong type gets the type error at any size |
| `Uploads.SeparateIgnoresCase` | app.py:222 | two names that differ only in ASCII letter case get the same verdict from the separator |
| `Uploads.AudioNameOfLower` | app.py:222 | lower-casing a name first does not change whether it passes the type check |
| `Text.Lower` | app.py:222 | `str.lower` on ASCII: same length, capitals mapped to small letters, no capital left |
| `Text.LowerIdempotent` | app.py:222 | lower-casing twice is the same as lower-casing once |
| `Text.SplitExt` | app.py:441 | `os.path.splitext` on a base name: the two parts concatenate back to the name; the extension starts at the last dot; it is non-empty exactly when some dot has a non-dot character before it |
| `Text.SplitExtAppend` | app.py:441-442 | a dot and a dot-free extension appended to a name with a non-dot character split back into that name and that extension |
| `Naming.StoredName` | app.py:123 | the stored name starts with `uuid_` and ends with the sanitized name |
| `Naming.InputPath` | app.py:123 | the saved path is the stored name inside `static/uploads` |
| `Naming.StoredNameInjective` | app.py:121-123 | two stored names built from UUID text are equal only when both the id and the name are equal, so uploads with different ids never share a path |
| `Naming.Stem` | app.py:441 | the stem is a prefix of the sanitized name |
| `Naming.OutputName` | app.py:441-442 | the user-facing output name starts with the stem, ends with `.` plus the target format, and is exactly one character longer than the two together, so it is the stem, a dot and the format, also for an empty stem |
| `Naming.ServerOutputName` | app.py:443 | the server-side name starts with `uuid_`, ends with `.` plus the format and with the user-facing name, and is exactly one character longer than the id and that name together, so it is the id, an underscore and the user-facing name |
| `Naming.OutputNameSplitsBack` | app.py:441-442 | for a stem with a non-dot character and a dot-free format, the user-facing output name splits back into the stem and the format |
| `Naming.EmptyStemOutputName` | app.py:441-442 | an empty stem gives the output name `.<format>`, which splitext reads as a name with no extension, so the round trip fails there |
| `Naming.FirstExisting` | app.py:278-283 | the loop stops at the first existing name; every name before it does not exist; it finds nothing only if no name exists |
| `Naming.FindOutputDirSpec` | app.py:272-286 | a found directory exists, is not empty, and is the first existing candidate; the lookup fails only when `uuid_stem` and `uuid` do not exist and the stem either does not exist or is empty |
| `Naming.CollectStems` | app.py:288-295 | every key of the stem map is one of the display names |
| `Naming.CollectStemsSpec` | app.py:288-295 | with distinct display names, the display name of each pair is present exactly when its source `.mp3` exists, and is bound to that file's static path |
| `Naming.StemMap` | app.py:267-295 | the separator's keys are a subset of `drums`, `bass`, `vocals`, `melody`; each is present exactly when its source file exists, with that file's path |
| `Naming.OtherReportedAsMelody` | app.py:268-269 | `melody` is present exactly when `other.mp3` exists and points to it; no key is named `other` |
| `Routes.Analyze` | app.py:96-197 | a 400 answer and no saved file exactly when the checks fail; a tempo answer exactly when accepted with a non-empty tempo list, reporting the smallest top-vote tempo; otherwise a 500 answer with `list index out of range` |
| `Routes.Separate` | app.py:207-322 | a 400 answer and no saved file exactly when the checks fail; a stems answer exactly when separation ran and an output directory was found, whose session id is that directory and whose stems are exactly the stem map of that directory; otherwise the generic 500 answer |
| `Routes.Convert` | app.py:408-483 | a 400 answer and no saved file exactly when the checks fail; a converted answer exactly when accepted, nothing raised and ffmpeg succeeded, whose file name is the output name of the sanitized upload (the stem, a dot and the format), ends with `.format`, starts with the stem, and whose download path is `converted/uuid_` plus that name; a raised exception gives 500 with `Server error occurred`, and a failed conversion 500 with `Conversion failed` |

## Left out

- Audio decoding, onset strength, librosa's tempo estimation, `np.round`'s half-to-even rounding, and chroma key detection are left out. These are floating-point numerics in third-party code. The model starts from the rounded tempo list, and the detected key is a parameter.
- The analyzer's other failures (librosa raising on a bad file) are left out. They return 500 with the exception text, which the model cannot know.
- The reported tempo `int(round(float(t)))` is modelled as `t`. This is exact for every integer a float holds exactly, and that covers any tempo.
- `secure_filename` and `uuid.uuid4` are left out. The sanitizer is a function parameter and the id is a string. `StoredNameInjective` relies on the id's form (36 hex or hyphen characters), and `FindOutputDirSpec` on the id not being empty.
- `os.path.splitext` is modelled only for names without a directory separator. Sanitized names never contain one.
- Text.Lower: folds ASCII letters only. Python's `str.lower` also folds non-ASCII letters. None of those maps to a character of `.mp3`, `.wav`, `.m4a` or `.flac`, so the separator's verdict is unaffected.
- File-system existence is two parameters. One says whether a directory `static/converted/htdemucs/<name>` exists. The other says whether a file `<file>` exists in such a directory. Paths are not joined as strings.
- `url_for` is left out. A stem's or download's URL is represented by the `filename=` argument passed to it, such as `converted/htdemucs/<dir>/drums.mp3`.
- demucs (`demucs.separate.main`) and ffmpeg (`convert_audio`) are left out. Their only effect in the model is a success flag, plus, for demucs, the files it left behind. In the separator, an exception raised while saving the upload is answered like a demucs failure, so it is folded into the `separated` flag. In the converter, such an exception goes to the separate `raised` flag, which gives `Server error occurred` rather than ffmpeg's `Conversion failed`. `raised` also covers `url_for` and the start of the cleanup thread; `convert_audio` catches its own exceptions (app.py:73-88) and never raises. In both routes the saved path is still reported, because the model does not track a partly failed write.
- Deleting the uploaded input (on success and on error), the 15-second background thread that deletes converted files (app.py:453-465), and the `/cleanup_stems` route are left out. They are disk I/O and detached timing.
- The LLM chat route, Flask routing and GET page rendering, login and admin authorization, the showcase sort orders, and the admin catalog CRUD are left out. These are framework and database plumbing.
