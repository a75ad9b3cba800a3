# Image creation-date prefixer: a Dafny model

The script `main.py` lists the files of a source folder. It keeps the image files (by extension),
renames each one to `YYYY-MM-DD_HH-MM-SS_<base name>` using the file's creation time, and copies
it into a destination folder. A file whose new name already exists there is skipped. The script
logs its progress and ends with the number of images processed and skipped.

This project models the logic under that plumbing and proves what it promises:

- `ImageFilter`: `detect_images`, the case-insensitive extension filter over a list of paths.
- `ElapsedTime`: `format_time`, whole seconds shown as `MM:SS` with Python's `divmod` and
  `f"{m:02}"` semantics, including negative counts. A parser reads the result back.
- `CreationPrefix`: the new name built by `add_creation_date_prefix`.
  - A creation time is a calendar `DateTime` whose fields are in the ranges `datetime` guarantees.
  - `strftime('%Y-%m-%d_%H-%M-%S')` is written out and has a parser that reads it back.
  - `os.path.basename` keeps the text after the last `/`.
- `Batch`: `move_image` and the loop of `process_images`, in a class `Session`.
  - The destination folder is a `set<string>` of file names.
  - The log is a sequence of `LogEntry` values.
  - `ProcessImages` runs its loop (`HandleAll`) one candidate at a time (`HandleImage`).
  - That loop is proved against a pure specification: `Replay` of the one-iteration function
    `Step`. The lemmas about the whole run are stated about `Replay`.
- `Strings`, `Decimal` and `Wrappers` are supporting modules:
  - Python's string order, `endswith` and ASCII `lower`;
  - decimal digits, zero padding and parsing digits back;
  - `Option`.

The outside world is passed in as parameters:

- the directory listing, as the sequence `files`;
- each file's creation time, as `stampOf: string -> Option<Stamp>`, where `None` means
  `os.path.getctime` or `datetime.fromtimestamp` raised;
- whether `shutil.copy2` raises for a file, as `copyFails: string -> bool`.

A file whose creation time cannot be read is not counted as skipped. In the code (main.py:82-85)
it only produces an error line and `total_images_skipped` is not incremented, so it lands in
"Total Images Processed". `Batch.UnnamedCandidateIsNotSkipped` states this for one such file in
any run. Copy errors, on the other hand, are counted as skipped, because `move_image` returns
`False` for them.

## Model

| member | source | states |
|---|---|---|
| Strings.Lower | main.py:33 | Python's `str.lower`, on ASCII letters: each letter `A`-`Z` lowered, every other character kept |
| Strings.EndsWith | main.py:33 | Python's `str.endswith` with one suffix: the suffix is no longer than the string and equals its tail |
| Strings.LexLess | main.py:44 | Python's `<` on strings: the first differing character decides, and a proper prefix is smaller |
| ImageFilter.EndsWithAny | main.py:33 | `str.endswith` with a tuple: some suffix of the tuple ends the string |
| ImageFilter.IsImage | main.py:32-33 | a path is kept when its lowercased form ends with one of `.png .jpg .jpeg .gif .bmp .tiff .tif .webp .heic` |
| ImageFilter.Filter | main.py:33 | the list comprehension: the elements that satisfy the test, in their order; the result is no longer than the input and all its elements satisfy the test |
| ImageFilter.DetectImages | main.py:31-33 | the result is no longer than the listing, and every path in it ends, once lowercased, with one of the nine image extensions |
| ImageFilter.DetectImagesSelectsPositions | main.py:33 | the result is the listing read at strictly increasing positions, and a position is among them exactly when its path is an image path: order kept, nothing wrongly dropped or kept |
| ImageFilter.DetectImagesMembership | main.py:33 | a path is in the result if and only if it is in the listing and is an image path |
| ImageFilter.DetectImagesIdempotent | main.py:33 | filtering the result again returns it unchanged |
| ImageFilter.DetectImagesAppend | main.py:33 | filtering two listings joined is joining their filtered results |
| ImageFilter.EndsWithAnyExists | main.py:33 | `str.endswith` with a tuple holds exactly when some suffix of the tuple ends the string |
| ImageFilter.IsImageIgnoresCase | main.py:33 | two paths equal up to letter case are both kept or both dropped |
| ImageFilter.IsImageUnderCaseChange | main.py:33 | upper- or lower-casing a path does not change whether it is kept |
| ImageFilter.IsImageByExtension | main.py:32-33 | the suffix test agrees with looking up the text after the last dot of the lowercased path in the extension allow-list |
| ImageFilter.UpperCaseJpegIsImage | main.py:32-33 | `source/photo.JPG` is an image path |
| ImageFilter.TextFileIsNotImage | main.py:32-33 | `source/notes.txt` is not |
| ImageFilter.DetectImagesExample | main.py:31-33 | of those two files only the JPEG is kept |
| Decimal.ZeroPad | main.py:38 | zero padding gives at least the requested width and only digits |
| Decimal.ZeroPadValue | main.py:38 | the padded digits read back as the number |
| Decimal.ZeroPadFits | main.py:44 | a number below 10^w padded to width w has exactly w digits |
| Decimal.FixedDigitsOrder | main.py:44 | equal-width digit strings compare as strings exactly as their numbers compare, and are equal exactly when the numbers are |
| ElapsedTime.FormatTime | main.py:36-38 | `format_time` on a whole number of seconds: the minutes of `divmod(n, 60)` padded with `{:02}`, a colon, the seconds padded the same way |
| ElapsedTime.Pad2 | main.py:38 | `f"{m:02}"` is at least two characters long, the sign included |
| ElapsedTime.FormatTimeShape | main.py:36-38 | the output ends with a colon and exactly two digits holding `seconds % 60 < 60`; for a non-negative count the part before the colon is all digits holding the whole minutes, with no wrap into hours |
| ElapsedTime.Pad2ReadsBack | main.py:38 | every padded minute count, negative ones included, reads back as itself |
| ElapsedTime.FormatTimeRoundTrip | main.py:36-38 | reading the output back gives the floor quotient and remainder of `divmod(seconds, 60)`, and minutes * 60 + seconds is the input |
| ElapsedTime.FormatTimeHour | main.py:37-38 | 3600 seconds is shown as `60:00` |
| ElapsedTime.FormatTimeUnderAMinute | main.py:37-38 | 59 seconds is shown as `00:59` |
| CreationPrefix.DateString | main.py:44 | `strftime('%Y-%m-%d_%H-%M-%S')`: year padded to four digits, month, day, hour, minute and second to two, joined by `-`, `-`, `_`, `-`, `-` |
| CreationPrefix.DateStringLength | main.py:44 | every date string has 19 characters |
| CreationPrefix.DateStringRoundTrip | main.py:44 | the date string reads back as the creation time it was made from |
| CreationPrefix.DateStringOrder | main.py:44 | one date string is smaller than another if and only if its time is earlier, and two are equal if and only if the times are |
| CreationPrefix.DateStringExample | main.py:44 | 2023-03-01 10:00:00 is written `2023-03-01_10-00-00` |
| CreationPrefix.BaseName | main.py:45 | `os.path.basename`: the characters after the last `/`, or the whole path when it has none |
| CreationPrefix.BaseNameIsLastComponent | main.py:45 | the base name is a suffix of the path with no `/`, preceded by `/` unless it is the whole path |
| CreationPrefix.BaseNameExample | main.py:45 | the base name of `source/photo.JPG` is `photo.JPG` |
| CreationPrefix.TargetName | main.py:41-50 | there is a new name if and only if the creation time could be read |
| CreationPrefix.TargetNameShape | main.py:44-47 | the new name is 20 characters longer than the base name and ends with it; its first 19 characters read back as the creation time, then comes `_` |
| CreationPrefix.TargetNameInjective | main.py:44-47 | two files get the same new name if and only if they have the same creation time and the same base name |
| CreationPrefix.TargetNameOrder | main.py:44-47 | a file created earlier gets a smaller new name |
| CreationPrefix.TargetNameExample | main.py:44-46 | `source/photo.JPG` created at 2023-03-01 10:00:00 becomes `2023-03-01_10-00-00_photo.JPG` |
| Batch.MoveLog | main.py:56-62 | the lines `move_image` logs: a skip notice when the name is taken, an error line naming the file when the copy fails, nothing on success |
| Batch.Step | main.py:82-92 | one iteration: an unnamed file only adds its error line; a named file is copied when its name is free and the copy succeeds, otherwise counted as skipped, and then the progress line is logged |
| Batch.Replay | main.py:81-93 | the loop: `Step` applied to the candidates in order, starting from the given state |
| Batch.Named | main.py:82-83 | at most k of the first k candidates get a name |
| Batch.Session.constructor | main.py:67-68 | a run starts from the names the destination already holds and an empty log |
| Batch.Session.AddCreationDatePrefix | main.py:41-50 | returns the new name, or `None` with one error line naming the file when the creation time cannot be read; the destination is unchanged |
| Batch.Session.MoveImage | main.py:53-63 | returns true exactly when the name is new and the copy succeeds; only then is exactly that name added, otherwise the destination is unchanged; a taken name logs a skip line and a failed copy an error line |
| Batch.Session.HandleImage | main.py:82-92 | one loop iteration moves the destination, counter and log exactly as `Step` says |
| Batch.Session.HandleAll | main.py:81-93 | the loop leaves the destination, counter and log as `Replay` over all candidates says, with the counter at most the number of candidates |
| Batch.Session.ProcessImages | main.py:66-97 | with no candidates: logs "no images found" and changes nothing else; otherwise the destination and log are those of `Replay`, and the summary reports candidates minus skipped as processed, a count that is never negative |
| Batch.ReplayAccounting | main.py:81-85 | names are only ever added; the skip counter grows by at most the number of candidates that got a name; each named candidate that is not skipped adds one new name, so no name is inserted twice |
| Batch.UnnamedCandidateIsNotSkipped | main.py:82-85 | in any run, a candidate whose creation time cannot be read leaves the destination and the skip counter unchanged and only adds its error line, with no progress line, so it is reported as processed |
| Batch.UnnamedCandidatesAreNotSkipped | main.py:82-85 | a run in which no candidate's creation time can be read changes neither the destination nor the skip counter |
| Batch.ReplayAddsOnlyCandidateNames | main.py:81-85 | every name a run adds is the new name of one of its candidates |
| Batch.ReplayCovers | main.py:81-85 | after a run, every named candidate's name is in the destination, or its copy failed |
| Batch.ReplayOverCoveredDestination | main.py:56-58 | against a destination already holding every name that could be copied, a run copies nothing and skips every named candidate |
| Batch.SecondRunSkipsAll | main.py:56-58 | a second run against the destination the first left behind skips every named candidate and adds nothing |
| Batch.NoSkipsWhileDistinct | main.py:81-85 | into an empty destination, with distinct names and no copy errors, nothing is skipped |
| Batch.DistinctBaseNamesGiveDistinctNames | main.py:45-46 | files with different base names get different new names |
| Batch.FreshDestinationSkipsNothing | main.py:81-85 | copying one folder's images into an empty destination with no copy errors skips nothing |
| Batch.StepLogsOnlyItsCandidate | main.py:49 | one iteration only appends to the log, and its error lines name only the candidate it handles |
| Batch.ReplayLogsOnlyCandidates | main.py:81-93 | a run only appends to the log, and every error line names one of the candidates; other files are never mentioned |

## Left out

- Listing and file checks (`os.listdir`, `os.path.isfile`, `os.path.exists`, `os.makedirs`) are filesystem I/O. The listing is the input sequence `files`; the destination is a set of names.
- The `except` branch of `list_files_in_folder` (main.py:27) refers to a `log_file` that is not defined there, so it would raise itself. It is I/O error handling and is not modelled.
- Creation times (`os.path.getctime`, `datetime.fromtimestamp`) depend on the platform and the local time zone. They are the oracle `stampOf`; microseconds play no part in the name.
- `shutil.copy2` is a foreign call. Only whether it raises (`copyFails`) and the name a successful copy adds are modelled. The destination's file contents are not.
- MoveImage: a copy that raises is treated as creating nothing. In fact `copy2` opens the destination file before copying and sets its metadata afterwards, so a copy that fails partway or in `copystat` can leave a partial file under the new name. That file is counted as skipped, and a later run reports its name as already existing. `ReplayAccounting`'s count of added names relies on this simplification.
- MoveImage: the source folder is not part of the modelled state. That the original file is left untouched follows from `copy2` being a copy, and the model does not restate it.
- The log lines are modelled as `LogEntry` values, not as text. The progress percentage, the ETA, the average time per image and the total-time line are floating-point wall-clock figures (main.py:79, 87-93, 95, 98) and are left out. `Progress(done, total)` keeps the integer part of the progress line.
- ElapsedTime.FormatTime takes the already truncated whole number of seconds; `int()` of a float is not modelled.
- `setup_log_file`, `log_message` file appends, `print`, `argparse` and `main` are start-up and output plumbing.
- BaseName: paths are split on `/` only, as on POSIX. On Windows `os.path.basename` also splits on `\` and after a drive letter; that is not modelled.
- IsImage lowercases ASCII letters only; Python's full Unicode case mapping is not modelled.
- DateString always pads the year to four digits. `%Y` on glibc does not pad years below 1000, so those years are not modelled faithfully.
- `if new_file_name:` (main.py:83) tests truthiness. Here that is the same as `is not None`, because a new name always has at least 20 characters.
- Process-level failures that abort the run (an exception escaping the loop) and concurrent changes to either folder are not modelled.
