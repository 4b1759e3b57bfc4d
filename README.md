# foto-tool, modelled in Dafny

foto-tool sorts the photos and videos of the current working directory into
one folder per day. It asks once for confirmation, then collects every
regular file whose extension is `jpeg`, `jpg` or `mp4` (in any case) and
groups the files by their local modification date, in ascending date order.
For each date group it shows an image in the terminal and reads a command.
`n` and `p` step to the next or the previous image of the group, wrapping
around. `q` aborts. Any other non-blank text is taken as the city where the
pictures were taken: the tool creates the folder `DD-MM-YYYY_<city>` and
renames every file of the group into it, keeping its file name.

The model has one module per concern of the program:

- `Text`: the normalisation both prompts apply to a line, `trim` followed by
  `to_lowercase`.
- `Paths`: `Path::file_name`, `Path::extension`, `OsStr::to_str` and `join`,
  over names that may hold bytes that are not valid UTF-8.
- `Scanner`: `is_image_file`, and the directory listing as an input.
- `Dates`: `NaiveDate`, its order, and the `%d-%m-%Y` rendering.
- `Grouping`: `group_images_in_dir` and the `BTreeMap<NaiveDate, Vec<PathBuf>>`,
  kept as its ascending list of (date, files) pairs.
- `Prompts`: `ask_user_confirmation` and `ask_user_directory_name`, as read
  loops over a sequence of input lines.
- `Navigation`: the image-index arithmetic of the `n` and `p` commands.
- `Relocation`: `create_dir_and_copy_images`.
- `Session`: `main`.

Standard input, the directory listing and the file system's answers are
inputs of the model:

- Standard input is a sequence of lines. A line may be a read failure.
- The listing is a sequence of entries. Each entry is either unreadable, or a
  path with its "is a regular file" flag and its modification date. The date
  is absent when the metadata cannot be read.
- The file system names the folders whose creation fails and the files whose
  rename fails.

What the program does is an effect log: images shown, folders created, files
moved, and files skipped for want of a file name. Each read loop and each
stateful loop is a method with `while`/`for` loops, proved equal to a
function. The properties are proved about those functions.

The model follows the code as written:

- A failed rename is fatal, as the `?` on `fs::rename` makes it.
- A file whose metadata cannot be read ends the scan with an error. It is
  not skipped.
- The city name is the trimmed, lower-cased line.
- The image index is not reset between groups (see Findings).

## Model

| member | source | states |
|---|---|---|
| Text.LowerChar | src/main.rs:166 | lower-casing turns each capital A-Z into the small letter at the same place in the alphabet, leaves no upper-case ASCII letter, keeps whitespace as whitespace and leaves every other character alone |
| Text.ToLower | src/main.rs:195 | `to_lowercase` keeps the length and lower-cases each character in place |
| Text.TrimStart | src/main.rs:195 | the result is the suffix left after a run of whitespace, and starts with a non-whitespace character |
| Text.TrimEnd | src/main.rs:195 | the result is the prefix left before a run of whitespace, and ends with a non-whitespace character |
| Text.TrimIsSlice | src/main.rs:166 | `trim` removes exactly a whitespace prefix and a whitespace suffix; the result is empty iff the whole line is whitespace |
| Text.TrimEndsNotWhitespace | src/main.rs:195 | a non-empty trimmed line starts and ends with non-whitespace |
| Text.TrimFixed | src/main.rs:195 | a text with no whitespace at either end is its own trim |
| Text.ToLowerIdempotent | src/main.rs:195 | lower-casing twice is lower-casing once |
| Text.NormalizeIdempotent | src/main.rs:195 | trim-then-lower-case is idempotent, and its result has no upper-case ASCII letter |
| Text.NormalizePadded | src/main.rs:166 | one visible character with whitespace around it normalises to that character, lower-cased |
| Paths.FromString | src/main.rs:136 | a text becomes an OS string of the same characters, unit for unit |
| Paths.ToStr | src/main.rs:136 | `to_str` succeeds iff every unit is a character, and then gives back the same text |
| Paths.ToStrFromString | src/main.rs:136 | text turned into an OS string converts back to itself |
| Paths.FileName | src/main.rs:92 | `file_name` is Some iff the last component is a normal name, and is that name |
| Paths.LastDot | src/main.rs:135 | the index found holds a dot and no later unit is a dot; -1 when there is none |
| Paths.Join | src/main.rs:112 | the path of a directory entry keeps the directory's components and has the entry's name as its file name |
| Paths.ExtensionSplitsAtLastDot | src/main.rs:135 | for every name other than `..`, the extension is `ext` iff the name is a non-empty stem, a dot and a dot-free `ext` |
| Paths.ExtensionOfDotted | src/main.rs:135 | a non-empty stem, a dot and a non-empty dot-free tail has that tail as its extension |
| Scanner.LowerKeepsDots | src/main.rs:137 | an extension that lower-cases to a valid one has no dot and at least three characters |
| Scanner.ImageFileByName | src/main.rs:132-139 | a path is accepted iff it is a regular file named stem + "." + an extension whose lower case is `jpeg`, `jpg` or `mp4`, with a non-empty stem |
| Scanner.NoExtensionRejected | src/main.rs:134-138 | a path without an extension is never accepted (`unwrap_or(false)`) |
| Scanner.CaseInsensitive | src/main.rs:137 | two extensions with the same lower case get the same verdict |
| Dates.BeforeIsStrictTotalOrder | src/main.rs:18 | the date order the map iterates in is irreflexive, transitive, total and asymmetric |
| Dates.ZerosAreZeros | src/main.rs:80 | the padding is made of '0' characters |
| Dates.DecimalRoundTrip | src/main.rs:80 | the decimal rendering holds only digits and reads back as the number |
| Dates.DecimalLength | src/main.rs:80 | a number below 10^w has at most w digits |
| Dates.LeadingZerosAddNothing | src/main.rs:80 | leading zeros do not change the value of a digit string |
| Dates.ZeroPadRoundTrip | src/main.rs:80 | a number of at most `width` digits pads to exactly `width` digits and reads back as itself |
| Dates.CalendarDateFits | src/main.rs:80 | every calendar date of a four-digit year renders in ten characters |
| Dates.FormatDateLayout | src/main.rs:80 | `%d-%m-%Y` puts the day at 0-1, dashes at 2 and 5, the month at 3-4 and the year at 6-9 |
| Dates.FormatDateDigits | src/main.rs:80 | the eight non-dash positions of a rendered date are digits |
| Dates.FormatDateRoundTrip | src/main.rs:80 | a rendered date is ten characters long and parses back to the same date |
| Dates.ZeroPadReadsBack | src/main.rs:80 | a zero-padded number of any width is all digits and reads back as the number |
| Dates.FormatYearShape | src/main.rs:80 | `%Y` starts with a digit exactly for years 0 to 9999; other years are their sign followed by the zero-padded magnitude; only digits and signs occur |
| Dates.FormatYearInjective | src/main.rs:80 | different years never render to the same `%Y` text |
| Dates.FormatDateFields | src/main.rs:80 | for every year, `%d-%m-%Y` is the two-digit day, a dash, the two-digit month, a dash and the `%Y` text, and holds only digits, dashes and signs |
| Dates.FormatDateInjective | src/main.rs:80 | two different calendar dates, of any year, never render to the same text |
| Grouping.BucketOfKey | src/main.rs:18 | in an ascending map, the bucket looked up by a key is that key's files |
| Grouping.BucketOfNonKey | src/main.rs:18 | a date that is not a key has an empty bucket |
| Grouping.KeysBounded | src/main.rs:18 | every key of a list whose dates all follow `lo` follows `lo` |
| Grouping.KeyAt | src/main.rs:18 | the date of every group is a key of the map |
| Grouping.ConsValid | src/main.rs:18 | a non-empty bucket dated before every key extends a valid map |
| Grouping.Insert | src/main.rs:121-125 | `entry(d).or_default().push(p)` keeps the map ascending with no empty bucket, and its keys become the old keys plus `d` |
| Grouping.InsertBucket | src/main.rs:121-125 | the insertion appends `p` to the bucket of `d` and leaves every other bucket unchanged |
| Grouping.InsertAddsOnePath | src/main.rs:121-125 | the insertion adds exactly one path to the map's files |
| Grouping.FilesOnMembers | src/main.rs:114-125 | a path is among the files dated `d` iff some accepted entry with that path was modified on `d` |
| Grouping.FirstFaultPrefix | src/main.rs:110-115 | a fatal entry in a prefix is the first fatal entry of the whole listing |
| Grouping.FirstFaultSnoc | src/main.rs:110-115 | one more entry matters only when no earlier entry failed |
| Grouping.Grouped | src/main.rs:105-130 | the scan fails iff some entry is unreadable or is an accepted file without metadata, with the first such entry's error; otherwise the map is valid |
| Grouping.GroupedBuckets | src/main.rs:110-127 | each date's bucket is exactly the accepted files of that date, in listing order |
| Grouping.GroupedPaths | src/main.rs:110-127 | the buckets together hold each accepted path once |
| Grouping.GroupedExtends | src/main.rs:110-127 | scanning one more entry is one more loop step on the scan so far |
| Grouping.GroupedStops | src/main.rs:111-115 | once a prefix has failed, the whole scan fails the same way |
| Grouping.GroupImagesInDir | src/main.rs:105-130 | the loop returns exactly the scan's result, with `ListingFailed` for an unlistable directory |
| Prompts.FirstDecisive | src/main.rs:158-179 | the reply's next position lies after the starting position and within the input |
| Prompts.FirstDecisiveMeaning | src/main.rs:186-217 | the reply comes from the first decisive line, with every earlier line skipped; a read failure before it is fatal; the input runs out iff no line decides |
| Prompts.ReadUntilDecided | src/main.rs:186-217 | the read loop returns the first decisive line's answer and the position after it, or the first read failure, or end of input |
| Prompts.AskUserConfirmation | src/main.rs:157-180 | `ask_user_confirmation` settles on the first line that normalises to "y" or "n"; every line before it is asked again |
| Prompts.AskUserDirectoryName | src/main.rs:183-218 | `ask_user_directory_name` settles on the first line that is not blank once trimmed; every line before it is asked again |
| Prompts.BlankLinesAskAgain | src/main.rs:208-214 | a line asks again iff it is all whitespace |
| Prompts.ReservedWordsAreCommands | src/main.rs:195-207 | "n", "p" and "q", in either case and padded, are always Next, Previous and Exit, never a city |
| Prompts.ConfirmationWords | src/main.rs:166-174 | "y" and "n", in either case and padded, settle the confirmation with true and false |
| Prompts.CityNameStable | src/main.rs:208-211 | a city name is non-empty, not a reserved word, already normalised, and names the same city when typed again |
| Prompts.ClassifyOnlySeesNormalForm | src/main.rs:195 | both prompts give the same answer for a line and its normal form |
| Navigation.Next | src/main.rs:55 | `(image_idx + 1) % len` is always a valid index |
| Navigation.Previous | src/main.rs:56-62 | the step back from an index in range stays in range |
| Navigation.NextSteps | src/main.rs:55 | "n" steps forward, and from the last image wraps to the first |
| Navigation.NextTimesAdd | src/main.rs:55 | a + b presses of "n" are a presses followed by b presses |
| Navigation.NextTimesBelowEnd | src/main.rs:55 | k presses of "n" that do not pass the last image add k |
| Navigation.PreviousTimesAdd | src/main.rs:56-62 | a + b presses of "p" are a presses followed by b presses |
| Navigation.PreviousTimesAboveStart | src/main.rs:56-62 | k presses of "p" that do not pass the first image subtract k |
| Navigation.NextAndPreviousAreInverse | src/main.rs:55-62 | "p" undoes "n" and "n" undoes "p" on every index in range |
| Navigation.NextCycles | src/main.rs:55 | pressing "n" once per image comes back to the same image |
| Navigation.PreviousCycles | src/main.rs:56-62 | pressing "p" once per image comes back to the same image |
| Relocation.DirPrefixStartsDirName | src/main.rs:80-83 | every folder name of a date starts with `DD-MM-YYYY_` |
| Relocation.DirNameRoundTrip | src/main.rs:80-83 | for a four-digit year, the folder name gives back both its date and its city |
| Relocation.DirNameSplits | src/main.rs:83 | a folder name is its date's text, then the first underscore of the name, then the city |
| Relocation.DistinctDatesDistinctDirs | src/main.rs:80-83 | groups of different calendar dates, of any years, never share a folder, whatever their cities |
| Relocation.SourcesAppend | src/main.rs:91-100 | the files handled by two logs in a row are those of the first, then those of the second |
| Relocation.DirsAppend | src/main.rs:89 | the folders created by two logs in a row are those of the first, then those of the second |
| Relocation.MoveAllKeepsNames | src/main.rs:91-100 | the move loop creates no folder, shows nothing, moves each file into the folder under its own name, and moves only files whose rename works |
| Relocation.MoveAllSucceeds | src/main.rs:91-100 | the move loop succeeds iff no file that has a name fails to rename |
| Relocation.MoveAllHandlesAll | src/main.rs:91-100 | a move loop that succeeds has moved or skipped every file once, in order |
| Relocation.MoveAllStops | src/main.rs:95 | a failed move loop stopped at a named file whose rename fails, every earlier file having been skipped or renamed without error; it handled every earlier file and no later one |
| Relocation.MovesFor | src/main.rs:91-100 | the moves of a list of files have one effect per file |
| Relocation.MoveAllLog | src/main.rs:91-100 | the move loop's log is exactly the moves of a prefix of the files, in order, each into the folder under the file's own name or reported when it has none; all of the files when the loop succeeds |
| Relocation.MoveAllFailsFirst | src/main.rs:91-100 | every file the move loop handles is skipped or renamed without error, and a failed loop stops at the first named file whose rename fails, with that rename as its error |
| Relocation.StoppedAfterOne | src/main.rs:91-100 | handling one file before a loop that stopped at j stops the whole loop at j + 1 |
| Relocation.CopyImagesMeaning | src/main.rs:74-103 | a failed folder creation does nothing else; otherwise the folder is created first and is the only one created, nothing is shown, every move keeps its name, and the relocation succeeds iff no named file fails to rename, having then handled every file in order; every move is a rename that works, and a reported failure names a call that fails |
| Relocation.CopyImagesLog | src/main.rs:74-103 | a relocation's log is empty when the folder cannot be created, and otherwise is the folder's creation followed by the moves into that folder of the files before the first named file whose rename fails, which is then the error; all of the files when it succeeds |
| Relocation.CopyImagesNothingFails | src/main.rs:74-103 | where no file-system call fails, the relocation succeeds and handles every file |
| Relocation.CopyImagesHandlesPrefix | src/main.rs:74-103 | whatever fails, a relocation handles a prefix of the group's files, in order |
| Relocation.CreateDirAndCopyImages | src/main.rs:74-103 | the method's loop returns exactly the relocation's effects and error |
| Session.ShownIsHarmless | src/main.rs:50 | showing an image moves no file and creates no folder |
| Session.FlattenSplit | src/main.rs:43 | the files of a run of groups are the first group's files, then those of the rest |
| Session.NamesKeptAppend | src/main.rs:93-95 | two logs that keep file names keep them together |
| Session.NamesKeptEverywhere | src/main.rs:93-95 | a log whose moves each keep the file name keeps file names |
| Session.ShownOnlyAccounted | src/main.rs:53-54 | a run that stops having shown at most one image has touched no file |
| Session.ShownAccounted | src/main.rs:50 | showing an image keeps a run's account of files and folders |
| Session.FailedRelocationAccounted | src/main.rs:64 | a relocation that fails part-way has handled a prefix of its group, names kept |
| Session.RelocatedAccounted | src/main.rs:63-66 | a whole group moved into a folder for its date, then the run from the next group, keeps the account |
| Session.FileEffectsAppend | src/main.rs:42-69 | the file-system effects of two logs in a row are those of the first, then those of the second |
| Session.FileEffectsOfMoves | src/main.rs:91-100 | moving files shows nothing: the moves are all file-system effects |
| Session.RelocatesCons | src/main.rs:63-66 | a folder for the first group's date, then all of that group's files moved into it, in front of a relocation of the following groups, relocates all the groups |
| Session.RelocatesPartial | src/main.rs:91-100 | a folder for the group's date followed by the moves of a prefix of its files into it relocates that group part-way |
| Session.RelocationRelocates | src/main.rs:63-66 | one relocation creates a folder for its group's date and moves a prefix of the group's files into that very folder; when it succeeds, all of them |
| Session.RelocatedRelocates | src/main.rs:63-66 | a whole group moved into its folder, followed by effects that relocate the following groups, relocates all the groups |
| Session.NavigateRelocates | src/main.rs:42-69 | every folder a run creates starts with the date of the group being relocated, and every file is moved into the folder just created for its own group, under its own name, or reported when it has none; only the last group may stop part-way; every move is a rename that works, and a failed call the run stops on is one that fails |
| Session.RelocateRelocates | src/main.rs:63-66 | the same after a city name |
| Session.NavigateAccounts | src/main.rs:42-69 | files are handled group by group in date order, each at most once, names kept; unless a file-system call failed, whole groups only, one folder per group starting `DD-MM-YYYY_`; a completed run has relocated every group |
| Session.RelocateAccounts | src/main.rs:63-66 | the same account after a city name |
| Session.NavigateInBounds | src/main.rs:48 | `images[image_idx]` never panics when each group starts at its first image, or, with the index carried over, when no group is smaller than the one before it |
| Session.RelocateInBounds | src/main.rs:63-66 | the same bound after a city name |
| Session.NextThenTwoCities | src/main.rs:53-66 | the lines "n", x, y are Next, then city x, then city y |
| Session.LetterIsCity | src/main.rs:208-211 | a lone lower-case letter other than n, p and q is a city name |
| Session.CityNameStep | src/main.rs:63-65 | a city name shows the current image and relocates the group |
| Session.NextImageStep | src/main.rs:55 | "n" shows the current image and moves to the next one |
| Session.PreviousImageStep | src/main.rs:56-62 | "p" shows the current image and moves to the previous one |
| Session.RelocatedStep | src/main.rs:64-65 | a successful relocation goes on with the next group, with the index carried or reset |
| Session.CarriedIndexPanics | src/main.rs:42-66 | as written: groups of two files and one file, "n" then a city, and `images[1]` panics on the second group |
| Session.ResetIndexCompletes | src/main.rs:42-66 | with the index reset, the same replies and one more city relocate every file of both groups |
| Session.SessionInBounds | src/main.rs:35-72 | a whole session never panics on `images[image_idx]` when the index is reset, or when the groups never shrink |
| Session.SessionAccounts | src/main.rs:35-72 | nothing is touched without a "y" and a successful scan; names are kept; files are handled in group order, at most once; every folder created starts with its group's `DD-MM-YYYY_` and every file goes into the folder just created for its own group, moved under its own name or reported when it has no file name; a completed session has handled every accepted file in that way and created one dated folder per date, in ascending order |
| Session.SessionReportsTruly | src/main.rs:35-72 | every file a session reports as moved was renamed without error, and a failed file-system call it stops on is one that fails |
| Session.RunSession | src/main.rs:35-72 | `main` returns exactly the session's outcome and effects |
| Session.NavigateGroups | src/main.rs:42-69 | the loop over the groups returns exactly the navigation run |

## Left out

- `display_with_chafa` (src/main.rs:219-242) is an effect `Shown(path)`. The terminal rendering, the `libChafa` feature and the panic when `chafa` cannot be spawned are not modelled.
- `env::current_dir()` (src/main.rs:36) is left out. The session is given the listing of the working directory, so the folder names are relative to it as in the source.
- Printing (`println!`, `eprintln!`, `print!`) is left out, except the rename and "no file name" messages, which are the `Moved` and `NoFileName` effects.
- The `stdout().flush()?` calls (src/main.rs:160, 189) are assumed to succeed. Their error path is not modelled.
- The modification time is an input already converted to a local `Date`. The conversion of a `SystemTime` to local time (src/main.rs:117-118) depends on the time zone and is not modelled.
- `get_file_modified_date` (src/main.rs:141-154) is one input per entry, the date or its absence. The two ways it can fail, `metadata()` and `modified()`, give the same error, `MetadataFailed`.
- `Text.LowerChar`: lower-cases ASCII letters only; Unicode `to_lowercase` also lower-cases other letters. No other character lower-cases to an ASCII letter used in `n`, `p`, `q`, `y`, `jpeg`, `jpg` or `mp4`, so commands and the extension filter are exact. Non-ASCII capitals in a city name stay as typed in the model.
- `Text.IsWhitespace` is Rust's `char::is_whitespace` written out as the Unicode White_Space list.
- `Dates.FormatDateRoundTrip`: proved for years 0 to 9999 only, where `%Y` has four digits. Other years carry a sign in `Dates.FormatYear` as chrono writes them, but no round trip is claimed.
- `Relocation.DirNameRoundTrip`: for years 0 to 9999 only, for the same reason.
- The folder name is a string. How `Path::new` would split a city name that contains `/` into several components is not modelled.
- The file system is an oracle: which folder creations and which renames fail. `create_dir_all` on an existing folder succeeds, and that is not a failure in the oracle. Renames across devices and the files' contents are not modelled.
- End of input: `read_line` then returns an empty line and both prompts ask again forever. The model ends the session with `AwaitingInput` instead of a non-terminating loop.
- The process exit status and the error messages of `main` are the outcome `Aborted(reason)`.
- `usize` overflow cannot happen: the index is always below the group size when it is incremented (`Navigation.Next`), so unbounded integers are exact.

## Findings

| source | as written | input that shows it | evidently intended | confidence | as-written member | corrected member |
|---|---|---|---|---|---|---|
| src/main.rs:42-48 | `image_idx` is declared once before the loop over the date groups and never reset, so a group starts at the index the previous group ended on and `images[image_idx]` can panic | two date groups, the first with two files and the second with one; reply "y", then "n", then a city name: the first group is relocated from index 1, and `images[1]` on the second group panics | each group starts at its first image; every group is then shown and relocated and no index is out of bounds | not executed | Session.CarriedIndexPanics | Session.SessionInBounds |

The model carries both behaviours through a `resetIndex` flag of
`Session.Navigate`, `Session.Session` and `Session.RunSession`: `false` is the
code as written, `true` resets the index after each relocation.
`Session.ResetIndexCompletes` runs the input of the finding with the reset and
shows that both groups are relocated. `Session.SessionInBounds` proves for all
inputs that the reset never panics. As written, the program is proved safe
when no group has fewer files than the one before it; a group smaller than its
predecessor can make it panic, as the two-group input above shows.
