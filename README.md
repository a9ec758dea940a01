# python3-qt-transcode, modelled in Dafny

The repository converts a directory of FLAC files into MP3 files for a music library. It has two front ends:

- **the script** (`transcode.py`). The class `TranscodeDir` walks the directory tree. In every directory it classifies the files:
  - hidden files are skipped;
  - `folder.jpg` is copied to a cover-art directory, renamed after the album directory;
  - `.mp3` and `.m4a` files are copied to the library's import directory;
  - `.flac` files are read by the `metaflac` tool for seven tags, encoded in a temporary directory, and moved to the import directory.
- **the window** (`main.py`). A Qt window runs the same logic on a worker thread for a dropped directory. It differs from the script in three ways:
  - before each file it takes one message off a GUI-to-worker queue, and stops on `'Cancel'`;
  - it reports progress on a worker-to-GUI queue and ends with `'100%'`;
  - it returns after the first directory of the walk.

A third file, `settings.py`, merges a user's JSON settings into a defaults tree (`unify`). It also reduces a settings tree to its non-default part (`compress`).

The project has these modules:

| module | file | what it holds |
|---|---|---|
| `PyStr` | `py_str.dfy` | The Python string built-ins the code relies on, over ASCII (`upper`, `lower`, `capitalize`, `split()`, `split(sep)`, `sep.join`, `replace(pat, '')`, `startswith`, `endswith`), and a `Result` type whose `Raised` stands for an escaping exception. |
| `PosixPath` | `posix_path.dfy` | `os.path.basename` and `os.path.join`. |
| `Settings` | `settings.dfy` | `unify` and `compress`: a specification function for each, a loop method proved equal to it, and the round trip between them. |
| `Tags` | `tags.dfy` | `better_capitalize` and `transform_tag`. `main.py` and `transcode.py` hold identical copies of them. |
| `Dispatch` | `dispatch.dfy` | What both front ends do with one directory: the classification, the cover and output names, the copies, the tag reading, and one file's encode as an effect. |
| `TranscodeScript` | `transcode_script.dfy` | The script: every directory of the walk, each one in its own temporary directory. |
| `Window` | `window.dfy` | The class `DragDropWindow`, with its two queues and its flag as fields: the worker `transcode`, `start_transcoding`, `closeEvent` and `refresh_status`. |

File-system changes are values of the datatype `Dispatch.Effect` (save a cover, import a file, make or remove the temporary directory, encode a file with its tags). A run is specified as the sequence of effects it makes. The output of `metaflac --show-tag=NAME` is a function parameter `metaflac(path, NAME)`. The directories `os.walk` yields are a parameter `walk`.

The two destination directories are a parameter of type `Destinations`. `Dispatch.Configured` holds the two paths both programs have built in, and the entry points (`TranscodeCurrentDir`, `StartTranscoding`) use it.

## Model

| member | source | states |
|---|---|---|
| Settings.Contains | settings.py:28 | `key in user_settings`: a dict answers membership of its keys; None, a bool or an int raises. |
| Settings.Subscript | settings.py:30 | `user_settings[key]` answers exactly when the value is a dict that holds the key, and answers that key's value. |
| Settings.Unify | settings.py:8-40 | The result has exactly the defaults' keys. A key the user omits keeps its default. A leaf takes the user's value when its type matches the default's, and the default otherwise. A nested dict is the unification of the nested trees. |
| Settings.PyEq | settings.py:61 | Python's `==` on JSON values: every value equals itself, and two values of the same scalar type are equal only when they are the same (`True == 1` is the exception across types). |
| Settings.Compress | settings.py:43-64 | Only default keys are written. A leaf is written exactly when Python's `!=` finds it different from its default, and then with the current value. A nested dict is written exactly when its own compression is non-empty. A missing key raises. |
| Settings.UnifyConforms | settings.py:8-40 | Whatever the user file holds, a successful `unify` has the defaults' keys at every level, a dict wherever the default has one, and the default's type at every leaf. |
| Settings.UnifySucceedsOnFit | settings.py:27-38 | A user dict that gives a dict wherever the default has one is unified without an exception. |
| Settings.StringUserSettings | settings.py:28-30 | A JSON string where a dict is expected is searched for each key as a substring: no hit leaves the defaults, a hit raises. |
| Settings.UnifyEmptyUser | settings.py:37-38 | An empty user file yields the defaults. |
| Settings.UnifyConformingIsIdentity | settings.py:27-38 | Unifying a tree that already has the defaults' shape returns it unchanged. |
| Settings.UnifySelf | settings.py:8-40 | `unify(d, d) == d`. |
| Settings.UnifyIdempotent | settings.py:8-40 | `unify` is idempotent: unifying its own result changes nothing. |
| Settings.CompressOfDefaults | settings.py:43-64 | Compressing the defaults themselves yields the empty dict, so nothing is written (settings.py:109). |
| Settings.CompressRoundTripAsEqual | settings.py:8-64 | For every tree of the defaults' shape, `compress` succeeds, and unifying its result succeeds and gives a tree Python's `==` finds equal to the original. |
| Settings.CompressRoundTrip | settings.py:8-64 | For every tree of the defaults' shape whose leaves equal their defaults in Python's sense only when they are the same, `unify(d, compress(d, s)) == s` exactly. |
| Settings.EqualMeansSameWithoutLists | settings.py:67-78 | When no default is a list, as in the shipped defaults, every tree of the defaults' shape meets that condition, so the exact round trip holds. |
| Settings.BoolListRestoredAsInts | settings.py:61 | A list `[true]` saved against the default `[1]` is judged equal and not written, so the next `unify` yields `[1]`: the exact round trip fails for such trees. |
| Settings.SavedSettingsRoundTrip | settings.py:91-112 | The compressed file written after a `unify` unifies back to settings Python's `==` finds equal, and to the very same settings when equal leaves are the same. |
| Settings.CompressEmptyIffDefaults | settings.py:108-109 | For a tree of the defaults' shape, nothing is written exactly when Python's `==` finds the tree equal to the defaults. |
| Settings.CompressEmptyIffSame | settings.py:108-109 | When equal leaves are the same, nothing is written exactly when the tree is the defaults. |
| Settings.UnifySettings | settings.py:25-40 | The loop over the defaults, recursing into nested dicts, returns exactly `Unify`, including when it raises. |
| Settings.CompressSettings | settings.py:53-64 | The loop over the defaults returns exactly `Compress`, including when it raises. |
| Settings.CompressKey | settings.py:56-62 | One pass of the loop, recursing into a nested dict, computes exactly the entry `Compress` writes for the key. |
| Settings.IsInstanceAsWritten | settings.py:32 | `isinstance` accepts every value of the default's own type, and beyond that only a bool where the default is an int. |
| Settings.BoolForIntLostAsWritten | settings.py:32 | As written, `true` passes the type check for the default `1`, so the kept tree lacks the defaults' types; `compress` then writes nothing and the next `unify` yields `1`. The model's exact-type check yields `1` at once. |
| PyStr.UpperStr | main.py:39 | `str.upper`: the same length, every character upper-cased. |
| PyStr.Capitalize | main.py:26 | `str.capitalize`: the same length, the first character upper-cased and every other one lower-cased. |
| PyStr.Split | main.py:26 | `str.split()`: every piece is a non-empty run without whitespace. |
| PyStr.SplitOn | main.py:31 | `str.split('(')`: at least one piece, no piece holds the separator, and joining the pieces with it gives the string back. |
| PyStr.JoinWith | main.py:33 | `sep.join(pieces)`; `PyStr.SplitOn` states that it undoes the split. |
| PyStr.RemoveAll | main.py:39 | `replace(pat, '')` never lengthens the string; `PyStr.RemoveAllAbsent` states that a string without `pat` is unchanged. |
| PyStr.RemoveChar | main.py:40 | `replace('\n', '')` leaves no line break, adds no character, and leaves a string without line breaks unchanged. |
| PyStr.SplitJoinRoundTrip | main.py:26 | `' '.join` of non-empty words without blanks splits back into the same words. |
| PyStr.JoinedWordsNormalized | main.py:26 | Joining words with single blanks leaves no leading, trailing or doubled whitespace. |
| PyStr.RemoveAllAbsent | main.py:39 | `replace(pat, '')` of a string without `pat` is the string itself. |
| PyStr.RemoveCharConcat | main.py:40 | Removing a character from a concatenation removes it from each part. |
| PosixPath.Basename | main.py:167 | The basename has no `/`, is a suffix of the path, and is preceded by `/` whenever it is shorter than the path. |
| PosixPath.Join | main.py:172 | An absolute second part replaces the first. Otherwise the parts are concatenated when the first is empty or ends in `/`, and joined with exactly one added `/` when it does not. |
| PosixPath.BasenameAppend | main.py:167 | Appending a suffix without `/` appends it to the basename. |
| PosixPath.BasenameOfJoin | main.py:172 | The basename of `join(dir, name)` is `name` for a non-empty name without `/`. |
| PosixPath.BasenameOfSuffix | main.py:167 | A suffix holding a `/` alone decides the basename. |
| PosixPath.BasenameOfJoinAny | main.py:177 | The basename of `join(a, b)` is the basename of `b` whenever `b` does not end in `/`, so a copied file keeps its own name. |
| Tags.CapitalizeWords | main.py:26 | The capitalized words of the value joined by single blanks; `Tags.CapitalizeWordsShape` states its words and shape. |
| Tags.UpperInitials | main.py:29-33 | The string with its first character and every character after the separator upper-cased; `Tags.UpperFirstJoin` proves the bracket loop computes it. |
| Tags.BetterCapitalized | main.py:24-35 | `better_capitalize` as a value: it raises when a `(` is present and a piece between brackets is empty, and otherwise returns the capitalized words with the initials after `(` upper-cased. `Tags.BetterCapitalize`, `Tags.EmptyPieceIff` and `Tags.BetterCapitalizedShape` are proved about it. |
| Tags.CapitalizeEach | main.py:26 | Each word is capitalized in place, and there are as many results as words. |
| Tags.CapitalizeWordsShape | main.py:26 | Capitalizing the words keeps exactly the input's words, each capitalized. The result has no stray whitespace, and is upper case exactly at word starts. |
| Tags.EmptyPieceIff | main.py:31-32 | `split('(')` yields an empty piece, on which `word[0]` raises, exactly when the string is empty, starts or ends with `(`, or holds `((`. |
| Tags.UpperFirstJoin | main.py:31-33 | Upper-casing the first character of every piece and joining again upper-cases the first character and every character after a `(`, and changes nothing else. |
| Tags.NoParenUnchanged | main.py:29 | Without a `(` the bracket step would change nothing, so skipping it loses nothing. |
| Tags.UpperPieceInitials | main.py:30-33 | The loop over the pieces raises exactly on an empty piece, and otherwise returns the string with its initials upper-cased. |
| Tags.BetterCapitalize | main.py:24-35 | The method returns exactly `BetterCapitalized`: it raises IndexError exactly when a `(` is present and a piece between brackets is empty. |
| Tags.BetterCapitalizedShape | main.py:24-35 | A returned value has no leading, trailing or doubled whitespace. It is upper case at the start, after a blank and after `(`, and lower case elsewhere. |
| Tags.LeadingParenRaises | main.py:26-32 | A value whose first word starts with `(`, after any leading blanks, makes `better_capitalize` raise. |
| Tags.StripTag | main.py:39-40 | No line break survives the clean-up. |
| Tags.TransformTag | main.py:38-42 | The clean-up raises exactly when `better_capitalize` does. A returned tag has no line break and is normalized and title-cased. |
| Tags.StripToolLine | main.py:39-40 | For the tool's line `lineName=value`, where `lineName` is the queried name in any case, removing the prefix and the line break leaves exactly the upper-cased value. |
| Tags.TransformTagOfToolLine | transcode.py:122-126 | For the tool's line `lineName=value`, `lineName` being the queried name in any case, `transform_tag` is `better_capitalize` of the upper-cased value. |
| Dispatch.StripTrailingSlash | main.py:155-156 | One trailing `/` is removed; a path without one is unchanged. |
| Dispatch.CoverName | main.py:173-174 | The cover name ends in `.jpg`, and its stem has no `/`. |
| Dispatch.CoverNameOfDir | transcode.py:32-33 | A directory names its cover after its basename, given with or without a trailing `/`. |
| Dispatch.CoverNameOfAlbum | transcode.py:47-50 | A dragged album directory `path/album`, with or without a trailing `/`, saves its cover as `album.jpg`. |
| Dispatch.StripsOneSlash | main.py:155-156 | Only one trailing `/` is removed, so a directory given with two saves its cover as plain `.jpg`. |
| Dispatch.Classify | main.py:166-182 | The bucket of a file name, tested in the source's order; `Dispatch.ClassifyIff` states each bucket on its own. |
| Dispatch.ClassifyIff | main.py:166-182 | Each bucket on its own: cover art exactly for the basename `folder.jpg`; a copy exactly for a visible `.mp3` or `.m4a`; an encode exactly for a visible `.flac`. |
| Dispatch.OutputName | main.py:200 | The output name ends in `.mp3` and has no `/`. |
| Dispatch.OutputNameOfFlac | transcode.py:66 | `stem.flac` is encoded as `basename(stem).mp3`. |
| Dispatch.PlanFile | main.py:166-182 | A skipped file contributes nothing, every other file exactly one copy or one file to encode. Only a `.flac` file is left to encode. |
| Dispatch.PlanOf | main.py:165-182 | The plan of a directory: the plans of its files, in the order listed. `Dispatch.PlanOfConcat`, `Dispatch.ToTranscodeMembers`, `Dispatch.CopiesMembers` and `Dispatch.CoversShareOneName` are proved about it. |
| Dispatch.PlanFileCopies | main.py:170-177 | `folder.jpg` is saved as `join(cover_dir, basename(input_dir) + '.jpg')`. A visible `.mp3` or `.m4a` file is copied from `join(parent, name)` into the import directory under its own basename. Any other file is not copied. |
| Dispatch.PlanFileImport | main.py:176-177 | A file's plan imports it under its own name exactly when it is classified as a copy, and holds no import otherwise. |
| Dispatch.CopyImportsUnderName | main.py:176-177 | A file classified as a copy is imported under its own basename. |
| Dispatch.CopyEndsInName | main.py:176 | A file classified as a copy ends in its extension, not in `/`. |
| Dispatch.CopiesMembers | main.py:166-182 | A directory's copies are exactly the copies of its listed files. |
| Dispatch.ImportsListed | main.py:176-177 | Every listed visible `.mp3` or `.m4a` file is imported under its own name. |
| Dispatch.ImportsOnlyListed | main.py:176-177 | Every import of a directory is one of its listed visible `.mp3` or `.m4a` files, under its own name. |
| Dispatch.PlanOfConcat | main.py:166-182 | Classifying two lists of files one after the other is classifying their concatenation. |
| Dispatch.ToTranscodeMembers | main.py:178-179 | The files left to encode are exactly the listed visible `.flac` files. |
| Dispatch.PlanFileCover | main.py:170-174 | A file's plan saves a cover, if any, under the input directory's name. |
| Dispatch.CoversShareOneName | main.py:170-174 | Every cover of a directory is saved under the same name, so a later one overwrites an earlier one. |
| Dispatch.PlanDirectory | main.py:163-182 | The classification loop returns exactly the copies and the files to encode of `PlanOf`. |
| Dispatch.ReadTags | main.py:17-21 | The tags read one by one, stopping at the first clean-up that raises; `Dispatch.ReadTagsIff` states it. |
| Dispatch.ReadTagsIff | main.py:206-212 | Reading the tags succeeds exactly when every tag's clean-up does, and then yields each tag's value at its position. |
| Dispatch.MissingTagIsEmpty | main.py:17-21 | A tag the file lacks prints nothing, and becomes the empty value. |
| Dispatch.EncodeFile | main.py:199-232 | Encoding succeeds exactly when all seven tags can be read. It encodes `join(parent, name)` into the import directory under the `.mp3` name, carrying the seven tag values read from that file in the order the tool is asked for them. |
| TranscodeScript.EncodeAll | transcode.py:64-95 | The encodes of a directory's files up to the first raise; `TranscodeScript.EncodeAllIff` states it. |
| TranscodeScript.DirTrace | transcode.py:40-98 | One directory: its copies, the temporary directory, the encodes, and the removal unless an encode raised. `TranscodeScript.DirTempDirs` and `TranscodeScript.TranscodeOneDir` are proved about it. |
| TranscodeScript.WalkTrace | transcode.py:39-98 | The walk, directory by directory, stopping at the first exception. `TranscodeScript.WalkTraceConcat` and `TranscodeScript.TempDirsBalanced` are proved about it. |
| TranscodeScript.ScriptRun | transcode.py:29-98 | The script on an input directory: one trailing `/` removed, then the walk with the encoder that reads tags through the tool. `TranscodeScript.TranscodeCurrentDir` is proved against it. |
| TranscodeScript.EncodeAllIff | transcode.py:64-95 | The loop over a directory's files ends normally exactly when every file can be encoded, and then holds each file's encode, in order. |
| TranscodeScript.EncodeAllOnlyEncodes | transcode.py:64-95 | An encoder that yields only encodes yields only encodes over a whole directory. |
| TranscodeScript.WalkTraceConcat | transcode.py:39 | Walking two lists of directories one after the other is walking their concatenation: only an exception carries over from one directory to the next. |
| TranscodeScript.CopiesMakeNoTempDir | transcode.py:43-57 | Classification neither creates nor removes a temporary directory. |
| TranscodeScript.FramedTempDirs | transcode.py:59-98 | Copies and encodes framed by one temporary directory hold exactly one creation and one removal. |
| TranscodeScript.DirTempDirs | transcode.py:59-98 | A directory that ends normally creates and removes exactly one temporary directory. |
| TranscodeScript.TempDirsBalanced | transcode.py:39-98 | A run that ends normally creates one temporary directory per walked directory and removes each of them. |
| TranscodeScript.EncodeFiles | transcode.py:64-95 | The inner loop returns exactly `EncodeAll`: the encodes up to the first raise, and whether one raised. |
| TranscodeScript.TranscodeOneDir | transcode.py:40-98 | One pass of the outer loop makes exactly the effects of `DirTrace`. |
| TranscodeScript.TranscodeDir | transcode.py:29-98 | The script's loop over the walk makes exactly the effects of `WalkTrace`, on the input directory with one trailing `/` removed, and stops at the first exception. |
| TranscodeScript.TranscodeCurrentDir | transcode.py:129-130 | Running the script in a directory makes exactly the effects of `ScriptRun` with the built-in destinations. |
| Window.EncodeWithCancel | main.py:190-232 | The worker's encoding loop as a value. `Window.EncodeWithCancelCompletes`, `Window.EncodeWithCancelCompleted` and `Window.EncodeWithCancelShape` state it. |
| Window.TranscodeJob | main.py:144-239 | The worker's whole job on the first directory of the walk. `Window.CompletedRun`, `Window.CancelledBeforeFirstFile` and `Window.OnlyFirstDirectory` state it. |
| Window.Progresses | main.py:197 | The `n` statuses after `done` are `done + 1` to `done + n` of `total`, in order. |
| Window.EncodeWithCancelCompletes | main.py:190-194 | The worker's loop runs to its end exactly when no `'Cancel'` is among the messages it takes (one per file) and every file's tags can be read. |
| Window.EncodeWithCancelCompleted | main.py:190-232 | A loop that runs to its end has put one progress per file, taken one message per file while there were any, and encoded exactly what the script's loop encodes. |
| Window.EncodeWithCancelShape | main.py:190-232 | The loop puts only progress statuses and never removes the temporary directory. |
| Window.FinishedIffCompleted | main.py:235-239 | `'100%'` is put exactly when the worker runs to its end. Only then is the temporary directory removed; a cancelled or failed worker leaves it behind. |
| Window.CompletesIff | main.py:190-212 | The worker completes exactly when no `'Cancel'` is taken before a file and every file's tags can be read. |
| Window.CompletedRun | main.py:144-239 | A completed worker shows one progress per file and then `'100%'`, and does on the first directory exactly what the script does on it. |
| Window.CancelledBeforeFirstFile | main.py:192-194 | A `'Cancel'` waiting before the first file stops the worker before any encode or progress. The copies are made and the temporary directory stays. |
| Window.OnlyFirstDirectory | main.py:238-239 | Only the first directory of the walk is processed. |
| Window.Shown | main.py:133-142 | The statuses the status thread shows: those before the first `'100%'`; `Window.RefreshSplits` states it. |
| Window.LeftAfterRefresh | main.py:133-142 | The statuses left queued after the first `'100%'`; `Window.RefreshSplits` states it. |
| Window.RefreshSplits | main.py:133-142 | The status thread shows what precedes the first `'100%'`, takes the `'100%'`, and leaves the rest. It never shows `'100%'`. |
| Window.ShownBeforeFinished | main.py:133-142 | Statuses followed by `'100%'` are all shown, and nothing is left. |
| Window.StatusThreadStops | main.py:133-142 | After a completed worker, the status thread shows every progress and stops. After any other ending it shows what was put and keeps waiting. |
| Window.DragDropWindow.constructor | main.py:72-81 | Both queues start empty and no transcode is active. |
| Window.DragDropWindow.CloseEvent | main.py:94-105 | While a transcode runs, the window stays open and a confirmed close puts `'Cancel'`. Otherwise the window closes and no queue changes. |
| Window.DragDropWindow.RefreshStatus | main.py:133-142 | Takes and shows the queued statuses up to the first `'100%'`, and reports whether it saw one. |
| Window.DragDropWindow.EncodeQueued | main.py:190-232 | The worker's loop over the queues: its encodes, ending, GUI queue and status queue are exactly those of `EncodeWithCancel`. |
| Window.DragDropWindow.Transcode | main.py:144-239 | `transcode(input_dir)` makes exactly the effects, statuses and queue changes of `TranscodeJob`, and leaves the flag alone. |
| Window.DragDropWindow.StartTranscoding | main.py:107-131 | The worker runs with the built-in destinations, and the flag is cleared once it has ended. |

## Left out

- Floating-point JSON numbers are not modelled. Settings values are null, bool, int, string, list and dict.
- Dict order is not modelled. Which exception escapes `unify` or `compress` first, and its kind (KeyError, TypeError, IndexError), are not distinguished: every escaping exception is `Raised`.
- `Settings.Unify`: compares exact types, as line 15 of settings.py describes, instead of `isinstance`, which also admits a bool for an int default. See Findings.
- The `__main__` block of settings.py (reading and writing JSON files, printing) is left out. The round trip it relies on is `Settings.SavedSettingsRoundTrip`.
- `Settings.CompressRoundTrip`: the exact round trip is stated only for trees whose leaves equal their defaults in Python's sense only when they are the same. `compress` compares with Python's `==`, so a list such as `[true]` against the default `[1]` is dropped and comes back as `[1]` (`Settings.BoolListRestoredAsInts`). For every tree the round trip holds up to Python's `==` (`Settings.CompressRoundTripAsEqual`), and for the shipped defaults, which hold no list, it is exact (`Settings.EqualMeansSameWithoutLists`).
- `Settings.SavedSettingsRoundTrip`: restores the very same settings only under the condition of the line above; in general it restores settings Python's `==` finds equal.
- `Settings.CompressEmptyIffSame`: states "nothing is written exactly when the tree is the defaults" only under the same condition; `Settings.CompressEmptyIffDefaults` states it for every tree with Python's `==`.
- Character case and whitespace follow ASCII. Python's Unicode `upper`, `lower`, `capitalize` and `split()` are wider. UTF-8 decoding of the tool's output is not modelled.
- Running `metaflac`, `flac` and `lame` through a shell is not modelled. The tool's output is the parameter `metaflac`, and an encode is one `Encode` effect carrying the source, the destination and the seven tag values. The shell command line, quoting and exit statuses are not modelled.
- File-system calls (`shutil.copy`, `os.rename`, `os.mkdir`, `shutil.move`, `os.rmdir`) are abstract `Effect` values. A failing file-system call is not modelled.
- Creating the cover directory with `os.makedirs` is not modelled. Neither is the clock-based name of the temporary directory.
- `os.walk` is the parameter `walk`, in the order it yields directories.
- `Dispatch.Destinations` replaces the two paths built from `os.sep` and `os.path.join`. `Dispatch.Configured` holds them as literals.
- The Qt user interface is not modelled: the widget, drag and drop events, the status bar text, the confirmation dialog, and `__main__`. The dialog's answer is the `confirmed` parameter of `CloseEvent`.
- Threads are not modelled. `StartTranscoding` runs the worker to its end. The `'Cancel'` messages the user sends while the worker runs are modelled as the GUI queue's contents when the worker starts, taken one before each file.
- `Window.DragDropWindow.RefreshStatus`: models one pass over the statuses already queued. The half-second polling and the two-second pause after `'100%'` are left out. So is the endless wait when `'100%'` never comes.
- `wait_some_time` is a demonstration stand-in for `transcode` that nothing calls, and is left out.
- The progress text `'%.2f%%'` is modelled as the pair (file number, total) it is formatted from, because floating-point formatting is left out.
- The script's `print` calls are left out.

## Findings

| source | as written | input that shows it | evidently intended | confidence | as-written member | corrected member |
|---|---|---|---|---|---|---|
| settings.py:32 | `isinstance(user_settings[key], type(value))` accepts a bool where the default is an int, so `unify` keeps a value of another type than the default's. Line 61 then finds `True == 1`, so `compress` drops it and the setting silently reverts. | Default `{'size': 1}`, user file `{'size': true}`: `unify` keeps `true`, `compress` writes nothing, and the next `unify` yields `1`. | A value whose type differs from the default's is replaced by the default, as line 15 says, so a unified tree has the defaults' type at every leaf. | medium, not executed | Settings.BoolForIntLostAsWritten | Settings.UnifyConforms |
