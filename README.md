# Xbox compatibility layer: paths, asset lookup, directory listing, input and save folder

This project models, in Dafny, the sequential core of a small SDL2 / original Xbox
compatibility layer:

- `path_util.h`: the in-place separator normalisation and the bounded, truncating
  `join_path` over NUL-terminated character buffers (module `PathUtil`).
- `io.c`:
  - the five-candidate asset resolver `getFileLocation`, over five static buffers
    (class `Io.Resolver`);
  - the normalised `fileExists`;
  - the two-pass directory listing `getFileList`: count, allocate, rewind, collect,
    close, sort (module `Io`);
  - `x_snprintf` (module `CStrings`) and the `strcmp` comparator handed to `qsort`
    (module `StringOrder`).
- `dirent_compat.h`: the `opendir` / `readdir` / `rewinddir` / `closedir` emulation
  over the Win32 native search, and the pattern builder `_dir_make_pattern`
  (module `DirentCompat`). A `DIR` handle is a class with the saved pattern, the
  native search (its listing and cursor), `ffd` and `first_read`. The shared static
  `dirent` is a `Dirent` object passed to every call.
- `input.c`: the SDL event handlers (module `Input`).
  - The `app` arrays and the two static arrays of the joystick edge detector are
    fields of class `InputState`, and each handler is a method on it.
  - A value-level model of one button (`Button`, `Step`, `EdgeFrames`) states the
    one-edge-per-press property.
- `win32Init.c`: `ensure_trailing_slash`, `try_make_dir`, `is_writable_dir` and the
  candidate loop of `createSaveFolder` (module `Win32Init`).

The model fixes the Xbox build.

- `DIR_SEP_CHAR` is `'\\'`, normalisation turns `'/'` into `'\\'`, and `DATA_DIR`
  is `"D:\\assets"` (`src/build_defs.h:5`).
- A C string is an `array<char>` buffer that `Holds` a `string` with no NUL inside,
  followed by a NUL.
- A `char` stands for one byte of a narrow (ANSI, FindFirstFileA) C string, so the
  lengths `NAME_MAX - 1` and `cap - 1` count bytes, and `StringOrder.StrCmp`
  compares bytes read as unsigned, as strcmp does.
- A `const char*` argument is an `Option<string>`, where `None` is NULL.
- `MAX_FILENAME_LENGTH` is the parameter `cap`, the length of the buffers.

The operating system is a set of oracles passed as parameters:

- `stat` stands for `_stat` and `isFile` for a successful `fopen(.., "rb")`.
- A `FileSystem` maps a search pattern to the entries FindFirstFileA/FindNextFileA
  produce; an empty list means FindFirstFileA failed.
- `dirAllocOk` and `alloc` are the outcomes of each `malloc`.
- `createDir` and `mkdir` give the outcome of CreateDirectoryA and `_mkdir`.
- `canWrite` says whether the probe `fopen(.., "wb")` succeeds.

Each imperative operation is a method proved against a specification function:
`JoinPath` against `JoinedPath`, `GetFileLocation` against `Resolve`, `GetFileList`
against `FileList`, and `CreateSaveFolder` against `SaveDir`.
The lemmas beside each function state what the source promises of it: the order in
which candidates are tried, sortedness and permutation, the first success, and the
separator at the seam of a join.

`getFileList` returns NULL with count 0 for a directory whose entries all start with
'.', so a caller cannot tell it from a directory that does not resolve
(`src/system/io.c:265-303`). The model follows the code (`Io.Collected`,
`Io.FileListShape`).

## Model

| member | source | states |
|---|---|---|
| `CStrings.StrlenOf` | src/path_util.h:36 | the counting loop `while (out[n]) n++` (also strlen at src/plat/win32/win32Init.c:62) stops at the first NUL: its count is the length of the C string the buffer holds |
| `CStrings.StrNCpy` | src/dirent_compat.h:79 | strncpy: the first `n` characters are `src` cut to `n` and padded with NULs; nothing at or beyond `n` is written, and no terminator is added when `src` has `n` characters or more |
| `CStrings.StrNCpyTerminated` | src/plat/win32/win32Init.c:110-111 | strncpy of `n - 1` characters followed by `dst[n-1] = 0`: the buffer holds `src` cut to `n - 1` characters, padded with NULs up to `n`; nothing beyond `n` is written |
| `CStrings.XSnprintf` | src/system/io.c:40-49 | x_snprintf (the same code as src/plat/win32/win32Init.c:35-50): with NULL `dst` or `n == 0` it writes nothing and returns 0; otherwise `dst` holds the text cut to `n - 1` characters, `dst[n-1]` is NUL, nothing else past the copy changes, and the result is the text's length, or -1 when it did not fit |
| `PathUtil.Normalize` | src/path_util.h:15 | the value the in-place loop leaves: same length, each character mapped on its own, '/' to '\\' and all else unchanged |
| `PathUtil.NormalizeSeparatorsInPlace` | src/path_util.h:11-20 | NULL is a no-op; otherwise every character before the terminator is normalised ('/' becomes '\\', all else unchanged), and the terminator and everything after it are unchanged |
| `PathUtil.NormalizeClean` | src/path_util.h:15 | a normalised string has no '/', and normalisation adds no terminator |
| `PathUtil.NormalizeIdempotent` | src/path_util.h:11-20 | normalising twice equals normalising once |
| `PathUtil.NormalizeKeeps` | src/path_util.h:15 | a string without '/' is unchanged by normalisation |
| `PathUtil.NormalizeAppend` | src/path_util.h:15 | normalisation distributes over concatenation |
| `PathUtil.NormalizeTake` | src/path_util.h:37-40 | normalising a truncated string equals truncating the normalised string |
| `PathUtil.NormalizeHeld` | src/path_util.h:40 | a buffer that holds `t` holds the normalised `t` after normalisation, and nothing after the terminator changes |
| `PathUtil.StripLeadingSeps` | src/path_util.h:35 | every dropped character is a separator, the rest does not start with one, and no NUL is introduced |
| `PathUtil.StripLeadingSepsAt` | src/path_util.h:35 | stopping at the first non-separator gives exactly the stripped leaf |
| `PathUtil.SkipLeadingSeps` | src/path_util.h:35 | the skip loop stops at an index whose suffix is the stripped leaf |
| `PathUtil.SepAfter` | src/path_util.h:30-31 | at most one separator, and only '\\', is inserted after the base |
| `PathUtil.JoinedPath` | src/path_util.h:26-40 | the unbounded join is as long as base, inserted separator and stripped leaf together |
| `PathUtil.JoinedPathClean` | src/path_util.h:26-40 | the joined path has no '/', and no NUL when base and leaf have none |
| `PathUtil.CopyBounded` | src/path_util.h:27-29 | the base copy loop leaves the base cut to `outsz - 1` characters, terminated, and writes nothing past the terminator |
| `PathUtil.JoinBase` | src/path_util.h:24-33 | after the base half, the buffer holds base plus the separator where one is needed, cut to `outsz - 1` characters |
| `PathUtil.CopyAt` | src/path_util.h:37-38 | the leaf copy loop stops at the end of the leaf or when only the terminator still fits, copies the leaf's characters in order, and terminates them |
| `PathUtil.AppendBounded` | src/path_util.h:36-38 | appending to a buffer that holds `p` leaves `p` followed by as much of the rest as fits in `outsz - 1` characters |
| `PathUtil.JoinLeaf` | src/path_util.h:34-39 | after the leaf half, the buffer holds what was there followed by the stripped leaf, cut to `outsz - 1` characters in all |
| `PathUtil.RawJoinSplit` | src/path_util.h:26-39 | the truncated join is what the base half writes, followed by what the leaf half still has room for |
| `PathUtil.NormalizeRawJoin` | src/path_util.h:40 | normalising the truncated raw join gives the normalised join truncated |
| `PathUtil.JoinRaw` | src/path_util.h:25-39 | before normalisation, the buffer holds base, separator and stripped leaf, truncated, and nothing past the terminator is written |
| `PathUtil.JoinPath` | src/path_util.h:23-41 | join_path: with NULL `out` or `outsz == 0` nothing is written; otherwise `out` holds the normalised join truncated to `outsz - 1` characters, and nothing past its terminator (so nothing at or beyond `outsz`) is written |
| `PathUtil.JoinFits` | src/path_util.h:26-40 | when the join fits, nothing is lost: normalised base, separator and stripped leaf |
| `PathUtil.JoinEmptyBase` | src/path_util.h:26-40 | with a NULL or empty base, the result is the normalised, stripped leaf, truncated |
| `PathUtil.JoinPlain` | src/path_util.h:26-40 | a normalised base that does not end in a separator, joined with a leaf that does not start with one, gives base, '\\', normalised leaf |
| `PathUtil.JoinSeam` | src/path_util.h:30-35 | exactly one separator at the seam: '\\' after a base that does not end in one, and the leaf contributes none |
| `DirentCompat.MakePattern` | src/dirent_compat.h:35-44 | the pattern is the path cut to NAME_MAX - 3 characters, then '\\' exactly when the path is non-empty and the kept part does not end in a separator, then '*'; its length is below NAME_MAX |
| `DirentCompat.MakePatternPlain` | src/dirent_compat.h:35-44 | a path that fits and does not end in a separator gives `path\*` |
| `DirentCompat.MakePatternEmpty` | src/dirent_compat.h:39-43 | the empty path gives `*` |
| `DirentCompat.Visible` | src/dirent_compat.h:76-77 | the entries readdir hands out are native entries other than "." and ".." |
| `DirentCompat.VisibleAppend` | src/dirent_compat.h:76-77 | skipping dot entries works piece by piece along the native stream |
| `DirentCompat.DName` | src/dirent_compat.h:79-80 | the d_name field readdir leaves: always NAME_MAX characters, the native name cut to NAME_MAX - 1 and padded with NULs |
| `DirentCompat.DNameHolds` | src/dirent_compat.h:79-80 | d_name holds the native name cut to NAME_MAX - 1 characters, and starts with '.' exactly when the name does |
| `DirentCompat.Dirent.constructor` | src/dirent_compat.h:23-26 | the static dirent: a d_name of NAME_MAX characters |
| `DirentCompat.Dir.constructor` | src/dirent_compat.h:47-51 | a zeroed handle holding the given pattern, with no search running and `first_read` clear |
| `DirentCompat.Dir.Stream` | src/dirent_compat.h:65-83 | the entries the coming readdir calls return, in order: the pending native entries without "." and "..", still a well-formed listing |
| `DirentCompat.Dir.FindFirst` | src/dirent_compat.h:52 | the search starts over the pattern's listing; it runs exactly when the listing is not empty, and then `ffd` is the first entry |
| `DirentCompat.Dir.FindNext` | src/dirent_compat.h:73 | FindNextFileA succeeds exactly when a search is running and another entry follows, and then advances the cursor by one |
| `DirentCompat.Dir.FindClose` | src/dirent_compat.h:88 | the search stops; the listing and cursor are kept |
| `DirentCompat.OpenDir` | src/dirent_compat.h:46-62 | NULL exactly when malloc fails or the first search finds nothing, and then the handle is freed and no search is left running; otherwise the handle holds the pattern, `first_read` is set, and the whole listing is pending |
| `DirentCompat.NextNative` | src/dirent_compat.h:69-74 | the first read after open or rewind hands out `ffd` without advancing, and later reads advance first; either way the entry handed out is the first pending one |
| `DirentCompat.CopyEntry` | src/dirent_compat.h:79-81 | d_name becomes the name cut to NAME_MAX - 1 characters and NUL-padded, and d_type is the attributes unchanged |
| `DirentCompat.ReadDir` | src/dirent_compat.h:65-83 | NULL for a NULL handle or an exhausted search; otherwise the next entry that is not "." or "..", copied into the shared dirent, with the stream advanced past it; on NULL the shared dirent keeps what an earlier call wrote |
| `DirentCompat.RewindDir` | src/dirent_compat.h:85-92 | the search restarts from the saved pattern; `first_read` is set exactly when the restart finds entries, and the handle yields the listing again from the start |
| `DirentCompat.CloseDir` | src/dirent_compat.h:94-99 | -1 for NULL; otherwise the search is closed, the handle freed, and the result 0 |
| `StringOrder.StrCmp` | src/system/io.c:85 | strcmp is 0 on equal strings |
| `StringOrder.StringComparator` | src/system/io.c:81-86 | the comparator is 0 exactly on equal names, and negative exactly when the swapped comparison is positive |
| `StringOrder.StrCmpZero` | src/system/io.c:85 | for NUL-free strings, strcmp is 0 exactly when they are equal |
| `StringOrder.StrCmpAntisymmetric` | src/system/io.c:85 | swapping the arguments negates strcmp |
| `StringOrder.StrCmpTransitive` | src/system/io.c:85 | the strcmp order is transitive on NUL-free strings |
| `StringOrder.StrCmpTotal` | src/system/io.c:85 | any two strings are ordered one way or the other |
| `StringOrder.SortStrings` | src/system/io.c:300-301 | the sorted names are a permutation of the names |
| `StringOrder.SortStringsSorted` | src/system/io.c:300-301 | the sorted names are in ascending strcmp order |
| `StringOrder.SortedPermutationUnique` | src/system/io.c:300-301 | two sorted permutations of the same NUL-free names are equal, so every correct sort gives the same array |
| `StringOrder.SortShort` | src/system/io.c:300 | fewer than two names are already sorted, which is why qsort is skipped for them |
| `StringOrder.QSort` | src/system/io.c:300-301 | after qsort the array holds its names in strcmp order |
| `Io.FirstPresent` | src/system/io.c:104-157 | the index of the first present path: all earlier paths are absent, and it is present unless it is past the end |
| `Io.FirstPresentIs` | src/system/io.c:104-157 | a present index preceded only by absent paths is the first present one |
| `Io.StripDataPrefix` | src/system/io.c:138-139 | exactly five characters are dropped exactly when the name starts with "data/" or "data\\"; otherwise the name is unchanged |
| `Io.AsIs` | src/system/io.c:105-106 | candidate 0 fits its buffer |
| `Io.UnderDataDir` | src/system/io.c:114 | candidates 1 to 3 fit their buffers |
| `Io.DataLeaf` | src/system/io.c:125-126 | the leaf of candidate 2 fits its buffer |
| `Io.LastShot` | src/system/io.c:150-151 | candidate 4 fits its buffer |
| `Io.Candidates` | src/system/io.c:104-157 | there are five candidates, tried in the fixed order, and each fits in `cap - 1` characters |
| `Io.CandidatesFit` | src/system/io.c:94-98 | every candidate fits a MAX_FILENAME_LENGTH buffer |
| `Io.PickFirst` | src/system/io.c:108-157 | the first path `stat` finds, tried in order; a result is one of the paths and present |
| `Io.Resolve` | src/system/io.c:104-164 | getFileLocation's value: the first present candidate, or None; a result is a present candidate |
| `Io.PickFirstSpec` | src/system/io.c:108-164 | picking the first present path gives None exactly when every path is absent, and otherwise a present path preceded only by absent ones |
| `Io.ResolveFirst` | src/system/io.c:104-164 | the resolution is None exactly when no candidate exists, and otherwise a present candidate that fits, with every earlier candidate absent |
| `Io.ResolveAt` | src/system/io.c:104-164 | candidate `k` is the result when it is present and every earlier one is absent; with none present the result is None |
| `Io.AsIsWins` | src/system/io.c:104-111 | when the normalised name exists, it is the result whatever else exists |
| `Io.ResolveSecond` | src/system/io.c:113-120 | candidate 1 wins when candidate 0 is absent and it is present |
| `Io.ResolveThird` | src/system/io.c:122-134 | candidate 2 wins when candidates 0 and 1 are absent and it is present |
| `Io.AsIsNoSlash` | src/system/io.c:105-106 | candidate 0 has no '/' |
| `Io.UnderDataDirNoSlash` | src/system/io.c:114 | a path joined under DATA_DIR has no '/' |
| `Io.CandidatesNoSlash` | src/system/io.c:104-157 | no candidate has a '/' |
| `Io.ResolvedNoSlash` | src/system/io.c:104-164 | a resolved path uses only '\\' |
| `Io.DataDirNormal` | src/build_defs.h:5 | DATA_DIR is non-empty, does not end in a separator and is already normalised |
| `Io.DataDirJoin` | src/system/io.c:114 | a leaf that does not start with a separator is joined under DATA_DIR with exactly one '\\' |
| `Io.PrefixedCandidate` | src/system/io.c:113-120 | with room, "data/x" becomes DATA_DIR\data\x through candidate 1 |
| `Io.BareCandidate` | src/system/io.c:122-134 | with room, "x" becomes DATA_DIR\data\x through candidate 2 |
| `Io.BareEarlierShorter` | src/system/io.c:104-120 | with room, candidates 0 and 1 of "x" are shorter than DATA_DIR\data\x, so they cannot be that path |
| `Io.PrefixedResolves` | src/system/io.c:113-120 | "data/x" resolves to DATA_DIR\data\x when only that file exists |
| `Io.BareResolves` | src/system/io.c:122-134 | "x" resolves to DATA_DIR\data\x when only that file exists |
| `Io.DataPrefixConverges` | src/system/io.c:113-147 | "data/x" and "x" resolve to the same file under DATA_DIR\data when only it exists |
| `Io.Resolver.constructor` | src/system/io.c:94-98 | the five static buffers, each of `cap` characters and all distinct |
| `Io.Resolver.GetFileLocation` | src/system/io.c:92-165 | NULL for NULL; otherwise NULL exactly when no candidate exists, else the result is `resolved`, holding the first present candidate; on NULL `resolved` is left holding candidate 0, the normalised name, so a pointer from an earlier call now reads that; when the normalised name exists, none of the four DATA_DIR buffers is written |
| `Io.Resolver.Found` | src/system/io.c:116-120 | a present candidate after only absent ones is the resolution, and is copied into `resolved` |
| `Io.Resolver.From1` | src/system/io.c:113-164 | from candidate 1 on: NULL exactly when no candidate exists, else `resolved` holds the resolution; on NULL `resolved` is not written |
| `Io.Resolver.From2` | src/system/io.c:122-164 | from candidate 2 on: NULL exactly when no candidate exists, else `resolved` holds the resolution; on NULL `resolved` is not written |
| `Io.Resolver.From3` | src/system/io.c:136-164 | from candidate 3 on: NULL exactly when no candidate exists, else `resolved` holds the resolution; on NULL `resolved` is not written |
| `Io.Resolver.From4` | src/system/io.c:149-164 | the last candidate: NULL when it is absent too, and then `resolved` is not written; else `resolved` holds it |
| `Io.Resolver.TryAsIs` | src/system/io.c:104-108 | `resolved` holds candidate 0, and the test reports whether it exists |
| `Io.Resolver.TryUnderDataDir` | src/system/io.c:113-116 | pathA holds candidate 1, and the test reports whether it exists |
| `Io.Resolver.TryUnderDataDirData` | src/system/io.c:122-129 | pathB holds candidate 2, and the test reports whether it exists |
| `Io.Resolver.TryStripped` | src/system/io.c:136-142 | pathC holds candidate 3, and the test reports whether it exists |
| `Io.Resolver.TryLastShot` | src/system/io.c:149-153 | pathD holds candidate 4, and the test reports whether it exists |
| `Io.Resolver.JoinUnderDataDir` | src/system/io.c:114-116 | the buffer holds the join under DATA_DIR cut to fit, and the test reports whether it exists |
| `Io.Resolver.CopyBack` | src/system/io.c:118 | `resolved` holds the winning scratch path |
| `Io.SnprintfNormalized` | src/system/io.c:105-106 | the buffer holds the text cut to fit, then normalised |
| `Io.CheckPresent` | src/system/io.c:55-69 | an empty path never exists; otherwise the oracle decides |
| `Io.FileExists` | src/system/io.c:72-79 | 0 for NULL; otherwise the name cut to MAX_FILENAME_LENGTH - 1 characters and normalised is opened |
| `Io.Listed` | src/system/io.c:262 | the filter of both passes (also line 280): an entry is kept when its name does not start with '.' |
| `Io.StoredName` | src/system/io.c:282-290 | what STRNCPY leaves in a name buffer: a prefix of the native name, shorter than MAX_FILENAME_LENGTH and than NAME_MAX |
| `Io.Names` | src/system/io.c:278-293 | the names the second pass stores, in stream order: the stored names of the kept entries, no more names than entries |
| `Io.Collected` | src/system/io.c:265-301 | the count, the mallocs and the sort: None when nothing is kept or a malloc fails; a result is non-empty and a permutation of the kept names |
| `Io.Listing` | src/system/io.c:252-303 | getFileList on a resolved path: None when opendir fails, otherwise what `Collected` gives; a result needs a successful malloc of the DIR and is non-empty |
| `Io.FileList` | src/system/io.c:234-304 | getFileList's value: None for NULL or an unresolved directory, otherwise `Listing` of the resolved path; a result comes from a resolved directory and is non-empty |
| `Io.NamesAppend` | src/system/io.c:278-293 | the kept names of a stream are the kept names of its parts, in order |
| `Io.NamesShown` | src/system/io.c:280-290 | every kept name is the stored name of an entry whose name does not start with '.' |
| `Io.KeepOne` | src/system/io.c:280-291 | reading one more entry keeps its stored name exactly when its name does not start with '.' |
| `Io.FileListShape` | src/system/io.c:259-303 | a returned listing is non-empty, ascending in strcmp order, and a permutation of the names of the directory that do not start with '.' |
| `Io.ReadListed` | src/system/io.c:260-262 | readdir returns the next entry of the stream, and the filter tests its name's first character |
| `Io.CountPass` | src/system/io.c:259-263 | the first pass reads the handle dry and counts the names that do not start with '.' |
| `Io.CopyName` | src/system/io.c:282-290 | a name buffer holds d_name cut to MAX_FILENAME_LENGTH - 1 characters |
| `Io.CollectOne` | src/system/io.c:278-291 | one readdir of the second pass: the next name is stored when it is kept and its malloc succeeds; the pass fails exactly at a failed malloc |
| `Io.CollectStep` | src/system/io.c:278-293 | one round either continues on a shorter stream with the names so far stored, or ends with every name stored, or stops at a failed malloc |
| `Io.CollectPass` | src/system/io.c:277-293 | the second pass succeeds exactly when every name's malloc succeeds, and then the array holds the kept names in stream order; otherwise it stops at the first failed malloc |
| `Io.FreeNames` | src/system/io.c:284-285 | the failure path frees the `i` name buffers allocated so far |
| `Io.ListOpen` | src/system/io.c:259-303 | after a successful opendir: NULL (count 0, nothing left allocated) when nothing is kept or a malloc fails; otherwise a fresh array of the kept names in strcmp order, with count equal to its length; the handle is closed on every path |
| `Io.ListDirectory` | src/system/io.c:252-303 | opendir and the two passes: NULL with count 0 and nothing left allocated when opendir fails, nothing is kept or a malloc fails; otherwise the sorted names; the handle, when allocated, ends up closed with its search closed |
| `Io.GetFileList` | src/system/io.c:234-304 | NULL with count 0 for NULL or an unresolved directory; otherwise the listing of the resolved path, as `ListDirectory` states; the handle, when allocated, ends up closed with its search closed |
| `Input.AxisValue` | src/system/input.c:129-133 | the value doJoyAxis stores: the reading, negated for axes 1 and 3, so it is the reading or its negation |
| `Input.HatButton` | src/system/input.c:141-144 | the D-pad slot value for one hat bit: 1 when the bit is set, otherwise 0 |
| `Input.AxisValueInvolution` | src/system/input.c:129-133 | only the Y axes 1 and 3 change sign, magnitude is kept, and inverting twice gives the raw reading |
| `Input.HatAxis` | src/system/input.c:154-166 | the axis is driven to AXIS_MAX exactly when the positive bit is set, to AXIS_MIN exactly when only the negative bit is set, and to 0 when neither is |
| `Input.Step` | src/system/input.c:99-122 | a new frame clears the edge; a down event marks the button down and raises the edge exactly when it was not down already; an edge only appears through such a down |
| `Input.EdgeFrames` | src/system/input.c:48-52 | the number of frames in which getJoypadButtonPressedOnce reports the button, at most one per frame |
| `Input.HeldButtonOneEdge` | src/system/input.c:105-108 | with no up event, a button is reported pressed once in at most one frame, and never once it is down and its frame has passed |
| `Input.RepeatedDownNoEdge` | src/system/input.c:105-108 | after a press and a new frame, a repeated down leaves the edge clear, and the press is reported once |
| `Input.InputState.constructor` | src/system/input.c:35-36 | zeroed arrays: no button down, no edge |
| `Input.InputState.BeginInputFrame` | src/system/input.c:39-45 | every edge flag is cleared and nothing else changes |
| `Input.InputState.PressedOnce` | src/system/input.c:48-52 | the result is 1 exactly when the button is in range and its edge flag is set, else 0 |
| `Input.InputState.PressedOnceIsEdge` | src/system/input.c:48-52 | pressed-once is exactly the edge of the button model |
| `Input.InputState.KeyUp` | src/system/input.c:56-62 | a non-repeat release of a key in range clears that key only; otherwise nothing changes |
| `Input.InputState.KeyDown` | src/system/input.c:64-71 | a non-repeat press of a key in range sets that key and `lastKeyPressed`; otherwise nothing changes |
| `Input.InputState.MouseDown` | src/system/input.c:73-79 | a button in range is set; otherwise nothing changes |
| `Input.InputState.MouseUp` | src/system/input.c:81-87 | a button in range is cleared; otherwise nothing changes |
| `Input.InputState.MouseWheel` | src/system/input.c:92-96 | y == -1 sets X1, y == 1 sets X2, any other amount changes nothing |
| `Input.InputState.ButtonDown` | src/system/input.c:99-112 | a press in range raises the edge only if the button was not down, sets prev and held, and records the last button; any other event changes nothing |
| `Input.InputState.ButtonUp` | src/system/input.c:114-122 | a release in range clears prev and held and leaves the edge alone; any other event changes nothing |
| `Input.InputState.JoyAxis` | src/system/input.c:125-135 | an axis in range stores the reading, negated for axes 1 and 3; an axis out of range changes nothing |
| `Input.InputState.JoyHat` | src/system/input.c:138-168 | D-pad slots 20 to 23 mirror the four hat bits; axis 0 or 1 is overwritten only inside the dead zone, right over left and down over up, 0 when neither bit is set; other axes are unchanged |
| `Win32Init.TrailingSlashed` | src/plat/win32/win32Init.c:60-67 | '\\' is appended exactly when the string is non-empty, does not end in '\\' and the result fits; otherwise the string is unchanged |
| `Win32Init.TrailingSlashIdempotent` | src/plat/win32/win32Init.c:60-67 | ensuring the trailing slash twice equals doing it once |
| `Win32Init.ForwardSlashStillExtended` | src/plat/win32/win32Init.c:63 | a path ending in '/' still gets a '\\' |
| `Win32Init.EnsureTrailingSlash` | src/plat/win32/win32Init.c:60-67 | the buffer holds the string with its trailing '\\', and is untouched when none is added |
| `Win32Init.Prepared` | src/plat/win32/win32Init.c:110-119 | a candidate's folder path: cut to fit the buffer, with '\\' appended by ensure_trailing_slash, and shorter than the buffer |
| `Win32Init.Usable` | src/plat/win32/win32Init.c:113-124 | a candidate passes when try_make_dir succeeds on it and the probe in its prepared folder can be written |
| `Win32Init.TryMakeDir` | src/plat/win32/win32Init.c:69-81 | success exactly when CreateDirectoryA or the `_mkdir` fallback made the folder or found it there |
| `Win32Init.ProbePath` | src/plat/win32/win32Init.c:86 | the probe path is the folder followed by the probe name, cut to fit the buffer |
| `Win32Init.IsWritableDir` | src/plat/win32/win32Init.c:83-93 | the folder is writable exactly when the probe file can be opened for writing |
| `Win32Init.FirstUsable` | src/plat/win32/win32Init.c:107-129 | the index of the first candidate that passes, every earlier one having failed |
| `Win32Init.FirstUsableIs` | src/plat/win32/win32Init.c:107-129 | a passing index preceded only by failures is the first passing one |
| `Win32Init.SaveDir` | src/plat/win32/win32Init.c:95-135 | `app.saveDir` after createSaveFolder: the first passing candidate, prepared, or the empty string; it fits the buffer |
| `Win32Init.SaveDirChoice` | src/plat/win32/win32Init.c:95-135 | the save folder is empty exactly when every candidate fails; otherwise it is the first passing candidate, prepared, and ends in '\\' unless it fills the buffer |
| `Win32Init.TryCandidate` | src/plat/win32/win32Init.c:107-128 | a candidate passes exactly when its folder can be made and probed; then saveDir holds it with its trailing '\\'; otherwise saveDir is untouched |
| `Win32Init.CreateSaveFolder` | src/plat/win32/win32Init.c:95-135 | saveDir ends up holding the first passing candidate with its trailing '\\', or the empty string; no candidate after the chosen one is tried |

## Left out

- `readFile` and `writeFile` in `src/system/io.c` are file I/O through fopen, fseek,
  fread and fprintf, and are not modelled.
- `doInput` (SDL_PollEvent, SDL_GetMouseState and the `exit(0)` on quit) and all
  logging (SDL_Log, IO_LOG) have no effect on the modelled state, and are not modelled.
- `_stat`, `fopen`, FindFirstFileA/FindNextFileA (the `FileSystem` function), the
  outcomes of `malloc` (`dirAllocOk`, `alloc`), CreateDirectoryA/`_mkdir`/`GetLastError`
  and the probe file's `fopen` are oracle parameters. FindClose is the method
  `DirentCompat.Dir.FindClose`, which stops the search; `free` is not a call of the
  model.
  - The probe's `fwrite`, `fclose` and `remove` are not modelled.
  - Freed memory is tracked only as a ghost count of live buffers (`held`).
- Only the Xbox/Win32 build is modelled. The POSIX branch of
  `normalize_separators_inplace` (`'\\'` to `'/'`) and `vsnprintf` in `x_snprintf`
  are not part of this model.
- The static buffers of `getFileLocation` and the static `dirent` of `readdir` are
  modelled single-threaded: a later call overwrites what an earlier one returned.
  Concurrent use is not modelled.
- `MAX_FILENAME_LENGTH` (the parameter `cap`), `MAX_KEYBOARD_KEYS`,
  `MAX_MOUSE_BUTTONS` and `JOYPAD_AXIS_MAX` (array lengths) are defined in headers
  that are not part of this model, and are abstract. `JOYPAD_BUTTON_MAX` is fixed at
  64, the `#ifndef` fallback of `src/system/input.c:30-31`; a build that defines it
  elsewhere gets a different size, which the model does not cover.
- `STRNCPY` is defined in a header that is not part of this model. It is modelled as
  copying at most `n - 1` characters and terminating (`CStrings.StrNCpyTerminated`,
  `Io.StoredName`).
- `Input.InputState.JoyAxis`: axis values are unbounded integers, so the negation of
  -32768 is 32768; its wrap depends on the element type of `app.joypadAxis`, which is
  not part of this model.
- `StringOrder.QSort`: qsort is the C library's routine, modelled by the array it
  leaves behind (`SortStrings`), not by its algorithm.
  `StringOrder.SortedPermutationUnique` shows that any correct sort leaves that array.
- `Io.GetFileList`:
  - The pointer `count` is an out-parameter and is never NULL in the model.
  - Each name buffer is a `string` in an `array<string>`, and its unused tail is not
    modelled.
  - The second pass writes `filenames[i]` with no bound against the first count
    (`src/system/io.c:278-291`). The model assumes the listing does not change
    between the two passes: the `FileSystem` oracle is a function of the pattern.
    So a directory that grows between the passes, which would overflow the array, is
    not modelled.
- `WIN32_FIND_DATAA` is reduced to `cFileName` and `dwFileAttributes`, the two fields
  `readdir` copies.
