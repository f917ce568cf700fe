# xdg-utils default-application lookup, modelled in Dafny

The xdg-utils crate answers "which program opens files of MIME type
`text/html`?" the way the freedesktop mime-apps specification describes it.
It builds an ordered list of `mimeapps.list` candidates from the XDG
environment variables and the desktop names in `XDG_CURRENT_DESKTOP`. It
finds the first candidate whose `[Default Applications]` text names
identifiers for the query. Then it locates each identifier's `.desktop`
descriptor under the data directories and returns the binary of the
descriptor's first `Exec` line.

The crate has two copies of this lookup:

- The live one in `src/lib.rs` propagates every I/O error. In it, an unset
  variable reads as one empty directory, and a search that finds nothing
  ends in a NotFound error whose message names the query.
- An older variant in `src/utilities.rs` skips candidates that fail. In it,
  unset variables contribute no directory, and several `unwrap`s panic
  where `lib.rs` returns an error. It also searches nothing at all when no
  desktop is named, because its generic `mimeapps.list` probe sits inside
  the desktop branch.

Both copies are modelled, together with the byte trimmer
`drop_right_whitespace`.

Modules, one per concern of the source:

- `RustStr`: the `str` operations the code is built from:
  - `split(c)` with empty pieces kept, and `""` splitting to `[""]`;
  - `trim` over Unicode White_Space;
  - `find`, `contains`, `starts_with` and `lines`.
- `Fs`: an immutable snapshot of the filesystem, and the I/O errors reading
  it can raise. The snapshot answers `exists`, `is_dir`, `read_dir` (entries
  in the order it is given) and open/read/UTF-8 decoding per path.
- `XdgEnv`: filtering of the environment, the defaults of the XDG Base
  Directory Specification ("Environment variables" section), the desktop
  list, and the two ways of reading a `:`-separated variable:
  - `ChainedDirs` for `split_and_chain!` in `lib.rs`;
  - `PresentDirs` for the `if let Some(v)` loops of `utilities.rs`.
- `Candidates`: the candidate paths of the "File name and location"
  section, and their order.
- `MimeappsList`: the textual scan of one `mimeapps.list`.
- `Descriptor`: where a descriptor is looked for under one data directory,
  and how the `Exec` line is parsed.
- `Lib` and `Utilities`: the two pipelines. Each has specification
  functions, the methods with the source's loops and early returns proved
  equal to them, and lemmas about the search.
- `MimeInfo`: `drop_right_whitespace`.

The vendor path of an identifier keeps only its second `-`-piece
(`src/lib.rs:252-253`, `src/utilities.rs:199-200`): `a-b-c.desktop` is
looked for as `{dir}/applications/a/b` (`Descriptor.VendorPath`,
`Descriptor.VendorPathExample`).

## Model

| member | source | states |
|---|---|---|
| RustStr.TrimStart | src/lib.rs:230 | the result is a suffix of the input, everything dropped is whitespace, and it does not start with whitespace |
| RustStr.TrimEnd | src/lib.rs:230 | the result is a prefix of the input, everything dropped is whitespace, and it does not end with whitespace |
| RustStr.BlankIffAllWhitespace | src/lib.rs:230-232 | an identifier is skipped as blank exactly when all its characters are whitespace |
| RustStr.FindChar | src/lib.rs:218 | `None` exactly when the character is absent, otherwise the index of its first occurrence |
| RustStr.FindCharUnique | src/lib.rs:218 | an occurrence with none before it is the index `find` returns |
| RustStr.FindFrom | src/lib.rs:202 | the search returns an occurrence with none before it, or `None` when there is no occurrence |
| RustStr.FindIsFirstOccurrence | src/lib.rs:202 | `find` of a pattern is its first occurrence |
| RustStr.Split | src/lib.rs:229 | a split never yields zero pieces, and yields one piece exactly when the separator is absent |
| RustStr.SplitPiecesClean | src/lib.rs:229 | no piece of a split holds the separator |
| RustStr.SplitJoinsBack | src/lib.rs:229 | the pieces glued back with the separator give the input, so empty pieces are kept |
| RustStr.SplitJoin | src/lib.rs:229 | splitting joined separator-free pieces gives those pieces back |
| RustStr.SplitAt | src/lib.rs:252 | a split that meets its first separator at `k` is the prefix before `k`, then the split of the rest |
| RustStr.FirstPiece | src/lib.rs:313 | piece 0 of a split runs up to the first separator, or to the end when there is none |
| RustStr.FirstPieceLong | src/lib.rs:309 | piece 0 is at least as long as any separator-free prefix |
| RustStr.StripCr | src/lib.rs:306 | a line ending in `'\r'` is that line without its final `'\r'`; any other line is unchanged |
| RustStr.Lines | src/lib.rs:306 | no line holds a `'\n'` |
| RustStr.LinesCons | src/lib.rs:306 | a line ended by `'\n'` comes first, without a final `'\r'`, followed by the lines of the rest |
| RustStr.LinesLast | src/lib.rs:306 | text without `'\n'` is one line, kept with any `'\r'`, or no line when empty |
| RustStr.LinesExample | src/lib.rs:306 | `a\r\nb\n` gives `a` and `b` (no final empty line), and an unended `a\r` keeps its `'\r'` |
| XdgEnv.ResolvedEnvironment | src/lib.rs:90-119 | `XDG_DATA_DIRS` is always set, and every tracked variable of the environment keeps its value |
| XdgEnv.ResolveEnvironment | src/lib.rs:90-119 | copying the tracked variables one by one and inserting the defaults gives the resolved map |
| XdgEnv.ResolvedEnvironmentFacts | src/lib.rs:93-119 | only `HOME` and names starting `XDG_CONFIG`, `XDG_DATA` or `XDG_CURRENT_DESKTOP` are kept, with their values. `XDG_DATA_HOME` and `XDG_CONFIG_HOME` default from `HOME` only when absent. `XDG_DATA_DIRS` defaults to `/usr/local/share:/usr/share`. `XDG_CONFIG_DIRS` and `XDG_CURRENT_DESKTOP` get no default |
| XdgEnv.TrackedNames | src/lib.rs:94-97 | the six variables the lookup reads all pass the filter |
| XdgEnv.ResolvedKeys | src/lib.rs:93-101 | the filter keeps exactly the tracked variables, and no value is overwritten |
| XdgEnv.ResolvedDefaults | src/lib.rs:103-119 | the three defaults, and exactly when each is inserted |
| XdgEnv.DesktopList | src/lib.rs:121-126 | the desktop list is empty exactly when `XDG_CURRENT_DESKTOP` is unset |
| XdgEnv.ChainedDirs | src/lib.rs:69-77 | `split_and_chain!` gives at least one directory per variable, since an unset variable reads as one empty one |
| XdgEnv.PresentDirs | src/utilities.rs:57-58 | the `if let Some(v)` reading gives no directory exactly when none of the variables is set |
| XdgEnv.DirsAppend | src/lib.rs:69-77 | the directory list of several variables is theirs in order, in both readings |
| XdgEnv.VariableDirs | src/lib.rs:69-77 | a set variable adds its `:`-pieces. An unset one adds exactly one empty directory in `lib.rs` and none in `utilities.rs` |
| XdgEnv.OneVariableDirs | src/utilities.rs:57-58 | one variable's directories in both readings |
| XdgEnv.AllSetDirsAgree | src/utilities.rs:57-58 | when every variable is set, the `if let Some(v)` reading gives the same directories as `split_and_chain!` |
| Candidates.DirCandidates | src/lib.rs:135-154 | every candidate of one directory is a `mimeapps.list` file |
| Candidates.CandidatesIn | src/lib.rs:129-155 | a tier has no candidate exactly when it has no directory, and every candidate is a `mimeapps.list` file |
| Candidates.MimeappsCandidates | src/lib.rs:129-176 | both tiers give one candidate per directory and desktop, plus one generic per directory, and every candidate is a `mimeapps.list` file |
| Candidates.DesktopCandidates | src/lib.rs:136-141 | one desktop-specific candidate per desktop name |
| Candidates.ApplicationsDirs | src/lib.rs:158-176 | one `applications/` directory per data directory |
| Candidates.CandidatesInAppend | src/lib.rs:129-155 | the candidates of two directory lists are those of the first, then those of the second |
| Candidates.CandidatesInLength | src/lib.rs:129-155 | each directory contributes one candidate per desktop, plus the generic one |
| Candidates.CandidatesAround | src/lib.rs:129-155 | a directory's candidates sit between those of the directories before and after it |
| Candidates.DirCandidateAt | src/lib.rs:135-154 | within one directory, the desktop-specific files come first, in desktop order, then `mimeapps.list` |
| Candidates.CandidateAt | src/lib.rs:129-155 | candidate `i * (n + 1) + j` is the `j`-th desktop file of directory `i`, or its generic file when `j == n` |
| Candidates.SecondTierStart | src/lib.rs:157-176 | the second tier starts right after the first, with the first data directory's `applications/` candidates |
| MimeappsList.LineEnd | src/lib.rs:210-216 | the line bound is the first `'\n'` at or after the match, or the end of the text |
| MimeappsList.LineEndUnique | src/lib.rs:210-216 | any such bound is the line end |
| MimeappsList.FindLineEnd | src/lib.rs:210-216 | the `end_idx` loop computes the line end, with the bound as intended (see Findings) |
| MimeappsList.LineEntry | src/lib.rs:218-227 | a bounded line is malformed exactly when it has no `=`, and never reads as a missing entry |
| MimeappsList.ScanEntry | src/lib.rs:200-227 | the scan of one file's text, with the intended line bound, gives its entry |
| MimeappsList.EntryOf | src/lib.rs:200-227 | with the intended line bound, an entry is found only when the header and the query both occur, and a value never holds a `'\n'` |
| MimeappsList.Identifiers | src/lib.rs:229 | the identifiers hold no `;` and glue back to the value |
| MimeappsList.NoEntryIff | src/lib.rs:202-206 | nothing is found exactly when the section header or the query is absent |
| MimeappsList.MalformedIff | src/lib.rs:208-226 | with both present and the intended line bound, the entry is malformed exactly when the line from the first match holds no `=` |
| MimeappsList.ValueAt | src/lib.rs:208-229 | with the intended line bound, the value is the text after the first `=` of the line of the first match, up to the line end |
| MimeappsList.EqualsSignAt | src/lib.rs:218 | the first `=` of the bounded line is the one the value follows |
| MimeappsList.QueryOnSecondLine | src/lib.rs:202-204 | in a header line followed by a `text/html=` line, the header is found and the query sits at index 23 |
| MimeappsList.EndedSecondLine | src/lib.rs:200-229 | a `text/html=` line ended by `'\n'` after the header gives that line's value |
| MimeappsList.DefaultApplicationsExample | src/lib.rs:200-229 | `text/html=foo-browser.desktop;bar.desktop` gives `foo-browser.desktop;bar.desktop` |
| MimeappsList.IdentifiersExample | src/lib.rs:229 | that value gives `foo-browser.desktop`, then `bar.desktop` |
| MimeappsList.SingleIdentifier | src/lib.rs:229 | a value without `;` is one identifier |
| MimeappsList.LineEndAsWritten | src/lib.rs:210-216 | the bound as written: the first `'\n'`, or, without one, the length of the rest of the text |
| MimeappsList.EntryAsWritten | src/lib.rs:210-227 | the scan as written panics only when the header and the query occur and no `'\n'` follows the match |
| MimeappsList.AsWrittenAgreesOnEndedLines | src/lib.rs:210-216 | the scan as written agrees with the intended one whenever a `'\n'` follows the match |
| MimeappsList.AsWrittenUnended | src/lib.rs:210-226 | on a last line without a `'\n'`, the bound as written panics, reports a malformed entry, or truncates the value, depending on where it falls |
| MimeappsList.UnendedSecondLine | src/lib.rs:202-216 | the facts about an unended `text/html=` second line that both scans depend on |
| MimeappsList.UnendedLastLine | src/lib.rs:210-226 | for such a line the intended scan returns the whole value. The scan as written panics for a value shorter than 13, gives Malformed for one shorter than 23, and otherwise drops the value's last 23 characters |
| MimeappsList.UnendedLastLinePanics | src/lib.rs:210-226 | `text/html=a.desktop` as the unended last line panics as written and gives `a.desktop` as intended |
| Descriptor.VendorPath | src/lib.rs:251-256 | the vendor path is `{base}/{text before the first -}/{text after it, up to the next - or the end}` |
| Descriptor.VendorPathInside | src/lib.rs:255-269 | a vendor path lies below the directory it is built in |
| Descriptor.VendorPathExample | src/lib.rs:251-256 | `a-b-c.desktop` is looked for as `{base}/a/b`, so the `-c.desktop` part is lost |
| Descriptor.SubdirPathsInside | src/lib.rs:277-296 | `{indir}/{id}` and every child path probed lie below `indir` |
| Descriptor.ProbeOrder | src/lib.rs:249-299 | every path probed for one data directory lies below its `applications/` or its `applnk/` subdirectory |
| Descriptor.ProbeEntries | src/lib.rs:289-296 | walking a listing fails only with an I/O error |
| Descriptor.ProbeSubdir | src/lib.rs:277-298 | probing one subdirectory fails only with an I/O error |
| Descriptor.ProbeSubdirs | src/lib.rs:277-298 | probing `applications`, then `applnk`, fails only with an I/O error |
| Descriptor.Location | src/lib.rs:249-299 | locating a descriptor fails only with an I/O error |
| Descriptor.LocateDescriptor | src/lib.rs:249-299 | the labelled loops with their early exits compute the location |
| Descriptor.FirstExistingIsFirst | src/lib.rs:261-294 | the first existing path is the existing one with none before it, and there is none when no path exists |
| Descriptor.FirstExistingAppend | src/lib.rs:261-294 | the first existing path of two lists is the first list's one, else the second's |
| Descriptor.ProbeEntriesIsFirstExisting | src/lib.rs:289-296 | a listing walk finds the first existing child path, and cannot fail when every entry is good |
| Descriptor.ProbeSubdirIsFirstExisting | src/lib.rs:277-298 | a subdirectory probe finds the first existing path of `{indir}/{id}` and the child paths, and cannot fail when the listing is clean |
| Descriptor.LocationIsFirstProbe | src/lib.rs:249-299 | the descriptor is the first existing path in the fixed probe order (vendor paths, then `applications`, then `applnk`), and the lookup cannot fail when both subdirectories list cleanly |
| Descriptor.ProbeSubdirsPair | src/lib.rs:277 | `applnk` is probed only when `applications` gives nothing |
| Descriptor.FirstExistingPair | src/lib.rs:261-273 | the `applnk` vendor path is probed only when the `applications` one is missing |
| Descriptor.ChildPathsOneLevel | src/lib.rs:289-292 | every child path is exactly one level below its subdirectory |
| Descriptor.FirstExecLine | src/lib.rs:306-307 | the line chosen is one of the lines and starts with `Exec`, and there is none exactly when no line starts with `Exec` |
| Descriptor.ExecOf | src/lib.rs:306-315 | a descriptor says nothing exactly when none of its lines starts with `Exec`, and otherwise gives the target of such a line |
| Descriptor.ExecFromText | src/lib.rs:306-315 | the loop over the lines returns the target of the first `Exec` line, or nothing without one |
| Descriptor.FirstExecLineIsFirst | src/lib.rs:306-307 | the line used is the first one starting with `Exec` |
| Descriptor.ExecTarget | src/lib.rs:308-313 | an `Exec` line names no binary exactly when it has no `=`, and a binary holds neither `=` nor a space |
| Descriptor.ExecTargetIs | src/lib.rs:308-313 | for `pre=bin rest`, the binary is `bin`: the text between the first and second `=`, cut at its first space |
| Descriptor.ExecTargetAfter | src/lib.rs:308-311 | the binary comes from the piece after the first `=` |
| Descriptor.BinaryFieldPrefix | src/lib.rs:309-312 | the second `=`-piece starts with the binary, followed by a space or its end |
| Descriptor.BinaryField | src/lib.rs:312-313 | cutting that piece at its first space leaves the binary |
| Descriptor.ExecExample | src/lib.rs:308-313 | `Exec=/usr/bin/browser --flag %u` runs `/usr/bin/browser` |
| Lib.DirBinary | src/lib.rs:249-316 | one data directory's answer fails only with an I/O error |
| Lib.BinaryIn | src/lib.rs:248-319 | the descriptor lookup fails only with an I/O error |
| Lib.ResolveIdentifiers | src/lib.rs:229-239 | the walk over the identifiers fails only with an I/O error |
| Lib.ListOutcome | src/lib.rs:190-240 | checking one file, with the intended line bound, fails only with an I/O error |
| Lib.Scan | src/lib.rs:129-182 | the candidate search, with the intended line bound, fails only with an I/O error |
| Lib.DirectoryBinary | src/lib.rs:249-316 | one pass of the data-directory loop: locate, read, parse the `Exec` line |
| Lib.DesktopFileToBinary | src/lib.rs:248-319 | the data-directory loop computes the binary of the first directory that says anything |
| Lib.CheckMimeappsList | src/lib.rs:190-240 | reading and scanning one file computes its outcome: a read failure is an error, and no entry or a malformed one means nothing found |
| Lib.ResolveIdentifierList | src/lib.rs:229-239 | the identifier loop skips blank identifiers and stops at the first that gives a binary or an error |
| Lib.SearchTier | src/lib.rs:129-155 | the nested loop of one tier checks each directory's desktop files, then its generic file, skipping missing ones and stopping at the first decisive one |
| Lib.SearchOrder | src/lib.rs:129-176 | the two tiers give at least six candidates per desktop name plus six, since `split_and_chain!` yields a directory for each of the six variable reads |
| Lib.DefaultApp | src/lib.rs:88-188 | the lookup fails only with an I/O error or with NotFound naming the query |
| Lib.QueryDefaultApp | src/lib.rs:88-188 | the whole lookup computes the first tier, then the second, then NotFound |
| Lib.ScanAppend | src/lib.rs:129-182 | the second tier is searched only when the first finds nothing |
| Lib.ScanFirstDecisive | src/lib.rs:142-154 | the search gives the outcome of the first existing candidate whose check gives a binary or an error, and nothing when there is none |
| Lib.ScanSkip | src/lib.rs:142-154 | candidates that are missing or give nothing are passed over |
| Lib.ScanNothingIff | src/lib.rs:129-182 | the search gives nothing exactly when no candidate is decisive |
| Lib.NotFoundIff | src/lib.rs:184-187 | the lookup fails with NotFound, with the message naming the query, exactly when no candidate is decisive |
| Lib.DefaultAppFirstDecisive | src/lib.rs:142-154 | the lookup returns the binary, or the error, of the first decisive candidate |
| Lib.ResolveFirst | src/lib.rs:229-239 | the identifiers give the outcome of the first non-blank one that gives a binary or an error, and nothing when none does |
| Lib.ResolveSkip | src/lib.rs:229-237 | identifiers that are blank or give nothing are passed over |
| Lib.BinaryFirstDir | src/lib.rs:248-319 | the binary is that of the first data directory that finds a descriptor with an `Exec` line, or its error |
| Lib.BinarySkip | src/lib.rs:248-319 | directories that say nothing are passed over |
| Lib.UnsetDataHomeIsEmptyDir | src/lib.rs:71 | with `XDG_DATA_HOME` unset, the first data directory is the empty string |
| Lib.UnsetDataHomeProbesRoot | src/lib.rs:173-177 | so, with no desktop named either, the second tier starts at `/applications/mimeapps.list` |
| Lib.UnsetInResolved | src/lib.rs:104-107 | both conditions hold of the resolved map when `HOME`, `XDG_DATA_HOME` and `XDG_CURRENT_DESKTOP` are unset |
| Lib.ListOutcomeAsWritten | src/lib.rs:190-240 | checking one file with the bound as written panics only on a read candidate whose match is not followed by `'\n'`, and otherwise agrees with `Lib.ListOutcome` when it is |
| Lib.ScanAsWritten | src/lib.rs:129-182 | the search with the bound as written agrees with `Lib.Scan` when every existing candidate's match is followed by `'\n'` |
| Lib.DefaultAppAsWritten | src/lib.rs:88-188 | the lookup with the bound as written agrees with `Lib.DefaultApp` under the same condition |
| Lib.CandidateAsWrittenPanics | src/lib.rs:210-218 | a candidate whose unended last line is `text/html=` and one identifier shorter than 13 characters panics as written, and resolves that identifier with the intended bound |
| Utilities.DirBinary | src/utilities.rs:196-262 | one data directory never answers `Err(())`: it gives nothing, a binary or a panic |
| Utilities.BinaryIn | src/utilities.rs:193-267 | anything but `Err(())` is the answer of one of the data directories |
| Utilities.ResolveIdentifiers | src/utilities.rs:174-184 | anything but `Err(())` is the outcome of a non-blank identifier whose lookup does not fail |
| Utilities.ListOutcome | src/utilities.rs:119-185 | checking one file, with the intended line bound, gives a binary only when it reads and holds a value for the query |
| Utilities.Scan | src/utilities.rs:51-113 | the search, with the intended line bound, gives anything but `Err(())` only as the outcome of a decisive candidate |
| Utilities.SearchOrder | src/utilities.rs:43-113 | no candidate is probed exactly when no desktop is named or none of the searched variables is set |
| Utilities.DefaultApp | src/utilities.rs:10-117 | anything but `Err(())` is the outcome of a decisive candidate in the search order |
| Utilities.DirectoryBinary | src/utilities.rs:196-262 | one pass of the data-directory loop. A listing error, an unreadable descriptor and an `Exec` line without `=` panic |
| Utilities.DesktopFileToBinary | src/utilities.rs:193-267 | the data-directory loop computes the outcome of the first directory that says anything, else `Err(())` |
| Utilities.CheckMimeappsList | src/utilities.rs:119-185 | a read failure or a missing entry gives `Err(())`, and a malformed entry panics |
| Utilities.ResolveIdentifierList | src/utilities.rs:174-184 | the identifier loop skips blank identifiers and stops at the first whose lookup does not end in `Err(())` |
| Utilities.SearchTier | src/utilities.rs:57-81 | the nested loop of one tier stops at the first existing candidate whose check does not end in `Err(())` |
| Utilities.QueryDefaultApp | src/utilities.rs:10-117 | the whole lookup: nothing is searched without a desktop, otherwise the first tier, then the second, then `Err(())` |
| Utilities.ScanAppend | src/utilities.rs:51-113 | the second tier is searched only when the first ends in `Err(())` |
| Utilities.ScanFirstDecisive | src/utilities.rs:66-69 | the search gives the outcome of the first existing candidate whose check does not end in `Err(())`, and `Err(())` when there is none |
| Utilities.ScanSkip | src/utilities.rs:66-78 | candidates that are missing or fail are passed over |
| Utilities.ResolveFirst | src/utilities.rs:174-184 | the identifiers give the outcome of the first non-blank one that does not fail, and `Err(())` when none does |
| Utilities.ResolveSkip | src/utilities.rs:174-182 | identifiers that are blank or fail are passed over |
| Utilities.BinaryFirstDir | src/utilities.rs:193-267 | the outcome is that of the first data directory that says anything |
| Utilities.BinarySkip | src/utilities.rs:193-265 | directories that say nothing are passed over |
| Utilities.NoDesktopNoSearch | src/utilities.rs:43-48 | with `XDG_CURRENT_DESKTOP` unset, no candidate is probed and the lookup ends in `Err(())` |
| Utilities.SearchOrderWithDesktop | src/utilities.rs:51-113 | with a desktop named, the candidates are built as in `lib.rs` but over the directories of the set variables only, and when all four directory variables are set they are exactly `Lib.SearchOrder`'s |
| Utilities.DirBinaryAgainstLib | src/utilities.rs:238-259 | one data directory says what it says in `lib.rs`, except that an error or an `Exec` line without `=` panics |
| Utilities.CandidateAgainstLib | src/utilities.rs:124-172 | an unreadable candidate stops `lib.rs` and is skipped here. A malformed entry is skipped by `lib.rs` and panics here |
| Utilities.ListOutcomeAsWritten | src/utilities.rs:119-185 | checking one file with the bound as written agrees with `Utilities.ListOutcome` when its match is followed by `'\n'` |
| Utilities.ScanAsWritten | src/utilities.rs:51-113 | the search with the bound as written agrees with `Utilities.Scan` when every existing candidate's match is followed by `'\n'` |
| Utilities.DefaultAppAsWritten | src/utilities.rs:10-117 | the lookup with the bound as written agrees with `Utilities.DefaultApp` under the same condition |
| Utilities.CandidateAsWrittenPanics | src/utilities.rs:164-172 | a candidate whose unended last line is `text/html=` and a value of 13 to 22 characters panics as written at the `unwrap`, and resolves that value with the intended bound |
| MimeInfo.TrailingNewlinesDropped | src/lib.rs:356-361 | the result is a prefix of the input, followed in it only by `b'\n'` bytes, and does not end in one |
| MimeInfo.DropRightWhitespace | src/lib.rs:356-361 | the pop loop removes exactly the trailing line feeds |
| MimeInfo.DroppedUnique | src/lib.rs:356-361 | the result is the only prefix with those properties |
| MimeInfo.DropIdempotent | src/lib.rs:356-361 | trimming twice trims nothing more |
| MimeInfo.DropIgnoresAppendedLineFeeds | src/lib.rs:356-361 | line feeds appended to the output are dropped again |
| MimeInfo.DropExample | src/lib.rs:356-361 | `pdf` followed by two line feeds becomes `pdf` |

## Findings

| source | as written | input that shows it | evidently intended | confidence | as-written member | corrected member |
|---|---|---|---|---|---|---|
| src/lib.rs:210-216 (also src/utilities.rs:164-170) | `end_idx` starts as `contents_str[idx..].len()`, the length of the rest of the text, and is then used as an absolute index. When no `'\n'` follows the match, `contents_str[idx..end_idx]` runs backwards (a panic), stops short of the `=`, or cuts off the value's end | text `[Default Applications]\ntext/html=a.desktop` (no final newline), query `text/html`: `idx` is 23, `end_idx` is 19, and `contents_str[23..19]` panics | `end_idx` starts as `contents_str.len()`, so the entry on the last line has the value `a.desktop` | not executed | MimeappsList.UnendedLastLinePanics | MimeappsList.ValueAt |

`MimeappsList.LineEndAsWritten` and `MimeappsList.AsWrittenUnended` model the
bound as written. `MimeappsList.UnendedLastLine` shows the three ways it goes
wrong. `MimeappsList.AsWrittenAgreesOnEndedLines` shows that it is harmless
whenever a `'\n'` follows the match. The rest of the model uses the intended
bound, `MimeappsList.LineEnd`, which `MimeappsList.FindLineEnd` computes.
The whole lookup as written is `Lib.DefaultAppAsWritten` and
`Utilities.DefaultAppAsWritten`, built on `MimeappsList.EntryAsWritten`.
Each agrees with its intended counterpart whenever every existing
candidate's match is followed by a `'\n'`, and `Lib.CandidateAsWrittenPanics`
and `Utilities.CandidateAsWrittenPanics` give a candidate on which they
differ.

## Left out

- `query_mime_info` (src/lib.rs:334-353) spawns the `mimetype` or `file` command. Only its pure helper `drop_right_whitespace` is modelled.
- `env::vars()` is not read. The raw environment is an input map. The order in which `HashMap` inserts happen does not matter, and `XdgEnv.ResolveEnvironment` takes the keys in any order.
- The real filesystem is not modelled. It is replaced by an immutable snapshot. All calls in one lookup see the same state, so races with other processes are not modelled.
- `read_dir` order is OS-defined. The snapshot gives each directory's entries as a sequence.
- Opening a file, reading it and UTF-8 decoding are one per-path answer: the text, or which of the three failed.
- Text is `seq<char>`. It is assumed to be ASCII, where the `chars().enumerate()` character count added to a byte offset (src/lib.rs:211-213) agrees with a byte index.
- `PathBuf` is plain string concatenation. `p.pop()` is taken to give `{dir}/applications` or `{dir}/applnk`. `entry.path()` is `{indir}/{child}`. `PathBuf::push` of an absolute identifier, which would replace the path, is not modelled, and neither is an identifier containing `/`.
- `str::lines` (src/lib.rs:306) is modelled as current Rust defines it: lines end at `'\n'`, a line ended by `"\r\n"` loses its `'\r'`, and an unended last line keeps a final `'\r'`. Older toolchains also stripped the `'\r'` of an unended last line; that behaviour is not modelled.
- The `eprintln!` diagnostics of src/utilities.rs are I/O only.
- The `it_works` test (src/lib.rs:50-57) only prints machine-dependent results.
- A panic is the outcome `Panicked` in `Utilities`, and `None` in the as-written functions of `Lib`. Either ends the lookup. Unwinding and process abort are not modelled.
- Lib.DesktopFileToBinary: the data-directory list is computed once per query and passed down. The source recomputes it from the same unchanged map in every call (src/lib.rs:248), which gives the same list.
- Utilities.QueryDefaultApp: it returns `Err(())` at once when no desktop is named. The source still runs its directory loops, but they probe nothing (src/utilities.rs:59), so the result is the same.
- Lib.ListOutcome: runs the intended line bound of the Findings row, so the panic, the Malformed entry or the truncated value of an unended last line is not in it; the bound as written is in `Lib.ListOutcomeAsWritten`, which agrees with it on ended lines.
- Lib.CheckMimeappsList: runs the intended line bound of the Findings row, so the panic, the Malformed entry or the truncated value of an unended last line is not in it; the bound as written is in `Lib.ListOutcomeAsWritten`.
- Lib.Scan: runs the intended line bound of the Findings row, so the panic, the Malformed entry or the truncated value of an unended last line is not in it; the bound as written is in `Lib.ScanAsWritten`, which agrees with it when every candidate's line is ended.
- Lib.SearchTier: runs the intended line bound of the Findings row, so the panic, the Malformed entry or the truncated value of an unended last line is not in it; the bound as written is in `Lib.ScanAsWritten`.
- Lib.DefaultApp: runs the intended line bound of the Findings row, so the panic, the Malformed entry or the truncated value of an unended last line is not in it; the bound as written is in `Lib.DefaultAppAsWritten`; its error kinds are those of the intended lookup.
- Lib.QueryDefaultApp: runs the intended line bound of the Findings row, so the panic, the Malformed entry or the truncated value of an unended last line is not in it; the bound as written is in `Lib.DefaultAppAsWritten`.
- Lib.NotFoundIff: runs the intended line bound of the Findings row, so the panic, the Malformed entry or the truncated value of an unended last line is not in it; the bound as written is in `Lib.DefaultAppAsWritten`.
- Utilities.ListOutcome: runs the intended line bound of the Findings row, so the panic, the Malformed entry or the truncated value of an unended last line is not in it; the bound as written is in `Utilities.ListOutcomeAsWritten`.
- Utilities.CheckMimeappsList: runs the intended line bound of the Findings row, so the panic, the Malformed entry or the truncated value of an unended last line is not in it; the bound as written is in `Utilities.ListOutcomeAsWritten`.
- Utilities.Scan: runs the intended line bound of the Findings row, so the panic, the Malformed entry or the truncated value of an unended last line is not in it; the bound as written is in `Utilities.ScanAsWritten`.
- Utilities.SearchTier: runs the intended line bound of the Findings row, so the panic, the Malformed entry or the truncated value of an unended last line is not in it; the bound as written is in `Utilities.ScanAsWritten`.
- Utilities.DefaultApp: runs the intended line bound of the Findings row, so the panic, the Malformed entry or the truncated value of an unended last line is not in it; the bound as written is in `Utilities.DefaultAppAsWritten`.
- Utilities.QueryDefaultApp: runs the intended line bound of the Findings row, so the panic, the Malformed entry or the truncated value of an unended last line is not in it; the bound as written is in `Utilities.DefaultAppAsWritten`.
