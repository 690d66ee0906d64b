# mailman-fetch in Dafny

A model of the core of `mailmanfetch.py`. The tool mirrors the monthly
archives of a GNU Mailman list into a local directory. It fetches the
archive index page and extracts the quoted `"<name>.txt.gz"` tokens from it.
Each token becomes a local file name: the quotes are dropped, `.txt.gz`
becomes `.txt`, and in `--numeric` mode the month name is replaced by its
two-digit number (`2018-January.txt` becomes `2018-01.txt`). The tool then
goes through the archives in page order. Without `--all` it compares each
archive's remote `Last-Modified` time with the local file's modification
time. It writes only archives whose remote copy is strictly newer, and it
returns at the first archive that is not. With `--all` it writes every
archive.

The modules follow the program's pieces:

- `Wrappers`: `Option` and `Result`.
- `Text`: `re.split("[.-]", …)` as `Split`, with its inverse `Interleave`, and `str.replace` as `ReplaceAll`.
- `MonthNames`: `replace_month_name_to_number` as `Rewrite`. Its two exceptions are modelled as values. Unpacking a split that does not give three pieces is `FieldCount`. `months.index` on an unknown name is `UnknownMonth`.
- `MonthNameLaws`: what the rewrite promises: the exact shape of a rewritten name, its round trip through splitting, and the names it rejects.
- `ArchiveIndex`: `re.findall('"[0-9A-Za-z-]+.txt.gz"', page)` as a left-to-right scanner `Scan`/`FindAll`, plus `token[1:-1]` (`Strip`) and the `.txt.gz` → `.txt` replacement (`LocalName`). The scanner takes the longest match at each position, reports matches without overlap and resumes at each match's end. The dots in that pattern are not escaped, so each stands for any character except a newline. The model follows the code here: a token ends in `<any>txt<any>gz"`. When a wildcard is not a `.`, for example in `"2018-January-txt-gz"`, the token is still extracted, and its local name keeps the full stripped name because the replacement finds no `.txt.gz`.
- `ArchiveSync`: the download-or-skip decision on abstract entries: local name, remote time, and optional local time. `Sync` returns the written names and whether the loop returned early.
- `Fetch`: the whole `download` loop over the page's tokens. It includes the error paths: a name the month rewrite rejects, and an archive without a usable `Last-Modified` header. Both abort the run, and files written before the abort stay written. The network and the filesystem are an `Env` parameter, with two lookups:
  - the parsed `Last-Modified` time per remote archive name;
  - the local modification time per local name, `None` when the file is missing.

Times are natural numbers counted from `datetime.min`, which is `DatetimeMin = 0`. A missing local file takes that time, as at `mailmanfetch.py:99-100`. A write is recorded as the local name appended to the run's list of written files.

## Model

| member | source | states |
|---|---|---|
| `Text.Split` | mailmanfetch.py:68 | `re.split` on `[.-]` gives one more piece than the name has separators, no piece contains a separator, and joining the pieces with the separators gives back the name |
| `Text.SplitInterleave` | mailmanfetch.py:68 | splitting inverts joining: separator-free pieces joined by separators split back into exactly those pieces |
| `Text.ReplaceAbsent` | mailmanfetch.py:82 | `str.replace` leaves a string in which the pattern does not occur unchanged |
| `Text.ReplaceSuffix` | mailmanfetch.py:82 | if no character before the final pattern starts the pattern, replacing rewrites exactly that final occurrence |
| `MonthNames.IndexOf` | mailmanfetch.py:69 | `months.index` returns the first position holding the name; there is no result exactly when the name is not in the list |
| `MonthNames.TwoDigits` | mailmanfetch.py:69 | `{:02d}` of a number below 100 is exactly two decimal digits that denote that number |
| `MonthNames.Rewrite` | mailmanfetch.py:50-69 | the rewrite succeeds exactly when the name splits into three pieces and the middle one is a month name; otherwise it fails with the number of pieces, or with the unknown middle piece |
| `MonthNameLaws.IndexOfDistinct` | mailmanfetch.py:69 | in a list without repeats, `list.index` of the element at a position is that position |
| `MonthNameLaws.MonthsDistinct` | mailmanfetch.py:54-67 | the twelve month names have no repeats |
| `MonthNameLaws.MonthIndex` | mailmanfetch.py:54-69 | `months.index` of the k-th month name is k |
| `MonthNameLaws.RewriteShape` | mailmanfetch.py:54-69 | `Y c M c' E` with separator-free pieces and `M` the k-th month becomes exactly `Y-kk.E`: the year and extension are unchanged, whichever separators were used |
| `MonthNameLaws.RewriteRoundTrip` | mailmanfetch.py:68-69 | the rewritten name splits again into three pieces with the same year and extension, and its month field is two digits between 01 and 12 that names the original month |
| `MonthNameLaws.RejectUnknownMonth` | mailmanfetch.py:54-69 | a three-piece name whose middle piece is not one of the twelve month names is rejected with that piece |
| `MonthNameLaws.RejectWrongPieceCount` | mailmanfetch.py:68 | a name of separator-free pieces joined by separators that does not have exactly three pieces, such as `2018-January.txt.bak`, is rejected with its number of pieces |
| `MonthNameLaws.RejectNoSeparator` | mailmanfetch.py:68 | a name without `.` or `-` is one piece, and the three-way unpacking rejects it |
| `ArchiveIndex.RunEnd` | mailmanfetch.py:78 | the greedy `[0-9A-Za-z-]+` first reaches the end of the maximal run of name characters: every character it passes is a name character, and it stops at a character that is not one or at the end of the page |
| `ArchiveIndex.Backtrack` | mailmanfetch.py:78 | giving back run characters one at a time from a candidate end finds a match ending no later than that candidate, and no match ending no later than it is longer; it finds nothing only when there is no such match |
| `ArchiveIndex.MatchAt` | mailmanfetch.py:78 | the pattern's match at a position is a match, and no match there is longer; there is no result exactly when no match starts there |
| `ArchiveIndex.Scan` | mailmanfetch.py:78 | `findall`'s scan reports, in page order and without overlap, the longest match at each start, resuming at the previous match's end; no match starts at any position it steps over |
| `ArchiveIndex.FindAll` | mailmanfetch.py:78 | the extracted tokens are the page text at the scan's matches, in page order, and each one matches the whole pattern |
| `ArchiveIndex.Strip` | mailmanfetch.py:81 | `token[1:-1]` puts back the first and last character to give the token again; a token shorter than two gives the empty name |
| `ArchiveIndex.StrippedToken` | mailmanfetch.py:78-81 | a stripped token is a non-empty run of `[0-9A-Za-z-]` followed by `<any>txt<any>gz` |
| `ArchiveIndex.LocalNameOfToken` | mailmanfetch.py:81-82 | a stripped name ending in `.txt.gz` loses only its final `.gz`; any other stripped name is kept as it is |
| `ArchiveSync.Sync` | mailmanfetch.py:80-116 | the written names are the names of a prefix of the entries, in order; in early-stop mode each written entry is newer; the loop returns early exactly when it did not reach the end, and only in early-stop mode, at an entry that is not newer |
| `ArchiveSync.SyncWritesLongestNewerPrefix` | mailmanfetch.py:108-116 | in early-stop mode the written entries are the longest prefix whose entries are all newer |
| `ArchiveSync.SyncWritesIffNewer` | mailmanfetch.py:108 | in early-stop mode, an entry the loop looks at is written if and only if its remote time is strictly greater than its local time |
| `ArchiveSync.MissingLocalIsStale` | mailmanfetch.py:95-100 | a missing local file counts as `datetime.min`, so the archive is newer exactly when its remote time is above that minimum |
| `ArchiveSync.SyncIgnoresRest` | mailmanfetch.py:115-116 | once the loop returns, the entries after the one it returned at are never looked at: replacing them changes nothing |
| `ArchiveSync.SyncAllIgnoresTimes` | mailmanfetch.py:85-114 | without early stop every entry is written in order, and entries with the same names give the same result whatever their times |
| `ArchiveSync.StopAtUnchangedFirst` | mailmanfetch.py:108-116 | an unchanged first archive followed by changed ones: early stop writes nothing and returns, and `--all` writes all three |
| `Fetch.Decide` | mailmanfetch.py:81-116 | for one token: a rename failure aborts; without early stop the archive is written; with early stop a missing `Last-Modified` aborts, a newer archive is written, and one that is not newer ends the run |
| `Fetch.Run` | mailmanfetch.py:80-116 | a run writes at most one name per verdict; it handles every verdict exactly when it writes one name per verdict; otherwise the verdict just after the written names is not a write, and the run's halt is that verdict's |
| `Fetch.RunWritesPrefix` | mailmanfetch.py:80-116 | every verdict before that point is a write of the name at the same position; with `Fetch.Run` this makes the halting verdict the first one that is not a write, and every written name one that a verdict carries |
| `Fetch.Download` | mailmanfetch.py:72-116 | a run writes at most one file per extracted token, and it finishes normally exactly when it writes one for every token |
| `Fetch.DownloadAccounts` | mailmanfetch.py:78-116 | each written name is the local name of the token at its position; in early-stop mode each written archive has a `Last-Modified` time strictly newer than its local file; a run that ends early ends at the next token: with that token's rename error, only in numeric mode; with that token's archive name when its `Last-Modified` time is missing, only in early-stop mode; or with that token's local name when its archive is not newer than the local file, only in early-stop mode |
| `Fetch.EarlyStopIgnoresRest` | mailmanfetch.py:108-116 | after early stop returns, whatever tokens follow, including rejected names or archives without headers, the run is the same |
| `Fetch.LoopAgreesWithSync` | mailmanfetch.py:80-116 | when every name is accepted and every archive has a time, the token loop writes exactly what `ArchiveSync.Sync` writes on the corresponding entries, and it stops where that loop stops |
| `Fetch.LoopAllIgnoresTimes` | mailmanfetch.py:85-114 | without early stop the run is the same in any environment: no time is read |
| `Fetch.DownloadAllWritesEverything` | mailmanfetch.py:78-114 | with `--all` and without `--numeric`, every extracted archive is written in page order under its local name, and the run finishes normally |
| `Fetch.NumericNameOfToken` | mailmanfetch.py:81-84 | in numeric mode the page token `"Y-Month.txt.gz"` is written as `Y-kk.txt`, where `kk` is the month's position |

Four members that compute without a contract of their own are characterised by lemmas in the table:

- `Text.ReplaceAll` (`str.replace`, `mailmanfetch.py:82`): by `Text.ReplaceAbsent` and `Text.ReplaceSuffix`.
- `ArchiveIndex.LocalName` (`mailmanfetch.py:81-82`): by `ArchiveIndex.LocalNameOfToken`.
- `Fetch.TxtName` (`mailmanfetch.py:81-84`): by `ArchiveIndex.LocalNameOfToken` outside numeric mode, and by `MonthNames.Rewrite` and `Fetch.NumericNameOfToken` in it.
- `Fetch.Loop` (the `for` loop, `mailmanfetch.py:80-116`): by `Fetch.Run`, `Fetch.RunWritesPrefix`, `Fetch.LoopAgreesWithSync`, `Fetch.EarlyStopIgnoresRest` and `Fetch.LoopAllIgnoresTimes`.

## Left out

- HTTP GET of the index page and of each archive, and the HEAD request (`mailmanfetch.py:77`, `88`, `112`): network I/O. The page is a parameter. The `Last-Modified` lookup is the `Env` function, keyed by the stripped archive name instead of the URL `urljoin` builds from it.
- Network failures: the model has no error path for them. A write always succeeds.
- HTTP status codes: the program never checks them (`mailmanfetch.py:77`, `88`, `112`). A non-success index page is scanned like any other. A non-success HEAD fails only through its missing `Last-Modified` header, which the model has as `None`. A non-success archive GET fails in `gzip.decompress` after `open(..., "wb")` at `mailmanfetch.py:109` has emptied the local file; that leaves an empty file with a fresh modification time, which a later early-stop run takes as up to date. The model does not include that partial write.
- Parsing `Last-Modified` with `dateutil` and converting it to naive UTC (`mailmanfetch.py:86-94`): a foreign library. The result is a `Time`, or `None` for a missing or unparseable header. `None` aborts the run, as the `KeyError` or parse error does.
- `gzip.decompress` and the file write (`mailmanfetch.py:109-114`): the local name is recorded as written, with no content.
- `os.path.getmtime` and `datetime.fromtimestamp` (`mailmanfetch.py:96-98`): they are reduced to the `Env` lookup of a local time or `None`. The lookup is a snapshot taken before the run, so a file written earlier in the same run is not looked up again. As a consequence, when two tokens have the same local name and no local file exists, early-stop mode writes that name twice and goes on. The program would see the file it just wrote at the second token and would typically return there.
- Time zones: the program compares a naive UTC `Last-Modified` time (`mailmanfetch.py:92-93`) with a naive local-time `mtime` (`mailmanfetch.py:96-98`), so the comparison at `mailmanfetch.py:108` is off by the machine's UTC offset. The model puts both times on one scale and leaves that offset to whatever supplies the `Env` times.
- Logging (`mailmanfetch.py:79`, `101-107`), `parse_args` (`mailmanfetch.py:22-47`) and `main` with its directory creation (`mailmanfetch.py:119-127`): command-line glue with no decision logic. `main` passes `not args.all` as the early-stop flag. `Fetch.Download` takes that flag directly.
- `setup.py`: packaging metadata only.
- The regular-expression engine in general: only this one pattern is modelled, as a direct scanner. Its longest-match property holds because the greedy run is followed by a fixed eight-character tail.
- `re.split` on patterns other than the `[.-]` class: `Split` handles only that class.
