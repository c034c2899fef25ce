# Bulk download of the INE vital-statistics files, modelled in Dafny

`automatizacion.py` reads a CSV with one row per year. The row has a year
column `Año` and one column of download URLs per category (`Defunciones`,
`Defunciones fetales`, `Divorcios`, `Matrimonios`, `Nacimientos`). The
script saves every file under a predictable name.

`main()` runs in five steps:

1. It checks the header.
2. It builds one `(year, category, url)` task per row and category.
3. It collects the sorted distinct URLs.
4. With `DEDUP_BY_URL`, it downloads each distinct URL once into
   `_cache_downloads/file_<digest16><ext>`.
5. It gives each task an outcome (ok, skip or fail). The outcome comes from
   hard-linking or copying the cached file to `<year>_<slug><ext>`, or from
   downloading straight there. Destinations go under a per-year directory
   when `GROUP_BY_YEAR` is set.

The model has seven modules:

- `Text`: the Python string operations the script relies on (`strip`,
  `lower`, `replace`, filtering, `find`/`rfind`).
- `Slug`: `slugify`.
- `UrlExt`: `get_ext_from_url`, with the parts of `urllib.parse.urlparse`
  and `Path.name`/`.suffix` (POSIX flavour) that it uses.
- `Order`: Python's `<` on `str` and `sorted(set(...))`.
- `Planning`: the header check, the task list, the distinct URLs, and the
  cache and destination names.
- `Automation`: the cache loop, the outcome loop and the whole run. The file
  system is the set of paths of the existing files, and a path is its list of
  components. The network, hashing and copying are the answers of a `World`
  value that is fixed for the run: the digest of a URL, whether a download
  lands, whether a link or copy lands, and whether a copy that fails leaves
  its destination behind.
- `Wrappers`: an `Option` type.

The loops of `main()` are methods (`BuildTasks`, `AppendRowTasks`,
`RunCacheFill`, `RunTally`, `Run`). Each is proved equal to a
function (`PlannedTasks`, `FillCache`, `Tally`, `RunSpec`), and the script's
promises are proved about those functions as lemmas.

## Model

| member | source | states |
|---|---|---|
| Text.TrimLeftIsSuffix | automatizacion.py:60 | the left half of `strip()` keeps a suffix of the string; every character before it is a stripped one; the kept part does not start with one |
| Text.TrimRightIsPrefix | automatizacion.py:60 | the right half of `strip()` keeps a prefix; every character after it is a stripped one; the kept part does not end with one |
| Text.StripIsSlice | automatizacion.py:60 | `strip()` keeps one slice `s[i..j]`; everything outside the slice is stripped and the slice's two ends are not |
| Text.StripTrimsEnds | automatizacion.py:60 | `strip()` never lengthens and adds no character; it leaves no stripped character at either end; a string with nothing to strip at its ends is unchanged; the result is empty exactly when every character is stripped |
| Text.Filter | automatizacion.py:59 | `"".join(ch for ch in s if p(ch))` keeps a character exactly when it is in `s` and satisfies `p`; every kept character satisfies `p`; nothing changes when every character does |
| Text.FilterSingle | automatizacion.py:59 | one character is kept exactly when it satisfies `p` |
| Text.FilterConcat | automatizacion.py:59 | the join over `a + b` is the join over `a` followed by the join over `b`, so the kept characters stay in order and keep their multiplicity |
| Text.FilterNone | automatizacion.py:59 | nothing is kept when no character satisfies `p` |
| Text.Lower | automatizacion.py:60 | `lower()` keeps the length, maps each character through the ASCII case mapping, and leaves no upper-case letter |
| Text.ReplaceChar | automatizacion.py:61 | `replace(" ", "_")` keeps the length, changes exactly the matching characters, and leaves none of them |
| Text.Find | automatizacion.py:149 | `find` gives -1 exactly when the character is absent, else the index of its first occurrence |
| Text.RFind | automatizacion.py:150 | `rfind` gives -1 exactly when the character is absent, else the index of its last occurrence |
| Text.FirstWhere | automatizacion.py:149 | the index of the first character meeting the condition (the end of the netloc), or the length when there is none |
| Text.Before | automatizacion.py:149 | the text before the first occurrence of a character (all of it when there is none); the result never contains that character |
| Slug.Slugify | automatizacion.py:54-64 | a slug is never empty and holds only characters of the allowed alphabet: no space and no upper-case letter |
| Slug.SlugifyFallback | automatizacion.py:54-64 | when no character, lower-cased, is in the allowed alphabet and none is a space, the slug is `"categoria"` |
| Slug.AllowedIsAlphabet | automatizacion.py:62-63 | the range test used for the final filter is exactly membership in the literal `allowed` string |
| Slug.SlugIsFixedPoint | automatizacion.py:54-64 | a non-empty string over the allowed alphabet is its own slug |
| Slug.SlugifyIdempotent | automatizacion.py:54-64 | slugifying a slug changes nothing |
| Slug.PlainNameReplaced | automatizacion.py:54-64 | for a name made of ASCII letters and inner spaces, the slug is the name lower-cased with spaces turned into underscores |
| Slug.PlainNameSlug | automatizacion.py:54-64 | such a name's slug has its length, and each character is the lower-cased letter, or `_` for a space |
| Order.LessIrreflexive | automatizacion.py:190 | no string sorts before itself |
| Order.LessTransitive | automatizacion.py:190 | string order is transitive |
| Order.LessTotal | automatizacion.py:190 | any two different strings are ordered one way or the other |
| Order.StrictlySortedDistinct | automatizacion.py:190 | a strictly sorted list has no repeated element |
| Order.Insert | automatizacion.py:190 | inserting into a sorted list without duplicates keeps it strictly sorted and adds exactly the new element |
| Order.SortedSet | automatizacion.py:190 | `sorted(set(xs))` is strictly sorted and holds exactly the elements of `xs` |
| Order.StrictlySortedUnique | automatizacion.py:190 | two strictly sorted lists with the same elements are equal, so `sorted(set(xs))` is determined by the set |
| UrlExt.UrlPath | automatizacion.py:149 | the path `urlparse` reports never contains `?` or `#` |
| UrlExt.DropSchemeOf | automatizacion.py:149 | a well-formed `scheme:` prefix is removed, and what follows it is kept whole |
| UrlExt.DropNetlocOf | automatizacion.py:149 | `//host` is removed up to the first `/`, `?` or `#` |
| UrlExt.CutQueryAndFragment | automatizacion.py:149 | cutting the fragment and then the query leaves a path that has neither |
| UrlExt.BeforeAfterPrefix | automatizacion.py:149 | cutting at a character that the prefix lacks cuts inside the rest |
| UrlExt.UrlPathAfterScheme | automatizacion.py:149 | for a visible URL with a well-formed scheme, the path is what follows the netloc, up to the query or fragment |
| UrlExt.UrlPathOfAbsoluteUrl | automatizacion.py:149 | the path of `scheme://host/path?query#fragment` is exactly `/path`, for an ASCII host without brackets and a path without `;` |
| UrlExt.PathName | automatizacion.py:150 | `Path(path).name`, in its POSIX flavour, never holds `/` and is never `.` |
| UrlExt.PathNameOfFile | automatizacion.py:150 | the name of `dir/file` is `file` |
| UrlExt.Suffix | automatizacion.py:150 | the suffix is empty or a proper tail of the name that starts with its only dot; it is non-empty exactly when the name has at least two characters, does not end with a dot, and has a dot after its first character |
| UrlExt.SuffixOfStemAndExt | automatizacion.py:150 | the suffix of `stem.ext` is `.ext` when `ext` has no dot |
| UrlExt.GetExtFromUrl | automatizacion.py:148-151 | the result is the suffix of the name of the URL's path when that suffix is non-empty, and the default otherwise; so it is the default or starts with a dot and then holds no dot and no `/` |
| UrlExt.FileNameOfUrl | automatizacion.py:149-150 | the name of the path of `scheme://host/dir/file?query` is `file`, under the same conditions on host and path |
| UrlExt.ExtOfFileUrl | automatizacion.py:148-151 | the extension of `scheme://host/dir/stem.ext?query` is `.ext`, whatever the default, under the same conditions on host and path |
| UrlExt.ExtOfDotlessUrl | automatizacion.py:148-151 | a URL whose file name has no dot gets the default extension |
| Planning.FirstMissing | automatizacion.py:171-178 | gives nothing exactly when every required column is present; otherwise gives the first one missing, in checking order |
| Planning.CheckHeader | automatizacion.py:165-178 | an empty CSV is rejected; a missing `Año` is reported before any category; a reported column is required and missing; the header passes exactly when all required columns are present |
| Planning.HeaderOkGivesYears | automatizacion.py:170-183 | once the header passes, every record has a year cell |
| Planning.CleanTrims | automatizacion.py:183-185 | `.strip().strip('"')` never lengthens and adds no character; no quote is left at either end; a cell with nothing to strip is unchanged |
| Planning.UrlOf | automatizacion.py:185 | a missing or `None` cell gives the empty URL |
| Planning.YearOfCell | automatizacion.py:183 | the year of a short record is the text `"None"`; a year cell with nothing to strip is the year as written |
| Planning.BlankCellGivesNoUrl | automatizacion.py:185 | a cell of whitespace only gives the empty URL |
| Planning.PlannedTasksLength | automatizacion.py:180-186 | there is one task per (row, category) pair |
| Planning.PlannedTaskAt | automatizacion.py:180-186 | the task at `i * |categories| + j` is category `j` of row `i`, with that row's year and that cell's URL |
| Planning.BuildTasks | automatizacion.py:181-186 | the nested loops build exactly the planned task list |
| Planning.AppendRowTasks | automatizacion.py:184-186 | the inner loop appends exactly the row's tasks |
| Planning.AllUrls | automatizacion.py:189 | `all_urls` holds a string exactly when it is the non-empty URL of some task |
| Planning.UniqueUrls | automatizacion.py:190 | `unique_urls` is strictly sorted and has no duplicates; it holds exactly the tasks' non-empty URLs |
| Planning.UniqueUrlsIsTheOnly | automatizacion.py:190 | any other sorted, duplicate-free list of those URLs equals `unique_urls` |
| Planning.Take | automatizacion.py:206 | `s[:16]` is the first `min(16, len(s))` characters |
| Planning.LocalNameForUrl | automatizacion.py:203-207 | the cache path is one component below the cache directory, and its name starts with `file_` |
| Planning.JoinNameHead | automatizacion.py:244 | a destination file name starts with its year and an underscore |
| Planning.ExtStartsWithDot | automatizacion.py:237 | the extension of a destination always starts with a dot and has at least two characters |
| Planning.DestNamesDistinct | automatizacion.py:236-244 | two tasks of one year whose categories have different slugs get different file names |
| Planning.CategorySlugsDistinct | automatizacion.py:45-51 | the five categories have pairwise different slugs |
| Planning.RowDestinationsDistinct | automatizacion.py:231-244 | two tasks of the same row never share a destination |
| Planning.DestinationNotInCache | automatizacion.py:198-244 | no destination is ever a cache file, with or without `GROUP_BY_YEAR` |
| Automation.CacheStep | automatizacion.py:211-221 | one URL records its cache path and adds only that file; it raises exactly when the file is absent and the download fails |
| Automation.FillCache | automatizacion.py:210-221 | when the cache loop gets through, no file has been removed |
| Automation.FillCacheOutcome | automatizacion.py:210-221 | when the loop gets through, `url_to_local` maps exactly the URLs, each to its cache path, and that file exists; only cache files are added; when the loop stops, a URL's download failed; it gets through whenever every URL is cached or downloads |
| Automation.RunCacheFill | automatizacion.py:210-221 | the loop computes exactly the cache state `FillCache` describes, and stops at the first failed download |
| Automation.AbortIsFinal | automatizacion.py:221 | after a download raises, the remaining URLs change nothing |
| Automation.LinkOrCopy | automatizacion.py:119-135 | a link or copy that lands adds the destination and nothing else; one that fails adds nothing, or only the destination when the World says `shutil.copy2` left a partial or unfinished file behind |
| Automation.Step | automatizacion.py:231-264 | an empty URL fails; a task is skipped exactly when its URL is non-empty, `SKIP_IF_EXISTS` is set and the destination exists; at most the destination is added; a task that does not fail leaves its destination on disk; a failure that adds a file does so only through a failed copy with `DEDUP_BY_URL` that left its destination behind; an ok task had a non-empty URL and, with `DEDUP_BY_URL`, an existing cache file whose link or copy landed, or without it a download that landed; without `DEDUP_BY_URL` a failed task had an empty URL or a download that did not land |
| Automation.FailedCopyThenSkip | automatizacion.py:244-263 | a failed copy that left its destination behind counts as a failure, and with `SKIP_IF_EXISTS` a later task with the same destination is then skipped |
| Automation.Tally | automatizacion.py:227-264 | one outcome per task, and no file removed |
| Automation.TallyOutcomes | automatizacion.py:231-264 | every task with an empty URL fails; nothing is skipped without `SKIP_IF_EXISTS`; every task that did not fail has its destination at the end; the only files created are destinations |
| Automation.TallyTotals | automatizacion.py:227-264 | each counter holds how many times its outcome occurred, and together they count every task once |
| Automation.RunTally | automatizacion.py:227-264 | the loop's three counters and files are those of `Tally`, and the counters add up to the number of tasks |
| Automation.FailsCoverEmptyUrls | automatizacion.py:232-234 | there are at least as many failures as tasks with an empty URL |
| Automation.CountZeroIffAbsent | automatizacion.py:227-264 | an outcome is counted zero times exactly when it never occurs |
| Automation.OutcomesLanded | automatizacion.py:244-263 | over the whole outcome loop, every task counted ok had its link or copy land (with `DEDUP_BY_URL`) or its download land (without it), and without `DEDUP_BY_URL` every failed task had an empty URL or a download that did not land |
| Automation.DedupFailuresExplained | automatizacion.py:250-263 | with `DEDUP_BY_URL` and every URL mapped to an existing cache file, a task fails only for an empty URL or a link or copy that did not land |
| Automation.RunExitStatus | automatizacion.py:154-278 | the exit status is 0 or 1; it is 0 only when the CSV exists and passes the header check, and it is 0 whenever, besides, every distinct URL of the cache loop can be found or fetched |
| Automation.CacheOfRun | automatizacion.py:210-224 | without `DEDUP_BY_URL` there is no cache loop; with it, a failed download is one of `unique_urls` |
| Automation.RunSpec | automatizacion.py:154-274 | a missing CSV and a rejected header stop the run; the three totals of a finished run add up to one per (row, category) pair, and a finished run removes no file; a failed download happens only with `DEDUP_BY_URL` and for a non-empty URL |
| Automation.Run | automatizacion.py:154-274 | `main()` computes exactly the result `RunSpec` describes |
| Automation.CachedRunFailuresExplained | automatizacion.py:210-263 | once the cache loop gets through, a task fails only for an empty URL or a link or copy of its cached file that did not land |
| Automation.CacheOfRunGetsThrough | automatizacion.py:210-221 | the cache loop gets through whenever every distinct URL is cached already or downloads |
| Automation.RunEndsInTallyOrDownload | automatizacion.py:154-274 | a run whose CSV exists and passes the header check finishes or stops at a failed download; it stops only when some distinct URL can be neither found nor fetched |
| Automation.RunTotals | automatizacion.py:227-264 | a finished run has at least one failure per empty URL, and no skip without `SKIP_IF_EXISTS` |
| Automation.RunCreatesOnlyCacheAndDestinations | automatizacion.py:197-264 | a finished run creates only cache files of distinct URLs and destinations of tasks, and no destination is a cache file |

## Left out

- Printing (progress lines, the summary, the list of up to ten URLs) is left
  out: it changes no state.
- `download_url` is modelled as one answer of the World per (URL,
  destination). Left out are its retries, the sleep between them, the
  timeout, the HTTP status check and the `.part` temporary file. A failed
  download leaves no file behind.
- `try_hardlink_or_copy` is modelled as one answer of the World. Left out
  are the choice between a hard link and a copy, and the case where the old
  destination is unlinked and then the link and the copy both fail. A
  failed copy may leave a partial or unfinished destination behind; the
  World says whether it does. Its own
  skip test is kept, but `main()` never reaches it, because the outcome
  loop has already skipped an existing destination.
- `hashlib.sha256(...).hexdigest()` is a function of the World.
  `ensure_dir` is not modelled: directories are not modelled, only files.
- `parse_csv_rows` (reading the file, the BOM, CSV quoting) is left out.
  The records are given as maps from header name to cell, and a cell missing
  from a short record reads as `None`. `Automation.RunSpec` requires every
  record to have the header's keys. The extra fields of an over-long record
  (DictReader's `None` key) are not modelled.
- Slug.Slugify takes its input as already in NFD form: Unicode normalisation
  is not modelled. Category Mn is approximated by the Combining Diacritical
  Marks block U+0300–U+036F. `lower()` is modelled on ASCII letters only; any
  other letter is removed by the final filter either way.
- UrlExt.UrlPath leaves out the `;params` split of `urlparse` (the lemmas
  about absolute URLs require a path without `;`).
- UrlExt.PathName and UrlExt.Suffix take the POSIX flavour of `Path`, with
  `/` as the only separator, and the suffix rule of Python up to 3.13. The
  script's own paths (`C:\...`) are Windows paths, where `Path` also splits
  on `\` and would read a URL path holding `\` differently.
- UrlExt.GetExtFromUrl does not model the `ValueError` that `urlsplit` raises
  on a netloc with unbalanced or invalid IPv6 brackets, or on a non-ASCII
  netloc that NFKC normalisation turns into one holding `/`, `?`, `#`, `@`
  or `:`. The lemmas about absolute URLs require an ASCII netloc without
  brackets.
- Automation.RunSpec does not model that such a URL ends `main()` with an
  uncaught exception and status 1: `get_ext_from_url` is called outside any
  `try` (automatizacion.py:205 and 237). The model returns an extension for
  every URL, so Automation.RunEndsInTallyOrDownload and
  Automation.RunExitStatus speak of URLs that `urlsplit` accepts.
- Path components are plain strings. A year holding `/` or `..` would make
  `pathlib` nest or climb directories, and an empty year or `.` adds no
  component at all (`out_dir / ""` is `out_dir`); the model does not capture
  that.
- Path names compare exactly. On the script's `C:\` paths, NTFS compares
  names without regard to case, so two year cells that differ only in case
  name one destination there and two in the model.
- The configuration switches are parameters (`Config`); the script ships
  with all three set. `TRY_HARDLINK`, `RETRIES`, the timeouts and
  the user agent are part of the World's answers.
