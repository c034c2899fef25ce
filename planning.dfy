/**
 * The planning half of the download script's main(): the header check, the
 * (year, category, url) task list built row by row and category by category,
 * the sorted list of distinct URLs, and the names of the cache file of a URL
 * and of the destination file of a task.
 */
module Planning {
  import opened Wrappers
  import opened Text
  import opened Order
  import Slug
  import UrlExt

  /** The column holding the year of each row. */
  const YEAR_COLUMN: string := "Año"

  /** One URL column per category, in the order tasks are built. */
  const CATEGORIES: seq<string> :=
    ["Defunciones", "Defunciones fetales", "Divorcios", "Matrimonios", "Nacimientos"]

  /** Extension used when a URL's path has no suffix. */
  const DEFAULT_EXT: string := ".sav"

  /** Directory, under the output directory, holding one download per URL. */
  const CACHE_DIR_NAME: string := "_cache_downloads"

  /** One CSV record as csv.DictReader yields it: header name to cell, where a
      cell missing from a short record reads as None. */
  type Row = map<string, Option<string>>

  /** A file-system path as its sequence of components. */
  type Path = seq<string>

  datatype Task = Task(year: string, category: string, url: string)

  /** The script's switches GROUP_BY_YEAR, SKIP_IF_EXISTS and DEDUP_BY_URL. */
  datatype Config = Config(groupByYear: bool, skipIfExists: bool, dedupByUrl: bool)

  datatype HeaderError = EmptyCsv | MissingColumn(name: string)

  /** Columns the header must have, in the order they are checked. */
  function RequiredColumns(): seq<string>
  {
    [YEAR_COLUMN] + CATEGORIES
  }

  /** csv.DictReader gives every record the header's keys. */
  predicate SameColumns(rows: seq<Row>)
  {
    forall i :: 0 <= i < |rows| ==> rows[i].Keys == rows[0].Keys
  }

  /** The first of `cols` that is not a key, if any. */
  function FirstMissing(cols: seq<string>, keys: set<string>): (r: Option<string>)
    ensures r.None? <==> forall k :: 0 <= k < |cols| ==> cols[k] in keys
    ensures r.Some? ==> exists i :: 0 <= i < |cols| && cols[i] == r.value && r.value !in keys
                          && forall k :: 0 <= k < i ==> cols[k] in keys
  {
    if cols == [] then None
    else if cols[0] !in keys then Some(cols[0])
    else
      var r := FirstMissing(cols[1..], keys);
      if r.Some? then
        var i :| 0 <= i < |cols[1..]| && cols[1..][i] == r.value && r.value !in keys
                 && forall k :: 0 <= k < i ==> cols[1..][k] in keys;
        assert cols[i + 1] == r.value;
        assert forall k :: 0 <= k < i + 1 ==> cols[k] in keys by {
          forall k | 0 <= k < i + 1 ensures cols[k] in keys {
            if k > 0 { assert cols[k] == cols[1..][k - 1]; }
          }
        }
        r
      else
        r
  }

  /** The header check: an empty file, then a missing year column, then the
      first missing category column, stop the script. */
  function CheckHeader(rows: seq<Row>): (r: Option<HeaderError>)
    ensures r == Some(EmptyCsv) <==> rows == []
    ensures r.None? <==> rows != [] && forall k :: 0 <= k < |RequiredColumns()| ==> RequiredColumns()[k] in rows[0]
    ensures rows != [] && YEAR_COLUMN !in rows[0] ==> r == Some(MissingColumn(YEAR_COLUMN))
    ensures r.Some? && r.value.MissingColumn? ==> r.value.name in RequiredColumns() && r.value.name !in rows[0]
  {
    if rows == [] then Some(EmptyCsv)
    else
      match FirstMissing(RequiredColumns(), rows[0].Keys)
      case None => None
      case Some(c) => Some(MissingColumn(c))
  }

  predicate IsQuote(c: char)
  {
    c == '"'
  }

  /** s.strip().strip('"'): surrounding whitespace, then surrounding quotes,
      removed once each (CleanTrims states what survives). */
  function Clean(s: string): string
  {
    Strip(Strip(s, IsSpace), IsQuote)
  }

  /** Cleaning never lengthens a cell, leaves no quote at either end, adds
      no character, and leaves alone a cell with nothing to strip. */
  lemma CleanTrims(s: string)
    ensures var r := Clean(s);
      && |r| <= |s|
      && (r == [] || (r[0] != '"' && r[|r| - 1] != '"'))
      && (forall c :: c in r ==> c in s)
      && (s == [] || (!IsSpace(s[0]) && !IsSpace(s[|s| - 1]) && s[0] != '"' && s[|s| - 1] != '"') ==> r == s)
  {
    StripTrimsEnds(s, IsSpace);
    StripTrimsEnds(Strip(s, IsSpace), IsQuote);
  }

  /** str(row["Año"]), cleaned: a cell missing from a short record reads "None". */
  function YearOf(row: Row): string
    requires YEAR_COLUMN in row
  {
    Clean(match row[YEAR_COLUMN] case Some(v) => v case None => "None")
  }

  /** The year of a short record is the text "None"; a year cell with nothing
      to strip is the year as written. */
  lemma YearOfCell(row: Row)
    requires YEAR_COLUMN in row
    ensures row[YEAR_COLUMN].None? ==> YearOf(row) == "None"
    ensures row[YEAR_COLUMN].Some? && row[YEAR_COLUMN].value != [] ==>
      var v := row[YEAR_COLUMN].value;
      !IsSpace(v[0]) && !IsSpace(v[|v| - 1]) && v[0] != '"' && v[|v| - 1] != '"' ==> YearOf(row) == v
  {
    match row[YEAR_COLUMN]
    case None => CleanTrims("None");
    case Some(v) => CleanTrims(v);
  }

  /** (row.get(c) or ""), cleaned: a missing or None cell gives the empty URL. */
  function UrlOf(row: Row, c: string): (u: string)
    ensures (c !in row || row[c].None?) ==> u == ""
  {
    Clean(if c in row && row[c].Some? then row[c].value else "")
  }

  /** The tasks of one row: one per category, in category order. */
  function RowTasks(row: Row, cats: seq<string>): (ts: seq<Task>)
    requires YEAR_COLUMN in row
  {
    seq(|cats|, j requires 0 <= j < |cats| => Task(YearOf(row), cats[j], UrlOf(row, cats[j])))
  }

  predicate HasYears(rows: seq<Row>)
  {
    forall i :: 0 <= i < |rows| ==> YEAR_COLUMN in rows[i]
  }

  /** The task list main() builds: the rows' tasks one row after the other
      (the script passes CATEGORIES as `cats`). */
  function PlannedTasks(rows: seq<Row>, cats: seq<string>): seq<Task>
    requires HasYears(rows)
  {
    if rows == [] then [] else PlannedTasks(rows[..|rows| - 1], cats) + RowTasks(rows[|rows| - 1], cats)
  }

  /** The planned list has one task per (row, category) pair. */
  lemma {:induction false} PlannedTasksLength(rows: seq<Row>, cats: seq<string>)
    requires HasYears(rows)
    ensures |PlannedTasks(rows, cats)| == |rows| * |cats|
  {
    if rows != [] {
      var init := rows[..|rows| - 1];
      PlannedTasksLength(init, cats);
      assert |rows| * |cats| == |init| * |cats| + |cats|;
    }
  }

  /** The planned list is row-major: the task at i * |cats| + j is category j
      of row i, with that row's cleaned year and that cell's cleaned URL. */
  lemma {:induction false} PlannedTaskAt(rows: seq<Row>, cats: seq<string>, i: nat, j: nat)
    requires HasYears(rows)
    requires i < |rows| && j < |cats|
    ensures i * |cats| + j < |PlannedTasks(rows, cats)|
    ensures PlannedTasks(rows, cats)[i * |cats| + j] == Task(YearOf(rows[i]), cats[j], UrlOf(rows[i], cats[j]))
  {
    var init := rows[..|rows| - 1];
    PlannedTasksLength(init, cats);
    if i == |init| {
      LastRowTaskAt(rows, cats, j);
      assert i * |cats| + j == |PlannedTasks(init, cats)| + j;
    } else {
      PlannedTaskAt(init, cats, i, j);
      MulBound(i, |init|, |cats|);
      EarlierRowTaskAt(rows, cats, i * |cats| + j);
      assert rows[i] == init[i];
    }
  }

  lemma LastRowTaskAt(rows: seq<Row>, cats: seq<string>, j: nat)
    requires HasYears(rows) && rows != [] && j < |cats|
    ensures var prefix := PlannedTasks(rows[..|rows| - 1], cats);
      && |prefix| + j < |PlannedTasks(rows, cats)|
      && PlannedTasks(rows, cats)[|prefix| + j] == RowTasks(rows[|rows| - 1], cats)[j]
  {
    var prefix := PlannedTasks(rows[..|rows| - 1], cats);
    var last := RowTasks(rows[|rows| - 1], cats);
    assert PlannedTasks(rows, cats) == prefix + last;
    ConcatAt(prefix, last, j);
  }

  lemma ConcatAt<T>(a: seq<T>, b: seq<T>, j: nat)
    requires j < |b|
    ensures (a + b)[|a| + j] == b[j]
  {
  }

  lemma EarlierRowTaskAt(rows: seq<Row>, cats: seq<string>, k: nat)
    requires HasYears(rows) && rows != []
    requires k < |PlannedTasks(rows[..|rows| - 1], cats)|
    ensures k < |PlannedTasks(rows, cats)|
    ensures PlannedTasks(rows, cats)[k] == PlannedTasks(rows[..|rows| - 1], cats)[k]
  {
  }

  lemma {:induction false} MulBound(i: nat, m: nat, n: nat)
    requires i < m
    ensures 0 <= i * n && i * n + n <= m * n
    decreases m - i
  {
    if i + 1 < m {
      MulBound(i + 1, m, n);
      assert (i + 1) * n == i * n + n;
    }
  }

  /** The loops of main() that collect the tasks. */
  method BuildTasks(rows: seq<Row>, cats: seq<string>) returns (tasks: seq<Task>)
    requires HasYears(rows)
    ensures tasks == PlannedTasks(rows, cats)
  {
    tasks := [];
    var i := 0;
    while i < |rows|
      invariant 0 <= i <= |rows|
      invariant tasks == PlannedTasks(rows[..i], cats)
    {
      tasks := AppendRowTasks(tasks, rows[i], cats);
      NextRow(rows, cats, i);
      i := i + 1;
    }
    assert rows[..i] == rows;
  }

  /** The inner loop: one task per category for one row. */
  method AppendRowTasks(tasks0: seq<Task>, row: Row, cats: seq<string>) returns (tasks: seq<Task>)
    requires YEAR_COLUMN in row
    ensures tasks == tasks0 + RowTasks(row, cats)
  {
    var year := YearOf(row);
    ghost var expected := RowTasks(row, cats);
    tasks := tasks0;
    var j := 0;
    while j < |cats|
      invariant 0 <= j <= |cats|
      invariant tasks == tasks0 + expected[..j]
    {
      var c := cats[j];
      var url := UrlOf(row, c);
      SnocPrefix(expected, j);
      tasks := tasks + [Task(year, c, url)];
      j := j + 1;
    }
    assert expected[..j] == expected;
  }

  lemma SnocPrefix<T>(s: seq<T>, j: nat)
    requires j < |s|
    ensures s[..j + 1] == s[..j] + [s[j]]
  {
  }

  lemma NextRow(rows: seq<Row>, cats: seq<string>, i: nat)
    requires HasYears(rows) && i < |rows|
    ensures PlannedTasks(rows[..i + 1], cats) == PlannedTasks(rows[..i], cats) + RowTasks(rows[i], cats)
  {
    assert rows[..i + 1][..i] == rows[..i];
  }

  /** Some task of the list has URL u. */
  predicate HasUrl(tasks: seq<Task>, u: string)
  {
    exists k :: 0 <= k < |tasks| && tasks[k].url == u
  }

  /** [u for (_, _, u) in tasks if u]. */
  function AllUrls(tasks: seq<Task>): (us: seq<string>)
    ensures forall u :: u in us <==> u != "" && HasUrl(tasks, u)
  {
    if tasks == [] then []
    else
      var init := tasks[..|tasks| - 1];
      var last := tasks[|tasks| - 1];
      var us := AllUrls(init) + (if last.url != "" then [last.url] else []);
      assert forall u :: HasUrl(tasks, u) <==> HasUrl(init, u) || last.url == u by {
        forall u | HasUrl(tasks, u) ensures HasUrl(init, u) || last.url == u {
          var k :| 0 <= k < |tasks| && tasks[k].url == u;
          if k < |init| { assert init[k] == tasks[k]; }
        }
        forall u | HasUrl(init, u) ensures HasUrl(tasks, u) {
          var k :| 0 <= k < |init| && init[k].url == u;
          assert tasks[k] == init[k];
        }
      }
      us
  }

  /** unique_urls = sorted(set(all_urls)): sorted, without duplicates, and
      holding exactly the non-empty URLs of the tasks. */
  function UniqueUrls(tasks: seq<Task>): (r: seq<string>)
    ensures StrictlySorted(r)
    ensures forall i, j :: 0 <= i < j < |r| ==> r[i] != r[j]
    ensures forall u :: u in r <==> u != "" && HasUrl(tasks, u)
  {
    var r := SortedSet(AllUrls(tasks));
    StrictlySortedDistinct(r);
    r
  }

  /** Any sorted, duplicate-free list of the tasks' non-empty URLs is unique_urls. */
  lemma UniqueUrlsIsTheOnly(tasks: seq<Task>, other: seq<string>)
    requires StrictlySorted(other)
    requires forall u :: u in other <==> u != "" && HasUrl(tasks, u)
    ensures other == UniqueUrls(tasks)
  {
    StrictlySortedUnique(other, UniqueUrls(tasks));
  }

  /** Python's s[:n]. */
  function Take(s: string, n: nat): (r: string)
    ensures |r| == if |s| < n then |s| else n
    ensures r == s[..|r|]
  {
    if |s| <= n then s else s[..n]
  }

  function CacheDir(outDir: Path): Path
  {
    outDir + [CACHE_DIR_NAME]
  }

  /** local_name_for_url: the cache file of a URL, named from the first 16
      hex digits of its digest and the URL's extension. */
  function LocalNameForUrl(cacheDir: Path, digest: string -> string, url: string): (p: Path)
    ensures |p| == |cacheDir| + 1 && p[..|cacheDir|] == cacheDir
    ensures |p[|cacheDir|]| >= 5 && p[|cacheDir|][..5] == "file_"
  {
    var name := "file_" + (Take(digest(url), 16) + UrlExt.GetExtFromUrl(url, DEFAULT_EXT));
    assert name[..5] == "file_";
    cacheDir + [name]
  }

  /** The file name of a task's destination: {year}_{slug}{ext}. */
  function DestName(t: Task): string
  {
    JoinName(t.year, Slug.Slugify(t.category), UrlExt.GetExtFromUrl(t.url, DEFAULT_EXT))
  }

  /** The f-string f"{year}_{slug}{ext}". */
  function JoinName(year: string, slug: string, ext: string): string
  {
    year + "_" + slug + ext
  }

  /** The destination of a task: under out_dir/year with GROUP_BY_YEAR, else
      directly under out_dir. */
  function Destination(cfg: Config, outDir: Path, t: Task): Path
  {
    var dir := if cfg.groupByYear then outDir + [t.year] else outDir;
    dir + [DestName(t)]
  }

  /** A header that passes the check gives every record a year cell, since
      csv.DictReader gives every record the header's keys. */
  lemma HeaderOkGivesYears(rows: seq<Row>)
    requires SameColumns(rows)
    requires CheckHeader(rows).None?
    ensures HasYears(rows)
  {
    assert RequiredColumns()[0] == YEAR_COLUMN;
  }

  /** A cell holding only whitespace reads as no URL at all. */
  lemma BlankCellGivesNoUrl(row: Row, c: string)
    requires c in row && row[c].Some?
    requires forall k :: 0 <= k < |row[c].value| ==> IsSpace(row[c].value[k])
    ensures UrlOf(row, c) == ""
  {
    StripTrimsEnds(row[c].value, IsSpace);
    StripTrimsEnds([], IsQuote);
  }

  /** An extension chosen for a destination always starts with a dot. */
  lemma ExtStartsWithDot(url: string)
    ensures var e := UrlExt.GetExtFromUrl(url, DEFAULT_EXT); |e| >= 2 && e[0] == '.'
  {
  }

  /** Two tasks of the same year whose categories have different slugs get
      different destination names: a slug never holds a dot and an extension
      always starts with one, so the name determines the slug. */
  lemma DestNamesDistinct(t1: Task, t2: Task)
    requires t1.year == t2.year
    requires Slug.Slugify(t1.category) != Slug.Slugify(t2.category)
    ensures DestName(t1) != DestName(t2)
  {
    ExtStartsWithDot(t1.url);
    ExtStartsWithDot(t2.url);
    SlugThenDot(t1.year + "_", Slug.Slugify(t1.category), UrlExt.GetExtFromUrl(t1.url, DEFAULT_EXT),
                Slug.Slugify(t2.category), UrlExt.GetExtFromUrl(t2.url, DEFAULT_EXT));
  }

  /** After a common head, a dot-free slug followed by a dotted extension
      splits in one way only. */
  lemma SlugThenDot(head: string, s1: string, e1: string, s2: string, e2: string)
    requires forall k :: 0 <= k < |s1| ==> Slug.IsAllowed(s1[k])
    requires forall k :: 0 <= k < |s2| ==> Slug.IsAllowed(s2[k])
    requires e1 != [] && e1[0] == '.' && e2 != [] && e2[0] == '.'
    requires s1 != s2
    ensures head + s1 + e1 != head + s2 + e2
  {
    var n1, n2 := head + s1 + e1, head + s2 + e2;
    if |s1| == |s2| {
      var k :| 0 <= k < |s1| && s1[k] != s2[k];
      assert n1[|head| + k] == s1[k];
      assert n2[|head| + k] == s2[k];
    } else if |s1| < |s2| {
      assert n1[|head| + |s1|] == '.';
      assert n2[|head| + |s1|] == s2[|s1|];
    } else {
      assert n2[|head| + |s2|] == '.';
      assert n1[|head| + |s2|] == s1[|s2|];
    }
  }

  /** The five categories the script handles have pairwise different slugs
      (by length, or else by first letter). */
  lemma CategorySlugsDistinct()
    ensures forall i, j :: 0 <= i < j < |CATEGORIES| ==> Slug.Slugify(CATEGORIES[i]) != Slug.Slugify(CATEGORIES[j])
  {
    forall i, j | 0 <= i < j < |CATEGORIES|
      ensures Slug.Slugify(CATEGORIES[i]) != Slug.Slugify(CATEGORIES[j])
    {
      CategoriesTellApart(i, j);
      PlainSlugsDiffer(CATEGORIES[i], CATEGORIES[j]);
    }
  }

  /** Any two of the categories differ in length or in their first letter,
      and each is a plain name. */
  lemma CategoriesTellApart(i: nat, j: nat)
    requires i < j < |CATEGORIES|
    ensures Slug.IsPlainName(CATEGORIES[i]) && Slug.IsPlainName(CATEGORIES[j])
    ensures |CATEGORIES[i]| != |CATEGORIES[j]| || LowerChar(CATEGORIES[i][0]) != LowerChar(CATEGORIES[j][0])
  {
    CategoryIsPlain(i);
    CategoryIsPlain(j);
    assert |CATEGORIES[0]| == 11 && |CATEGORIES[1]| == 19 && |CATEGORIES[2]| == 9;
    assert |CATEGORIES[3]| == 11 && |CATEGORIES[4]| == 11;
    assert CATEGORIES[0][0] == 'D' && CATEGORIES[3][0] == 'M' && CATEGORIES[4][0] == 'N';
  }

  lemma CategoryIsPlain(i: nat)
    requires i < |CATEGORIES|
    ensures Slug.IsPlainName(CATEGORIES[i])
  {
    var c := CATEGORIES[i];
    assert c in CATEGORIES;
    assert forall k :: 0 <= k < |c| ==> ('A' <= c[k] <= 'Z') || ('a' <= c[k] <= 'z') || c[k] == ' ';
  }

  /** Plain names that differ in length or in their lower-cased first letter
      have different slugs. */
  lemma PlainSlugsDiffer(a: string, b: string)
    requires Slug.IsPlainName(a) && Slug.IsPlainName(b)
    requires |a| != |b| || LowerChar(a[0]) != LowerChar(b[0])
    ensures Slug.Slugify(a) != Slug.Slugify(b)
  {
    Slug.PlainNameSlug(a);
    Slug.PlainNameSlug(b);
  }

  /** Destinations of tasks from one row never collide: the categories are
      distinct and their slugs too. */
  lemma RowDestinationsDistinct(cfg: Config, outDir: Path, row: Row, j1: nat, j2: nat)
    requires YEAR_COLUMN in row
    requires j1 < j2 < |CATEGORIES|
    ensures Destination(cfg, outDir, RowTasks(row, CATEGORIES)[j1]) != Destination(cfg, outDir, RowTasks(row, CATEGORIES)[j2])
  {
    var ts := RowTasks(row, CATEGORIES);
    CategorySlugsDistinct();
    DestNamesDistinct(ts[j1], ts[j2]);
    var d1 := Destination(cfg, outDir, ts[j1]);
    var d2 := Destination(cfg, outDir, ts[j2]);
    assert d1[|d1| - 1] == DestName(ts[j1]);
    assert d2[|d2| - 1] == DestName(ts[j2]);
  }

  /** No destination is ever a cache file: with GROUP_BY_YEAR a destination
      two levels down is named after its year ("<year>_..."), which could only
      match the cache directory name if it started with "_cache_downloads_",
      never with "file_"; without it a destination is one level down. */
  lemma DestinationNotInCache(cfg: Config, outDir: Path, t: Task, digest: string -> string, url: string)
    ensures Destination(cfg, outDir, t) != LocalNameForUrl(CacheDir(outDir), digest, url)
  {
    var file := "file_" + (Take(digest(url), 16) + UrlExt.GetExtFromUrl(url, DEFAULT_EXT));
    assert LocalNameForUrl(CacheDir(outDir), digest, url) == outDir + [CACHE_DIR_NAME] + [file];
    JoinNameHead(t.year, Slug.Slugify(t.category), UrlExt.GetExtFromUrl(t.url, DEFAULT_EXT));
    YearNameNotCacheFile(outDir, t.year, DestName(t), file);
  }

  /** A joined name starts with its year and an underscore. */
  lemma JoinNameHead(year: string, slug: string, ext: string)
    ensures var n := JoinName(year, slug, ext); |n| > |year| && n[..|year| + 1] == year + "_"
  {
    assert JoinName(year, slug, ext) == (year + "_") + (slug + ext);
  }

  /** outDir/year/"year_..." is never outDir/_cache_downloads/"file_...", and a
      path one level shorter is not either. */
  lemma YearNameNotCacheFile(outDir: Path, year: string, name: string, file: string)
    requires |name| > |year| && name[..|year| + 1] == year + "_"
    requires |file| >= 5 && file[..5] == "file_"
    ensures outDir + [year] + [name] != outDir + [CACHE_DIR_NAME] + [file]
    ensures outDir + [name] != outDir + [CACHE_DIR_NAME] + [file]
  {
    var d := outDir + [year] + [name];
    var p := outDir + [CACHE_DIR_NAME] + [file];
    assert d[|outDir|] == year && p[|outDir|] == CACHE_DIR_NAME;
    assert d[|outDir| + 1] == name && p[|outDir| + 1] == file;
    if year == CACHE_DIR_NAME {
      assert name[0] == (year + "_")[0] == '_';
      assert file[0] == 'f';
    }
  }
}
