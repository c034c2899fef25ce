/**
 * The doing half of the download script's main(): the loop that fills the
 * download cache once per distinct URL, the loop that gives every task an
 * outcome (ok, skip or fail), and the whole run from the CSV check to the
 * exit status.
 *
 * The file system is the set of paths of the files that exist. The network,
 * hashing and copying are answers of a World, fixed for the run.
 */
module Automation {
  import opened Wrappers
  import opened Planning

  /** What the outside world answers: the hex digest of a URL, whether
      download_url(url, dest) succeeds, whether try_hardlink_or_copy(src,
      dest) succeeds, and whether a failed one leaves a file at dest behind
      (shutil.copy2 creates dest before it has finished copying). */
  datatype World = World(
    digest: string -> string,
    downloads: (string, Path) -> bool,
    copies: (Path, Path) -> bool,
    leftBehind: (Path, Path) -> bool)

  // ----- the cache-filling loop -----

  /** State of the cache loop: still going with url_to_local and the files on
      disk, or stopped by a download that raised. */
  datatype CacheState = Cached(urlToLocal: map<string, Path>, files: set<Path>) | Aborted(url: string)

  /** One URL of the cache loop: record its cache path, and download it unless
      that file exists already. A failed download raises out of main(). */
  function CacheStep(w: World, local: string -> Path, url: string, m: map<string, Path>, files: set<Path>): (s: CacheState)
    ensures s.Cached? ==> s.urlToLocal == m[url := local(url)]
    ensures s.Cached? ==> files <= s.files && local(url) in s.files
    ensures s.Cached? ==> s.files <= files + {local(url)}
    ensures s.Aborted? <==> local(url) !in files && !w.downloads(url, local(url))
    ensures s.Aborted? ==> s.url == url
  {
    var path := local(url);
    if path in files then Cached(m[url := path], files)
    else if w.downloads(url, path) then Cached(m[url := path], files + {path})
    else Aborted(url)
  }

  /** The cache loop over `urls` from an empty url_to_local and the files
      `files0` (FillCacheOutcome states what it promises). */
  function FillCache(w: World, local: string -> Path, urls: seq<string>, files0: set<Path>): (s: CacheState)
    ensures s.Cached? ==> files0 <= s.files
  {
    if urls == [] then Cached(map[], files0)
    else
      match FillCache(w, local, urls[..|urls| - 1], files0)
      case Aborted(u) => Aborted(u)
      case Cached(m, fs) => CacheStep(w, local, urls[|urls| - 1], m, fs)
  }

  /** When the cache loop gets through, every URL maps to its cache path,
      that file exists, and only cache files were added; when it stops, it
      stopped at a URL of the list whose download failed; and it gets
      through whenever every URL is cached already or downloads. */
  lemma {:induction false} FillCacheOutcome(w: World, local: string -> Path, urls: seq<string>, files0: set<Path>)
    ensures var s := FillCache(w, local, urls, files0);
      && (s.Cached? ==> forall u :: u in s.urlToLocal <==> u in urls)
      && (s.Cached? ==> forall u :: u in s.urlToLocal ==> s.urlToLocal[u] == local(u) && s.urlToLocal[u] in s.files)
      && (s.Cached? ==> forall p :: p in s.files && p !in files0 ==> IsCacheFileOf(local, urls, p))
      && (s.Aborted? ==> s.url in urls && !w.downloads(s.url, local(s.url)))
      && ((forall k :: 0 <= k < |urls| ==> Fetchable(w, local, files0, urls[k])) ==> s.Cached?)
  {
    if urls != [] {
      var init := urls[..|urls| - 1];
      var url := urls[|urls| - 1];
      FillCacheOutcome(w, local, init, files0);
      assert forall u :: u in urls <==> u in init || u == url;
      assert forall k :: 0 <= k < |init| ==> init[k] == urls[k];
      var s := FillCache(w, local, urls, files0);
      match FillCache(w, local, init, files0)
      case Aborted(u) => {}
      case Cached(m, fs) => {
        assert s == CacheStep(w, local, url, m, fs);
        if s.Cached? {
          forall p | p in s.files && p !in files0 ensures IsCacheFileOf(local, urls, p) {
            if p in fs {
              var k :| 0 <= k < |init| && local(init[k]) == p;
              assert urls[k] == init[k];
            } else {
              assert local(urls[|urls| - 1]) == p;
            }
          }
        }
      }
    }
  }

  /** p is the cache path of one of the URLs. */
  predicate IsCacheFileOf(local: string -> Path, urls: seq<string>, p: Path)
  {
    exists k :: 0 <= k < |urls| && local(urls[k]) == p
  }

  /** A URL the cache loop gets past: its file exists or its download succeeds. */
  predicate Fetchable(w: World, local: string -> Path, files0: set<Path>, url: string)
  {
    var path := local(url);
    path in files0 || w.downloads(url, path)
  }

  /** The loop of main() over unique_urls that fills url_to_local and the cache
      directory, stopping at the first download that raises. */
  method RunCacheFill(w: World, local: string -> Path, urls: seq<string>, files0: set<Path>) returns (s: CacheState)
    ensures s == FillCache(w, local, urls, files0)
  {
    var urlToLocal: map<string, Path> := map[];
    var files := files0;
    var i := 0;
    while i < |urls|
      invariant 0 <= i <= |urls|
      invariant Cached(urlToLocal, files) == FillCache(w, local, urls[..i], files0)
    {
      var url := urls[i];
      FillCacheNext(w, local, urls, i, files0);
      var localPath := local(url);
      urlToLocal := urlToLocal[url := localPath];
      if localPath !in files {
        if !w.downloads(url, localPath) {
          s := Aborted(url);
          AbortIsFinal(w, local, urls, i + 1, files0);
          return;
        }
        files := files + {localPath};
      }
      i := i + 1;
    }
    assert urls[..i] == urls;
    s := Cached(urlToLocal, files);
  }

  /** Once a download has raised, the rest of the URLs change nothing. */
  lemma {:induction false} AbortIsFinal(w: World, local: string -> Path, urls: seq<string>, i: nat, files0: set<Path>)
    requires i <= |urls|
    requires FillCache(w, local, urls[..i], files0).Aborted?
    ensures FillCache(w, local, urls, files0) == FillCache(w, local, urls[..i], files0)
  {
    if i < |urls| {
      var init := urls[..|urls| - 1];
      assert init[..i] == urls[..i];
      AbortIsFinal(w, local, init, i, files0);
    } else {
      assert urls[..i] == urls;
    }
  }

  lemma FillCacheNext(w: World, local: string -> Path, urls: seq<string>, i: nat, files0: set<Path>)
    requires i < |urls|
    ensures FillCache(w, local, urls[..i + 1], files0) ==
      match FillCache(w, local, urls[..i], files0)
      case Aborted(u) => Aborted(u)
      case Cached(m, fs) => CacheStep(w, local, urls[i], m, fs)
  {
    assert urls[..i + 1][..i] == urls[..i];
  }

  // ----- the outcome loop -----

  datatype Outcome = Ok | Skip | Fail

  /** try_hardlink_or_copy(src, dest): succeeds at once when skipping and dest
      exists; otherwise the World says whether the link or copy lands, and
      whether a copy that fails leaves a partial or unfinished dest. */
  function LinkOrCopy(cfg: Config, w: World, src: Path, dest: Path, files: set<Path>): (r: (bool, set<Path>))
    ensures r.0 ==> r.1 == files + {dest}
    ensures !r.0 ==> r.1 == files || (w.leftBehind(src, dest) && r.1 == files + {dest})
  {
    if cfg.skipIfExists && dest in files then (true, files)
    else if w.copies(src, dest) then (true, files + {dest})
    else (false, if w.leftBehind(src, dest) then files + {dest} else files)
  }

  /** The body of the outcome loop for one task: its outcome and the files
      afterwards. An empty URL fails; an existing destination is skipped when
      SKIP_IF_EXISTS is set; with DEDUP_BY_URL the cache file is linked or
      copied, and a URL missing from url_to_local (KeyError), a missing cache
      file or a failed copy fail; without it the URL is downloaded straight
      to the destination. */
  function Step(cfg: Config, w: World, dest: Task -> Path, m: map<string, Path>, files: set<Path>, t: Task): (r: (Outcome, set<Path>))
    ensures files <= r.1 <= files + {dest(t)}
    ensures t.url == "" ==> r.0 == Fail
    ensures r.0 == Skip <==> t.url != "" && cfg.skipIfExists && dest(t) in files
    ensures r.0 != Fail ==> dest(t) in r.1
    ensures r.0 == Fail && r.1 != files ==>
      cfg.dedupByUrl && t.url in m && !w.copies(m[t.url], dest(t)) && w.leftBehind(m[t.url], dest(t))
    ensures r.0 == Ok ==>
      && t.url != ""
      && (if cfg.dedupByUrl then t.url in m && m[t.url] in files && w.copies(m[t.url], dest(t))
          else w.downloads(t.url, dest(t)))
    ensures r.0 == Fail && !cfg.dedupByUrl ==> t.url == "" || !w.downloads(t.url, dest(t))
  {
    if t.url == "" then (Fail, files)
    else
      var d := dest(t);
      if cfg.skipIfExists && d in files then (Skip, files)
      else if cfg.dedupByUrl then
        if t.url !in m || m[t.url] !in files then (Fail, files)
        else
          var (copied, fs) := LinkOrCopy(cfg, w, m[t.url], d, files);
          if copied then (Ok, fs) else (Fail, fs)
      else if w.downloads(t.url, d) then (Ok, files + {d})
      else (Fail, files)
  }

  /** A failed copy that leaves its destination behind still counts as a
      failure, yet with SKIP_IF_EXISTS a later task with the same destination
      then finds that file and is skipped. */
  lemma FailedCopyThenSkip(cfg: Config, w: World, dest: Task -> Path, m: map<string, Path>, files: set<Path>, t: Task, t2: Task)
    requires cfg.skipIfExists && t2.url != "" && dest(t2) == dest(t)
    requires Step(cfg, w, dest, m, files, t).0 == Fail
    requires Step(cfg, w, dest, m, files, t).1 != files
    ensures Step(cfg, w, dest, m, Step(cfg, w, dest, m, files, t).1, t2).0 == Skip
  {
  }

  /** The counters total_ok, total_skip and total_fail. */
  datatype Totals = Totals(ok: nat, skip: nat, fail: nat)

  /** The counters after one more outcome. */
  function Record(c: Totals, o: Outcome): Totals
  {
    match o
    case Ok => c.(ok := c.ok + 1)
    case Skip => c.(skip := c.skip + 1)
    case Fail => c.(fail := c.fail + 1)
  }

  /** Outcomes of a run of the outcome loop, one per task, the files after
      it, and its counters. */
  datatype Tallied = Tallied(outcomes: seq<Outcome>, files: set<Path>, totals: Totals)

  /** p is the destination of one of the tasks. */
  predicate IsDestinationOf(dest: Task -> Path, tasks: seq<Task>, p: Path)
  {
    exists k :: 0 <= k < |tasks| && dest(tasks[k]) == p
  }

  /** The outcome loop over `tasks`, starting from the files `files0`: one
      outcome per task, and no file removed (TallyOutcomes says which
      outcomes, TallyTotals what the counters hold). */
  function Tally(cfg: Config, w: World, dest: Task -> Path, m: map<string, Path>, files0: set<Path>, tasks: seq<Task>): (r: Tallied)
    ensures |r.outcomes| == |tasks|
    ensures files0 <= r.files
  {
    if tasks == [] then Tallied([], files0, Totals(0, 0, 0))
    else
      var prev := Tally(cfg, w, dest, m, files0, tasks[..|tasks| - 1]);
      var (o, fs) := Step(cfg, w, dest, m, prev.files, tasks[|tasks| - 1]);
      Tallied(prev.outcomes + [o], fs, Record(prev.totals, o))
  }

  /** What the outcome loop promises: a task with an empty URL fails and is
      never skipped; nothing is skipped without SKIP_IF_EXISTS; every task
      that did not fail has its destination on disk at the end; and the only
      files created are destinations. */
  predicate OutcomesExplained(cfg: Config, dest: Task -> Path, files0: set<Path>, tasks: seq<Task>, outs: seq<Outcome>, files: set<Path>)
  {
    && |outs| == |tasks|
    && (forall k :: 0 <= k < |tasks| && tasks[k].url == "" ==> outs[k] == Fail)
    && (!cfg.skipIfExists ==> Skip !in outs)
    && (forall k :: 0 <= k < |tasks| && outs[k] != Fail ==> dest(tasks[k]) in files)
    && (forall p :: p in files && p !in files0 ==> IsDestinationOf(dest, tasks, p))
  }

  /** The outcome loop keeps its promises. */
  lemma {:induction false} TallyOutcomes(cfg: Config, w: World, dest: Task -> Path, m: map<string, Path>, files0: set<Path>, tasks: seq<Task>)
    ensures var r := Tally(cfg, w, dest, m, files0, tasks);
      OutcomesExplained(cfg, dest, files0, tasks, r.outcomes, r.files)
  {
    if tasks != [] {
      var init := tasks[..|tasks| - 1];
      var t := tasks[|tasks| - 1];
      TallyOutcomes(cfg, w, dest, m, files0, init);
      var prev := Tally(cfg, w, dest, m, files0, init);
      var step := Step(cfg, w, dest, m, prev.files, t);
      OutcomesExplainedNext(cfg, dest, files0, init, t, prev.outcomes, prev.files, step.0, step.1);
      assert init + [t] == tasks;
    }
  }

  /** One more step, with what Step promises about it, keeps the promises. */
  lemma OutcomesExplainedNext(cfg: Config, dest: Task -> Path, files0: set<Path>, tasks: seq<Task>, t: Task,
                              outs: seq<Outcome>, files: set<Path>, o: Outcome, next: set<Path>)
    requires OutcomesExplained(cfg, dest, files0, tasks, outs, files)
    requires files <= next <= files + {dest(t)}
    requires t.url == "" ==> o == Fail
    requires o == Skip ==> cfg.skipIfExists
    requires o != Fail ==> dest(t) in next
    ensures OutcomesExplained(cfg, dest, files0, tasks + [t], outs + [o], next)
  {
    var all := tasks + [t];
    var n := |tasks|;
    assert forall k :: 0 <= k < n ==> all[k] == tasks[k] && (outs + [o])[k] == outs[k];
    assert all[n] == t && (outs + [o])[n] == o;
    forall p | p in next && p !in files0 ensures IsDestinationOf(dest, all, p) {
      if p in files {
        var k :| 0 <= k < n && dest(tasks[k]) == p;
        assert all[k] == tasks[k];
      } else {
        assert dest(all[n]) == p;
      }
    }
  }

  /** Each counter holds how many times its outcome occurred, and together
      they count every task once. */
  lemma {:induction false} TallyTotals(cfg: Config, w: World, dest: Task -> Path, m: map<string, Path>, files0: set<Path>, tasks: seq<Task>)
    ensures var r := Tally(cfg, w, dest, m, files0, tasks);
      && r.totals == Totals(Count(r.outcomes, Ok), Count(r.outcomes, Skip), Count(r.outcomes, Fail))
      && r.totals.ok + r.totals.skip + r.totals.fail == |tasks|
  {
    if tasks != [] {
      var init := tasks[..|tasks| - 1];
      TallyTotals(cfg, w, dest, m, files0, init);
      var prev := Tally(cfg, w, dest, m, files0, init);
      var o := Step(cfg, w, dest, m, prev.files, tasks[|tasks| - 1]).0;
      RecordCounts(prev.outcomes, o, prev.totals);
    }
  }

  /** Recording one more outcome keeps the counters equal to the counts. */
  lemma RecordCounts(outs: seq<Outcome>, o: Outcome, c: Totals)
    requires c == Totals(Count(outs, Ok), Count(outs, Skip), Count(outs, Fail))
    requires c.ok + c.skip + c.fail == |outs|
    ensures var n := Record(c, o);
      && n == Totals(Count(outs + [o], Ok), Count(outs + [o], Skip), Count(outs + [o], Fail))
      && n.ok + n.skip + n.fail == |outs| + 1
  {
    CountNext(outs, o);
  }

  /** How many times outcome o occurs. */
  function Count(outs: seq<Outcome>, o: Outcome): (n: nat)
    ensures n <= |outs|
  {
    if outs == [] then 0
    else Count(outs[..|outs| - 1], o) + (if outs[|outs| - 1] == o then 1 else 0)
  }

  /** An outcome is counted zero times exactly when it does not occur. */
  lemma {:induction false} CountZeroIffAbsent(outs: seq<Outcome>, o: Outcome)
    ensures Count(outs, o) == 0 <==> o !in outs
  {
    if outs != [] {
      var init := outs[..|outs| - 1];
      CountZeroIffAbsent(init, o);
      assert forall x :: x in outs <==> x in init || x == outs[|outs| - 1];
    }
  }

  /** How many tasks have an empty URL. */
  function EmptyUrls(tasks: seq<Task>): (n: nat)
    ensures n <= |tasks|
  {
    if tasks == [] then 0
    else EmptyUrls(tasks[..|tasks| - 1]) + (if tasks[|tasks| - 1].url == "" then 1 else 0)
  }

  /** Where every task with an empty URL failed, there are at least as many
      failures as such tasks. */
  lemma {:induction false} FailsCoverEmptyUrls(tasks: seq<Task>, outs: seq<Outcome>)
    requires |outs| == |tasks|
    requires forall k :: 0 <= k < |tasks| && tasks[k].url == "" ==> outs[k] == Fail
    ensures Count(outs, Fail) >= EmptyUrls(tasks)
  {
    if tasks != [] {
      var n := |tasks| - 1;
      assert forall k :: 0 <= k < n ==> tasks[..n][k] == tasks[k] && outs[..n][k] == outs[k];
      FailsCoverEmptyUrls(tasks[..n], outs[..n]);
    }
  }

  /** The outcome loop of main(), with its three counters. */
  method RunTally(cfg: Config, w: World, dest: Task -> Path, m: map<string, Path>, files0: set<Path>, tasks: seq<Task>)
    returns (totalOk: nat, totalSkip: nat, totalFail: nat, files: set<Path>)
    ensures var r := Tally(cfg, w, dest, m, files0, tasks);
      Totals(totalOk, totalSkip, totalFail) == r.totals && files == r.files
    ensures totalOk + totalSkip + totalFail == |tasks|
  {
    totalOk, totalSkip, totalFail := 0, 0, 0;
    files := files0;
    ghost var outs: seq<Outcome> := [];
    var i := 0;
    while i < |tasks|
      invariant 0 <= i <= |tasks|
      invariant Tallied(outs, files, Totals(totalOk, totalSkip, totalFail)) == Tally(cfg, w, dest, m, files0, tasks[..i])
    {
      var step := Step(cfg, w, dest, m, files, tasks[i]);
      var o := step.0;
      TallyNext(cfg, w, dest, m, files0, tasks, i, outs, files, Totals(totalOk, totalSkip, totalFail));
      match o {
        case Ok => totalOk := totalOk + 1;
        case Skip => totalSkip := totalSkip + 1;
        case Fail => totalFail := totalFail + 1;
      }
      outs := outs + [o];
      files := step.1;
      i := i + 1;
    }
    assert tasks[..i] == tasks;
    TallyTotals(cfg, w, dest, m, files0, tasks);
  }

  lemma TallyNext(cfg: Config, w: World, dest: Task -> Path, m: map<string, Path>, files0: set<Path>, tasks: seq<Task>, i: nat,
                  outs: seq<Outcome>, files: set<Path>, c: Totals)
    requires i < |tasks|
    requires Tallied(outs, files, c) == Tally(cfg, w, dest, m, files0, tasks[..i])
    ensures var step := Step(cfg, w, dest, m, files, tasks[i]);
      Tallied(outs + [step.0], step.1, Record(c, step.0)) == Tally(cfg, w, dest, m, files0, tasks[..i + 1])
  {
    assert tasks[..i + 1][..i] == tasks[..i];
  }

  lemma CountNext(outs: seq<Outcome>, o: Outcome)
    ensures Count(outs + [o], Ok) == Count(outs, Ok) + if o == Ok then 1 else 0
    ensures Count(outs + [o], Skip) == Count(outs, Skip) + if o == Skip then 1 else 0
    ensures Count(outs + [o], Fail) == Count(outs, Fail) + if o == Fail then 1 else 0
  {
    assert (outs + [o])[..|outs|] == outs;
  }

  /** With DEDUP_BY_URL and every non-empty URL mapped to a cache file that
      exists, a task fails only for an empty URL or a link or copy that did
      not land: the KeyError and missing-cache branches are never taken. */
  lemma {:induction false} DedupFailuresExplained(cfg: Config, w: World, dest: Task -> Path, m: map<string, Path>, files0: set<Path>, tasks: seq<Task>)
    requires cfg.dedupByUrl
    requires forall k :: 0 <= k < |tasks| && tasks[k].url != "" ==> tasks[k].url in m && m[tasks[k].url] in files0
    ensures var r := Tally(cfg, w, dest, m, files0, tasks);
      forall k :: 0 <= k < |tasks| && r.outcomes[k] == Fail ==>
        tasks[k].url == "" || !w.copies(m[tasks[k].url], dest(tasks[k]))
  {
    if tasks != [] {
      var n := |tasks| - 1;
      var init := tasks[..n];
      assert forall k :: 0 <= k < n ==> init[k] == tasks[k];
      DedupFailuresExplained(cfg, w, dest, m, files0, init);
      var prev := Tally(cfg, w, dest, m, files0, init);
      var r := Tally(cfg, w, dest, m, files0, tasks);
      assert forall k :: 0 <= k < n ==> r.outcomes[k] == prev.outcomes[k];
    }
  }

  /** What an outcome says about the World: an ok task had a non-empty URL
      and its link or copy landed (with DEDUP_BY_URL) or its download landed
      (without it); without DEDUP_BY_URL a failed task had an empty URL or a
      download that did not land. */
  predicate Landed(cfg: Config, w: World, dest: Task -> Path, m: map<string, Path>, t: Task, o: Outcome)
  {
    && (o == Ok ==>
          && t.url != ""
          && (if cfg.dedupByUrl then t.url in m && w.copies(m[t.url], dest(t))
              else w.downloads(t.url, dest(t))))
    && (o == Fail && !cfg.dedupByUrl ==> t.url == "" || !w.downloads(t.url, dest(t)))
  }

  /** Every outcome of the outcome loop is explained by the World's answers. */
  lemma {:induction false} OutcomesLanded(cfg: Config, w: World, dest: Task -> Path, m: map<string, Path>, files0: set<Path>, tasks: seq<Task>)
    ensures var r := Tally(cfg, w, dest, m, files0, tasks);
      forall k :: 0 <= k < |tasks| ==> Landed(cfg, w, dest, m, tasks[k], r.outcomes[k])
  {
    if tasks != [] {
      var n := |tasks| - 1;
      var init := tasks[..n];
      OutcomesLanded(cfg, w, dest, m, files0, init);
      var prev := Tally(cfg, w, dest, m, files0, init);
      var o := Step(cfg, w, dest, m, prev.files, tasks[n]).0;
      StepLanded(cfg, w, dest, m, prev.files, tasks[n]);
      var r := Tally(cfg, w, dest, m, files0, tasks);
      assert r.outcomes == prev.outcomes + [o];
      forall k | 0 <= k < |tasks| ensures Landed(cfg, w, dest, m, tasks[k], r.outcomes[k]) {
        if k < n {
          assert init[k] == tasks[k];
        }
      }
    }
  }

  /** One step of the outcome loop is explained by the World's answers. */
  lemma StepLanded(cfg: Config, w: World, dest: Task -> Path, m: map<string, Path>, files: set<Path>, t: Task)
    ensures Landed(cfg, w, dest, m, t, Step(cfg, w, dest, m, files, t).0)
  {
  }

  // ----- the whole run -----

  /** local_name_for_url of main(), for the cache directory under outDir. */
  function CacheNames(w: World, outDir: Path): string -> Path
  {
    u => LocalNameForUrl(CacheDir(outDir), w.digest, u)
  }

  /** The destination main() computes for a task. */
  function Destinations(cfg: Config, outDir: Path): Task -> Path
  {
    t => Destination(cfg, outDir, t)
  }

  /** How main() ends: the CSV is missing, the header is rejected, a download
      of the cache loop raised, or the outcome loop finished with its totals. */
  datatype RunResult =
    | CsvNotFound
    | HeaderRejected(error: HeaderError)
    | DownloadFailed(url: string)
    | Finished(ok: nat, skip: nat, fail: nat, files: set<Path>)

  /** main()'s return value, or 1 for the exception that escapes it. */
  function ExitCode(r: RunResult): int
  {
    if r.Finished? then 0 else 1
  }

  /** The cache loop as main() runs it: over unique_urls with DEDUP_BY_URL,
      not at all without. */
  function CacheOfRun(cfg: Config, w: World, outDir: Path, tasks: seq<Task>, files0: set<Path>): (s: CacheState)
    ensures !cfg.dedupByUrl ==> s == Cached(map[], files0)
    ensures s.Aborted? ==> s.url in UniqueUrls(tasks)
  {
    if cfg.dedupByUrl then
      FillCacheOutcome(w, CacheNames(w, outDir), UniqueUrls(tasks), files0);
      FillCache(w, CacheNames(w, outDir), UniqueUrls(tasks), files0)
    else Cached(map[], files0)
  }

  /** What main() does, given whether the CSV exists, its records, the files
      on disk, and the World. */
  function RunSpec(cfg: Config, w: World, outDir: Path, csvExists: bool, rows: seq<Row>, files0: set<Path>): (r: RunResult)
    requires SameColumns(rows)
    ensures !csvExists ==> r == CsvNotFound
    ensures csvExists && CheckHeader(rows).Some? ==> r == HeaderRejected(CheckHeader(rows).value)
    ensures r.Finished? ==> r.ok + r.skip + r.fail == |rows| * |CATEGORIES|
    ensures r.Finished? ==> files0 <= r.files
    ensures r.DownloadFailed? ==> cfg.dedupByUrl && r.url != ""
  {
    if !csvExists then CsvNotFound
    else if CheckHeader(rows).Some? then HeaderRejected(CheckHeader(rows).value)
    else
      HeaderOkGivesYears(rows);
      var tasks := PlannedTasks(rows, CATEGORIES);
      PlannedTasksLength(rows, CATEGORIES);
      match CacheOfRun(cfg, w, outDir, tasks, files0)
      case Aborted(u) => DownloadFailed(u)
      case Cached(m, fs) =>
        var t := Tally(cfg, w, Destinations(cfg, outDir), m, fs, tasks);
        assert files0 <= fs <= t.files;
        TallyTotals(cfg, w, Destinations(cfg, outDir), m, fs, tasks);
        Finished(t.totals.ok, t.totals.skip, t.totals.fail, t.files)
  }

  /** main(). */
  method Run(cfg: Config, w: World, outDir: Path, csvExists: bool, rows: seq<Row>, files0: set<Path>) returns (r: RunResult)
    requires SameColumns(rows)
    ensures r == RunSpec(cfg, w, outDir, csvExists, rows, files0)
  {
    if !csvExists {
      return CsvNotFound;
    }
    var header := CheckHeader(rows);
    if header.Some? {
      return HeaderRejected(header.value);
    }
    HeaderOkGivesYears(rows);
    var tasks := BuildTasks(rows, CATEGORIES);
    var uniqueUrls := UniqueUrls(tasks);
    var urlToLocal: map<string, Path> := map[];
    var files := files0;
    if cfg.dedupByUrl {
      var cache := RunCacheFill(w, CacheNames(w, outDir), uniqueUrls, files0);
      if cache.Aborted? {
        return DownloadFailed(cache.url);
      }
      urlToLocal, files := cache.urlToLocal, cache.files;
    }
    var ok, skip, fail, filesAfter := RunTally(cfg, w, Destinations(cfg, outDir), urlToLocal, files, tasks);
    r := Finished(ok, skip, fail, filesAfter);
  }

  /** With DEDUP_BY_URL, once the cache loop gets through, every task fails
      only for an empty URL or a link or copy that did not land: the cache
      loop has mapped every non-empty URL to a cache file that exists, so the
      KeyError and missing-cache branches are never taken. */
  lemma CachedRunFailuresExplained(cfg: Config, w: World, outDir: Path, tasks: seq<Task>, files0: set<Path>)
    requires cfg.dedupByUrl
    requires CacheOfRun(cfg, w, outDir, tasks, files0).Cached?
    ensures var c := CacheOfRun(cfg, w, outDir, tasks, files0);
      var r := Tally(cfg, w, Destinations(cfg, outDir), c.urlToLocal, c.files, tasks);
      forall k :: 0 <= k < |tasks| && r.outcomes[k] == Fail ==>
        tasks[k].url == "" ||
        (tasks[k].url in c.urlToLocal && !w.copies(c.urlToLocal[tasks[k].url], Destination(cfg, outDir, tasks[k])))
  {
    var urls := UniqueUrls(tasks);
    var c := CacheOfRun(cfg, w, outDir, tasks, files0);
    assert c == FillCache(w, CacheNames(w, outDir), urls, files0);
    FillCacheOutcome(w, CacheNames(w, outDir), urls, files0);
    forall k | 0 <= k < |tasks| && tasks[k].url != "" ensures tasks[k].url in c.urlToLocal && c.urlToLocal[tasks[k].url] in c.files {
      assert HasUrl(tasks, tasks[k].url);
      assert tasks[k].url in urls;
    }
    var dest := Destinations(cfg, outDir);
    DedupFailuresExplained(cfg, w, dest, c.urlToLocal, c.files, tasks);
    assert forall k :: 0 <= k < |tasks| ==> dest(tasks[k]) == Destination(cfg, outDir, tasks[k]);
  }

  /** With DEDUP_BY_URL the cache loop gets through whenever every distinct
      URL is cached already or downloads; without it there is no cache loop. */
  lemma CacheOfRunGetsThrough(cfg: Config, w: World, outDir: Path, tasks: seq<Task>, files0: set<Path>)
    requires cfg.dedupByUrl ==> forall u :: u in UniqueUrls(tasks) ==> Fetchable(w, CacheNames(w, outDir), files0, u)
    ensures CacheOfRun(cfg, w, outDir, tasks, files0).Cached?
  {
    if cfg.dedupByUrl {
      var urls := UniqueUrls(tasks);
      FillCacheOutcome(w, CacheNames(w, outDir), urls, files0);
      assert forall k :: 0 <= k < |urls| ==> Fetchable(w, CacheNames(w, outDir), files0, urls[k]);
    }
  }

  /** A run whose CSV exists and passes the header check ends either with a
      failed cache download or with the totals, and ends with a failed
      download only when some distinct URL could not be fetched. */
  lemma RunEndsInTallyOrDownload(cfg: Config, w: World, outDir: Path, rows: seq<Row>, files0: set<Path>)
    requires SameColumns(rows) && CheckHeader(rows).None?
    ensures HasYears(rows)
    ensures var r := RunSpec(cfg, w, outDir, true, rows, files0);
      r.Finished? || r.DownloadFailed?
    ensures var r := RunSpec(cfg, w, outDir, true, rows, files0);
      r.DownloadFailed? ==> exists u :: u in UniqueUrls(PlannedTasks(rows, CATEGORIES)) && !Fetchable(w, CacheNames(w, outDir), files0, u)
  {
    HeaderOkGivesYears(rows);
    var tasks := PlannedTasks(rows, CATEGORIES);
    if forall u :: u in UniqueUrls(tasks) ==> Fetchable(w, CacheNames(w, outDir), files0, u) {
      CacheOfRunGetsThrough(cfg, w, outDir, tasks, files0);
    }
  }

  /** The exit status of main(): 0 only for a CSV that exists and passes the
      header check, and 0 whenever, in addition, every distinct URL the cache
      loop meets can be fetched; 1 otherwise. The converse of the last clause
      fails only when two URLs share a cache name: the second then finds the
      first one's file and is never downloaded. */
  lemma RunExitStatus(cfg: Config, w: World, outDir: Path, csvExists: bool, rows: seq<Row>, files0: set<Path>)
    requires SameColumns(rows)
    ensures var code := ExitCode(RunSpec(cfg, w, outDir, csvExists, rows, files0));
      code == 0 || code == 1
    ensures ExitCode(RunSpec(cfg, w, outDir, csvExists, rows, files0)) == 0 ==> csvExists && CheckHeader(rows).None?
    ensures csvExists && CheckHeader(rows).None? ==> HasYears(rows)
    ensures csvExists && CheckHeader(rows).None? &&
      (cfg.dedupByUrl ==> forall u :: u in UniqueUrls(PlannedTasks(rows, CATEGORIES)) ==> Fetchable(w, CacheNames(w, outDir), files0, u))
      ==> ExitCode(RunSpec(cfg, w, outDir, csvExists, rows, files0)) == 0
  {
    if csvExists && CheckHeader(rows).None? {
      RunEndsInTallyOrDownload(cfg, w, outDir, rows, files0);
    }
  }

  /** The totals of a finished run: at least one failure per task with an
      empty URL, and no skip at all without SKIP_IF_EXISTS. */
  lemma RunTotals(cfg: Config, w: World, outDir: Path, rows: seq<Row>, files0: set<Path>)
    requires SameColumns(rows) && CheckHeader(rows).None?
    requires RunSpec(cfg, w, outDir, true, rows, files0).Finished?
    ensures HasYears(rows)
    ensures RunSpec(cfg, w, outDir, true, rows, files0).fail >= EmptyUrls(PlannedTasks(rows, CATEGORIES))
    ensures !cfg.skipIfExists ==> RunSpec(cfg, w, outDir, true, rows, files0).skip == 0
  {
    HeaderOkGivesYears(rows);
    var tasks := PlannedTasks(rows, CATEGORIES);
    var c := CacheOfRun(cfg, w, outDir, tasks, files0);
    var t := Tally(cfg, w, Destinations(cfg, outDir), c.urlToLocal, c.files, tasks);
    TallyOutcomes(cfg, w, Destinations(cfg, outDir), c.urlToLocal, c.files, tasks);
    TallyTotals(cfg, w, Destinations(cfg, outDir), c.urlToLocal, c.files, tasks);
    FailsCoverEmptyUrls(tasks, t.outcomes);
    CountZeroIffAbsent(t.outcomes, Skip);
  }

  /** A finished run creates no file other than the cache files of the
      distinct URLs and the destinations of the tasks, and no destination is
      a cache file. */
  lemma RunCreatesOnlyCacheAndDestinations(cfg: Config, w: World, outDir: Path, rows: seq<Row>, files0: set<Path>)
    requires SameColumns(rows) && CheckHeader(rows).None?
    requires RunSpec(cfg, w, outDir, true, rows, files0).Finished?
    ensures HasYears(rows)
    ensures var tasks := PlannedTasks(rows, CATEGORIES);
      forall p :: p in RunSpec(cfg, w, outDir, true, rows, files0).files && p !in files0 ==>
        IsCacheFileOf(CacheNames(w, outDir), UniqueUrls(tasks), p) || IsDestinationOf(Destinations(cfg, outDir), tasks, p)
    ensures forall t: Task, u: string :: Destinations(cfg, outDir)(t) != CacheNames(w, outDir)(u)
  {
    HeaderOkGivesYears(rows);
    var tasks := PlannedTasks(rows, CATEGORIES);
    var c := CacheOfRun(cfg, w, outDir, tasks, files0);
    FillCacheOutcome(w, CacheNames(w, outDir), UniqueUrls(tasks), files0);
    TallyOutcomes(cfg, w, Destinations(cfg, outDir), c.urlToLocal, c.files, tasks);
    forall t: Task, u: string ensures Destinations(cfg, outDir)(t) != CacheNames(w, outDir)(u) {
      DestinationNotInCache(cfg, outDir, t, w.digest, u);
    }
  }
}
