/**
 * Concrete passes of manage_files over a directory `logs` holding one file
 * `app.log`, for any contents, times and codec: the outcomes the tests
 * describe, worked out on the model.
 */
module Scenarios {
  import opened Paths
  import opened Storage
  import opened Stats
  import opened Compressor
  import opened Walker

  const Day: real := 86400.0

  const Root: Path := ["logs"]
  const AppLog: Path := ["logs", "app.log"]
  const AppLogGz: Path := ["logs", "app.log.gz"]

  /** The directory `logs` holding only `app.log`, last modified at `mtime`. */
  function OneFile(data: Bytes, mtime: real): Entries
  {
    map[Root := Directory, AppLog := File(data, mtime)]
  }

  /** A five-day pass at time `now`, with no injected failure. */
  function FiveDays(now: real, dryRun: bool, codec: Codec): Context
  {
    Context(5, dryRun, now, map[], codec)
  }

  /** "app.log" has suffix ".log", so the walker counts it, and its artifact is "app.log.gz". */
  lemma AppLogIsPlain()
    ensures !IsGzName(AppLog) && CompressedPath(AppLog) == AppLogGz
  {
    GzSuffixIff("app.log");
    assert "app.log"[4..] != ".gz" by { assert "app.log"[4] == 'l'; }
    assert CompressedName("app.log") == "app.log.gz";
  }

  /**
   * The glob over `logs`, recursive or not, lists exactly `app.log`: the
   * listing a pass of manage_files gets on that directory is `[AppLog]`.
   */
  lemma GlobListsAppLog(data: Bytes, mtime: real, recursive: bool, listing: seq<Path>)
    ensures IsListing(OneFile(data, mtime), Root, recursive, listing) <==> listing == [AppLog]
  {
    var fs := OneFile(data, mtime);
    assert Matches(Root, AppLog, recursive);
    assert forall q :: q in fs && Matches(Root, q, recursive) ==> q == AppLog;
    if IsListing(fs, Root, recursive, listing) {
      assert AppLog in listing;
      forall i | 0 <= i < |listing|
        ensures listing[i] == AppLog
      {
        assert listing[i] in listing;
      }
      DistinctFirstTwo(listing);
      assert listing == [AppLog];
    }
  }

  /** A listing without repeats has different first and second entries. */
  lemma DistinctFirstTwo(listing: seq<Path>)
    requires Distinct(listing)
    ensures |listing| > 1 ==> listing[0] != listing[1]
  {
  }

  /** A pass over a root whose listing is one path is one visit of that path. */
  lemma SingleVisit(fs: Entries, p: Path, ctx: Context)
    requires IsDirectory(fs, Root)
    ensures var o := VisitFile(fs, p, ctx);
      Run(fs, Root, [p], ctx) == State(Tally(Initial(), p, o.verdict), o.after)
  {
    assert [p][..0] == [];
    assert Scan(State(Initial(), fs), [], ctx) == State(Initial(), fs);
    assert Run(fs, Root, [p], ctx) == Scan(State(Initial(), fs), [p], ctx);
  }

  /** A file more than five days old is compressed: `app.log` is replaced by `app.log.gz`. */
  lemma OldFileIsCompressed(data: Bytes, mtime: real, now: real, codec: Codec)
    requires now - mtime > 5.0 * Day && |codec.compress(data)| > 0
    ensures var r := Run(OneFile(data, mtime), Root, [AppLog], FiveDays(now, false, codec));
      && r.stats == ProcessingStats(1, 1, 0, 0, |data| - |codec.compress(data)|, [])
      && r.fs == map[Root := Directory, AppLogGz := File(codec.compress(data), now)]
  {
    var fs, ctx := OneFile(data, mtime), FiveDays(now, false, codec);
    assert IsDirectory(fs, Root) by { assert |Root| != |AppLog|; }
    AppLogIsPlain();
    var t := Compress(fs, AppLog, false, NoFaults, codec, now);
    CompressSucceeds(fs, AppLog, NoFaults, codec, now);
    assert t.after == map[Root := Directory, AppLogGz := File(codec.compress(data), now)];
    var o := VisitFile(fs, AppLog, ctx);
    assert o == Outcome(Compressed(|data| - |codec.compress(data)|), t.after);
    SingleVisit(fs, AppLog, ctx);
  }

  /** A file at most five days old is skipped and left in place. */
  lemma RecentFileIsSkipped(data: Bytes, mtime: real, now: real, codec: Codec)
    requires now - mtime <= 5.0 * Day
    ensures var r := Run(OneFile(data, mtime), Root, [AppLog], FiveDays(now, false, codec));
      r.stats == ProcessingStats(1, 0, 1, 0, 0, []) && r.fs == OneFile(data, mtime)
  {
    var fs, ctx := OneFile(data, mtime), FiveDays(now, false, codec);
    assert IsDirectory(fs, Root) by { assert |Root| != |AppLog|; }
    AppLogIsPlain();
    var o := VisitFile(fs, AppLog, ctx);
    assert o == Outcome(Skipped, fs);
    SingleVisit(fs, AppLog, ctx);
  }

  /** A dry run over an old file counts it as compressed and changes nothing. */
  lemma DryRunCountsButKeeps(data: Bytes, mtime: real, now: real, codec: Codec)
    requires now - mtime > 5.0 * Day
    ensures var r := Run(OneFile(data, mtime), Root, [AppLog], FiveDays(now, true, codec));
      r.stats == ProcessingStats(1, 1, 0, 0, 0, []) && r.fs == OneFile(data, mtime)
  {
    var fs, ctx := OneFile(data, mtime), FiveDays(now, true, codec);
    assert IsDirectory(fs, Root) by { assert |Root| != |AppLog|; }
    DryVisit(data, mtime, now, codec);
    SingleVisit(fs, AppLog, ctx);
  }

  /** The one visit of that dry run. */
  lemma DryVisit(data: Bytes, mtime: real, now: real, codec: Codec)
    requires now - mtime > 5.0 * Day
    ensures VisitFile(OneFile(data, mtime), AppLog, FiveDays(now, true, codec)) == Outcome(Compressed(0), OneFile(data, mtime))
  {
    AppLogIsPlain();
  }

  /** A missing root: nothing scanned, one error, exit status 1. */
  lemma MissingRootFails(now: real, codec: Codec)
    ensures var r := Run(map[], Root, [], FiveDays(now, false, codec));
      && r.stats.filesScanned == 0 && |r.stats.errors| == 1
      && r.stats.errors[0] == "Directory does not exist: /logs"
      && ExitCode(r.stats) == 1
  {
    assert Text(Root) == "/logs";
  }

  /**
   * The age test is strict: a file exactly `days` old is skipped, one a
   * second older is handed to compress_file.
   */
  lemma AgeBoundary(fs: Entries, p: Path, ctx: Context)
    requires IsCandidate(fs, p) && !FaultsFor(ctx.plan, p).step.StatFailure?
    ensures fs[p].mtime == ctx.now - (ctx.days * 86400) as real ==>
      VisitFile(fs, p, ctx).verdict == Skipped
    ensures fs[p].mtime == ctx.now - (ctx.days * 86400 + 1) as real ==>
      VisitFile(fs, p, ctx).verdict.Compressed? || VisitFile(fs, p, ctx).verdict.CompressFailed?
  {
  }
}
