/**
 * manage_files: check that the root is a directory, list its entries (the
 * direct children, or the whole subtree), ignore what is not a regular file
 * and what is already named ".gz", count every other file as scanned, hand
 * it to compress_file when it is strictly older than the threshold, and
 * fold each result into the statistics.
 */
module Walker {
  import opened Paths
  import opened Storage
  import opened Stats
  import opened Compressor

  /**
   * The arguments of one pass (`days`, `dryRun`) and what it gets from its
   * environment: the time sampled once before the loop, the failures the
   * operating system injects into each file's calls, and the codec.
   */
  datatype Context = Context(days: int, dryRun: bool, now: real, plan: map<Path, Faults>, codec: Codec)

  /** `days * 24 * 60 * 60`, in seconds. */
  function Threshold(days: int): int
  {
    days * 24 * 60 * 60
  }

  /** The age test: compress only what is strictly older than the threshold. */
  predicate IsAged(now: real, mtime: real, days: int)
  {
    now - mtime > Threshold(days) as real
  }

  /** The failures injected into the calls on `p`; none when the plan names none. */
  function FaultsFor(plan: map<Path, Faults>, p: Path): Faults
  {
    if p in plan then plan[p] else NoFaults
  }

  /** What the loop counts as scanned: a regular file whose suffix is not ".gz". */
  predicate IsCandidate(fs: Entries, p: Path)
  {
    |p| > 0 && IsRegularFile(fs, p) && !IsGzName(p)
  }

  /** What became of one listed path. */
  datatype Verdict =
    | Ignored                  // not a regular file, or already compressed
    | Skipped                  // too recent
    | Compressed(saved: int)   // compress_file reported success
    | CompressFailed           // compress_file reported failure
    | StatFailed(reason: string) // reading the modification time raised

  datatype Outcome = Outcome(verdict: Verdict, after: Entries)

  function MissingRootMessage(root: Path): string
  {
    "Directory does not exist: " + Text(root)
  }

  function NotDirectoryMessage(root: Path): string
  {
    "Path is not a directory: " + Text(root)
  }

  function CompressFailedMessage(p: Path): string
  {
    "Failed to compress: " + Text(p)
  }

  function StatFailedMessage(p: Path, reason: string): string
  {
    "Error processing " + Text(p) + ": " + reason
  }

  /** The paths a visit of `p` may change: the file and its artifact path. */
  function Touched(p: Path): set<Path>
  {
    if |p| > 0 && !IsGzName(p) then {p, CompressedPath(p)} else {}
  }

  /** The paths a scan of `listing` may change. */
  function Footprint(listing: seq<Path>): set<Path>
  {
    if listing == [] then {} else Footprint(listing[..|listing| - 1]) + Touched(listing[|listing| - 1])
  }

  /** One iteration of the loop, on the filesystem as the earlier iterations left it. */
  function VisitFile(fs: Entries, p: Path, ctx: Context): (o: Outcome)
    ensures o.verdict.Ignored? <==> !IsCandidate(fs, p)
    // the file is handed to compress_file exactly when it is strictly older than the threshold
    ensures (o.verdict.Compressed? || o.verdict.CompressFailed?) <==>
      IsCandidate(fs, p) && !FaultsFor(ctx.plan, p).step.StatFailure? && IsAged(ctx.now, fs[p].mtime, ctx.days)
    ensures o.verdict.Skipped? <==>
      IsCandidate(fs, p) && !FaultsFor(ctx.plan, p).step.StatFailure? && !IsAged(ctx.now, fs[p].mtime, ctx.days)
    // a dry run counts the file as compressed, with nothing saved, and changes nothing
    // a file handed to compress_file gets its verdict, its saving and its new filesystem from it
    ensures (o.verdict.Compressed? || o.verdict.CompressFailed?) ==>
      var t := Compress(fs, p, ctx.dryRun, FaultsFor(ctx.plan, p), ctx.codec, ctx.now);
      && o.after == t.after && (o.verdict.Compressed? <==> t.success)
      && (o.verdict.Compressed? ==> o.verdict.saved == t.bytesSaved)
    // a failed stat carries the message of the exception it raised
    ensures o.verdict.StatFailed? ==> o.verdict.reason == FaultsFor(ctx.plan, p).step.reason
    ensures ctx.dryRun && o.verdict.Compressed? ==> o.verdict.saved == 0
    ensures ctx.dryRun ==> o.after == fs
    ensures !(o.verdict.Compressed? || o.verdict.CompressFailed?) ==> o.after == fs
    ensures forall q :: q !in Touched(p) ==> SameAt(fs, o.after, q)
    ensures forall q :: IsDirectory(fs, q) ==> IsDirectory(o.after, q)
    // the only path that can hold something new afterwards is the artifact path
    ensures forall q :: q in o.after && !SameAt(fs, o.after, q) ==> |p| > 0 && q == CompressedPath(p)
  {
    if !IsCandidate(fs, p) then Outcome(Ignored, fs)
    else
      var f := FaultsFor(ctx.plan, p);
      if f.step.StatFailure? then Outcome(StatFailed(f.step.reason), fs)
      else if IsAged(ctx.now, fs[p].mtime, ctx.days) then
        var t := Compress(fs, p, ctx.dryRun, f, ctx.codec, ctx.now);
        Outcome(if t.success then Compressed(t.bytesSaved) else CompressFailed, t.after)
      else Outcome(Skipped, fs)
  }

  /** Folds one verdict into the statistics (lines 156-177). */
  function Tally(s: ProcessingStats, p: Path, v: Verdict): (r: ProcessingStats)
    ensures r.filesScanned == s.filesScanned + (if v.Ignored? then 0 else 1)
    // a counted file moves exactly one outcome counter
    ensures && s.filesCompressed <= r.filesCompressed
            && s.filesSkipped <= r.filesSkipped
            && s.filesFailed <= r.filesFailed
    ensures (r.filesCompressed - s.filesCompressed) + (r.filesSkipped - s.filesSkipped)
            + (r.filesFailed - s.filesFailed) == r.filesScanned - s.filesScanned
    ensures r.filesFailed > s.filesFailed <==> v.CompressFailed? || v.StatFailed?
    ensures r.bytesSaved == s.bytesSaved + (if v.Compressed? then v.saved else 0)
    // errors are only appended, one per failed file
    ensures |r.errors| == |s.errors| + (r.filesFailed - s.filesFailed)
    ensures r.errors[..|s.errors|] == s.errors
    // which counter each verdict moves, and which message a failure leaves
    ensures v.Skipped? ==> r.filesSkipped == s.filesSkipped + 1
    ensures v.Compressed? ==> r.filesCompressed == s.filesCompressed + 1
    ensures v.CompressFailed? ==> r.errors == s.errors + [CompressFailedMessage(p)]
    ensures v.StatFailed? ==> r.errors == s.errors + [StatFailedMessage(p, v.reason)]
  {
    match v
    case Ignored => s
    case Skipped =>
      s.(filesScanned := s.filesScanned + 1, filesSkipped := s.filesSkipped + 1)
    case Compressed(saved) =>
      s.(filesScanned := s.filesScanned + 1, filesCompressed := s.filesCompressed + 1,
         bytesSaved := s.bytesSaved + saved)
    case CompressFailed =>
      s.(filesScanned := s.filesScanned + 1, filesFailed := s.filesFailed + 1,
         errors := s.errors + [CompressFailedMessage(p)])
    case StatFailed(reason) =>
      s.(filesScanned := s.filesScanned + 1, filesFailed := s.filesFailed + 1,
         errors := s.errors + [StatFailedMessage(p, reason)])
  }

  /** The statistics and the filesystem as a pass goes along. */
  datatype State = State(stats: ProcessingStats, fs: Entries)

  /** The loop over `listing`, from `init`. */
  function Scan(init: State, listing: seq<Path>, ctx: Context): (r: State)
    decreases |listing|
    ensures ctx.dryRun ==> r.fs == init.fs && r.stats.bytesSaved == init.stats.bytesSaved
  {
    if listing == [] then init
    else
      var s := Scan(init, listing[..|listing| - 1], ctx);
      var p := listing[|listing| - 1];
      var o := VisitFile(s.fs, p, ctx);
      State(Tally(s.stats, p, o.verdict), o.after)
  }

  /**
   * What a scan may do to the filesystem: nothing outside its footprint,
   * never remove a directory, and leave nothing new or different except
   * under names ending in ".gz", which a later pass ignores.
   */
  lemma {:induction false} ScanFrame(init: State, listing: seq<Path>, ctx: Context)
    ensures forall q :: q !in Footprint(listing) ==> SameAt(init.fs, Scan(init, listing, ctx).fs, q)
    ensures forall q :: IsDirectory(init.fs, q) ==> IsDirectory(Scan(init, listing, ctx).fs, q)
    ensures forall q :: q in Scan(init, listing, ctx).fs && !SameAt(init.fs, Scan(init, listing, ctx).fs, q) ==> IsGzName(q)
  {
    if listing != [] {
      var prefix, p := listing[..|listing| - 1], listing[|listing| - 1];
      ScanFrame(init, prefix, ctx);
      var s := Scan(init, prefix, ctx);
      var o := VisitFile(s.fs, p, ctx);
      assert Scan(init, listing, ctx).fs == o.after;
      assert Footprint(listing) == Footprint(prefix) + Touched(p);
      forall q | q in o.after && !SameAt(init.fs, o.after, q)
        ensures IsGzName(q)
      {
        if !SameAt(s.fs, o.after, q) {
          CompressedPathIsGz(p);
        }
      }
    }
  }

  /** The prefix of a listing as long as the listing is the listing. */
  lemma WholePrefix(listing: seq<Path>)
    ensures listing[..|listing|] == listing
  {
  }

  /** Extending the scanned prefix by one path is one more visit. */
  lemma ScanStep(init: State, listing: seq<Path>, i: nat, ctx: Context)
    requires i < |listing|
    ensures var s := Scan(init, listing[..i], ctx);
      var o := VisitFile(s.fs, listing[i], ctx);
      Scan(init, listing[..i + 1], ctx) == State(Tally(s.stats, listing[i], o.verdict), o.after)
  {
    assert listing[..i + 1][..i] == listing[..i];
  }

  /** A whole pass of manage_files over `root`, given what the glob listed. */
  function Run(fs: Entries, root: Path, listing: seq<Path>, ctx: Context): (r: State)
    // a missing root, or one that is not a directory: no counts, one error, nothing touched
    ensures root !in fs ==> r == State(ProcessingStats(0, 0, 0, 0, 0, [MissingRootMessage(root)]), fs)
    ensures root in fs && !IsDirectory(fs, root) ==>
      r == State(ProcessingStats(0, 0, 0, 0, 0, [NotDirectoryMessage(root)]), fs)
    ensures ctx.dryRun ==> r.fs == fs && r.stats.bytesSaved == 0
  {
    if root !in fs then State(ProcessingStats(0, 0, 0, 0, 0, [MissingRootMessage(root)]), fs)
    else if !fs[root].Directory? then State(ProcessingStats(0, 0, 0, 0, 0, [NotDirectoryMessage(root)]), fs)
    else Scan(State(Initial(), fs), listing, ctx)
  }

  /**
   * The body of the loop on one listed path: the tests, the stat, the age
   * test against `ageThreshold` (computed once by the caller) and the call
   * of compress_file, with the result folded into `stats`.
   */
  method ProcessFile(fs: FileSystem, path: Path, stats: ProcessingStats, ctx: Context, ageThreshold: int)
    returns (next: ProcessingStats)
    requires |path| > 0 && ageThreshold == Threshold(ctx.days)
    modifies fs
    ensures var o := VisitFile(old(fs.entries), path, ctx);
      next == Tally(stats, path, o.verdict) && fs.entries == o.after
  {
    ghost var visit := VisitFile(fs.entries, path, ctx);
    next := stats;
    if !fs.IsFile(path) || IsGzName(path) {
      assert visit.verdict == Ignored;
      return;
    }
    next := next.(filesScanned := next.filesScanned + 1);
    var faults := FaultsFor(ctx.plan, path);
    var info := fs.Stat(path, faults.step.StatFailure?);
    if info.None? {
      next := next.(filesFailed := next.filesFailed + 1,
                    errors := next.errors + [StatFailedMessage(path, faults.step.reason)]);
      assert visit.verdict == StatFailed(faults.step.reason);
      return;
    }
    var fileAge := ctx.now - info.value.mtime;
    if fileAge > ageThreshold as real {
      ghost var t := Compress(fs.entries, path, ctx.dryRun, faults, ctx.codec, ctx.now);
      assert visit == Outcome(if t.success then Compressed(t.bytesSaved) else CompressFailed, t.after);
      var success, bytesSaved := CompressFile(fs, path, ctx.dryRun, faults, ctx.codec, ctx.now);
      if success {
        next := next.(filesCompressed := next.filesCompressed + 1,
                      bytesSaved := next.bytesSaved + bytesSaved);
      } else {
        next := next.(filesFailed := next.filesFailed + 1,
                      errors := next.errors + [CompressFailedMessage(path)]);
      }
    } else {
      next := next.(filesSkipped := next.filesSkipped + 1);
      assert visit.verdict == Skipped;
    }
  }

  /**
   * manage_files, on the filesystem in place. `now` is `time.time()`, read
   * once before the loop; `listing` is the order the glob produced.
   */
  method ManageFiles(fs: FileSystem, root: Path, days: int, dryRun: bool, recursive: bool,
                     now: real, plan: map<Path, Faults>, codec: Codec)
    returns (stats: ProcessingStats, ghost listing: seq<Path>)
    modifies fs
    ensures IsDirectory(old(fs.entries), root) ==> IsListing(old(fs.entries), root, recursive, listing)
    ensures State(stats, fs.entries) == Run(old(fs.entries), root, listing, Context(days, dryRun, now, plan, codec))
  {
    var ctx := Context(days, dryRun, now, plan, codec);
    stats := Initial();
    var ageThreshold := Threshold(days);
    listing := [];
    if !fs.Exists(root) {
      stats := stats.(errors := stats.errors + [MissingRootMessage(root)]);
      return;
    }
    if !fs.IsDir(root) {
      stats := stats.(errors := stats.errors + [NotDirectoryMessage(root)]);
      return;
    }
    var entries := fs.Glob(root, recursive);
    listing := entries;
    ghost var start := State(stats, fs.entries);
    var i := 0;
    while i < |entries|
      invariant 0 <= i <= |entries|
      invariant State(stats, fs.entries) == Scan(start, entries[..i], ctx)
    {
      var path := entries[i];
      assert |path| > 0 by { assert path in entries; }
      ScanStep(start, entries, i, ctx);
      stats := ProcessFile(fs, path, stats, ctx, ageThreshold);
      i := i + 1;
    }
    WholePrefix(entries);
  }
}
