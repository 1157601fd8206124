/**
 * What one pass of manage_files guarantees as a whole: the counters balance,
 * each file's outcome is decided by the filesystem as it was before the
 * pass (so the order of the listing does not matter), the counters count
 * exactly the files with each outcome, the exit status reports exactly the
 * passes that recorded a failure, and nothing outside the glob's reach is
 * touched.
 */
module PassProperties {
  import opened Paths
  import opened Storage
  import opened Stats
  import opened Compressor
  import opened Walker

  /** A scan that starts balanced ends balanced. */
  lemma {:induction false} ScanBalanced(init: State, listing: seq<Path>, ctx: Context)
    requires Balanced(init.stats)
    ensures Balanced(Scan(init, listing, ctx).stats)
  {
    if listing != [] {
      ScanBalanced(init, listing[..|listing| - 1], ctx);
    }
  }

  /** On a directory, scanned == compressed + skipped + failed and there is one error per failed file. */
  lemma RunBalanced(fs: Entries, root: Path, listing: seq<Path>, ctx: Context)
    requires IsDirectory(fs, root)
    ensures Balanced(Run(fs, root, listing, ctx).stats)
  {
    var init := State(Initial(), fs);
    assert Run(fs, root, listing, ctx) == Scan(init, listing, ctx);
    ScanBalanced(init, listing, ctx);
  }

  /**
   * `main` exits with 1 exactly when the root was unusable or some file
   * failed; a pass with no failure exits with 0.
   */
  lemma ExitCodeOfRun(fs: Entries, root: Path, listing: seq<Path>, ctx: Context)
    ensures ExitCode(Run(fs, root, listing, ctx).stats) == 1 <==>
      !IsDirectory(fs, root) || Run(fs, root, listing, ctx).stats.filesFailed > 0
  {
    if IsDirectory(fs, root) {
      RunBalanced(fs, root, listing, ctx);
    }
  }

  /**
   * A visit reads only the file and its artifact path: two filesystems that
   * agree there give the same verdict.
   */
  lemma VisitIsLocal(fs: Entries, fs': Entries, p: Path, ctx: Context)
    requires SameAt(fs, fs', p)
    requires |p| > 0 ==> SameAt(fs, fs', CompressedPath(p))
    ensures VisitFile(fs, p, ctx).verdict == VisitFile(fs', p, ctx).verdict
  {
    if IsCandidate(fs, p) {
      var f := FaultsFor(ctx.plan, p);
      var c := CompressedPath(p);
      assert Compressible(fs, p, f, ctx.codec) == Compressible(fs', p, f, ctx.codec);
      if !f.step.StatFailure? && IsAged(ctx.now, fs[p].mtime, ctx.days) && !ctx.dryRun {
        var t, t' := Compress(fs, p, false, f, ctx.codec, ctx.now), Compress(fs', p, false, f, ctx.codec, ctx.now);
        assert t.success == t'.success;
        if t.success {
          assert t.bytesSaved == |fs[p].data| - |ctx.codec.compress(fs[p].data)|;
        }
      }
    }
  }

  /**
   * A path that an earlier visit did not list, and that is not itself an
   * artifact name, is outside the earlier visits' footprint, and so is its
   * artifact path.
   */
  lemma {:induction false} OutsideFootprint(prefix: seq<Path>, p: Path)
    requires p !in prefix && |p| > 0 && !IsGzName(p)
    ensures p !in Footprint(prefix) && CompressedPath(p) !in Footprint(prefix)
  {
    if prefix != [] {
      var rest, q := prefix[..|prefix| - 1], prefix[|prefix| - 1];
      assert prefix == rest + [q];
      OutsideFootprint(rest, p);
      CompressedPathIsGz(p);
      if |q| > 0 && !IsGzName(q) {
        DistinctArtifacts(p, q);
      }
    }
  }

  /** An artifact path never names a file that is not itself named ".gz". */
  lemma ArtifactIsGz(p: Path, q: Path)
    requires |q| > 0 && !IsGzName(p)
    ensures p != CompressedPath(q)
  {
    CompressedPathIsGz(q);
  }

  /** Neither of a file's two paths is one of another non-artifact file's two paths. */
  lemma DistinctArtifacts(p: Path, q: Path)
    requires |p| > 0 && |q| > 0 && p != q && !IsGzName(p) && !IsGzName(q)
    ensures p !in Touched(q) && CompressedPath(p) !in Touched(q)
  {
    ArtifactIsGz(p, q);
    ArtifactIsGz(q, p);
    if CompressedPath(p) == CompressedPath(q) {
      CompressedPathInjective(p, q);
    }
  }

  /** The statistics a pass records when every verdict is read off the filesystem `fs`. */
  function Replay(s: ProcessingStats, fs: Entries, listing: seq<Path>, ctx: Context): ProcessingStats
  {
    if listing == [] then s
    else
      var p := listing[|listing| - 1];
      Tally(Replay(s, fs, listing[..|listing| - 1], ctx), p, VisitFile(fs, p, ctx).verdict)
  }

  /**
   * The statistics of a scan over a listing with no repeated path are those
   * obtained by judging every file on the filesystem as it was before the
   * scan: what compressing one file does never changes another's outcome.
   */
  lemma {:induction false} ScanReadsSnapshot(init: State, listing: seq<Path>, ctx: Context)
    requires Distinct(listing)
    ensures Scan(init, listing, ctx).stats == Replay(init.stats, init.fs, listing, ctx)
  {
    if listing != [] {
      var prefix, p := listing[..|listing| - 1], listing[|listing| - 1];
      assert Distinct(prefix);
      ScanReadsSnapshot(init, prefix, ctx);
      var s := Scan(init, prefix, ctx);
      if |p| > 0 && !IsGzName(p) {
        assert p !in prefix by {
          forall k | 0 <= k < |prefix|
            ensures prefix[k] != p
          {
            assert prefix[k] == listing[k];
          }
        }
        OutsideFootprint(prefix, p);
        ScanFrame(init, prefix, ctx);
        VisitIsLocal(init.fs, s.fs, p, ctx);
      } else {
        assert !IsCandidate(init.fs, p) && !IsCandidate(s.fs, p);
      }
    }
  }

  /** The number of paths in `listing` that satisfy `keep`. */
  function CountIf(listing: seq<Path>, keep: Path -> bool): (n: nat)
    ensures n <= |listing|
  {
    if listing == [] then 0
    else CountIf(listing[..|listing| - 1], keep) + (if keep(listing[|listing| - 1]) then 1 else 0)
  }

  /** Handed to compress_file: counted, its mtime read, and strictly older than the threshold. */
  predicate IsDue(fs: Entries, ctx: Context, p: Path)
  {
    && IsCandidate(fs, p)
    && !FaultsFor(ctx.plan, p).step.StatFailure?
    && IsAged(ctx.now, fs[p].mtime, ctx.days)
  }

  /** Counted, its mtime read, and not older than the threshold. */
  predicate IsRecent(fs: Entries, ctx: Context, p: Path)
  {
    && IsCandidate(fs, p)
    && !FaultsFor(ctx.plan, p).step.StatFailure?
    && !IsAged(ctx.now, fs[p].mtime, ctx.days)
  }

  /** Counted, but reading its mtime raises. */
  predicate IsUnreadable(fs: Entries, ctx: Context, p: Path)
  {
    IsCandidate(fs, p) && FaultsFor(ctx.plan, p).step.StatFailure?
  }

  /** Due, and compress_file succeeds on it (always, in a dry run). */
  predicate IsCompressedBy(fs: Entries, ctx: Context, p: Path)
  {
    IsDue(fs, ctx, p) && (ctx.dryRun || Compressible(fs, p, FaultsFor(ctx.plan, p), ctx.codec))
  }

  /** Due, and compress_file reports failure on it. */
  predicate IsRefusedBy(fs: Entries, ctx: Context, p: Path)
  {
    IsDue(fs, ctx, p) && !ctx.dryRun && !Compressible(fs, p, FaultsFor(ctx.plan, p), ctx.codec)
  }

  /** Each counter of a replay grows by the number of files with the matching verdict. */
  lemma {:induction false} ReplayCounts(s: ProcessingStats, fs: Entries, listing: seq<Path>, ctx: Context)
    ensures var r := Replay(s, fs, listing, ctx);
      && r.filesScanned == s.filesScanned + CountIf(listing, p => IsCandidate(fs, p))
      && r.filesSkipped == s.filesSkipped + CountIf(listing, p => IsRecent(fs, ctx, p))
      && r.filesCompressed == s.filesCompressed + CountIf(listing, p => IsCompressedBy(fs, ctx, p))
      && r.filesFailed == s.filesFailed + CountIf(listing, p => IsRefusedBy(fs, ctx, p))
                                        + CountIf(listing, p => IsUnreadable(fs, ctx, p))
  {
    if listing != [] {
      var prefix, p := listing[..|listing| - 1], listing[|listing| - 1];
      ReplayCounts(s, fs, prefix, ctx);
      var v := VisitFile(fs, p, ctx).verdict;
      if IsCandidate(fs, p) && !FaultsFor(ctx.plan, p).step.StatFailure? && IsAged(ctx.now, fs[p].mtime, ctx.days) {
        var t := Compress(fs, p, ctx.dryRun, FaultsFor(ctx.plan, p), ctx.codec, ctx.now);
        assert v == (if t.success then Compressed(t.bytesSaved) else CompressFailed);
      }
    }
  }

  /**
   * The counters of a pass over a directory, with the glob's listing: each
   * counts the listed files whose state before the pass gives that outcome,
   * whatever order the glob produced them in.
   */
  lemma RunCounts(fs: Entries, root: Path, recursive: bool, listing: seq<Path>, ctx: Context)
    requires IsDirectory(fs, root) && IsListing(fs, root, recursive, listing)
    ensures var r := Run(fs, root, listing, ctx).stats;
      && r.filesScanned == CountIf(listing, p => IsCandidate(fs, p))
      && r.filesSkipped == CountIf(listing, p => IsRecent(fs, ctx, p))
      && r.filesCompressed == CountIf(listing, p => IsCompressedBy(fs, ctx, p))
      && r.filesFailed == CountIf(listing, p => IsRefusedBy(fs, ctx, p)) + CountIf(listing, p => IsUnreadable(fs, ctx, p))
  {
    var init := State(Initial(), fs);
    ScanReadsSnapshot(init, listing, ctx);
    ReplayCounts(Initial(), fs, listing, ctx);
  }

  /** An artifact path is never counted: a later visit, or a later pass, ignores it. */
  lemma ArtifactIgnored(fs: Entries, p: Path, ctx: Context)
    requires |p| > 0
    ensures VisitFile(fs, CompressedPath(p), ctx) == Outcome(Ignored, fs)
  {
    CompressedPathIsGz(p);
  }

  /** A file's artifact path lies in the glob's reach exactly when the file does. */
  lemma ArtifactInReach(root: Path, p: Path, recursive: bool)
    requires |p| > 0
    ensures Matches(root, CompressedPath(p), recursive) <==> Matches(root, p, recursive)
  {
    var c := CompressedPath(p);
    if |root| < |p| {
      assert c[..|root|] == c[..|p| - 1][..|root|] == p[..|p| - 1][..|root|] == p[..|root|];
    }
  }

  /** Every path a scan may change lies in the reach of the glob that listed it. */
  lemma {:induction false} FootprintInReach(root: Path, listing: seq<Path>, recursive: bool)
    requires forall q :: q in listing ==> Matches(root, q, recursive)
    ensures forall x :: x in Footprint(listing) ==> Matches(root, x, recursive)
  {
    if listing != [] {
      var rest, q := listing[..|listing| - 1], listing[|listing| - 1];
      assert forall x :: x in rest ==> x in listing;
      FootprintInReach(root, rest, recursive);
      if |q| > 0 {
        ArtifactInReach(root, q, recursive);
      }
    }
  }

  /**
   * A pass changes nothing outside the glob's reach (a non-recursive pass
   * leaves subdirectories alone), removes no directory, and whatever it
   * creates or changes is named ".gz", which the next pass ignores.
   */
  lemma RunStaysInReach(fs: Entries, root: Path, recursive: bool, listing: seq<Path>, ctx: Context)
    requires IsListing(fs, root, recursive, listing)
    ensures var after := Run(fs, root, listing, ctx).fs;
      && (forall q :: !Matches(root, q, recursive) ==> SameAt(fs, after, q))
      && (forall q :: IsDirectory(fs, q) ==> IsDirectory(after, q))
      && (forall q :: q in after && !SameAt(fs, after, q) ==> IsGzName(q))
  {
    if IsDirectory(fs, root) {
      var init := State(Initial(), fs);
      assert Run(fs, root, listing, ctx) == Scan(init, listing, ctx);
      ScanFrame(init, listing, ctx);
      FootprintInReach(root, listing, recursive);
    }
  }
}
