/**
 * compress_file: the transaction on one file. It records the original's
 * size, writes `<path>.gz`, checks that the artifact is not empty, deletes
 * the original and reports `(success, bytes_saved)`; on any failure it
 * removes whatever sits at the artifact path, as far as it can.
 */
module Compressor {
  import opened Paths
  import opened Storage

  /** The call of the transaction that the operating system refuses, if any. */
  datatype Failure =
    | NoFailure
    | StatFailure(reason: string)   // stat() of the file raises, with this message
    | OpenFailure                   // opening the file for reading raises
    | CreateFailure                 // opening the artifact for writing raises
    | WriteFailure(written: Bytes)  // the copy raises after `written` reached the artifact
    | UnlinkFailure                 // deleting the original raises

  /**
   * The failures injected into one file's transaction: the call that
   * raises, and whether deleting the artifact is refused too.
   */
  datatype Faults = Faults(step: Failure, cleanupDenied: bool)

  const NoFaults: Faults := Faults(NoFailure, false)

  /** The pair compress_file returns, with the filesystem it leaves behind. */
  datatype Transaction = Transaction(success: bool, bytesSaved: int, after: Entries)

  /**
   * Everything a real (not dry-run) compression needs to succeed: a readable
   * regular file, an artifact path that is not a directory, no refused call,
   * and a non-empty artifact.
   */
  predicate Compressible(fs: Entries, path: Path, f: Faults, codec: Codec)
    requires |path| > 0
  {
    && IsRegularFile(fs, path)
    && f.step.NoFailure?
    && !IsDirectory(fs, CompressedPath(path))
    && |codec.compress(fs[path].data)| > 0
  }

  /**
   * The exception handler: report `(False, 0)` after removing the regular
   * file at the artifact path, whoever wrote it, unless the removal is
   * refused; a directory there cannot be removed.
   */
  function Abort(fs: Entries, target: Path, f: Faults): (t: Transaction)
    ensures !t.success && t.bytesSaved == 0
    ensures forall q :: q != target ==> SameAt(fs, t.after, q)
    ensures target in t.after <==> target in fs && (f.cleanupDenied || fs[target].Directory?)
  {
    var removed := IsRegularFile(fs, target) && !f.cleanupDenied;
    Transaction(false, 0, if removed then fs - {target} else fs)
  }

  /**
   * The filesystem as the exception handler finds it after a real call that
   * did not succeed: the artifact was written (in full, or the part a failed
   * copy left) once the file was read and the artifact opened; otherwise
   * nothing changed.
   */
  function Partial(fs: Entries, path: Path, f: Faults, codec: Codec, stamp: real): (r: Entries)
    requires |path| > 0
    ensures forall q :: q != CompressedPath(path) ==> SameAt(fs, r, q)
    ensures IsDirectory(r, CompressedPath(path)) <==> IsDirectory(fs, CompressedPath(path))
  {
    var target := CompressedPath(path);
    if !IsRegularFile(fs, path) || f.step.StatFailure? || f.step.OpenFailure? then fs
    else if IsDirectory(fs, target) || f.step.CreateFailure? then fs
    else if f.step.WriteFailure? then fs[target := File(f.step.written, stamp)]
    else fs[target := File(codec.compress(fs[path].data), stamp)]
  }

  /**
   * The outcome of compress_file on `path`, with the failures `f` injected;
   * `stamp` is the modification time the written artifact gets.
   */
  function Compress(fs: Entries, path: Path, dryRun: bool, f: Faults, codec: Codec, stamp: real): (t: Transaction)
    requires |path| > 0
    // a dry run reports success, saves nothing and touches nothing, even for a missing file
    ensures dryRun ==> t == Transaction(true, 0, fs)
    ensures t.success <==> dryRun || Compressible(fs, path, f, codec)
    // only the file and its artifact path can change, and no directory is removed
    ensures forall q :: q != path && q != CompressedPath(path) ==> SameAt(fs, t.after, q)
    ensures forall q :: IsDirectory(fs, q) ==> IsDirectory(t.after, q)
    // the original is gone after a real success and untouched after a failure
    ensures t.success && !dryRun ==> path !in t.after
    ensures !t.success ==> SameAt(fs, t.after, path)
  {
    var target := CompressedPath(path);
    assert target != path by { assert |FinalName(target)| != |FinalName(path)|; }
    if dryRun then Transaction(true, 0, fs)
    else if !Compressible(fs, path, f, codec) then Abort(Partial(fs, path, f, codec, stamp), target, f)
    else
      var artifact := codec.compress(fs[path].data);
      Transaction(true, |fs[path].data| - |artifact|, fs[target := File(artifact, stamp)] - {path})
  }

  /**
   * A real call that succeeds leaves a non-empty artifact that decompresses
   * to the original, in place of whatever was at the artifact path, and
   * reports the size difference, which is negative when the artifact is
   * larger.
   */
  lemma CompressSucceeds(fs: Entries, path: Path, f: Faults, codec: Codec, stamp: real)
    requires |path| > 0 && Compressible(fs, path, f, codec)
    ensures var t := Compress(fs, path, false, f, codec, stamp);
      var target := CompressedPath(path);
      && t.success && path !in t.after
      && target in t.after && t.after[target] == File(codec.compress(fs[path].data), stamp)
      && |t.after[target].data| > 0
      && (Lossless(codec) ==> codec.decompress(t.after[target].data) == fs[path].data)
      && t.bytesSaved == |fs[path].data| - |t.after[target].data|
  {
    var target := CompressedPath(path);
    assert target != path by { assert |FinalName(target)| != |FinalName(path)|; }
  }

  /**
   * A real call that fails saves nothing, leaves the original as it was, and
   * leaves nothing at the artifact path unless removing it was refused or a
   * directory sits there.
   */
  lemma CompressFails(fs: Entries, path: Path, f: Faults, codec: Codec, stamp: real)
    requires |path| > 0 && !Compressible(fs, path, f, codec)
    ensures var t := Compress(fs, path, false, f, codec, stamp);
      var target := CompressedPath(path);
      && !t.success && t.bytesSaved == 0
      && SameAt(fs, t.after, path)
      && (target in t.after ==> f.cleanupDenied || IsDirectory(fs, target))
  {
    var target := CompressedPath(path);
    assert target != path by { assert |FinalName(target)| != |FinalName(path)|; }
  }

  /**
   * compress_file, call by call on the filesystem. Each call that raises
   * skips the rest of the `try` block; the exception handler after it is
   * reached exactly by the paths that did not return.
   */
  method CompressFile(fs: FileSystem, path: Path, dryRun: bool, f: Faults, codec: Codec, stamp: real)
    returns (success: bool, bytesSaved: int)
    requires |path| > 0
    modifies fs
    ensures Transaction(success, bytesSaved, fs.entries) == Compress(old(fs.entries), path, dryRun, f, codec, stamp)
  {
    var target := CompressedPath(path);
    assert target != path by { assert |FinalName(target)| != |FinalName(path)|; }
    if dryRun {
      return true, 0;
    }
    // the filesystem the exception handler finds, whichever call raised
    ghost var partial := Partial(fs.entries, path, f, codec, stamp);
    var info := fs.Stat(path, f.step.StatFailure?);
    if info.Some? {
      var originalSize: int := Size(info.value);
      var input := fs.ReadAll(path, f.step.OpenFailure?);
      if input.Some? {
        var created := fs.OpenForWrite(target, f.step.CreateFailure?, stamp);
        if created && f.step.WriteFailure? {
          // the copy raises after part of the stream reached the artifact
          fs.Append(target, f.step.written, stamp);
          assert [] + f.step.written == f.step.written;
          assert fs.entries == partial;
        } else if created {
          fs.Append(target, codec.compress(input.value), stamp);
          assert [] + codec.compress(input.value) == codec.compress(input.value);
          var artifact := fs.Stat(target, false);
          var compressedSize: int := Size(artifact.value);
          if compressedSize == 0 {
            // the empty artifact is deleted, then "Compressed file is empty" is raised
            assert fs.entries == partial;
            var removed := fs.Unlink(target, f.cleanupDenied);
          } else {
            var removed := fs.Unlink(path, f.step.UnlinkFailure?);
            if removed {
              return true, originalSize - compressedSize;
            }
            assert fs.entries == partial;
          }
        } else {
          assert fs.entries == partial;
        }
      } else {
        assert fs.entries == partial;
      }
    } else {
      assert fs.entries == partial;
    }
    // except Exception: remove the artifact if one exists, ignoring a refusal
    if fs.Exists(target) {
      var removed := fs.Unlink(target, f.cleanupDenied);
    }
    return false, 0;
  }


  /**
   * The cleanup removes whatever sits at the artifact path, even a ".gz"
   * file that the failed call did not write: a call on a missing file
   * deletes a pre-existing `<path>.gz` and leaves everything else alone.
   */
  lemma CleanupDeletesForeignArtifact(fs: Entries, path: Path, f: Faults, codec: Codec, stamp: real)
    requires |path| > 0 && path !in fs && IsRegularFile(fs, CompressedPath(path)) && !f.cleanupDenied
    ensures Compress(fs, path, false, f, codec, stamp) == Transaction(false, 0, fs - {CompressedPath(path)})
  {
  }

  /**
   * A successful call replaces an existing artifact: the earlier contents of
   * `<path>.gz` are lost, not merged or refused.
   */
  lemma SuccessOverwritesArtifact(fs: Entries, path: Path, f: Faults, codec: Codec, stamp: real)
    requires |path| > 0 && Compressible(fs, path, f, codec) && IsRegularFile(fs, CompressedPath(path))
    ensures var t := Compress(fs, path, false, f, codec, stamp);
      t.success && t.after == (fs - {path})[CompressedPath(path) := File(codec.compress(fs[path].data), stamp)]
  {
  }
}
