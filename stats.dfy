/**
 * ProcessingStats: the five counters and the error list that one pass
 * accumulates and returns, and the exit status `main` derives from them.
 */
module Stats {

  /**
   * The aggregate of one pass. `bytesSaved` is a plain integer: a file whose
   * artifact is larger than the original contributes a negative amount.
   */
  datatype ProcessingStats = ProcessingStats(
    filesScanned: nat,
    filesCompressed: nat,
    filesSkipped: nat,
    filesFailed: nat,
    bytesSaved: int,
    errors: seq<string>)

  /**
   * Every scanned file has exactly one outcome, and every failed file left
   * exactly one error message.
   */
  predicate Balanced(s: ProcessingStats)
  {
    && s.filesScanned == s.filesCompressed + s.filesSkipped + s.filesFailed
    && |s.errors| == s.filesFailed
  }

  /** The process exit status: 1 when any error was recorded, else 0. */
  function ExitCode(s: ProcessingStats): (code: int)
    ensures code == 0 || code == 1
    ensures code == 1 <==> s.errors != []
  {
    if |s.errors| > 0 then 1 else 0
  }

  /** `ProcessingStats()`: the defaults every pass starts from. */
  function Initial(): (s: ProcessingStats)
    ensures s.filesScanned == 0 && s.filesCompressed == 0 && s.filesSkipped == 0 && s.filesFailed == 0
    ensures s.bytesSaved == 0 && s.errors == []
  {
    ProcessingStats(0, 0, 0, 0, 0, [])
  }
}
