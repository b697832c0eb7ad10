/**
 * The per-file work of the scc processor: the record a worker fills in for
 * one file, the single-pass scanner that updates its counters, and the
 * hand-written byte comparison used where a generic equality would be too
 * slow.
 */
module Workers {
  import opened LineSpec

  /** One file's job: its raw bytes and the counters the scanner adds to. */
  class FileJob {
    var content: seq<bv8>
    var lines: int
    var code: int
    var blank: int

    /** A job as a struct literal makes it: the given content, counters at zero. */
    constructor (content: seq<bv8>)
      ensures this.content == content
      ensures lines == 0 && code == 0 && blank == 0
    {
      this.content := content;
      lines, code, blank := 0, 0, 0;
    }
  }

  /**
   * Scans the content once, byte by byte, and adds to the job's counters
   * the number of physical lines, code lines and blank lines. The counters
   * are added to, not reset: a caller who wants the file's own counts sets
   * them to zero first.
   */
  method CountStats(job: FileJob)
    modifies job
    ensures job.content == old(job.content)
    ensures job.lines == old(job.lines) + Classify(job.content).lines
    ensures job.code == old(job.code) + Classify(job.content).code
    ensures job.blank == old(job.blank) + Classify(job.content).blank
  {
    var content := job.content;
    var n := |content|;
    // true while the current line has held blank bytes only
    var blankSoFar := true;
    ScanStart(content);
    for i := 0 to n
      invariant job.content == content
      invariant Stats(job.lines, job.code, job.blank) == old(Stats(job.lines, job.code, job.blank)).Plus(ScannedStats(content, i))
      invariant blankSoFar == OpenLineBlank(content, i)
    {
      if content[i] == NL {
        // the terminator closes the current line
        ScanTerminator(content, i);
        job.lines := job.lines + 1;
        if blankSoFar {
          job.blank := job.blank + 1;
        } else {
          job.code := job.code + 1;
        }
        blankSoFar := true;
      } else {
        ScanByte(content, i);
        if !IsBlankByte(content[i]) {
          blankSoFar := false;
        }
      }
    }
    ScanEnd(content);
    if 0 < n && content[n - 1] != NL {
      // an unterminated final line is still a line
      job.lines := job.lines + 1;
      if blankSoFar {
        job.blank := job.blank + 1;
      } else {
        job.code := job.code + 1;
      }
    }
  }

  /**
   * Inputs on which the range loop over `one` never indexes `two` out of
   * bounds: `two` is at least as long, or a mismatch stops the loop first.
   */
  predicate LoopStaysInBounds(one: seq<bv8>, two: seq<bv8>) {
    |one| <= |two| || one[..|two|] != two
  }

  /**
   * One round of the hand-written byte comparison: `equal` starts true, the
   * loop walks `one` and stops at the first byte that differs from `two` at
   * the same index, and `count` goes up by one when no byte differed.
   */
  method CheckByteEqualityLoop(one: seq<bv8>, two: seq<bv8>, count: int) returns (equal: bool, newCount: int)
    requires LoopStaysInBounds(one, two)
    ensures equal <==> |one| <= |two| && one == two[..|one|]
    ensures newCount == if equal then count + 1 else count
  {
    equal := true;
    var i := 0;
    while i < |one|
      invariant 0 <= i <= |one| && i <= |two|
      invariant one[..i] == two[..i]
    {
      if one[i] != two[i] {
        equal := false;
        break;
      }
      i := i + 1;
    }
    newCount := count;
    if equal {
      newCount := newCount + 1;
    }
  }
}
