/** The byte-capped event log of a supervised session (internal/cli/supervise.go, teeJSONL). */
module EventLog {
  import opened Sequences

  type Byte = x: int | 0 <= x < 256

  type Bytes = seq<Byte>

  /** What a line of the log stands for. */
  datatype Line = Output(data: Bytes) | Truncated

  /** The JSON envelope of an empty chunk, with its newline. */
  const ENVELOPE: nat := 27

  /** The length of a chunk's line: the envelope around its base64 text. */
  function LineLength(data: Bytes): nat { ENVELOPE + 4 * ((|data| + 2) / 3) }

  function Total(lines: seq<Line>): nat {
    if lines == [] then 0
    else Total(lines[..|lines| - 1])
         + if lines[|lines| - 1].Output? then LineLength(lines[|lines| - 1].data) else 0
  }

  function Outputs(lines: seq<Line>): seq<Bytes> {
    if lines == [] then []
    else Outputs(lines[..|lines| - 1]) + if lines[|lines| - 1].Output? then [lines[|lines| - 1].data] else []
  }

  lemma LogAppend(lines: seq<Line>, line: Line)
    ensures Total(lines + [line]) == Total(lines) + if line.Output? then LineLength(line.data) else 0
    ensures Outputs(lines + [line]) == if line.Output? then Outputs(lines) + [line.data] else Outputs(lines)
  {
    assert (lines + [line])[..|lines + [line]| - 1] == lines;
  }

  class Log {
    const present: bool
    const cap: int
    var written: int
    var truncated: bool
    ghost var lines: seq<Line>
    ghost var offered: seq<Bytes>
    ghost var failed: bool

    /** Never over a positive cap; at most one truncation marker, and it is last; the logged chunks are among the
        offered ones in order, and without write failures they are all of them up to the truncation. */
    ghost predicate Valid()
      reads this
    {
      && written == Total(lines) && (cap > 0 ==> written <= cap)
      && (forall i :: 0 <= i < |lines| && lines[i].Truncated? ==> truncated && i == |lines| - 1)
      && IsSubsequence(Outputs(lines), offered)
      && (present && !failed ==> Outputs(lines) <= offered && (!truncated ==> Outputs(lines) == offered))
    }

    constructor (present: bool, cap: int)
      ensures Valid() && lines == [] && offered == [] && !truncated && !failed
      ensures this.present == present && this.cap == cap
    {
      this.present, this.cap := present, cap;
      written, truncated := 0, false;
      lines, offered, failed := [], [], false;
    }

    /** teeJSONL: one line per chunk, one marker instead of the first that would overflow, nothing after it. A write
        may fail, and then its bytes are not counted. */
    method Tee(chunk: Bytes) returns (wrote: bool, ghost fault: bool)
      requires Valid()
      modifies this
      ensures Valid() && offered == old(offered) + [chunk]
      ensures !present || old(truncated) ==> !wrote && truncated == old(truncated)
      ensures present && !old(truncated) ==> (truncated <==> cap > 0 && old(written) + LineLength(chunk) > cap)
      ensures lines == old(lines) + if wrote then [if truncated then Truncated else Output(chunk)] else []
      ensures failed == (old(failed) || (present && !wrote && !truncated))
      ensures wrote <==> present && !old(truncated) && !fault
    {
      hide IsSubsequence, Total, Outputs, LineLength;
      SubsequenceMore(Outputs(lines), offered, chunk);
      offered := offered + [chunk];
      if !present || truncated {
        return false, false;
      }
      var length := LineLength(chunk);
      wrote := *;
      fault := !wrote;
      if cap > 0 && written + length > cap {
        if wrote {
          LogAppend(lines, Truncated);
          lines := lines + [Truncated];
        }
        truncated := true;
        return;
      }
      if wrote {
        LogAppend(lines, Output(chunk));
        lines := lines + [Output(chunk)];
        written := written + length;
      } else {
        failed := true;
      }
    }
  }
}
