/**
 * The memory dump of the buster kernel module (log_range in buster/utils.c): equal blocks of
 * four words are printed once with a count, the words behind the last whole block one by one.
 */
module LogRange {
  import opened Util

  const BLOCK_BYTES := 32
  const BLOCK_WORDS := 4

  datatype Error = SpecialChars | TooLong | StartIsNull | StartAboveLimit | NotAligned

  /** The printed lines; values are 64-bit words. */
  datatype Line =
    | Begin(id: nat, start: nat, msg: string)
    | Run(count: nat, offset: nat, vals: seq<nat>)
    | One(offset: nat, val: nat)
    | End(id: nat)
    | Err(error: Error)

  /** The words that a line stands for. */
  ghost function Words(line: Line): (w: seq<nat>)
  {
    match line
    case Run(count, _, vals) => Repeat(vals, count)
    case One(_, val) => [val]
    case _ => []
  }

  /** Undoing the compression. */
  ghost function Expand(lines: seq<Line>): (w: seq<nat>)
  {
    if lines == [] then [] else Expand(lines[..|lines| - 1]) + Words(lines[|lines| - 1])
  }

  lemma ExpandMore(lines: seq<Line>, line: Line)
    ensures Expand(lines + [line]) == Expand(lines) + Words(line)
  {
    assert (lines + [line])[..|lines|] == lines;
  }

  lemma {:induction false} ExpandConcat(a: seq<Line>, b: seq<Line>)
    ensures Expand(a + b) == Expand(a) + Expand(b)
    decreases |b|
  {
    hide Words, Expand;
    if b == [] {
      assert a + b == a;
      ExpandNone();
    } else {
      var last := |b| - 1;
      ExpandConcat(a, b[..last]);
      ExpandMore(a + b[..last], b[last]);
      ExpandMore(b[..last], b[last]);
      assert a + b == a + b[..last] + [b[last]] && b == b[..last] + [b[last]];
      ConcatAssociates(Expand(a), Expand(b[..last]), Words(b[last]));
    }
  }

  lemma ExpandNone()
    ensures Expand([]) == []
  {
  }

  /** A line break or a tab. */
  predicate Special(c: char)
  {
    c == '\n' || c == '\r' || c == '\t'
  }

  /** Run lines that are as long as can be. */
  ghost predicate Maximal(runs: seq<Line>)
  {
    && (forall k :: 0 <= k < |runs| ==> runs[k].Run? && runs[k].count > 0 && |runs[k].vals| == BLOCK_WORDS)
    && (forall k :: 0 < k < |runs| ==> runs[k - 1].vals != runs[k].vals)
  }

  /** The printed offset of line `k` is the position of its first word. */
  ghost predicate Placed(lines: seq<Line>, k: nat, offset: nat)
    requires k < |lines|
  {
    offset == 8 * |Expand(lines[..k])|
  }

  ghost predicate AllPlaced(runs: seq<Line>)
    requires Maximal(runs)
  {
    forall k :: 0 <= k < |runs| ==> Placed(runs, k, runs[k].offset)
  }

  /** Block `b` of the memory. */
  ghost predicate BlockIs(mem: seq<nat>, b: nat, vals: seq<nat>)
  {
    BLOCK_WORDS * b + BLOCK_WORDS <= |mem| && vals == mem[BLOCK_WORDS * b..BLOCK_WORDS * b + BLOCK_WORDS]
  }

  /**
   * The dump before block `b`: the runs printed so far, and a run of the blocks from
   * b - 1 - count on that is not printed yet.
   */
  ghost predicate Pending(mem: seq<nat>, runs: seq<Line>, b: nat, count: nat, prev: seq<nat>)
  {
    && count < b && BLOCK_WORDS * b <= |mem| && |prev| == BLOCK_WORDS
    && Maximal(runs) && AllPlaced(runs)
    && Expand(runs) == mem[..BLOCK_WORDS * (b - 1 - count)]
    && Expand(runs) + Repeat(prev, count + 1) == mem[..BLOCK_WORDS * b]
    && (runs != [] ==> runs[|runs| - 1].vals != prev)
  }

  lemma PendingFirst(mem: seq<nat>, prev: seq<nat>)
    requires BlockIs(mem, 0, prev)
    ensures Pending(mem, [], 1, 0, prev)
  {
    assert Repeat(prev, 1) == Repeat(prev, 0) + prev == mem[..BLOCK_WORDS];
    assert mem[..0] == [];
  }

  lemma PendingRepeat(mem: seq<nat>, runs: seq<Line>, b: nat, count: nat, prev: seq<nat>)
    requires Pending(mem, runs, b, count, prev) && BlockIs(mem, b, prev)
    ensures Pending(mem, runs, b + 1, count + 1, prev)
  {
    hide Expand, Maximal, AllPlaced, Repeat;
    RepeatNext(prev, count + 1);
    assert mem[..BLOCK_WORDS * (b + 1)] == mem[..BLOCK_WORDS * b] + prev;
    ConcatAssociates(Expand(runs), Repeat(prev, count + 1), prev);
  }

  lemma RepeatNext<T>(s: seq<T>, n: nat)
    ensures Repeat(s, n + 1) == Repeat(s, n) + s
  {
  }

  /** One more run line with other values than the last, in its place. */
  lemma RunAppend(runs: seq<Line>, count: nat, offset: nat, vals: seq<nat>)
    requires Maximal(runs) && AllPlaced(runs) && count > 0 && |vals| == BLOCK_WORDS
    requires offset == 8 * |Expand(runs)| && (runs != [] ==> runs[|runs| - 1].vals != vals)
    ensures Maximal(runs + [Run(count, offset, vals)]) && AllPlaced(runs + [Run(count, offset, vals)])
    ensures Expand(runs + [Run(count, offset, vals)]) == Expand(runs) + Repeat(vals, count)
  {
    hide Expand, Repeat;
    var more := runs + [Run(count, offset, vals)];
    ExpandMore(runs, Run(count, offset, vals));
    assert forall k :: 0 <= k < |runs| ==> more[k] == runs[k] && more[..k] == runs[..k];
    assert more[..|runs|] == runs;
  }

  /** The line of the pending run, printed before block `b`, has the right offset. */
  lemma PendingPrint(mem: seq<nat>, runs: seq<Line>, b: nat, count: nat, prev: seq<nat>, next: seq<nat>)
    requires Pending(mem, runs, b, count, prev) && BlockIs(mem, b, next) && next != prev
    ensures 8 * BLOCK_WORDS * b >= (count + 1) * BLOCK_BYTES
    ensures Pending(mem, runs + [Run(count + 1, 8 * BLOCK_WORDS * b - (count + 1) * BLOCK_BYTES, prev)], b + 1, 0, next)
  {
    hide Expand, Maximal, AllPlaced;
    RunAppend(runs, count + 1, 8 * BLOCK_WORDS * b - (count + 1) * BLOCK_BYTES, prev);
    assert mem[..BLOCK_WORDS * (b + 1)] == mem[..BLOCK_WORDS * b] + next;
    assert Repeat(next, 1) == Repeat(next, 0) + next == next;
  }

  /** A dump of `len` bytes: whole blocks as runs, then the words behind them one by one. */
  ghost predicate Dump(mem: seq<nat>, len: nat, runs: seq<Line>, ones: seq<Line>)
  {
    && DivCeil(len, 8) <= |mem| && Maximal(runs)
    && Expand(runs) == mem[..BLOCK_WORDS * (len / BLOCK_BYTES)]
    && Expand(runs) + Expand(ones) == mem[..DivCeil(len, 8)]
    && (forall k :: 0 <= k < |runs| - 1 ==> Placed(runs, k, runs[k].offset))
    && (runs != [] ==> runs[|runs| - 1].offset == len - 8 * runs[|runs| - 1].count)
    && |Expand(runs)| + |ones| == DivCeil(len, 8)
    && (forall k :: 0 <= k < |ones| ==> ones[k] == One(8 * (|Expand(runs)| + k), mem[|Expand(runs)| + k]))
  }

  /** Lines of single words expand to those words. */
  lemma {:induction false} OnesExpand(mem: seq<nat>, ones: seq<Line>, w: nat)
    requires w + |ones| <= |mem| && forall k :: 0 <= k < |ones| ==> ones[k] == One(8 * (w + k), mem[w + k])
    ensures mem[..w] + Expand(ones) == mem[..w + |ones|]
  {
    if ones == [] {
    } else {
      var last := |ones| - 1;
      OnesExpand(mem, ones[..last], w);
      assert mem[..w] + Expand(ones) == mem[..w] + Expand(ones[..last]) + [mem[w + last]];
    }
  }

  /** The dump is lossless. */
  lemma Lossless(mem: seq<nat>, len: nat, runs: seq<Line>, ones: seq<Line>, head: Line, foot: Line)
    requires Dump(mem, len, runs, ones) && head.Begin? && foot.End?
    ensures Expand([head] + runs + ones + [foot]) == mem[..DivCeil(len, 8)]
  {
    FramedExpand(runs, ones, head, foot);
  }

  lemma FramedExpand(runs: seq<Line>, ones: seq<Line>, head: Line, foot: Line)
    requires Words(head) == Words(foot) == []
    ensures Expand([head] + runs + ones + [foot]) == Expand(runs) + Expand(ones)
  {
    hide Expand, Words;
    ExpandNone();
    ExpandMore([], head);
    assert [] + [head] == [head];
    ExpandConcat([head], runs);
    ExpandConcat([head] + runs, ones);
    ExpandMore([head] + runs + ones, foot);
  }

  /** The offset of the last run line is never the position of the run. */
  lemma LastOffsetWrong(mem: seq<nat>, len: nat, runs: seq<Line>, ones: seq<Line>)
    requires Dump(mem, len, runs, ones) && runs != []
    ensures !Placed(runs, |runs| - 1, runs[|runs| - 1].offset)
    ensures runs[|runs| - 1].offset
         == 8 * |Expand(runs[..|runs| - 1])| + 24 * runs[|runs| - 1].count + len % BLOCK_BYTES
  {
    var last := runs[|runs| - 1];
    assert last.count > 0 && |last.vals| == BLOCK_WORDS;
    assert |Expand(runs)| == |Expand(runs[..|runs| - 1])| + last.count * BLOCK_WORDS;
    assert len == BLOCK_BYTES * (len / BLOCK_BYTES) + len % BLOCK_BYTES;
  }

  /** The run printed behind the loop: it completes the blocks, at an offset of its own. */
  lemma PendingLast(mem: seq<nat>, runs: seq<Line>, b: nat, count: nat, prev: seq<nat>, len: nat)
    requires Pending(mem, runs, b, count, prev) && b == len / BLOCK_BYTES
    ensures len >= 8 * (count + 1) && BLOCK_WORDS * b <= DivCeil(len, 8)
    ensures Closed(mem, len, runs, Run(count + 1, len - 8 * (count + 1), prev))
  {
    hide Expand;
    var last := Run(count + 1, len - 8 * (count + 1), prev);
    ExpandMore(runs, last);
  }

  /** All run lines are printed. */
  ghost predicate Closed(mem: seq<nat>, len: nat, runs: seq<Line>, last: Line)
  {
    && BLOCK_WORDS * (len / BLOCK_BYTES) <= |mem|
    && Maximal(runs) && AllPlaced(runs) && Maximal(runs + [last])
    && last.Run? && last.offset == len - 8 * last.count
    && Expand(runs + [last]) == mem[..BLOCK_WORDS * (len / BLOCK_BYTES)]
  }

  lemma DumpDone(mem: seq<nat>, len: nat, runs: seq<Line>, last: Line, ones: seq<Line>)
    requires Closed(mem, len, runs, last) && DivCeil(len, 8) <= |mem|
    requires var w := BLOCK_WORDS * (len / BLOCK_BYTES);
             && w + |ones| == DivCeil(len, 8)
             && forall k :: 0 <= k < |ones| ==> ones[k] == One(8 * (w + k), mem[w + k])
    ensures Dump(mem, len, runs + [last], ones)
  {
    hide Expand;
    var more := runs + [last];
    OnesExpand(mem, ones, BLOCK_WORDS * (len / BLOCK_BYTES));
    forall k | 0 <= k < |more| - 1 ensures Placed(more, k, more[k].offset) {
      assert more[..k] == runs[..k] && more[k] == runs[k];
    }
  }

  lemma DumpShort(mem: seq<nat>, len: nat, ones: seq<Line>)
    requires len < BLOCK_BYTES && |ones| == DivCeil(len, 8) <= |mem|
    requires forall k :: 0 <= k < |ones| ==> ones[k] == One(8 * k, mem[k])
    ensures Dump(mem, len, [], ones)
  {
    ExpandNone();
    OnesExpand(mem, ones, 0);
  }

  lemma FrameShort(before: seq<Line>, head: Line, ones: seq<Line>, foot: Line)
    ensures before + [head] + ones + [foot] == before + ([head] + [] + ones + [foot])
  {
  }

  lemma FrameLines(before: seq<Line>, head: Line, printed: seq<Line>, last: Line, ones: seq<Line>, foot: Line)
    ensures before + [head] + printed + [last] + ones + [foot] == before + ([head] + (printed + [last]) + ones + [foot])
  {
  }

  class Logger {
    var logId: nat
    /** What printk has written. */
    var lines: seq<Line>

    constructor ()
      ensures logId == 0 && lines == []
    {
      logId, lines := 0, [];
    }

    /** The loop over the message, which ends at the terminating null character. */
    method CheckMsg(msg: string) returns (e: Option<Error>)
      ensures e == if exists i :: 0 <= i < |msg| && i < 64 && (msg[i] == '\n' || msg[i] == '\r' || msg[i] == '\t')
                   then Some(SpecialChars)
                   else if |msg| >= 64 then Some(TooLong) else None
    {
      var i := 0;
      while i < 64
        invariant 0 <= i <= |msg| && i < 64
        invariant forall k :: 0 <= k < i ==> !Special(msg[k])
        decreases 64 - i
      {
        if i == |msg| {
          break;
        }
        if Special(msg[i]) {
          return Some(SpecialChars);
        }
        if i == 63 {
          return Some(TooLong);
        }
        i := i + 1;
      }
      return None;
    }

    method Fail(error: Error)
      modifies this`lines
      ensures lines == old(lines) + [Err(error)]
    {
      lines := lines + [Err(error)];
    }

    /** One line for every word from word `w` on, as for short ranges and for the tail. */
    method PrintWords(mem: seq<nat>, len: nat, w: nat) returns (ghost ones: seq<Line>)
      requires w <= DivCeil(len, 8) <= |mem|
      modifies this`lines
      ensures lines == old(lines) + ones && |ones| == DivCeil(len, 8) - w
      ensures forall k :: 0 <= k < |ones| ==> ones[k] == One(8 * (w + k), mem[w + k])
    {
      ones := [];
      var p := w;
      while 8 * p < len
        invariant w <= p <= DivCeil(len, 8) && |ones| == p - w && lines == old(lines) + ones
        invariant forall k :: 0 <= k < |ones| ==> ones[k] == One(8 * (w + k), mem[w + k])
      {
        lines := lines + [One(8 * p, mem[p])];
        ones := ones + [One(8 * p, mem[p])];
        p := p + 1;
      }
    }

    /** Whether block `b` has the values of the block before. */
    method SameBlock(mem: seq<nat>, b: nat, prev: seq<nat>) returns (repeat: bool)
      requires BLOCK_WORDS * b + BLOCK_WORDS <= |mem| && |prev| == BLOCK_WORDS
      ensures repeat <==> BlockIs(mem, b, prev)
    {
      var i := 0;
      while i < BLOCK_WORDS
        invariant 0 <= i <= BLOCK_WORDS
        invariant forall k :: 0 <= k < i ==> prev[k] == mem[BLOCK_WORDS * b + k]
      {
        if prev[i] != mem[BLOCK_WORDS * b + i] {
          assert mem[BLOCK_WORDS * b..BLOCK_WORDS * b + BLOCK_WORDS][i] == mem[BLOCK_WORDS * b + i];
          return false;
        }
        i := i + 1;
      }
      assert prev == mem[BLOCK_WORDS * b..BLOCK_WORDS * b + BLOCK_WORDS];
      return true;
    }

    /** The loop over the blocks; the last run is still to be printed. */
    method PrintRuns(mem: seq<nat>, len: nat) returns (ghost runs: seq<Line>, count: nat, prev: seq<nat>, b: nat)
      requires len >= BLOCK_BYTES && DivCeil(len, 8) <= |mem|
      modifies this`lines
      ensures lines == old(lines) + runs && b == len / BLOCK_BYTES && Pending(mem, runs, b, count, prev)
    {
      hide Pending;
      runs, count, prev, b := [], 0, mem[..BLOCK_WORDS], 1;
      PendingFirst(mem, prev);
      while 8 * BLOCK_WORDS * b + BLOCK_BYTES <= len
        invariant 0 < b && 8 * BLOCK_WORDS * b <= len && |prev| == BLOCK_WORDS
        invariant lines == old(lines) + runs && Pending(mem, runs, b, count, prev)
      {
        var repeat := SameBlock(mem, b, prev);
        if repeat {
          PendingRepeat(mem, runs, b, count, prev);
          count := count + 1;
        } else {
          var next := mem[BLOCK_WORDS * b..BLOCK_WORDS * b + BLOCK_WORDS];
          PendingPrint(mem, runs, b, count, prev, next);
          var delta := 8 * BLOCK_WORDS * b;
          var line := if count > 0 then Run(count + 1, delta - (count + 1) * BLOCK_BYTES, prev)
                      else Run(1, delta - BLOCK_BYTES, prev);
          lines := lines + [line];
          runs := runs + [line];
          count := 0;
          prev := next;
        }
        b := b + 1;
      }
    }

    /** The part of log_range for ranges below a block, aligned or not. */
    method PrintShort(msg: string, start: nat, limit: nat, mem: seq<nat>) returns (ghost ones: seq<Line>)
      requires 0 <= limit - start < BLOCK_BYTES && DivCeil(limit - start, 8) <= |mem|
      modifies this
      ensures logId == old(logId) + 1 && Dump(mem, limit - start, [], ones)
      ensures lines == old(lines) + ([Begin(old(logId), start, msg)] + [] + ones + [End(old(logId))])
    {
      hide Dump;
      lines := lines + [Begin(logId, start, msg)];
      ones := PrintWords(mem, limit - start, 0);
      DumpShort(mem, limit - start, ones);
      lines := lines + [End(logId)];
      FrameShort(old(lines), Begin(logId, start, msg), ones, End(logId));
      logId := logId + 1;
    }

    /** The part of log_range for ranges of a block or more. */
    method PrintBlocks(msg: string, start: nat, limit: nat, mem: seq<nat>)
      returns (ghost runs: seq<Line>, ghost ones: seq<Line>)
      requires limit - start >= BLOCK_BYTES && DivCeil(limit - start, 8) <= |mem|
      modifies this
      ensures logId == old(logId) + 1 && Dump(mem, limit - start, runs, ones)
      ensures lines == old(lines) + ([Begin(old(logId), start, msg)] + runs + ones + [End(old(logId))])
    {
      hide Pending, Dump;
      var len := limit - start;
      lines := lines + [Begin(logId, start, msg)];
      ghost var printed;
      var count, prev, b;
      printed, count, prev, b := PrintRuns(mem, len);
      PendingLast(mem, printed, b, count, prev, len);
      ghost var last := Run(count + 1, len - 8 * (count + 1), prev);
      lines := lines + [Run(count + 1, len - 8 * (count + 1), prev)];
      runs := printed + [last];
      ones := PrintWords(mem, len, BLOCK_WORDS * b);
      DumpDone(mem, len, printed, last, ones);
      lines := lines + [End(logId)];
      FrameLines(old(lines), Begin(logId, start, msg), printed, last, ones, End(logId));
      logId := logId + 1;
    }

    /** log_range. `mem` holds the 64-bit words at start, start + 8, ... */
    method LogRange(msg: string, start: nat, limit: nat, mem: seq<nat>)
      returns (ghost e: Option<Error>, ghost runs: seq<Line>, ghost ones: seq<Line>)
      requires start <= limit ==> DivCeil(limit - start, 8) <= |mem|
      modifies this
      ensures e == if exists i :: 0 <= i < |msg| && i < 64 && (msg[i] == '\n' || msg[i] == '\r' || msg[i] == '\t')
                   then Some(SpecialChars)
                   else if |msg| >= 64 then Some(TooLong)
                   else if start == 0 then Some(StartIsNull)
                   else if start > limit then Some(StartAboveLimit)
                   else if limit - start >= 32 && start % 8 != 0 then Some(NotAligned)
                   else None
      ensures e.Some? ==> logId == old(logId) && lines == old(lines) + [Err(e.value)]
      ensures e.None? ==>
                && logId == old(logId) + 1 && Dump(mem, limit - start, runs, ones)
                && lines == old(lines) + ([Begin(old(logId), start, msg)] + runs + ones + [End(old(logId))])
    {
      hide Dump;
      runs, ones := [], [];
      var bad := CheckMsg(msg);
      e := bad;
      if bad.Some? {
        Fail(bad.value);
      } else if start == 0 {
        e := Some(StartIsNull);
        Fail(StartIsNull);
      } else if start > limit {
        e := Some(StartAboveLimit);
        Fail(StartAboveLimit);
      } else if limit - start < BLOCK_BYTES {
        ones := PrintShort(msg, start, limit, mem);
      } else if start % 8 != 0 {
        e := Some(NotAligned);
        Fail(NotAligned);
      } else {
        runs, ones := PrintBlocks(msg, start, limit, mem);
      }
    }
  }
}
