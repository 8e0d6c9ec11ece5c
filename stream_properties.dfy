/** What the stream driver promises: the session stays healthy, frames carry
    consecutive line numbers when every frame is acknowledged (after any
    number of ignored responses), a wait that ends in silence stops the stream
    with no flush written, blank
    and comment lines are never sent, and no more frames are counted than
    there are command lines. */
module StreamProperties {
  import opened Text
  import opened Transform
  import opened Framing
  import opened Responses
  import opened Protocol
  import opened SessionProperties

  /** The whole streaming loop keeps the session healthy: between responses
      the resend streak is 0, 1 or 2 and the line number is at least 1. */
  lemma {:induction false} StreamKeepsHealthy(st: State, prepared: seq<Result<string>>, replies: seq<string>)
    requires Healthy(st)
    ensures Healthy(StreamFrom(st, prepared, replies).state)
    ensures st.log <= StreamFrom(st, prepared, replies).state.log
    decreases |prepared|
  {
    if prepared != [] && prepared[0].Ok? {
      var cmd := prepared[0].value;
      if !IsSendable(cmd) {
        StreamKeepsHealthy(st, prepared[1..], replies);
      } else {
        DispatchKeepsHealthy(st, cmd, replies);
        var w := Dispatch(st, cmd, replies);
        if w.acked {
          StreamKeepsHealthy(w.state, prepared[1..], w.rest);
        }
      }
    }
  }

  // ---------------------------------------------------------------------
  // Line numbering

  /** The commands the stream sends, in order: blanks and comments dropped.
      Fails with the first line whose transformation fails. */
  function Commands(prepared: seq<Result<string>>): Result<seq<string>> {
    if prepared == [] then Result.Ok([])
    else
      match prepared[0]
      case Failed(e) => Failed(e)
      case Ok(cmd) =>
        match Commands(prepared[1..])
        case Failed(e) => Failed(e)
        case Ok(cmds) => Result.Ok(if IsSendable(cmd) then [cmd] + cmds else cmds)
  }

  /** The frames for `cmds`, numbered from `n` up. */
  function Frames(n: nat, cmds: seq<string>): (r: seq<string>)
    ensures |r| == |cmds|
    decreases |cmds|
  {
    if cmds == [] then [] else [Wire(n, cmds[0])] + Frames(n + 1, cmds[1..])
  }

  /** The i-th frame is the i-th command framed with line number n + i. */
  lemma {:induction false} FramesAt(n: nat, cmds: seq<string>, i: nat)
    requires i < |cmds|
    ensures Frames(n, cmds)[i] == Wire(n + i, cmds[i])
    decreases i
  {
    var f := Frames(n, cmds);
    assert f == [Wire(n, cmds[0])] + Frames(n + 1, cmds[1..]);
    if i > 0 {
      FramesAt(n + 1, cmds[1..], i - 1);
      assert f[i] == Frames(n + 1, cmds[1..])[i - 1];
    }
  }

  /** Acknowledgment runs, one after the other. */
  function Concat(runs: seq<seq<string>>): seq<string> {
    if runs == [] then [] else runs[0] + Concat(runs[1..])
  }

  /** Without resend requests or timeouts, when every frame is eventually
      acknowledged (possibly after responses the loop ignores): the frames
      go out once each, numbered consecutively from the current line
      number, and the line number ends just past the last of them. */
  lemma {:induction false} AcknowledgedNumbersConsecutively(
    st: State, prepared: seq<Result<string>>, runs: seq<seq<string>>, rest: seq<string>, cmds: seq<string>)
    requires Commands(prepared) == Result.Ok(cmds)
    requires |runs| == |cmds|
    requires forall i :: 0 <= i < |runs| ==> AckRun(runs[i])
    ensures StreamFrom(st, prepared, Concat(runs) + rest) ==
      Run(State(st.lineNum + |cmds|, if cmds == [] then st.resendStreak else 0, st.sent + |cmds|,
                st.log + Frames(st.lineNum, cmds)),
          rest, Completed)
    decreases |prepared|
  {
    if prepared == [] {
      assert Concat(runs) + rest == rest;
      assert st.log + [] == st.log;
    } else {
      var cmd := prepared[0].value;
      var later := Commands(prepared[1..]).value;
      if !IsSendable(cmd) {
        AcknowledgedNumbersConsecutively(st, prepared[1..], runs, rest, cmds);
      } else {
        var more := Concat(runs[1..]) + rest;
        var w := Wire(st.lineNum, cmd);
        var st1 := State(st.lineNum + 1, 0, st.sent + 1, st.log + [w]);
        assert cmds == [cmd] + later;
        assert Concat(runs) + rest == runs[0] + more;
        StreamStepAcknowledged(st, prepared, runs[0], more);
        assert forall i :: 0 <= i < |runs[1..]| ==> AckRun(runs[1..][i]);
        AcknowledgedNumbersConsecutively(st1, prepared[1..], runs[1..], rest, later);
        assert st1.log + Frames(st.lineNum + 1, later) == st.log + Frames(st.lineNum, cmds) by {
          assert Frames(st.lineNum, cmds) == [w] + Frames(st.lineNum + 1, later);
        }
      }
    }
  }

  /** One sendable line answered by an acknowledgment run. */
  lemma StreamStepAcknowledged(st: State, prepared: seq<Result<string>>, run: seq<string>, more: seq<string>)
    requires prepared != [] && prepared[0].Ok? && IsSendable(prepared[0].value)
    requires AckRun(run)
    ensures StreamFrom(st, prepared, run + more) ==
      StreamFrom(State(st.lineNum + 1, 0, st.sent + 1, st.log + [Wire(st.lineNum, prepared[0].value)]),
                 prepared[1..], more)
  {
    DispatchAckRun(st, prepared[0].value, run, more);
  }

  /** A sendable line whose wait ends in an empty response stops the
      stream as timed out, right there: the frame was written and counted,
      and no flush command follows. */
  lemma StreamStepTimesOut(st: State, prepared: seq<Result<string>>, us: seq<string>, more: seq<string>)
    requires prepared != [] && prepared[0].Ok? && IsSendable(prepared[0].value)
    requires Ignored(us)
    ensures var r := StreamFrom(st, prepared, us + [""] + more);
      && r == Run(st.(sent := st.sent + 1, log := st.log + [Wire(st.lineNum, prepared[0].value)]), more, TimedOut)
      && Flushed(r) == r
  {
    DispatchTimesOut(st, prepared[0].value, us, more);
  }

  /** A stream that times out writes no flush command: the whole run is the
      loop's run, ended where the wait failed. */
  lemma TimedOutWritesNoFlush(lines: seq<string>, ov: Overrides, replies: seq<string>)
    ensures var r := StreamFrom(Initial(), Prepared(lines, ov), replies);
      r.outcome == TimedOut ==> Streamed(lines, ov, replies) == r && FlushCommand !in r.state.log
  {
    var r := StreamFrom(Initial(), Prepared(lines, ov), replies);
    if r.outcome == TimedOut {
      LoopWritesNoFlush(Initial(), Prepared(lines, ov), replies);
    }
  }

  /** The loop itself never writes the flush command: it writes frames and
      reset commands only. */
  lemma {:induction false} LoopWritesNoFlush(st: State, prepared: seq<Result<string>>, replies: seq<string>)
    requires FlushCommand !in st.log
    ensures FlushCommand !in StreamFrom(st, prepared, replies).state.log
    decreases |prepared|
  {
    if prepared != [] && prepared[0].Ok? {
      var cmd := prepared[0].value;
      if !IsSendable(cmd) {
        LoopWritesNoFlush(st, prepared[1..], replies);
      } else {
        var w := Dispatch(st, cmd, replies);
        DispatchWritesNoFlush(st, cmd, replies);
        if w.acked {
          LoopWritesNoFlush(w.state, prepared[1..], w.rest);
        }
      }
    }
  }

  lemma DispatchWritesNoFlush(st: State, cmd: string, replies: seq<string>)
    requires FlushCommand !in st.log
    ensures FlushCommand !in Dispatch(st, cmd, replies).state.log
  {
    var wire := Wire(st.lineNum, cmd);
    assert wire != FlushCommand by { assert wire[0] == 'N'; }
    AwaitWritesNoFlush(st.(sent := st.sent + 1, log := st.log + [wire]), wire, replies);
  }

  lemma {:induction false} AwaitWritesNoFlush(st: State, wire: string, replies: seq<string>)
    requires FlushCommand !in st.log && wire != FlushCommand
    ensures FlushCommand !in AwaitAck(st, wire, replies).state.log
    decreases |replies|
  {
    if replies != [] {
      var ack := Classify(replies[0]);
      if ack != Timeout && ack != Ack.Ok {
        var st1 := OnAck(st, wire, ack);
        assert ResetCommands != FlushCommand by { assert ResetCommands[1] != FlushCommand[1]; }
        assert FlushCommand !in st1.log;
        AwaitWritesNoFlush(st1, wire, replies[1..]);
      }
    }
  }

  /** The end-to-end run when every frame is eventually acknowledged without
      resend requests or timeouts: frames N1, N2, ... for the commands in
      source order, then the raw flush command, which completes at the first
      later response containing "ok". */
  lemma StreamedAcknowledged(lines: seq<string>, ov: Overrides, runs: seq<seq<string>>, rest: seq<string>, cmds: seq<string>)
    requires Commands(Prepared(lines, ov)) == Result.Ok(cmds)
    requires |runs| == |cmds|
    requires forall i :: 0 <= i < |runs| ==> AckRun(runs[i])
    requires FirstOk(rest).Some?
    ensures Streamed(lines, ov, Concat(runs) + rest) ==
      Run(State(|cmds| + 1, 0, |cmds|, Frames(1, cmds) + [FlushCommand]), rest[FirstOk(rest).value + 1..], Completed)
  {
    FlushedAcknowledged(Prepared(lines, ov), runs, rest, cmds);
  }

  lemma FlushedAcknowledged(prepared: seq<Result<string>>, runs: seq<seq<string>>, rest: seq<string>, cmds: seq<string>)
    requires Commands(prepared) == Result.Ok(cmds)
    requires |runs| == |cmds|
    requires forall i :: 0 <= i < |runs| ==> AckRun(runs[i])
    requires FirstOk(rest).Some?
    ensures Flushed(StreamFrom(Initial(), prepared, Concat(runs) + rest)) ==
      Run(State(|cmds| + 1, 0, |cmds|, Frames(1, cmds) + [FlushCommand]), rest[FirstOk(rest).value + 1..], Completed)
  {
    AcknowledgedNumbersConsecutively(Initial(), prepared, runs, rest, cmds);
    assert [] + Frames(1, cmds) == Frames(1, cmds);
  }

  /** In particular, when every frame and the flush are acknowledged by the
      very next response. */
  lemma StreamedAllOk(lines: seq<string>, ov: Overrides, replies: seq<string>, cmds: seq<string>)
    requires Commands(Prepared(lines, ov)) == Result.Ok(cmds)
    requires |cmds| < |replies|
    requires forall i :: 0 <= i <= |cmds| ==> Classify(replies[i]) == Ack.Ok
    ensures Streamed(lines, ov, replies) ==
      Run(State(|cmds| + 1, 0, |cmds|, Frames(1, cmds) + [FlushCommand]), replies[|cmds| + 1..], Completed)
  {
    var runs := ImmediateRuns(replies, |cmds|);
    RunsThenAck(lines, ov, runs, replies, cmds);
  }

  lemma RunsThenAck(lines: seq<string>, ov: Overrides, runs: seq<seq<string>>, replies: seq<string>, cmds: seq<string>)
    requires Commands(Prepared(lines, ov)) == Result.Ok(cmds)
    requires |runs| == |cmds| < |replies|
    requires forall i :: 0 <= i < |runs| ==> AckRun(runs[i])
    requires Concat(runs) == replies[..|cmds|] && Classify(replies[|cmds|]) == Ack.Ok
    ensures Streamed(lines, ov, replies) ==
      Run(State(|cmds| + 1, 0, |cmds|, Frames(1, cmds) + [FlushCommand]), replies[|cmds| + 1..], Completed)
  {
    AckAfterRuns(runs, replies, |cmds|);
    StreamedAcknowledged(lines, ov, runs, replies[|cmds|..], cmds);
  }

  /** Splitting the responses after the runs: the rest begins with the
      acknowledgment of the flush. */
  lemma AckAfterRuns(runs: seq<seq<string>>, replies: seq<string>, n: nat)
    requires n < |replies| && Concat(runs) == replies[..n] && Classify(replies[n]) == Ack.Ok
    ensures Concat(runs) + replies[n..] == replies
    ensures FirstOk(replies[n..]) == Some(0)
    ensures replies[n..][1..] == replies[n + 1..]
  {
    var rest := replies[n..];
    assert rest[0] == replies[n];
  }

  /** The first n responses, each an acknowledgment, taken one run each. */
  lemma {:induction false} ImmediateRuns(replies: seq<string>, n: nat) returns (runs: seq<seq<string>>)
    requires n <= |replies|
    requires forall i :: 0 <= i < n ==> Classify(replies[i]) == Ack.Ok
    ensures |runs| == n && Concat(runs) == replies[..n]
    ensures forall i :: 0 <= i < n ==> AckRun(runs[i])
    decreases n
  {
    if n == 0 {
      runs := [];
    } else {
      var tail := ImmediateRuns(replies[1..], n - 1);
      runs := [[replies[0]]] + tail;
      assert runs[1..] == tail;
      assert replies[..n] == [replies[0]] + replies[1..][..n - 1];
      assert [replies[0]][..0] == [];
    }
  }

  /** Every frame of such a run passes the receiver's check and carries its
      command with its line number. */
  lemma FramesDecode(n: nat, cmds: seq<string>, i: nat)
    requires i < |cmds|
    ensures DecodeFrame(Frames(n, cmds)[i]) == Some(Frame(n + i, cmds[i]))
  {
    FramesAt(n, cmds, i);
    DecodeWire(n + i, cmds[i]);
  }

  // ---------------------------------------------------------------------
  // Filtering and counting

  /** A blank or comment line is skipped: the stream goes on as if it were
      not there. */
  lemma BlankOrCommentSkipped(st: State, line: string, lines: seq<string>, ov: Overrides, replies: seq<string>)
    requires IsBlankOrComment(line)
    ensures StreamFrom(st, Prepared([line] + lines, ov), replies) == StreamFrom(st, Prepared(lines, ov), replies)
  {
    BlankOrCommentUnchanged(line, ov);
    TrimIdempotent(line);
    assert ([line] + lines)[1..] == lines;
    assert Prepared([line] + lines, ov) == [Result.Ok(Trimmed(line))] + Prepared(lines, ov);
  }

  /** The number of prepared lines that would be sent. */
  function SendableLines(prepared: seq<Result<string>>): nat {
    if prepared == [] then 0
    else (if prepared[0].Ok? && IsSendable(prepared[0].value) then 1 else 0) + SendableLines(prepared[1..])
  }

  /** A line that yields something to send is a command line, so the first
      pass counts it: there are never more sendable lines than counted ones. */
  lemma {:induction false} SendableWithinCommandLines(lines: seq<string>, ov: Overrides)
    ensures SendableLines(Prepared(lines, ov)) <= CommandLines(lines)
  {
    if lines != [] {
      var p := Prepared(lines, ov);
      assert p[1..] == Prepared(lines[1..], ov);
      if IsBlankOrComment(lines[0]) {
        BlankOrCommentUnchanged(lines[0], ov);
        TrimIdempotent(lines[0]);
      }
      SendableWithinCommandLines(lines[1..], ov);
    }
  }

  /** Frames are counted once per command, never per retransmission. */
  lemma {:induction false} SentWithinSendable(st: State, prepared: seq<Result<string>>, replies: seq<string>)
    ensures StreamFrom(st, prepared, replies).state.sent <= st.sent + SendableLines(prepared)
    decreases |prepared|
  {
    if prepared != [] && prepared[0].Ok? {
      var cmd := prepared[0].value;
      if !IsSendable(cmd) {
        SentWithinSendable(st, prepared[1..], replies);
      } else {
        DispatchCountsOnce(st, cmd, replies);
        var w := Dispatch(st, cmd, replies);
        if w.acked {
          SentWithinSendable(w.state, prepared[1..], w.rest);
        }
      }
    }
  }

  /** Over a whole stream, the frames counted never exceed the command lines
      counted by the first pass, and the session ends healthy. */
  lemma StreamedWithinTotal(lines: seq<string>, ov: Overrides, replies: seq<string>)
    ensures Streamed(lines, ov, replies).state.sent <= CommandLines(lines)
    ensures Healthy(Streamed(lines, ov, replies).state)
  {
    SentWithinSendable(Initial(), Prepared(lines, ov), replies);
    SendableWithinCommandLines(lines, ov);
    StreamKeepsHealthy(Initial(), Prepared(lines, ov), replies);
  }
}
