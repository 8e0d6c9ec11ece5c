/** The protocol session and the stream driver: each command is framed with
    the current line number and written, then responses are read until one
    acknowledges it; resend requests retransmit the frame, and the third in
    a row triggers an emergency reset that restarts line numbering at 1.
    After the last command a raw flush command is written and the session
    waits for its acknowledgment. */
module Protocol {
  import opened Text
  import opened Transform
  import opened Framing
  import opened Responses

  /** Consecutive resend requests that trigger an emergency reset. */
  const MaxResendStreak: nat := 3

  /** What the emergency reset writes: an emergency stop and a firmware
      restart, eleven bytes, the last of them the terminating NUL of the C
      string literal. */
  const ResetCommands: string := "M112\nM999\n\0"

  /** The unnumbered command written after the last line. */
  const FlushCommand: string := "M400\n"

  /** The session's counters and everything written to the printer so far,
      one entry per write. */
  datatype State = State(lineNum: nat, resendStreak: nat, sent: nat, log: seq<string>)

  function Initial(): State {
    State(1, 0, 0, [])
  }

  /** Between responses the line number is at least 1 and the resend streak
      is below the reset threshold. */
  predicate Healthy(st: State) {
    st.lineNum >= 1 && st.resendStreak < MaxResendStreak
  }

  /** The effect of one classified response while `wire` awaits its
      acknowledgment. */
  function OnAck(st: State, wire: string, ack: Ack): State {
    match ack
    case Ok => st.(lineNum := st.lineNum + 1, resendStreak := 0)
    case Resend =>
      if st.resendStreak + 1 >= MaxResendStreak then
        st.(lineNum := 1, resendStreak := 0, log := st.log + [ResetCommands, wire])
      else
        st.(resendStreak := st.resendStreak + 1, log := st.log + [wire])
    case Unrecognized => st
    case Timeout => st
  }

  /** Where waiting for an acknowledgment ends: the state, the responses not
      yet read, and whether an acknowledgment came. */
  datatype Waited = Waited(state: State, rest: seq<string>, acked: bool)

  /** Read responses until one acknowledges `wire`. An empty response, or
      no response at all, is a timeout. */
  function AwaitAck(st: State, wire: string, replies: seq<string>): Waited
    decreases |replies|
  {
    if replies == [] then Waited(st, [], false)
    else
      var ack := Classify(replies[0]);
      if ack == Timeout then Waited(st, replies[1..], false)
      else if ack == Ack.Ok then Waited(OnAck(st, wire, Ack.Ok), replies[1..], true)
      else AwaitAck(OnAck(st, wire, ack), wire, replies[1..])
  }

  /** Sending one command: frame it with the current line number, write it,
      count it, and wait for its acknowledgment. */
  function Dispatch(st: State, cmd: string, replies: seq<string>): Waited {
    var wire := Wire(st.lineNum, cmd);
    AwaitAck(st.(sent := st.sent + 1, log := st.log + [wire]), wire, replies)
  }

  /** How a stream ends. `Crashed` is the conversion error of an F value
      that is not a plain digit string; `FlushPending` means the flush was never acknowledged, where
      the program goes on waiting. */
  datatype Outcome = Completed | TimedOut | Crashed(error: Error) | FlushPending

  datatype Run = Run(state: State, rest: seq<string>, outcome: Outcome)

  /** A transformed, trimmed line is sent unless it is empty or a comment. */
  predicate IsSendable(cmd: string) {
    cmd != [] && cmd[0] != ';'
  }

  /** A source line as the streaming loop prepares it: transformed, then
      trimmed once more. */
  function Prepare(line: string, ov: Overrides): Result<string> {
    match Modified(line, ov)
    case Failed(e) => Failed(e)
    case Ok(m) => Result.Ok(Trimmed(m))
  }

  /** Every source line prepared, in order. */
  function Prepared(lines: seq<string>, ov: Overrides): (r: seq<Result<string>>)
    ensures |r| == |lines|
    ensures forall i :: 0 <= i < |lines| ==> r[i] == Prepare(lines[i], ov)
  {
    if lines == [] then [] else [Prepare(lines[0], ov)] + Prepared(lines[1..], ov)
  }

  /** The streaming loop over the remaining prepared lines. `Completed` here
      means every line was handled; a line whose transformation failed ends
      the stream there. */
  function StreamFrom(st: State, prepared: seq<Result<string>>, replies: seq<string>): Run
    decreases |prepared|
  {
    if prepared == [] then Run(st, replies, Completed)
    else
      match prepared[0]
      case Failed(e) => Run(st, replies, Crashed(e))
      case Ok(cmd) =>
        if !IsSendable(cmd) then StreamFrom(st, prepared[1..], replies)
        else
          var w := Dispatch(st, cmd, replies);
          if !w.acked then Run(w.state, w.rest, TimedOut)
          else StreamFrom(w.state, prepared[1..], w.rest)
  }

  /** Index of the first response containing "ok": where the flush wait
      stops. */
  function FirstOk(replies: seq<string>): (r: Option<nat>)
    ensures r.Some? ==> (r.value < |replies| && Contains(replies[r.value], "ok") &&
      forall j :: 0 <= j < r.value ==> !Contains(replies[j], "ok"))
    ensures r.None? ==> forall j :: 0 <= j < |replies| ==> !Contains(replies[j], "ok")
  {
    if replies == [] then None
    else if Contains(replies[0], "ok") then Some(0)
    else match FirstOk(replies[1..])
      case None => None
      case Some(k) => Some(k + 1)
  }

  /** After the loop: a completed loop writes the flush command and reads
      until a response contains "ok"; any other outcome is final. */
  function Flushed(r: Run): Run {
    if r.outcome != Completed then r
    else
      var st := r.state.(log := r.state.log + [FlushCommand]);
      match FirstOk(r.rest)
      case None => Run(st, [], FlushPending)
      case Some(k) => Run(st, r.rest[k + 1..], Completed)
  }

  /** The whole stream: every line, then the flush command and its
      acknowledgment. */
  function Streamed(lines: seq<string>, ov: Overrides, replies: seq<string>): Run {
    Flushed(StreamFrom(Initial(), Prepared(lines, ov), replies))
  }

  /** The number of source lines that are neither blank nor a comment: the
      first pass over the file. */
  function CommandLines(lines: seq<string>): nat {
    if lines == [] then 0
    else (if IsBlankOrComment(lines[0]) then 0 else 1) + CommandLines(lines[1..])
  }

  lemma {:induction false} CommandLinesAppend(lines: seq<string>, line: string)
    ensures CommandLines(lines + [line]) == CommandLines(lines) + (if IsBlankOrComment(line) then 0 else 1)
  {
    if lines == [] {
      assert lines + [line] == [line];
    } else {
      assert (lines + [line])[1..] == lines[1..] + [line];
      CommandLinesAppend(lines[1..], line);
    }
  }

  /** The first pass: count the lines that trim to something other than a
      comment. */
  method CountCommands(lines: seq<string>) returns (total: nat)
    ensures total == CommandLines(lines)
  {
    total := 0;
    for i := 0 to |lines|
      invariant total == CommandLines(lines[..i])
    {
      var tmp := Trim(lines[i]);
      CommandLinesAppend(lines[..i], lines[i]);
      assert lines[..i + 1] == lines[..i] + [lines[i]];
      if tmp != [] && tmp[0] != ';' {
        total := total + 1;
      }
    }
    assert lines[..|lines|] == lines;
  }

  // ---------------------------------------------------------------------
  // The session as the program runs it

  class Session {
    var lineNum: nat
    var resendStreak: nat
    var sent: nat
    /** Everything written to the printer, one entry per write. */
    var log: seq<string>
    /** The response lines the printer has still to send. */
    var replies: seq<string>

    function Current(): State
      reads this
    {
      State(lineNum, resendStreak, sent, log)
    }

    ghost predicate Valid()
      reads this
    {
      Healthy(Current())
    }

    constructor (replies: seq<string>)
      ensures Valid() && Current() == Initial()
      ensures this.replies == replies
    {
      lineNum, resendStreak, sent, log := 1, 0, 0, [];
      this.replies := replies;
    }

    /** A write to the serial port. */
    method Write(data: string)
      modifies this
      ensures log == old(log) + [data]
      ensures lineNum == old(lineNum) && resendStreak == old(resendStreak)
      ensures sent == old(sent) && replies == old(replies)
    {
      log := log + [data];
    }

    /** One response line; the empty line when the printer stays silent. */
    method ReadResponse() returns (resp: string)
      modifies this
      ensures old(replies) == [] ==> resp == [] && replies == []
      ensures old(replies) != [] ==> resp == old(replies)[0] && replies == old(replies)[1..]
      ensures Current() == old(Current())
    {
      if replies == [] {
        resp := [];
      } else {
        resp := replies[0];
        replies := replies[1..];
      }
    }

    /** The emergency reset: the stop and restart commands are written; the
        settling pause and the discarding of buffered input are not
        modelled. */
    method EmergencyReset()
      modifies this
      ensures log == old(log) + [ResetCommands]
      ensures lineNum == old(lineNum) && resendStreak == old(resendStreak)
      ensures sent == old(sent) && replies == old(replies)
    {
      Write(ResetCommands);
    }

    /** The acknowledgment loop for the frame `wire` just written. */
    method ReadUntilAck(wire: string) returns (acked: bool)
      requires Valid()
      modifies this
      ensures Valid()
      ensures Waited(Current(), replies, acked) == AwaitAck(old(Current()), wire, old(replies))
    {
      var gotOk := false;
      while !gotOk
        invariant Valid()
        invariant gotOk ==> Waited(Current(), replies, true) == AwaitAck(old(Current()), wire, old(replies))
        invariant !gotOk ==> AwaitAck(Current(), wire, replies) == AwaitAck(old(Current()), wire, old(replies))
        decreases |replies|, !gotOk
      {
        ghost var before, pending := Current(), replies;
        var resp := ReadResponse();
        if resp == [] {
          return false;
        }
        assert pending != [] && resp == pending[0] && replies == pending[1..];
        if Contains(resp, "ok") {
          gotOk := true;
          lineNum := lineNum + 1;
          resendStreak := 0;
        } else if Contains(resp, "Resend") || Contains(resp, "rs") {
          resendStreak := resendStreak + 1;
          if resendStreak >= MaxResendStreak {
            EmergencyReset();
            lineNum := 1;
            resendStreak := 0;
          }
          Write(wire);
        }
        assert Current() == OnAck(before, wire, Classify(resp));
      }
      return true;
    }

    /** Frame, write and count one command, then wait for it. */
    method Send(cmd: string) returns (acked: bool)
      requires Valid()
      modifies this
      ensures Valid()
      ensures Waited(Current(), replies, acked) == Dispatch(old(Current()), cmd, old(replies))
    {
      var wire := BuildFrame(lineNum, cmd);
      Write(wire);
      sent := sent + 1;
      acked := ReadUntilAck(wire);
    }

    /** The second pass over the source lines. */
    method StreamLines(lines: seq<string>, ov: Overrides) returns (outcome: Outcome)
      requires Valid()
      modifies this
      ensures Valid()
      ensures Run(Current(), replies, outcome) == StreamFrom(old(Current()), Prepared(lines, ov), old(replies))
    {
      var i := 0;
      while i < |lines|
        invariant 0 <= i <= |lines|
        invariant Valid()
        invariant StreamFrom(Current(), Prepared(lines[i..], ov), replies) ==
          StreamFrom(old(Current()), Prepared(lines, ov), old(replies))
      {
        assert lines[i..][0] == lines[i] && lines[i..][1..] == lines[i + 1..];
        var modified := ModifyLine(lines[i], ov);
        if modified.Failed? {
          return Crashed(modified.error);
        }
        var cmd := Trim(modified.value);
        assert Prepared(lines[i..], ov) == [Result.Ok(cmd)] + Prepared(lines[i + 1..], ov);
        if cmd != [] && cmd[0] != ';' {
          var acked := Send(cmd);
          if !acked {
            return TimedOut;
          }
        }
        i := i + 1;
      }
      return Completed;
    }

    /** The flush: write the raw flush command and read until a response
        contains "ok". */
    method Finish() returns (outcome: Outcome)
      requires Valid()
      modifies this
      ensures Valid()
      ensures lineNum == old(lineNum) && resendStreak == old(resendStreak) && sent == old(sent)
      ensures log == old(log) + [FlushCommand]
      ensures FirstOk(old(replies)).None? ==> outcome == FlushPending && replies == []
      ensures FirstOk(old(replies)).Some? ==>
        outcome == Completed && replies == old(replies)[FirstOk(old(replies)).value + 1..]
    {
      Write(FlushCommand);
      while replies != []
        invariant Valid()
        invariant lineNum == old(lineNum) && resendStreak == old(resendStreak) && sent == old(sent)
        invariant log == old(log) + [FlushCommand]
        invariant FirstOk(old(replies)).None? ==> FirstOk(replies).None?
        invariant FirstOk(old(replies)).Some? ==> (FirstOk(replies).Some? &&
          |old(replies)| - |replies| + FirstOk(replies).value == FirstOk(old(replies)).value &&
          replies == old(replies)[|old(replies)| - |replies|..])
        decreases |replies|
      {
        var resp := ReadResponse();
        if Contains(resp, "ok") {
          return Completed;
        }
      }
      return FlushPending;
    }
  }

  /** The driver: count the command lines, stream them, then flush. */
  method Stream(lines: seq<string>, ov: Overrides, replies: seq<string>) returns (run: Run, total: nat)
    ensures run == Streamed(lines, ov, replies)
    ensures total == CommandLines(lines)
  {
    total := CountCommands(lines);
    var session := new Session(replies);
    var outcome := session.StreamLines(lines, ov);
    if outcome != Completed {
      return Run(session.Current(), session.replies, outcome), total;
    }
    outcome := session.Finish();
    run := Run(session.Current(), session.replies, outcome);
  }
}
