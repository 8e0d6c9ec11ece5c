/** What the session promises while a frame awaits its acknowledgment: the
    resend streak stays below the threshold, and three resend requests in a
    row cause exactly one emergency reset. */
module SessionProperties {
  import opened Text
  import opened Framing
  import opened Responses
  import opened Protocol

  /** Waiting for an acknowledgment keeps the session healthy, never counts
      a frame, only appends to what was written, and an acknowledgment
      clears the resend streak. */
  lemma {:induction false} AwaitKeepsHealthy(st: State, wire: string, replies: seq<string>)
    requires Healthy(st)
    ensures var w := AwaitAck(st, wire, replies);
      && Healthy(w.state)
      && w.state.sent == st.sent
      && st.log <= w.state.log
      && (w.acked ==> w.state.resendStreak == 0)
    decreases |replies|
  {
    if replies != [] {
      var ack := Classify(replies[0]);
      if ack != Timeout && ack != Ack.Ok {
        AwaitKeepsHealthy(OnAck(st, wire, ack), wire, replies[1..]);
      }
    }
  }

  /** Dispatching a command counts it exactly once, whatever the responses. */
  lemma DispatchCountsOnce(st: State, cmd: string, replies: seq<string>)
    ensures Dispatch(st, cmd, replies).state.sent == st.sent + 1
  {
    var wire := Wire(st.lineNum, cmd);
    AwaitKeepsCount(st.(sent := st.sent + 1, log := st.log + [wire]), wire, replies);
  }

  lemma {:induction false} AwaitKeepsCount(st: State, wire: string, replies: seq<string>)
    ensures AwaitAck(st, wire, replies).state.sent == st.sent
    decreases |replies|
  {
    if replies != [] {
      var ack := Classify(replies[0]);
      if ack != Timeout && ack != Ack.Ok {
        AwaitKeepsCount(OnAck(st, wire, ack), wire, replies[1..]);
      }
    }
  }

  /** Dispatching keeps the session healthy and only appends to what was
      written; an acknowledged command leaves the resend streak at 0. */
  lemma DispatchKeepsHealthy(st: State, cmd: string, replies: seq<string>)
    requires Healthy(st)
    ensures var w := Dispatch(st, cmd, replies);
      && Healthy(w.state)
      && st.log <= w.state.log
      && (w.acked ==> w.state.resendStreak == 0)
  {
    var wire := Wire(st.lineNum, cmd);
    AwaitKeepsHealthy(st.(sent := st.sent + 1, log := st.log + [wire]), wire, replies);
  }

  // ---------------------------------------------------------------------
  // Ignored responses

  /** Every response of `us` is one the loop ignores, such as the "wait" or
      "echo:busy" lines firmware sends while it works. */
  predicate Ignored(us: seq<string>) {
    forall i :: 0 <= i < |us| ==> Classify(us[i]) == Unrecognized
  }

  /** Ignored responses are read and discarded: waiting goes on as if they
      had never arrived. */
  lemma {:induction false} AwaitSkipsIgnored(st: State, wire: string, us: seq<string>, more: seq<string>)
    requires Ignored(us)
    ensures AwaitAck(st, wire, us + more) == AwaitAck(st, wire, more)
    decreases |us|
  {
    if us == [] {
      assert us + more == more;
    } else {
      assert (us + more)[0] == us[0];
      assert (us + more)[1..] == us[1..] + more;
      assert OnAck(st, wire, Unrecognized) == st;
      AwaitSkipsIgnored(st, wire, us[1..], more);
    }
  }

  /** The responses that acknowledge one frame without a resend request or
      a timeout: any number of ignored responses, then one acknowledgment. */
  predicate AckRun(run: seq<string>) {
    run != [] && Ignored(run[..|run| - 1]) && Classify(run[|run| - 1]) == Ack.Ok
  }

  /** A command answered by an acknowledgment run is written once, counted
      once, moves the line number on and clears the streak; the wait stops
      right after the acknowledgment. */
  lemma DispatchAckRun(st: State, cmd: string, run: seq<string>, more: seq<string>)
    requires AckRun(run)
    ensures Dispatch(st, cmd, run + more) ==
      Waited(State(st.lineNum + 1, 0, st.sent + 1, st.log + [Wire(st.lineNum, cmd)]), more, true)
  {
    var w := Wire(st.lineNum, cmd);
    var st0 := st.(sent := st.sent + 1, log := st.log + [w]);
    var us, ok := run[..|run| - 1], run[|run| - 1];
    assert run + more == us + ([ok] + more);
    AwaitSkipsIgnored(st0, w, us, [ok] + more);
    assert ([ok] + more)[1..] == more;
  }

  // ---------------------------------------------------------------------
  // Resend requests and the emergency reset

  /** The state after handling each of `replies` in turn, without stopping. */
  function Feed(st: State, wire: string, replies: seq<string>): State
    decreases |replies|
  {
    if replies == [] then st else Feed(OnAck(st, wire, Classify(replies[0])), wire, replies[1..])
  }

  /** How often `x` occurs in `xs`. */
  function Occurrences(xs: seq<string>, x: string): nat {
    if xs == [] then 0 else (if xs[0] == x then 1 else 0) + Occurrences(xs[1..], x)
  }

  lemma {:induction false} OccurrencesAppend(a: seq<string>, b: seq<string>, x: string)
    ensures Occurrences(a + b, x) == Occurrences(a, x) + Occurrences(b, x)
  {
    if a == [] {
      assert a + b == b;
    } else {
      assert (a + b)[1..] == a[1..] + b;
      OccurrencesAppend(a[1..], b, x);
    }
  }

  /** A run of resend requests is handled one by one while waiting. */
  lemma {:induction false} AwaitAfterResends(st: State, wire: string, rs: seq<string>, more: seq<string>)
    requires forall i :: 0 <= i < |rs| ==> Classify(rs[i]) == Resend
    ensures AwaitAck(st, wire, rs + more) == AwaitAck(Feed(st, wire, rs), wire, more)
    decreases |rs|
  {
    if rs == [] {
      assert rs + more == more;
    } else {
      assert (rs + more)[0] == rs[0];
      assert (rs + more)[1..] == rs[1..] + more;
      AwaitAfterResends(OnAck(st, wire, Resend), wire, rs[1..], more);
    }
  }

  /** After n resend requests in a row, starting from streak s: the streak is
      (s + n) mod 3, the line number restarted at 1 if a reset happened and
      is unchanged otherwise, and no frame was counted. */
  lemma {:induction false} ResendRunCounters(st: State, wire: string, rs: seq<string>)
    requires Healthy(st)
    requires forall i :: 0 <= i < |rs| ==> Classify(rs[i]) == Resend
    ensures var st' := Feed(st, wire, rs); var s := st.resendStreak + |rs|;
      && st'.resendStreak == s % MaxResendStreak
      && st'.lineNum == (if s >= MaxResendStreak then 1 else st.lineNum)
      && st'.sent == st.sent
    decreases |rs|
  {
    if rs != [] {
      ResendRunCounters(OnAck(st, wire, Resend), wire, rs[1..]);
    }
  }

  /** After n resend requests in a row, starting from streak s: exactly
      (s + n) / 3 emergency resets were written, the frame was retransmitted
      n times, and nothing else was written. */
  lemma {:induction false} ResendRunWrites(st: State, wire: string, rs: seq<string>)
    requires Healthy(st) && wire != ResetCommands
    requires forall i :: 0 <= i < |rs| ==> Classify(rs[i]) == Resend
    ensures var st' := Feed(st, wire, rs); var s := st.resendStreak + |rs|;
      && st.log <= st'.log
      && |st'.log| == |st.log| + |rs| + s / MaxResendStreak
      && Occurrences(st'.log[|st.log|..], ResetCommands) == s / MaxResendStreak
      && Occurrences(st'.log[|st.log|..], wire) == |rs|
    decreases |rs|
  {
    if rs == [] {
      assert st.log[|st.log|..] == [];
    } else {
      var st1 := OnAck(st, wire, Resend);
      ResendWrites(st, wire);
      ResendRunWrites(st1, wire, rs[1..]);
      var st' := Feed(st1, wire, rs[1..]);
      SuffixSplit(st.log, st1.log, st'.log);
      OccurrencesAppend(st1.log[|st.log|..], st'.log[|st1.log|..], ResetCommands);
      OccurrencesAppend(st1.log[|st.log|..], st'.log[|st1.log|..], wire);
    }
  }

  /** One resend request: the frame is written again, preceded by the reset
      commands when the streak reaches the threshold. */
  lemma ResendWrites(st: State, wire: string)
    requires Healthy(st) && wire != ResetCommands
    ensures var st1 := OnAck(st, wire, Resend); var added := st1.log[|st.log|..];
      var resets := (st.resendStreak + 1) / MaxResendStreak;
      && st.log <= st1.log
      && st1.resendStreak == (st.resendStreak + 1) % MaxResendStreak
      && |added| == 1 + resets
      && Occurrences(added, ResetCommands) == resets
      && Occurrences(added, wire) == 1
  {
    var st1 := OnAck(st, wire, Resend);
    var added := st1.log[|st.log|..];
    assert [wire][1..] == [];
    assert Occurrences([wire], wire) == 1 && Occurrences([wire], ResetCommands) == 0;
    if st.resendStreak + 1 >= MaxResendStreak {
      assert added == [ResetCommands, wire];
      assert added[1..] == [wire];
    } else {
      assert added == [wire];
    }
  }

  /** A frame ends in a line feed and the reset write in a NUL, so no frame
      is ever the reset write: `ResendWrites` and `ResendRunWrites` apply to
      every frame the session sends. */
  lemma FrameIsNotReset(lineNum: nat, cmd: string)
    ensures Wire(lineNum, cmd) != ResetCommands
  {
    var w := Wire(lineNum, cmd);
    var payload := Payload(lineNum, cmd);
    assert w == payload + "*" + NatToString(Checksum(payload) as nat) + "\n";
    assert w[|w| - 1] == '\n';
    assert ResetCommands[|ResetCommands| - 1] == '\0';
  }

  /** The line number once a frame is acknowledged, whatever came before
      the acknowledgment: one past the frame's own number when no emergency
      reset was written during the wait, and 2 when one was (numbering
      restarts at 1 and the acknowledgment moves it on). */
  lemma {:induction false} AckedLineNumber(st: State, wire: string, replies: seq<string>)
    requires Healthy(st) && wire != ResetCommands
    ensures var w := AwaitAck(st, wire, replies);
      && st.log <= w.state.log
      && (w.acked ==> w.state.lineNum == (if ResetCommands in w.state.log[|st.log|..] then 2 else st.lineNum + 1))
    decreases |replies|
  {
    var w := AwaitAck(st, wire, replies);
    AwaitKeepsHealthy(st, wire, replies);
    if replies != [] && w.acked {
      var ack := Classify(replies[0]);
      if ack == Ack.Ok {
        assert w.state.log[|st.log|..] == [];
      } else if ack == Unrecognized {
        AckedLineNumber(st, wire, replies[1..]);
      } else {
        var st1 := OnAck(st, wire, Resend);
        ResendWrites(st, wire);
        AwaitKeepsHealthy(st1, wire, replies[1..]);
        AckedLineNumber(st1, wire, replies[1..]);
        SuffixSplit(st.log, st1.log, w.state.log);
        var first, later := st1.log[|st.log|..], w.state.log[|st1.log|..];
        if st.resendStreak + 1 >= MaxResendStreak {
          assert first == [ResetCommands, wire];
          assert ResetCommands in w.state.log[|st.log|..] by {
            assert w.state.log[|st.log|..][0] == ResetCommands;
          }
        } else {
          assert first == [wire];
          assert (ResetCommands in w.state.log[|st.log|..]) == (ResetCommands in later) by {
            assert w.state.log[|st.log|..] == [wire] + later;
          }
        }
      }
    }
  }

  /** The same for a whole command: once its frame is acknowledged, the next
      frame is numbered one higher, or 2 after an emergency reset. */
  lemma DispatchLineNumber(st: State, cmd: string, replies: seq<string>)
    requires Healthy(st)
    ensures var w := Dispatch(st, cmd, replies);
      && st.log <= w.state.log
      && (w.acked ==> w.state.lineNum == (if ResetCommands in w.state.log[|st.log|..] then 2 else st.lineNum + 1))
  {
    var wire := Wire(st.lineNum, cmd);
    var st0 := st.(sent := st.sent + 1, log := st.log + [wire]);
    var w := AwaitAck(st0, wire, replies);
    FrameIsNotReset(st.lineNum, cmd);
    AckedLineNumber(st0, wire, replies);
    AwaitKeepsHealthy(st0, wire, replies);
    SuffixSplit(st.log, st0.log, w.state.log);
    assert st0.log[|st.log|..] == [wire];
    assert (ResetCommands in w.state.log[|st.log|..]) == (ResetCommands in w.state.log[|st0.log|..]) by {
      assert w.state.log[|st.log|..] == [wire] + w.state.log[|st0.log|..];
    }
  }

  /** An empty response, after any number of ignored ones, ends the wait
      for a command: the frame was written and counted once, nothing is
      retransmitted, and it is not acknowledged. */
  lemma DispatchTimesOut(st: State, cmd: string, us: seq<string>, more: seq<string>)
    requires Ignored(us)
    ensures Dispatch(st, cmd, us + [""] + more) ==
      Waited(st.(sent := st.sent + 1, log := st.log + [Wire(st.lineNum, cmd)]), more, false)
  {
    var w := Wire(st.lineNum, cmd);
    var st0 := st.(sent := st.sent + 1, log := st.log + [w]);
    assert us + [""] + more == us + ([""] + more);
    AwaitSkipsIgnored(st0, w, us, [""] + more);
    assert ([""] + more)[1..] == more;
  }

  lemma SuffixSplit(a: seq<string>, b: seq<string>, c: seq<string>)
    requires a <= b <= c
    ensures c[|a|..] == b[|a|..] + c[|b|..]
  {
  }

  /** Three resend requests for a fresh frame, then an acknowledgment:
      the frame goes out four times, exactly one emergency reset is written
      before the last retransmission (which still carries the old line
      number), one frame is counted, and the next frame is numbered 2. */
  lemma ThreeResendsThenOk(st: State, cmd: string, replies: seq<string>)
    requires Healthy(st) && st.resendStreak == 0
    requires |replies| >= 4
    requires Classify(replies[0]) == Resend && Classify(replies[1]) == Resend && Classify(replies[2]) == Resend
    requires Classify(replies[3]) == Ack.Ok
    ensures var w := Wire(st.lineNum, cmd);
      Dispatch(st, cmd, replies) ==
        Waited(State(2, 0, st.sent + 1, st.log + [w, w, w, ResetCommands, w]), replies[4..], true)
  {
    var w := Wire(st.lineNum, cmd);
    var st0 := st.(sent := st.sent + 1, log := st.log + [w]);
    var st1 := st0.(resendStreak := 1, log := st0.log + [w]);
    var st2 := st1.(resendStreak := 2, log := st1.log + [w]);
    var st3 := st2.(lineNum := 1, resendStreak := 0, log := st2.log + [ResetCommands, w]);
    assert replies[1..][0] == replies[1] && replies[1..][1..] == replies[2..];
    assert replies[2..][0] == replies[2] && replies[2..][1..] == replies[3..];
    assert replies[3..][0] == replies[3] && replies[3..][1..] == replies[4..];
    assert AwaitAck(st3, w, replies[3..]) == Waited(st3.(lineNum := 2), replies[4..], true);
    assert AwaitAck(st2, w, replies[2..]) == AwaitAck(st3, w, replies[3..]);
    assert AwaitAck(st1, w, replies[1..]) == AwaitAck(st2, w, replies[2..]);
    assert AwaitAck(st0, w, replies) == AwaitAck(st1, w, replies[1..]);
  }
}
