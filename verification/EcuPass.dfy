/**
 * One pass of task_failsafe (main/failsafe.c:206-233): an edge does not displace the poll. Whenever
 * the poll is due, the level is read and the silence judged in the same pass.
 */
module EcuPass {
  import opened Command
  import opened Ecu
  import opened Tasks
  import L = FailsafeLine

  /** From a line action to where the task goes on, with nothing changed that a poll looks at. */
  lemma ActionDone(s: State, back: Return, open: bool, due: bool) returns (t: State)
    requires back != ToWait
    requires s.fs.pc == FsTrip(back) || s.fs.pc == FsUnlock(back) || s.fs.pc == (if back == ToPoll then FsPoll else FsMode)
    ensures t.fs.pc == (if back == ToPoll then FsPoll else FsMode) && Settle(t, open, due) == Settle(s, open, due)
    ensures t.fs.line == s.fs.line && t.time == s.time && t.lastRx == s.lastRx
  {
    hide Settle, Emit, LineEvent, Elapsed;
    t := s;
    if s.fs.pc.FsTrip? {
      SettleNext(t, open, due);
      t := FsStep(t, open, due);
      SettleNext(t, open, due);
      t := FsStep(t, open, due);
    } else if s.fs.pc.FsUnlock? {
      SettleNext(t, open, due);
      t := FsStep(t, open, due);
    }
  }

  function LineAfterEdge(s: State): L.Line {
    if s.edge then L.OnEvent(s.fs.line, L.Edge).0 else s.fs.line
  }

  lemma ComesToPoll(s: State, open: bool, due: bool) returns (t: State)
    requires s.fs.pc.FsWait?
    ensures t.fs.pc == FsPoll && Settle(t, open, due) == Settle(FsStep(s, open, due), open, due)
    ensures t.fs.line == LineAfterEdge(s) && t.time == s.time && t.lastRx == s.lastRx
  {
    hide Settle, L.OnEvent, Elapsed, EnterStep, AlarmStep;
    t := ActionDone(FsStep(s, open, due), ToPoll, open, due);
  }

  lemma ComesToSilence(s: State, open: bool) returns (t: State)
    requires s.fs.pc.FsPoll?
    ensures t.fs.pc == FsMode && Settle(t, open, true) == Settle(s, open, true)
    ensures t.fs.line == L.OnEvent(s.fs.line, L.Level(open)).0 && t.time == s.time && t.lastRx == s.lastRx
  {
    hide Settle, L.OnEvent, Elapsed, EnterStep, AlarmStep;
    SettleNext(s, open, true);
    t := ActionDone(FsStep(s, open, true), ToSilence, open, true);
  }

  lemma SilenceIsJudged(s: State, open: bool, due: bool)
    requires s.fs.pc.FsMode?
    ensures var u := Settle(s, open, due);
      u.fs.line == s.fs.line && (Elapsed(s.time, s.lastRx) ==> u.cmd.mode == Off)
  {
    hide Settle, Elapsed, PollReads, Emit;
    PollSettles(s, open, due);
    PollLeaves(s);
    var t := PollReads(s);
    if t.fs.pc.FsSilent? {
      EntrySettles(t, open, due);
    } else {
      SettledAtWait(t, open, due);
    }
  }

  /**
   * A pass in which the poll is due: whether or not an edge was signalled, the line has seen the
   * edge, if any, and then the level, and after 200 silent ticks the ECU is in OFF.
   */
  lemma DuePassReadsEverything(s: State, open: bool)
    requires s.fs.pc.FsWait?
    ensures var u := Settle(FsStep(s, open, true), open, true);
      && u.fs.line == L.OnEvent(LineAfterEdge(s), L.Level(open)).0
      && ((TickOf(s.time) - s.lastRx) % 0x1_0000_0000 >= 200 ==> u.cmd.mode == Off)
  {
    hide Settle, L.OnEvent, FsStep, LineAfterEdge, TickOf;
    var t := ComesToPoll(s, open, true);
    t := ComesToSilence(t, open);
    SilenceIsJudged(t, open, true);
  }
}
