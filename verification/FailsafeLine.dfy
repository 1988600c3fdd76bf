/** The latch of the normally-closed failsafe line (main/failsafe_line.c). */
module FailsafeLine {

  const CLOSED_POLLS_TO_UNLOCK := 2

  datatype Event = Edge | Level(open: bool)

  datatype Action = NoAction | Trip | Unlock

  datatype Line = Line(latched: bool, closedPolls: nat)

  const FRESH := Line(false, 0)

  function OnEvent(l: Line, e: Event): (Line, Action) {
    if e.Edge? || e.open then
      (Line(true, 0), if l.latched then NoAction else Trip)
    else if !l.latched then
      (l, NoAction)
    else if l.closedPolls + 1 < CLOSED_POLLS_TO_UNLOCK then
      (Line(true, l.closedPolls + 1), NoAction)
    else
      (Line(false, 0), Unlock)
  }

  class LineLatch {
    var latched: bool
    var closedPolls: nat

    ghost function TheLine(): Line
      reads this
    {
      Line(latched, closedPolls)
    }

    constructor ()
      ensures TheLine() == FRESH
    {
      latched := false;
      closedPolls := 0;
    }

    method TripLine() returns (a: Action)
      modifies this
      ensures (TheLine(), a) == OnEvent(old(TheLine()), Edge)
    {
      closedPolls := 0;
      if latched {
        return NoAction;
      }
      latched := true;
      a := Trip;
    }

    method OnEdge() returns (a: Action)
      modifies this
      ensures (TheLine(), a) == OnEvent(old(TheLine()), Edge)
    {
      a := TripLine();
    }

    method OnLevel(open: bool) returns (a: Action)
      modifies this
      ensures (TheLine(), a) == OnEvent(old(TheLine()), Level(open))
    {
      if open {
        a := TripLine();
        return;
      }
      if !latched {
        return NoAction;
      }
      closedPolls := closedPolls + 1;
      if closedPolls < CLOSED_POLLS_TO_UNLOCK {
        return NoAction;
      }
      latched := false;
      closedPolls := 0;
      a := Unlock;
    }
  }

  // ----- What the latch remembers of its history -----

  function RunLine(l: Line, events: seq<Event>): Line
    decreases |events|
  {
    if |events| == 0 then l else OnEvent(RunLine(l, events[..|events| - 1]), events[|events| - 1]).0
  }

  /** The actions returned over a history, without the empty ones. */
  function Actions(l: Line, events: seq<Event>): seq<Action>
    decreases |events|
  {
    if |events| == 0 then []
    else
      var before := events[..|events| - 1];
      var a := OnEvent(RunLine(l, before), events[|events| - 1]).1;
      Actions(l, before) + (if a == NoAction then [] else [a])
  }

  predicate Opening(e: Event) {
    e.Edge? || e.open
  }

  /** One of the last two events opened the line. */
  predicate RecentlyOpened(events: seq<Event>) {
    exists i :: 0 <= i < |events| && |events| - 2 <= i && Opening(events[i])
  }

  lemma {:induction false} LatchHistory(events: seq<Event>)
    ensures RunLine(FRESH, events).latched <==> RecentlyOpened(events)
    ensures var l := RunLine(FRESH, events);
      l.closedPolls == if l.latched && !Opening(events[|events| - 1]) then 1 else 0
    decreases |events|
  {
    var n := |events|;
    if n > 0 {
      var before := events[..n - 1];
      LatchHistory(before);
      var l := RunLine(FRESH, before);
      if Opening(events[n - 1]) {
        assert RecentlyOpened(events);
      } else if l.latched && l.closedPolls == 0 {
        assert Opening(before[n - 2]) && before[n - 2] == events[n - 2];
        assert RecentlyOpened(events);
      } else if n >= 2 {
        assert before[n - 2] == events[n - 2];
      }
    }
  }

  /** TRIP, UNLOCK, TRIP, ... : strictly alternating, from TRIP. */
  predicate Alternating(acts: seq<Action>) {
    forall i :: 0 <= i < |acts| ==> acts[i] == if i % 2 == 0 then Trip else Unlock
  }

  /** Actions alternate, and the line is latched exactly when one more TRIP than UNLOCK was returned. */
  lemma {:induction false} ActionsAlternate(events: seq<Event>)
    ensures Alternating(Actions(FRESH, events))
    ensures RunLine(FRESH, events).latched <==> |Actions(FRESH, events)| % 2 == 1
    decreases |events|
  {
    if |events| > 0 {
      ActionsAlternate(events[..|events| - 1]);
    }
  }
}
