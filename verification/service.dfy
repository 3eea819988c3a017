/**
 * The runway state watcher (lvnl/service.go): the table of last-known runway
 * states, its initialisation from the runway table, and the diff step that
 * applies one usage report and emits a change per runway that flipped.
 */
module LvnlService {
  import opened LvnlApi

  /** A runway and its last-known state; `direction` is false for takeoff and true for landing. */
  datatype Runway = Runway(code: string, name: string, direction: bool, active: bool)

  /** All codes a report lists: the takeoff codes followed by the landing codes. */
  function AllActive(res: RunwayUsageResponse): (all: seq<string>)
    ensures forall code :: code in all <==>
      code in GetActiveTakeoffRunways(res) || code in GetActiveLandingRunways(res)
  {
    GetActiveTakeoffRunways(res) + GetActiveLandingRunways(res)
  }

  /**
   * Specification of one entry's step: `listed` is membership in the report,
   * `landing` membership in its landing list.
   */
  function NextRunway(rw: Runway, listed: bool, landing: bool): Runway
  {
    if listed && !rw.active then rw.(active := true, direction := landing)
    else if !listed && rw.active then rw.(active := false, direction := false)
    else rw
  }

  /** Specification of the whole diff step: every entry steps, no key is added or removed. */
  function NextState(s: map<string, Runway>, active: seq<string>, landing: seq<string>): (next: map<string, Runway>)
    ensures next.Keys == s.Keys
  {
    map code | code in s :: NextRunway(s[code], code in active, code in landing)
  }

  /** The codes whose stored active flag disagrees with the report. */
  ghost function Flipped(s: map<string, Runway>, active: seq<string>): set<string>
  {
    set code | code in s && s[code].active != (code in active)
  }

  /**
   * The emitted changes are one per flipped code, none for the others,
   * and each is that runway's new entry.
   */
  ghost predicate EmitsExactly(emitted: seq<Runway>, before: map<string, Runway>, next: map<string, Runway>, active: seq<string>)
  {
    && Codes(emitted) == Flipped(before, active)
    && |emitted| == |Flipped(before, active)|
    && forall r :: r in emitted ==> r.code in next && next[r.code] == r
  }

  /** Every entry is stored under its own code. */
  ghost predicate KeyedByCode(s: map<string, Runway>)
  {
    forall code :: code in s ==> s[code].code == code
  }

  /** An inactive runway always carries the takeoff direction. */
  ghost predicate InactiveIsTakeoff(s: map<string, Runway>)
  {
    forall code :: code in s && !s[code].active ==> !s[code].direction
  }

  /**
   * The table the watcher keeps: exactly the runway table's codes, each under
   * its own code and with its name, inactive entries directed for takeoff.
   */
  ghost predicate MatchesRunwayTable(s: map<string, Runway>)
  {
    && s.Keys == Runways.Keys
    && KeyedByCode(s)
    && (forall code :: code in s ==> s[code].name == Runways[code])
    && InactiveIsTakeoff(s)
  }

  /** Linear search for `needle` in `haystack`. */
  method StrArrContains(needle: string, haystack: seq<string>) returns (found: bool)
    ensures found <==> needle in haystack
  {
    var i := 0;
    while i < |haystack|
      invariant 0 <= i <= |haystack|
      invariant needle !in haystack[..i]
    {
      if haystack[i] == needle {
        return true;
      }
      i := i + 1;
    }
    return false;
  }

  /**
   * The watcher's state table (`State`) and the change channel, modelled as
   * the sequence of every runway value pushed onto it so far.
   */
  class RunwayService {
    var state: map<string, Runway>
    var changes: seq<Runway>

    /** Before initialisation the table is empty (Go's nil map) and nothing has been pushed. */
    constructor ()
      ensures state == map[] && changes == []
    {
      state := map[];
      changes := [];
    }

    /** The stored active flag of the runway's code; false for a code not in the table. */
    function IsActive(rw: Runway): (r: bool)
      reads this
      ensures rw.code !in state ==> !r
      ensures rw.code in state ==> (r <==> state[rw.code].active)
    {
      if rw.code in state then state[rw.code].active else false
    }

    /** Rebuilds the table: one inactive, takeoff-directed entry per code of the runway table. */
    method InitiateState()
      modifies this`state
      ensures state.Keys == Runways.Keys
      ensures forall code :: code in state ==> state[code] == Runway(code, Runways[code], false, false)
      ensures MatchesRunwayTable(state)
    {
      state := map[];
      var pending := Runways.Keys;
      while pending != {}
        invariant pending <= Runways.Keys
        invariant state.Keys == Runways.Keys - pending
        invariant forall code :: code in state ==> state[code] == Runway(code, Runways[code], false, false)
        decreases pending
      {
        var code :| code in pending;
        state := state[code := Runway(code, Runways[code], false, false)];
        pending := pending - {code};
      }
    }

    /**
     * Applies one usage report to the table and pushes one change per
     * runway whose active flag flipped.
     */
    method UpdateState(res: RunwayUsageResponse)
      requires KeyedByCode(state)
      modifies this`state, this`changes
      ensures KeyedByCode(state)
      ensures old(MatchesRunwayTable(state)) ==> MatchesRunwayTable(state)
      ensures state == NextState(old(state), AllActive(res), GetActiveLandingRunways(res))
      ensures |changes| >= |old(changes)| && changes[..|old(changes)|] == old(changes)
      ensures EmitsExactly(changes[|old(changes)|..], old(state), state, AllActive(res))
    {
      if MatchesRunwayTable(state) {
        NextStatePreservesTable(state, AllActive(res), GetActiveLandingRunways(res));
      }
      var updated, emitted := DiffState(state, res);
      state := updated;
      changes := changes + emitted;
      assert changes[|old(changes)|..] == emitted;
    }
  }

  /**
   * The loop of updateState: visits the table's codes in an unspecified order
   * (Go map iteration), updates each runway whose active flag disagrees with
   * the report and collects the updated entries in visiting order.
   */
  method DiffState(table: map<string, Runway>, res: RunwayUsageResponse)
    returns (updated: map<string, Runway>, emitted: seq<Runway>)
    requires KeyedByCode(table)
    ensures KeyedByCode(updated)
    ensures updated == NextState(table, AllActive(res), GetActiveLandingRunways(res))
    ensures EmitsExactly(emitted, table, updated, AllActive(res))
  {
    var activeTakeoff := GetActiveTakeoffRunways(res);
    var activeLanding := GetActiveLandingRunways(res);
    var allActive := activeTakeoff + activeLanding;
    ghost var next := NextState(table, allActive, activeLanding);
    ghost var flipped := Flipped(table, allActive);

    updated, emitted := table, [];
    var pending := table.Keys;
    while pending != {}
      invariant Visited(updated, table, next, pending)
      invariant Reported(emitted, flipped, pending, next)
      decreases pending
    {
      var code :| code in pending;
      var tw := updated[code];
      var changed := false;
      var active := StrArrContains(code, allActive);
      if active {
        if !tw.active {
          var landing := StrArrContains(code, activeLanding);
          tw := tw.(active := true, direction := landing);
          changed := true;
        }
      } else {
        if tw.active {
          tw := tw.(active := false, direction := false);
          changed := true;
        }
      }
      StepMatchesSpec(table, allActive, activeLanding, code);
      Advance(updated, emitted, table, next, flipped, pending, tw, changed);
      if changed {
        updated := updated[code := tw];
        emitted := emitted + [tw];
      }
      pending := pending - {code};
    }
    VisitedAll(updated, table, next);
    NextStateKeyed(table, allActive, activeLanding);
  }

  /** Loop bookkeeping of DiffState: the unvisited codes keep their old entry, the visited ones have their new one. */
  ghost predicate Visited(table: map<string, Runway>, before: map<string, Runway>, next: map<string, Runway>, pending: set<string>)
  {
    && pending <= before.Keys && table.Keys == before.Keys && next.Keys == before.Keys
    && (forall code :: code in pending ==> table[code] == before[code])
    && (forall code :: code in table && code !in pending ==> table[code] == next[code])
  }

  /** Loop bookkeeping of DiffState: one emission per visited flipped code, each the new entry. */
  ghost predicate Reported(emitted: seq<Runway>, flipped: set<string>, pending: set<string>, next: map<string, Runway>)
  {
    && Codes(emitted) == flipped - pending && |emitted| == |flipped - pending|
    && forall r :: r in emitted ==> r.code in next && next[r.code] == r
  }

  /** One iteration of the loop of DiffState keeps its bookkeeping. */
  lemma Advance(updated: map<string, Runway>, emitted: seq<Runway>, table: map<string, Runway>,
                next: map<string, Runway>, flipped: set<string>, pending: set<string>, tw: Runway, changed: bool)
    requires Visited(updated, table, next, pending) && Reported(emitted, flipped, pending, next)
    requires tw.code in pending && tw == next[tw.code] && (changed <==> tw.code in flipped)
    requires !changed ==> tw == table[tw.code]
    ensures changed ==> Visited(updated[tw.code := tw], table, next, pending - {tw.code})
    ensures changed ==> Reported(emitted + [tw], flipped, pending - {tw.code}, next)
    ensures !changed ==> Visited(updated, table, next, pending - {tw.code})
    ensures !changed ==> Reported(emitted, flipped, pending - {tw.code}, next)
  {
    VisitOne(updated, table, next, pending, tw.code);
    if changed {
      EmitOne(emitted, flipped, pending, next, tw);
    } else {
      SkipOne(emitted, flipped, pending, next, tw.code);
    }
  }

  /** What the branches of the loop body compute for `code` is its entry in NextState. */
  lemma StepMatchesSpec(before: map<string, Runway>, active: seq<string>, landing: seq<string>, code: string)
    requires code in before
    ensures var rw := before[code]; var next := NextState(before, active, landing)[code];
      && (code in active && !rw.active ==> next == rw.(active := true, direction := code in landing))
      && (code !in active && rw.active ==> next == rw.(active := false, direction := false))
      && ((code in active) == rw.active ==> next == rw)
      && (code in Flipped(before, active) <==> rw.active != (code in active))
  {
  }

  lemma VisitOne(table: map<string, Runway>, before: map<string, Runway>, next: map<string, Runway>, pending: set<string>, code: string)
    requires Visited(table, before, next, pending) && code in pending
    ensures Visited(table[code := next[code]], before, next, pending - {code})
    ensures next[code] == table[code] ==> Visited(table, before, next, pending - {code})
  {
  }

  lemma VisitedAll(table: map<string, Runway>, before: map<string, Runway>, next: map<string, Runway>)
    requires Visited(table, before, next, {})
    ensures table == next
  {
  }

  lemma NextStateKeyed(s: map<string, Runway>, active: seq<string>, landing: seq<string>)
    requires KeyedByCode(s)
    ensures KeyedByCode(NextState(s, active, landing))
  {
  }

  /** The codes of a sequence of runway values. */
  ghost function Codes(rs: seq<Runway>): set<string>
  {
    set r | r in rs :: r.code
  }

  /** Bookkeeping for a code that is visited without an emission. */
  lemma SkipOne(emitted: seq<Runway>, flipped: set<string>, pending: set<string>, next: map<string, Runway>, code: string)
    requires Reported(emitted, flipped, pending, next)
    requires code !in flipped
    ensures Reported(emitted, flipped, pending - {code}, next)
  {
    assert flipped - (pending - {code}) == flipped - pending;
  }

  /** Bookkeeping for one emission: its code moves from pending to done. */
  lemma EmitOne(emitted: seq<Runway>, flipped: set<string>, pending: set<string>, next: map<string, Runway>, r: Runway)
    requires Reported(emitted, flipped, pending, next)
    requires r.code in pending && r.code in flipped && r.code in next && next[r.code] == r
    ensures Reported(emitted + [r], flipped, pending - {r.code}, next)
  {
    assert Codes(emitted + [r]) == Codes(emitted) + {r.code};
    assert flipped - (pending - {r.code}) == (flipped - pending) + {r.code};
  }

  // Properties of the diff step

  /** After the step a runway is active exactly when the report lists its code. */
  lemma NextStateFollowsReport(s: map<string, Runway>, res: RunwayUsageResponse)
    ensures var next := NextState(s, AllActive(res), GetActiveLandingRunways(res));
      forall code :: code in next ==>
        (next[code].active <==> code in GetActiveTakeoffRunways(res) || code in GetActiveLandingRunways(res))
  {
  }

  /** A runway that becomes active keeps its code and name and takes its direction from the landing list. */
  lemma ActivatedRunway(s: map<string, Runway>, active: seq<string>, landing: seq<string>, code: string)
    requires code in s && !s[code].active && code in active
    ensures var rw := NextState(s, active, landing)[code];
      rw.active && rw.code == s[code].code && rw.name == s[code].name && (rw.direction <==> code in landing)
  {
  }

  /** A runway listed both for takeoff and for landing becomes active for landing. */
  lemma LandingTakesPrecedence(s: map<string, Runway>, res: RunwayUsageResponse, code: string)
    requires code in s && !s[code].active
    requires code in GetActiveTakeoffRunways(res) && code in GetActiveLandingRunways(res)
    ensures var rw := NextState(s, AllActive(res), GetActiveLandingRunways(res))[code];
      rw.active && rw.direction
  {
    ActivatedRunway(s, AllActive(res), GetActiveLandingRunways(res), code);
  }

  /** A runway that stops being active is reset to inactive with the takeoff direction. */
  lemma DeactivatedRunway(s: map<string, Runway>, active: seq<string>, landing: seq<string>, code: string)
    requires code in s && s[code].active && code !in active
    ensures NextState(s, active, landing)[code] == s[code].(active := false, direction := false)
  {
  }

  /**
   * A runway whose membership in the report matches its stored flag keeps its
   * whole entry, including a direction the report may now contradict.
   */
  lemma SteadyRunway(s: map<string, Runway>, active: seq<string>, landing: seq<string>, code: string)
    requires code in s && s[code].active == (code in active)
    ensures NextState(s, active, landing)[code] == s[code]
  {
  }

  /** The step keeps the table's codes, their names and their keying. */
  lemma NextStatePreservesTable(s: map<string, Runway>, active: seq<string>, landing: seq<string>)
    requires MatchesRunwayTable(s)
    ensures MatchesRunwayTable(NextState(s, active, landing))
  {
  }

  /** Applying the same report twice: the second step changes nothing and has nothing to emit. */
  lemma NextStateIdempotent(s: map<string, Runway>, active: seq<string>, landing: seq<string>)
    ensures var next := NextState(s, active, landing);
      NextState(next, active, landing) == next && Flipped(next, active) == {}
  {
    var next := NextState(s, active, landing);
    assert forall code :: code in next ==> next[code].active == (code in active);
    assert Flipped(next, active) == {};
  }

  /** Hence a second update with the same report emits no change. */
  lemma SecondUpdateEmitsNothing(s: map<string, Runway>, active: seq<string>, landing: seq<string>, emitted: seq<Runway>)
    requires var next := NextState(s, active, landing);
      EmitsExactly(emitted, next, NextState(next, active, landing), active)
    ensures emitted == []
  {
    NextStateIdempotent(s, active, landing);
  }

  /** A report whose slots are all empty (the zero value of the response) deactivates every runway. */
  lemma EmptyReportDeactivatesAll(s: map<string, Runway>, id: int)
    requires InactiveIsTakeoff(s)
    ensures var res := RunwayUsageResponse(id, "", "", "", "", "", "");
      var next := NextState(s, AllActive(res), GetActiveLandingRunways(res));
      forall code :: code in next ==> !next[code].active && !next[code].direction
  {
    var res := RunwayUsageResponse(id, "", "", "", "", "", "");
    assert GetActiveTakeoffRunways(res) == [] && GetActiveLandingRunways(res) == [];
  }

  /** The table after one step per report, in order. */
  function Replay(s: map<string, Runway>, reports: seq<RunwayUsageResponse>): (r: map<string, Runway>)
    ensures r.Keys == s.Keys
    decreases |reports|
  {
    if |reports| == 0 then s
    else Replay(NextState(s, AllActive(reports[0]), GetActiveLandingRunways(reports[0])), reports[1..])
  }

  /** The table's active flags are exactly the codes the report lists. */
  ghost predicate FollowsReport(t: map<string, Runway>, res: RunwayUsageResponse)
  {
    forall code :: code in t ==> (t[code].active <==> code in AllActive(res))
  }

  /** After any non-empty run of reports, the active flags are exactly those listed by the last report. */
  lemma {:induction false} ReplayFollowsLastReport(s: map<string, Runway>, reports: seq<RunwayUsageResponse>)
    requires |reports| >= 1
    ensures FollowsReport(Replay(s, reports), reports[|reports| - 1])
    decreases |reports|
  {
    var last := reports[|reports| - 1];
    var rest := reports[1..];
    assert |rest| == 0 || rest[|rest| - 1] == last;
    var next := NextState(s, AllActive(reports[0]), GetActiveLandingRunways(reports[0]));
    assert Replay(s, reports) == Replay(next, rest);
    if |reports| == 1 {
      assert Replay(next, rest) == next;
      NextStateFollowsReport(s, reports[0]);
    } else {
      ReplayFollowsLastReport(next, rest);
    }
  }
}
