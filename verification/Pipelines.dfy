/** Poller, filter and subscriber joined by two unbuffered channels, as a
    state machine over every interleaving, with the context free to end at any
    point. A step names which of the parties moves. */
module Pipelines {
  import opened Outcomes
  import opened Keys
  import opened Secrets
  import opened Policies
  import opened Services
  import opened Streams

  datatype State = State(
    cancelled: bool,
    // the poller: its channel is open, the events of the current poll still
    // to send (the first is on offer), its table once they are sent
    pollerOpen: bool,
    pending: seq<Event>,
    seen: Table,
    // the filter: its channel is open, the event it offers the subscriber
    filterOpen: bool,
    held: Option<Event>,
    got: seq<Event>,
    // history: the polls taken and the events the filter has received
    snapshot: seq<SecretMeta>,
    polls: seq<Poll>,
    handed: seq<Event>)

  datatype Step =
    | Cancel          // the context ends
    | Tick(poll: Poll) // the ticker fires and the listing answers
    | EndWait         // the poller sees the context end between polls
    | Hand            // the poller's send meets the filter's receive
    | AbortSend       // the poller gives up a send
    | Forward         // the filter's send meets the subscriber's receive
    | AbortForward    // the filter gives up a send
    | SourceClosed    // the filter sees its source closed

  function Start(snapshot: seq<SecretMeta>, table: Table): State {
    State(false, true, OpeningEvents(snapshot), table, true, None, [], snapshot, [], [])
  }

  ghost function Init(snapshot: seq<SecretMeta>): State {
    Start(snapshot, Latest(snapshot))
  }

  predicate Enabled(s: State, step: Step) {
    match step
    case Cancel => !s.cancelled
    case Tick(_) => s.pollerOpen && s.pending == []
    case EndWait => s.pollerOpen && s.pending == [] && s.cancelled
    case Hand => s.pollerOpen && s.pending != [] && s.filterOpen && s.held.None?
    case AbortSend => s.pollerOpen && s.pending != [] && s.cancelled
    case Forward => s.filterOpen && s.held.Some?
    case AbortForward => s.filterOpen && s.held.Some? && s.cancelled
    case SourceClosed => s.filterOpen && s.held.None? && !s.pollerOpen
  }

  ghost function Next(s: State, step: Step, keep: Key -> bool): State
    requires Enabled(s, step)
  {
    match step
    case Cancel => s.(cancelled := true)
    case Tick(Listed(ms)) =>
      s.(pending := DiffEvents(s.seen, ms), seen := DiffTable(s.seen, ms), polls := s.polls + [step.poll])
    case Tick(Failed) =>
      if s.cancelled then s.(pollerOpen := false) else s.(polls := s.polls + [Failed])
    case EndWait => s.(pollerOpen := false)
    case Hand =>
      var ev := s.pending[0];
      s.(pending := s.pending[1..], handed := s.handed + [ev], held := if Passes(ev, keep) then Some(ev) else None)
    case AbortSend => s.(pollerOpen := false)
    case Forward => s.(got := s.got + [s.held.value], held := None)
    case AbortForward => s.(filterOpen := false)
    case SourceClosed => s.(filterOpen := false)
  }

  // Taking the steps one by one from s is possible and ends in t.
  ghost predicate Runs(s: State, steps: seq<Step>, keep: Key -> bool, t: State)
    decreases |steps|
  {
    if steps == [] then s == t
    else Enabled(s, steps[0]) && Runs(Next(s, steps[0], keep), steps[1..], keep, t)
  }

  function Offer(s: State): seq<Event> {
    match s.held case None => [] case Some(ev) => [ev]
  }

  ghost function Ideal(s: State): seq<Event> {
    RunEvents(s.snapshot, s.polls)
  }

  // What every interleaving keeps.
  ghost predicate Inv(s: State, keep: Key -> bool) {
    && (s.pollerOpen ==> s.handed + s.pending == Ideal(s) && s.seen == RunTable(s.snapshot, s.polls))
    && s.handed <= Ideal(s)
    && Filtered(s.handed, keep) == s.got + Offer(s)
    && (!s.pollerOpen || !s.filterOpen ==> s.cancelled)
  }

  lemma InitInv(snapshot: seq<SecretMeta>, keep: Key -> bool)
    ensures Inv(Init(snapshot), keep)
  {}

  lemma TickInv(s: State, poll: Poll, keep: Key -> bool)
    requires Inv(s, keep) && Enabled(s, Tick(poll))
    ensures Inv(Next(s, Tick(poll), keep), keep)
  {
    RunExtends(s.snapshot, s.polls, poll);
    assert s.handed + [] == s.handed;
    assert Ideal(s) + [] == Ideal(s);
  }

  lemma HandInv(s: State, keep: Key -> bool)
    requires Inv(s, keep) && Enabled(s, Hand)
    ensures Inv(Next(s, Hand, keep), keep)
  {
    var ev := s.pending[0];
    FilteredExtends(s.handed, ev, keep);
    assert s.handed + [ev] + s.pending[1..] == s.handed + s.pending;
    assert s.got + [] == s.got;
  }

  lemma ForwardInv(s: State, keep: Key -> bool)
    requires Inv(s, keep) && Enabled(s, Forward)
    ensures Inv(Next(s, Forward, keep), keep)
  {
    assert s.got + Offer(s) + [] == s.got + Offer(s);
  }

  lemma StepInv(s: State, step: Step, keep: Key -> bool)
    requires Inv(s, keep) && Enabled(s, step)
    ensures Inv(Next(s, step, keep), keep)
  {
    match step
    case Tick(poll) => TickInv(s, poll, keep);
    case Hand => HandInv(s, keep);
    case Forward => ForwardInv(s, keep);
    case _ =>
  }

  lemma {:induction false} RunInv(s: State, steps: seq<Step>, keep: Key -> bool, t: State)
    requires Inv(s, keep) && Runs(s, steps, keep, t)
    ensures Inv(t, keep) && t.snapshot == s.snapshot && s.polls <= t.polls && s.got <= t.got
    decreases |steps|
  {
    if steps != [] {
      StepInv(s, steps[0], keep);
      RunInv(Next(s, steps[0], keep), steps[1..], keep, t);
    }
  }

  // Safety over all interleavings: what the subscriber has is a prefix of the
  // filtered ideal stream.
  lemma {:induction false} Safety(snapshot: seq<SecretMeta>, steps: seq<Step>, keep: Key -> bool, s: State)
    requires Runs(Init(snapshot), steps, keep, s)
    ensures s.got <= Filtered(RunEvents(snapshot, s.polls), keep)
  {
    InitInv(snapshot, keep);
    RunInv(Init(snapshot), steps, keep, s);
    FilteredGrows(RunEvents(snapshot, s.polls), |s.handed|, keep);
    GotIsPrefix(s, keep);
  }

  // So whatever it has received so far is well shaped.
  lemma {:induction false} SafetyShape(snapshot: seq<SecretMeta>, steps: seq<Step>, keep: Key -> bool, s: State)
    requires Runs(Init(snapshot), steps, keep, s)
    ensures WellShaped(s.got)
  {
    Safety(snapshot, steps, keep, s);
    RunShape(snapshot, s.polls);
    FilterKeepsShape(RunEvents(snapshot, s.polls), keep);
    WellShapedPrefix(s.got, Filtered(RunEvents(snapshot, s.polls), keep));
  }

  // Nothing is lost on the way: what the filter has received and the poller
  // still offers is the ideal stream, the filter is at most one event ahead of
  // the subscriber, and a stage has stopped only if the context ended.
  lemma {:induction false} NothingLost(snapshot: seq<SecretMeta>, steps: seq<Step>, keep: Key -> bool, s: State)
    requires Runs(Init(snapshot), steps, keep, s)
    ensures s.pollerOpen ==> s.handed + s.pending == RunEvents(snapshot, s.polls)
    ensures |s.got| <= |Filtered(s.handed, keep)| <= |s.got| + 1
    ensures !s.cancelled ==> s.pollerOpen && s.filterOpen
  {
    InitInv(snapshot, keep);
    RunInv(Init(snapshot), steps, keep, s);
  }

  lemma GotIsPrefix(s: State, keep: Key -> bool)
    requires Inv(s, keep)
    ensures s.handed == Ideal(s)[..|s.handed|] && s.got <= Filtered(s.handed, keep)
  {}

  // Nothing is in flight between polls.
  predicate Quiet(s: State) {
    s.pollerOpen && s.pending == [] && s.held.None?
  }

  // Whenever nothing is in flight, in any interleaving, the subscriber's
  // replica holds exactly the permitted versions of the last good snapshot.
  lemma QuietReplica(snapshot: seq<SecretMeta>, steps: seq<Step>, keep: Key -> bool, s: State)
    requires Runs(Init(snapshot), steps, keep, s) && Quiet(s)
    ensures Versions(Replay(s.got)) == Versions(Latest(KeepMetas(LastGood(snapshot, s.polls), keep)))
  {
    InitInv(snapshot, keep);
    RunInv(Init(snapshot), steps, keep, s);
    assert s.handed + [] == s.handed && s.got + [] == s.got;
    FilteredReplayMatches(snapshot, s.polls, keep);
  }

  // The same for a subscription through the service: at rest the subscriber
  // holds what Service.List would show, less the keys it may not watch.
  lemma WatcherAgreesWithList(p: Policy, principal: string, ns: Namespace,
                              snapshot: seq<SecretMeta>, steps: seq<Step>, s: State)
    requires Runs(Init(snapshot), steps, WatchFilter(p, principal, ns), s) && Quiet(s)
    ensures var listed := KeepMetas(LastGood(snapshot, s.polls), ListFilter(p, principal, ns));
            Versions(Replay(s.got))
            == Versions(Latest(KeepMetas(listed, (k: Key) => Allowed(p, principal, "watch", k.ns))))
  {
    var keep := WatchFilter(p, principal, ns);
    InitInv(snapshot, keep);
    RunInv(Init(snapshot), steps, keep, s);
    assert s.handed + [] == s.handed && s.got + [] == s.got;
    WatchShowsWhatListShows(p, principal, ns, snapshot, s.polls);
  }

  // ---- delivery while the context lives ----------------------------------

  function InFlight(s: State): nat {
    2 * |s.pending| + |Offer(s)|
  }

  // While the context lives, a subscriber that keeps receiving gets everything:
  // sends alone, at most two for each event, bring the pipeline to rest.
  lemma {:induction false} Drains(s: State, keep: Key -> bool) returns (steps: seq<Step>, t: State)
    requires Inv(s, keep) && !s.cancelled
    ensures Runs(s, steps, keep, t) && Quiet(t) && !t.cancelled && t.polls == s.polls
    ensures |steps| <= InFlight(s) && forall step :: step in steps ==> step == Hand || step == Forward
    decreases InFlight(s)
  {
    if Quiet(s) {
      steps, t := [], s;
    } else {
      var step := if s.held.Some? then Forward else Hand;
      StepInv(s, step, keep);
      var rest;
      rest, t := Drains(Next(s, step, keep), keep);
      steps := [step] + rest;
    }
  }

  lemma {:induction false} RunsOn(s: State, steps: seq<Step>, keep: Key -> bool, t: State, more: seq<Step>, u: State)
    requires Runs(s, steps, keep, t) && Runs(t, more, keep, u)
    ensures Runs(s, steps + more, keep, u)
    decreases |steps|
  {
    if steps == [] {
      assert steps + more == more;
    } else {
      RunsOn(Next(s, steps[0], keep), steps[1..], keep, t, more, u);
      assert (steps + more)[1..] == steps[1..] + more;
    }
  }

  // At rest, a poll can be taken, whatever it answers.
  lemma TakePoll(s: State, steps: seq<Step>, keep: Key -> bool, t: State, poll: Poll) returns (u: State)
    requires Inv(s, keep) && Runs(s, steps, keep, t) && Quiet(t) && !t.cancelled
    ensures Runs(s, steps + [Tick(poll)], keep, u) && Inv(u, keep)
    ensures u.polls == t.polls + [poll] && !u.cancelled
  {
    u := Next(t, Tick(poll), keep);
    OneStep(t, Tick(poll), keep);
    RunsOn(s, steps, keep, t, [Tick(poll)], u);
    RunInv(s, steps, keep, t);
    TickInv(t, poll, keep);
  }

  lemma OneStep(s: State, step: Step, keep: Key -> bool)
    requires Enabled(s, step)
    ensures Runs(s, [step], keep, Next(s, step, keep))
  {
    assert Runs(Next(s, step, keep), [], keep, Next(s, step, keep)) && [step][1..] == [];
  }

  // Whatever the polls answer, in any number and order, the pipeline can take
  // them all, and deliver all there is to say about them, with the context
  // alive throughout.
  lemma {:induction false} EveryRunHappens(snapshot: seq<SecretMeta>, polls: seq<Poll>, keep: Key -> bool)
    returns (steps: seq<Step>, s: State)
    ensures Runs(Init(snapshot), steps, keep, s) && s.polls == polls && Quiet(s) && !s.cancelled
    ensures s.got == Filtered(RunEvents(snapshot, polls), keep) && Cancel !in steps
    decreases |polls|
  {
    InitInv(snapshot, keep);
    var before: seq<Step>, m := [], Init(snapshot);
    if polls != [] {
      var t;
      before, t := EveryRunHappens(snapshot, polls[..|polls| - 1], keep);
      m := TakePoll(Init(snapshot), before, keep, t, polls[|polls| - 1]);
      before := before + [Tick(polls[|polls| - 1])];
    }
    var more;
    more, s := Drains(m, keep);
    RunsOn(Init(snapshot), before, keep, m, more, s);
    steps := before + more;
    AllDelivered(snapshot, steps, keep, s);
  }

  // At rest the subscriber has the whole filtered stream.
  lemma AllDelivered(snapshot: seq<SecretMeta>, steps: seq<Step>, keep: Key -> bool, s: State)
    requires Runs(Init(snapshot), steps, keep, s) && Quiet(s)
    ensures s.got == Filtered(RunEvents(snapshot, s.polls), keep)
  {
    InitInv(snapshot, keep);
    RunInv(Init(snapshot), steps, keep, s);
    assert s.handed + [] == s.handed && s.got + [] == s.got;
  }

  // So the replica can follow the store to every later listing.
  lemma ReplicaReaches(snapshot: seq<SecretMeta>, polls: seq<Poll>, keep: Key -> bool)
    returns (steps: seq<Step>, s: State)
    ensures Runs(Init(snapshot), steps, keep, s) && s.polls == polls && Quiet(s) && !s.cancelled
    ensures Versions(Replay(s.got)) == Versions(Latest(KeepMetas(LastGood(snapshot, polls), keep)))
  {
    steps, s := EveryRunHappens(snapshot, polls, keep);
    QuietReplica(snapshot, steps, keep, s);
  }

  // ---- shutdown ----------------------------------------------------------

  // The moves left once the context has ended, provided listing then fails.
  predicate AfterEnd(step: Step) {
    !step.Cancel? && (step.Tick? ==> step.poll.Failed?)
  }

  function Remaining(s: State): nat {
    (if s.pollerOpen then 1 + 2 * |s.pending| else 0) + (if s.filterOpen then 1 + |Offer(s)| else 0)
  }

  // Moves that wait for nobody: not for the subscriber, not for a listing.
  predicate Unaided(step: Step) {
    step.EndWait? || step.AbortSend? || step.AbortForward? || step.SourceClosed?
  }

  lemma EndedStepShrinks(s: State, step: Step, keep: Key -> bool)
    requires s.cancelled && Enabled(s, step) && AfterEnd(step)
    ensures var t := Next(s, step, keep); t.cancelled && Remaining(t) < Remaining(s)
  {}

  // The context's end takes no move away: a select may still pick a send or
  // a tick that is ready.
  lemma EndForbidsNothing(s: State, step: Step)
    requires Enabled(s, step) && !step.Cancel?
    ensures Enabled(s.(cancelled := true), step)
  {}

  // Neither goroutine is ever stuck on a send.
  lemma EndedNeverStuck(s: State) returns (step: Step)
    requires s.cancelled && (s.pollerOpen || s.filterOpen)
    ensures Enabled(s, step) && Unaided(step)
    ensures s.pollerOpen ==> step.EndWait? || step.AbortSend?
  {
    step := if s.pollerOpen then (if s.pending == [] then EndWait else AbortSend)
            else if s.held.Some? then AbortForward else SourceClosed;
  }

  // Once the context ends, every run is bounded, whoever moves; and a run
  // that cannot go on has closed both channels.
  lemma {:induction false} ShutdownTerminates(s: State, steps: seq<Step>, keep: Key -> bool, t: State)
    requires s.cancelled && Runs(s, steps, keep, t) && forall step :: step in steps ==> AfterEnd(step)
    ensures |steps| + Remaining(t) <= Remaining(s)
    ensures (forall step :: Enabled(t, step) ==> !AfterEnd(step)) ==> !t.pollerOpen && !t.filterOpen
    decreases |steps|
  {
    if steps == [] {
      if t.pollerOpen || t.filterOpen {
        var step := EndedNeverStuck(t);
        assert AfterEnd(step);
      }
    } else {
      EndedStepShrinks(s, steps[0], keep);
      ShutdownTerminates(Next(s, steps[0], keep), steps[1..], keep, t);
    }
  }

  // And every ended pipeline can come to that by itself: moves that wait for
  // nobody close both channels and deliver nothing more.
  lemma {:induction false} ShutdownHappens(s: State, keep: Key -> bool) returns (steps: seq<Step>, t: State)
    requires s.cancelled
    ensures Runs(s, steps, keep, t) && !t.pollerOpen && !t.filterOpen && t.got == s.got
    ensures forall step :: step in steps ==> Unaided(step)
    decreases Remaining(s)
  {
    if !s.pollerOpen && !s.filterOpen {
      steps, t := [], s;
    } else {
      var step := EndedNeverStuck(s);
      EndedStepShrinks(s, step, keep);
      var rest;
      rest, t := ShutdownHappens(Next(s, step, keep), keep);
      steps := [step] + rest;
    }
  }

  // A run can be cut where the subscriber has any number of its events.
  lemma {:induction false} CutRun(s: State, steps: seq<Step>, keep: Key -> bool, t: State, n: nat)
    returns (first: seq<Step>, u: State)
    requires Inv(s, keep) && Runs(s, steps, keep, t) && |s.got| <= n <= |t.got| && Cancel !in steps && !s.cancelled
    ensures Runs(s, first, keep, u) && |u.got| == n && u.got <= t.got && !u.cancelled
    decreases |steps|
  {
    if |s.got| == n {
      first, u := [], s;
      RunInv(s, steps, keep, t);
    } else {
      assert steps[0] in steps && forall step :: step in steps[1..] ==> step in steps;
      StepInv(s, steps[0], keep);
      first, u := CutRun(Next(s, steps[0], keep), steps[1..], keep, t, n);
      first := [steps[0]] + first;
    }
  }

  // Safety says as much as can be said: every prefix of the filtered ideal
  // stream is all that some run delivers before both channels are closed.
  lemma {:induction false} EveryPrefixHappens(snapshot: seq<SecretMeta>, polls: seq<Poll>, keep: Key -> bool,
                                              got: seq<Event>)
    returns (steps: seq<Step>, s: State)
    requires got <= Filtered(RunEvents(snapshot, polls), keep)
    ensures Runs(Init(snapshot), steps, keep, s) && s.got == got && !s.pollerOpen && !s.filterOpen
  {
    var all, t := EveryRunHappens(snapshot, polls, keep);
    InitInv(snapshot, keep);
    var first, u := CutRun(Init(snapshot), all, keep, t, |got|);
    var ended := Next(u, Cancel, keep);
    OneStep(u, Cancel, keep);
    RunsOn(Init(snapshot), first, keep, u, [Cancel], ended);
    var rest;
    rest, s := ShutdownHappens(ended, keep);
    RunsOn(Init(snapshot), first + [Cancel], keep, ended, rest, s);
    steps := first + [Cancel] + rest;
  }
}
