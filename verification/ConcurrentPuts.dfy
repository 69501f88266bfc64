/** Any number of writers putting to one key at once, service call by service
    call, in every order. */
module ConcurrentPuts {
  import opened SecretManager
  import opened GcpStore

  // Where a Put stands: the service call it makes next, or its outcome.
  datatype Stage =
    | Getting
    | Creating
    | Refetching
    | Adding(created: int)
    | Done(version: nat, created: int)
    | Failed

  datatype Writer = Writer(value: Bytes, stage: Stage)

  // `creates` counts the CreateSecret calls that took effect.
  datatype State = State(project: Project, writers: seq<Writer>, creates: nat)

  datatype Step = Move(writer: nat) | Remove

  predicate Active(w: Writer) {
    !w.stage.Done? && !w.stage.Failed?
  }

  predicate Enabled(s: State, step: Step) {
    step.Move? ==> step.writer < |s.writers| && Active(s.writers[step.writer])
  }

  // One service call by a writer, on the secret `id`.
  function Call(pr: Project, id: string, w: Writer): (r: (Project, Stage)) {
    match w.stage
    case Getting => (pr, if id in pr.secrets then Adding(pr.secrets[id].created) else Creating)
    case Creating =>
      if id in pr.secrets then (pr, Refetching) else (Prepared(pr, id), Adding(pr.now + 1))
    case Refetching => (pr, if id in pr.secrets then Adding(pr.secrets[id].created) else Failed)
    case Adding(created) =>
      if id in pr.secrets then (Stored(pr, id, w.value), Done(|pr.secrets[id].versions| + 1, created))
      else (pr, Failed)
    case _ => (pr, w.stage)
  }

  function Next(s: State, id: string, step: Step): State
    requires Enabled(s, step)
  {
    match step
    case Remove => s.(project := s.project.(secrets := s.project.secrets - {id}))
    case Move(i) =>
      var w := s.writers[i];
      var (pr, stage) := Call(s.project, id, w);
      State(pr, s.writers[i := w.(stage := stage)],
            s.creates + if w.stage == Creating && id !in s.project.secrets then 1 else 0)
  }

  predicate Runs(s: State, id: string, steps: seq<Step>, t: State)
    decreases |steps|
  {
    if steps == [] then s == t
    else Enabled(s, steps[0]) && Runs(Next(s, id, steps[0]), id, steps[1..], t)
  }

  // Writers about to start.
  predicate Fresh(s: State) {
    s.creates == 0 && forall w :: w in s.writers ==> w.stage == Getting
  }

  // ---- what every interleaving keeps -------------------------------------

  predicate WriterInv(base: seq<Bytes>, pr: Project, id: string, w: Writer) {
    match w.stage
    case Getting => true
    case Creating => true
    case Refetching => id in pr.secrets
    case Adding(created) => id in pr.secrets && pr.secrets[id].created == created
    case Done(n, created) =>
      && id in pr.secrets && pr.secrets[id].created == created
      && |base| < n <= |pr.secrets[id].versions| && pr.secrets[id].versions[n - 1] == w.value
    case Failed => false
  }

  ghost predicate Inv(first: Project, s: State, id: string) {
    var base, now := ValuesAt(first, id), ValuesAt(s.project, id);
    && base <= now
    && (forall i :: 0 <= i < |s.writers| ==> WriterInv(base, s.project, id, s.writers[i]))
    // versions added belong one to one to the writers that are done
    && (forall i, j :: 0 <= i < j < |s.writers| && s.writers[i].stage.Done? && s.writers[j].stage.Done?
          ==> s.writers[i].stage.version != s.writers[j].stage.version)
    && (forall n :: |base| < n <= |now| ==> Claimed(s.writers, n))
    && |now| == |base| + DoneCount(s.writers)
    && (id in first.secrets ==> id in s.project.secrets && s.creates == 0
                                && s.project.secrets[id].created == first.secrets[id].created)
    && (id !in first.secrets ==> s.creates == if id in s.project.secrets then 1 else 0)
  }

  predicate Wrote(w: Writer, n: int) {
    w.stage.Done? && w.stage.version == n
  }

  function DoneCount(ws: seq<Writer>): nat {
    if ws == [] then 0 else (if ws[0].stage.Done? then 1 else 0) + DoneCount(ws[1..])
  }

  lemma {:induction false} DoneCountMoves(ws: seq<Writer>, i: nat, w: Writer)
    requires i < |ws| && !ws[i].stage.Done?
    ensures DoneCount(ws[i := w]) == DoneCount(ws) + if w.stage.Done? then 1 else 0
  {
    if i > 0 {
      assert ws[i := w][1..] == ws[1..][i - 1 := w];
      DoneCountMoves(ws[1..], i - 1, w);
    } else {
      assert ws[0 := w][1..] == ws[1..];
    }
  }

  lemma {:induction false} DoneCountBounds(ws: seq<Writer>)
    ensures (forall w :: w in ws ==> w.stage.Done?) ==> DoneCount(ws) == |ws|
    ensures (forall w :: w in ws ==> !w.stage.Done?) ==> DoneCount(ws) == 0
  {
    if ws != [] {
      DoneCountBounds(ws[1..]);
      assert ws == [ws[0]] + ws[1..];
    }
  }

  ghost predicate Claimed(ws: seq<Writer>, n: int) {
    exists i :: 0 <= i < |ws| && Wrote(ws[i], n)
  }

  lemma OthersKept(base: seq<Bytes>, s: State, id: string, i: nat, j: nat)
    requires i < |s.writers| && j < |s.writers| && WriterInv(base, s.project, id, s.writers[j])
    ensures WriterInv(base, Call(s.project, id, s.writers[i]).0, id, s.writers[j])
  {}

  lemma MoverKept(base: seq<Bytes>, pr: Project, id: string, w: Writer)
    requires WriterInv(base, pr, id, w) && base <= ValuesAt(pr, id)
    ensures var (now, stage) := Call(pr, id, w); WriterInv(base, now, id, w.(stage := stage))
  {}

  // Only adding a version changes what is stored, and then by one value.
  lemma CallWrites(pr: Project, id: string, w: Writer)
    requires id in pr.secrets || !w.stage.Adding?
    ensures var (now, stage) := Call(pr, id, w);
            if w.stage.Adding?
            then ValuesAt(now, id) == ValuesAt(pr, id) + [w.value]
                 && stage.Done? && stage.version == |ValuesAt(now, id)|
            else ValuesAt(now, id) == ValuesAt(pr, id) && (stage.Done? ==> stage == w.stage)
  {}

  lemma StepInv(first: Project, s: State, id: string, i: nat)
    requires Inv(first, s, id) && Enabled(s, Move(i))
    ensures Inv(first, Next(s, id, Move(i)), id)
  {
    var base, now, w := ValuesAt(first, id), ValuesAt(s.project, id), s.writers[i];
    var t := Next(s, id, Move(i));
    assert WriterInv(base, s.project, id, w);
    MoverKept(base, s.project, id, w);
    CallWrites(s.project, id, w);
    DoneCountMoves(s.writers, i, t.writers[i]);
    forall j | 0 <= j < |t.writers| ensures WriterInv(base, t.project, id, t.writers[j]) {
      OthersKept(base, s, id, i, j);
    }
    forall n | |base| < n <= |ValuesAt(t.project, id)|
      ensures Claimed(t.writers, n)
    {
      if n <= |now| {
        assert Claimed(s.writers, n);
        var j :| 0 <= j < |s.writers| && Wrote(s.writers[j], n);
        assert Wrote(t.writers[j], n);
      } else {
        assert Wrote(t.writers[i], n);
      }
    }
  }

  lemma FreshInv(s: State, id: string)
    requires Fresh(s)
    ensures Inv(s.project, s, id)
  {
    DoneCountBounds(s.writers);
  }

  lemma {:induction false} RunInv(first: Project, s: State, id: string, steps: seq<Step>, t: State)
    requires Inv(first, s, id) && Runs(s, id, steps, t) && Remove !in steps
    ensures Inv(first, t, id) && |t.writers| == |s.writers|
    ensures forall i :: 0 <= i < |s.writers| ==> t.writers[i].value == s.writers[i].value
    decreases |steps|
  {
    if steps != [] {
      assert steps[0] in steps;
      StepInv(first, s, id, steps[0].writer);
      RunInv(first, Next(s, id, steps[0]), id, steps[1..], t);
    }
  }

  // In every interleaving without a Delete: no Put fails; a finished Put's
  // version number holds its value and is nobody else's; all finished Puts
  // report the secret's one creation time; and CreateSecret has taken effect
  // exactly once if the secret was absent, else never.
  lemma PutsAreSafe(s: State, id: string, steps: seq<Step>, t: State)
    requires Fresh(s) && Runs(s, id, steps, t) && Remove !in steps
    ensures |t.writers| == |s.writers|
    ensures forall i :: 0 <= i < |t.writers| ==> !t.writers[i].stage.Failed?
    ensures forall i :: 0 <= i < |t.writers| && t.writers[i].stage.Done? ==>
              var w := t.writers[i];
              && id in t.project.secrets && t.project.secrets[id].created == w.stage.created
              && 1 <= w.stage.version <= |t.project.secrets[id].versions|
              && t.project.secrets[id].versions[w.stage.version - 1] == s.writers[i].value
    ensures forall i, j :: 0 <= i < j < |t.writers| && t.writers[i].stage.Done? && t.writers[j].stage.Done?
              ==> t.writers[i].stage.version != t.writers[j].stage.version
                  && t.writers[i].stage.created == t.writers[j].stage.created
    ensures t.creates == if id !in s.project.secrets && id in t.project.secrets then 1 else 0
  {
    FreshInv(s, id);
    RunInv(s.project, s, id, steps, t);
    forall i | 0 <= i < |t.writers| && t.writers[i].stage.Done?
      ensures id in t.project.secrets && t.project.secrets[id].created == t.writers[i].stage.created
    {
      assert WriterInv(ValuesAt(s.project, id), t.project, id, t.writers[i]);
    }
  }

  // ---- every Put finishes ------------------------------------------------

  function CallsLeft(w: Writer): nat {
    match w.stage
    case Getting => 4
    case Creating => 3
    case Refetching => 2
    case Adding(_) => 1
    case _ => 0
  }

  function AllCallsLeft(ws: seq<Writer>): nat {
    if ws == [] then 0 else CallsLeft(ws[0]) + AllCallsLeft(ws[1..])
  }

  lemma {:induction false} OneCallFewer(ws: seq<Writer>, i: nat, w: Writer)
    requires i < |ws| && CallsLeft(w) < CallsLeft(ws[i])
    ensures AllCallsLeft(ws[i := w]) < AllCallsLeft(ws)
  {
    if i > 0 {
      assert ws[i := w][1..] == ws[1..][i - 1 := w];
      OneCallFewer(ws[1..], i - 1, w);
    }
  }

  lemma {:induction false} CallsBounded(ws: seq<Writer>)
    ensures AllCallsLeft(ws) <= 4 * |ws|
  {
    if ws != [] {
      CallsBounded(ws[1..]);
    }
  }

  lemma {:induction false} RunsAreBounded(s: State, id: string, steps: seq<Step>, t: State)
    requires Runs(s, id, steps, t) && Remove !in steps
    ensures |steps| + AllCallsLeft(t.writers) <= AllCallsLeft(s.writers)
    decreases |steps|
  {
    if steps != [] {
      assert steps[0] in steps;
      var i := steps[0].writer;
      var u := Next(s, id, steps[0]);
      OneCallFewer(s.writers, i, u.writers[i]);
      RunsAreBounded(u, id, steps[1..], t);
    }
  }

  // At most four calls a writer; when no writer can move, all have succeeded
  // and the versions added are exactly theirs.
  lemma PutsAllSucceed(s: State, id: string, steps: seq<Step>, t: State)
    requires Fresh(s) && Runs(s, id, steps, t) && Remove !in steps
    ensures |steps| <= 4 * |s.writers|
    ensures (forall step: Step :: Enabled(t, step) ==> step.Remove?) ==>
              && (forall i :: 0 <= i < |t.writers| ==> t.writers[i].stage.Done?)
              && (forall n :: |ValuesAt(s.project, id)| < n <= |ValuesAt(t.project, id)|
                    ==> Claimed(t.writers, n))
              && ValuesAt(s.project, id) <= ValuesAt(t.project, id)
              && |ValuesAt(t.project, id)| == |ValuesAt(s.project, id)| + |s.writers|
  {
    RunsAreBounded(s, id, steps, t);
    CallsBounded(s.writers);
    FreshInv(s, id);
    RunInv(s.project, s, id, steps, t);
    if forall step: Step :: Enabled(t, step) ==> step.Remove? {
      forall i | 0 <= i < |t.writers| ensures t.writers[i].stage.Done? {
        InactiveIsDone(ValuesAt(s.project, id), t, id, i);
      }
      DoneCountBounds(t.writers);
    }
  }

  lemma InactiveIsDone(base: seq<Bytes>, t: State, id: string, i: nat)
    requires i < |t.writers| && WriterInv(base, t.project, id, t.writers[i]) && !Enabled(t, Move(i))
    ensures t.writers[i].stage.Done?
  {}

  // A Delete in between can fail a Put.
  lemma DeleteMayFailPut(pr: Project, id: string, value: Bytes) returns (s: State, steps: seq<Step>, t: State)
    requires id in pr.secrets
    ensures Fresh(s) && s.project == pr && Runs(s, id, steps, t) && t.writers == [Writer(value, Failed)]
  {
    s := State(pr, [Writer(value, Getting)], 0);
    var s1 := Next(s, id, Move(0));
    var s2 := Next(s1, id, Remove);
    t := Next(s2, id, Move(0));
    steps := [Move(0), Remove, Move(0)];
    assert steps[1..] == [Remove, Move(0)] && steps[1..][1..] == [Move(0)] && steps[1..][1..][1..] == [];
    assert Runs(s2, id, [Move(0)], t);
    assert Runs(s1, id, [Remove, Move(0)], t);
  }

  // A writer alone performs the atomic addition that Store.Put promises.
  lemma SoloPut(pr: Project, id: string, value: Bytes) returns (steps: seq<Step>, t: State)
    ensures Runs(State(pr, [Writer(value, Getting)], 0), id, steps, t) && Remove !in steps
    ensures t.project.secrets == Stored(pr, id, value).secrets
    ensures t.writers == [Writer(value, Done(|ValuesAt(t.project, id)|, t.project.secrets[id].created))]
  {
    var s0 := State(pr, [Writer(value, Getting)], 0);
    var s1 := Next(s0, id, Move(0));
    var s2 := Next(s1, id, Move(0));
    if id in pr.secrets {
      steps, t := [Move(0), Move(0)], s2;
      assert steps[1..] == [Move(0)] && steps[1..][1..] == [];
      assert Runs(s1, id, [Move(0)], t);
    } else {
      steps, t := [Move(0), Move(0), Move(0)], Next(s2, id, Move(0));
      assert steps[1..] == [Move(0), Move(0)] && steps[1..][1..] == [Move(0)] && steps[1..][1..][1..] == [];
      assert Runs(s2, id, [Move(0)], t);
      assert Runs(s1, id, [Move(0), Move(0)], t);
      assert [] + [value] == [value];
    }
  }
}
