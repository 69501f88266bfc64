/** Puts and Deletes of one key, service call by service call: which Puts a
    Delete makes fail, and what the Puts that succeed still say. */
module PutsAndDeletes {
  import opened SecretManager
  import opened GcpStore
  import opened ConcurrentPuts

  predicate Relying(stage: Stage) {
    stage.Adding? || stage.Refetching?
  }

  // A schedule of calls on the secret `id`, with every state it goes through.
  datatype Schedule = Schedule(id: string, states: seq<State>, steps: seq<Step>) {
    ghost predicate Valid() {
      && |states| == |steps| + 1
      && Fresh(states[0])
      && forall k :: 0 <= k < |steps| ==>
           Enabled(states[k], steps[k]) && states[k + 1] == Next(states[k], id, steps[k])
    }

    ghost predicate Present(k: nat)
      requires k < |states|
    {
      id in states[k].project.secrets
    }

    // A CreateSecret that takes effect.
    ghost predicate Creates(k: nat)
      requires k < |steps| < |states|
    {
      && !Present(k) && steps[k].Move?
      && steps[k].writer < |states[k].writers| && states[k].writers[steps[k].writer].stage == Creating
    }

    // An AddSecretVersion that takes effect.
    ghost predicate Adds(k: nat)
      requires k < |steps| < |states|
    {
      && Present(k) && steps[k].Move?
      && steps[k].writer < |states[k].writers| && states[k].writers[steps[k].writer].stage.Adding?
    }

    // Some Delete among the steps from `a` up to `b`.
    ghost predicate Removed(a: nat, b: nat) {
      exists r :: a <= r < b && r < |steps| && steps[r].Remove?
    }

    // ... after which nothing is created again before `b`.
    ghost predicate Cleared(a: nat, b: nat)
      requires b <= |steps| < |states|
    {
      exists r :: a <= r < b && ClearedAt(r, b)
    }

    ghost predicate ClearedAt(r: nat, b: nat)
      requires r < b <= |steps| < |states|
    {
      steps[r].Remove? && forall c :: r < c < b ==> !Creates(c)
    }

    // Steps `a` and `b` are successive calls of one writer.
    ghost predicate Successive(i: nat, a: nat, b: nat) {
      && a < b < |steps| && steps[a] == Move(i) && steps[b] == Move(i)
      && forall c :: a < c < b ==> steps[c] != Move(i)
    }

    // The writer learns from call `a` that the secret is there (found, made,
    // or already existing) and relies on it in its next call.
    ghost predicate Relies(i: nat, a: nat, b: nat) {
      && Successive(i, a, b) && |steps| < |states| && i < |states[a + 1].writers|
      && Relying(states[a + 1].writers[i].stage)
    }

    ghost predicate CutOff(i: nat, a: nat, b: nat) {
      Relies(i, a, b) && Cleared(a + 1, b)
    }
  }

  // Schedules are the runs of the writers, seen from every state.
  lemma {:induction false} RunsHaveSchedules(s: State, id: string, steps: seq<Step>, t: State) returns (r: Schedule)
    requires Fresh(s) && Runs(s, id, steps, t)
    ensures r.Valid() && r.id == id && r.steps == steps && r.states[0] == s && r.states[|steps|] == t
  {
    var states := StatesOf(s, id, steps, t);
    r := Schedule(id, states, steps);
  }

  lemma {:induction false} StatesOf(s: State, id: string, steps: seq<Step>, t: State) returns (states: seq<State>)
    requires Runs(s, id, steps, t)
    ensures |states| == |steps| + 1 && states[0] == s && states[|steps|] == t
    ensures forall k :: 0 <= k < |steps| ==>
              Enabled(states[k], steps[k]) && states[k + 1] == Next(states[k], id, steps[k])
    decreases |steps|
  {
    if steps == [] {
      states := [s];
    } else {
      var rest := StatesOf(Next(s, id, steps[0]), id, steps[1..], t);
      states := [s] + rest;
      forall k | 0 <= k < |steps|
        ensures Enabled(states[k], steps[k]) && states[k + 1] == Next(states[k], id, steps[k])
      {
        if k > 0 {
          assert steps[k] == steps[1..][k - 1] && states[k] == rest[k - 1];
        }
      }
    }
  }

  lemma {:induction false} SameWriters(r: Schedule, k: nat)
    requires r.Valid() && k < |r.states|
    ensures |r.states[k].writers| == |r.states[0].writers|
    ensures forall i :: 0 <= i < |r.states[0].writers| ==>
              r.states[k].writers[i].value == r.states[0].writers[i].value
  {
    if k > 0 {
      SameWriters(r, k - 1);
      assert r.states[k] == Next(r.states[k - 1], r.id, r.steps[k - 1]);
    }
  }

  // ---- when the secret is there ------------------------------------------

  lemma PresentStep(r: Schedule, k: nat)
    requires r.Valid() && k < |r.steps|
    ensures r.Present(k + 1) <==> r.Creates(k) || (r.Present(k) && !r.steps[k].Remove?)
  {
    assert r.states[k + 1] == Next(r.states[k], r.id, r.steps[k]);
  }

  lemma ClearedStep(r: Schedule, a: nat, b: nat)
    requires r.Valid() && a < b <= |r.steps|
    ensures r.Cleared(a, b) <==> r.steps[b - 1].Remove? || (r.Cleared(a, b - 1) && !r.Creates(b - 1))
  {
    if r.Cleared(a, b - 1) && !r.Creates(b - 1) {
      var c :| a <= c < b - 1 && r.ClearedAt(c, b - 1);
      assert r.ClearedAt(c, b);
    }
    if r.steps[b - 1].Remove? {
      assert r.ClearedAt(b - 1, b);
    }
    if r.Cleared(a, b) {
      var c :| a <= c < b && r.ClearedAt(c, b);
      assert c < b - 1 ==> r.ClearedAt(c, b - 1);
    }
  }

  lemma {:induction false} AbsentIffCleared(r: Schedule, a: nat, b: nat)
    requires r.Valid() && a <= b <= |r.steps| && r.Present(a)
    ensures !r.Present(b) <==> r.Cleared(a, b)
  {
    if a < b {
      AbsentIffCleared(r, a, b - 1);
      PresentStep(r, b - 1);
      ClearedStep(r, a, b);
    }
  }

  ghost function Count(b: bool): nat {
    if b then 1 else 0
  }

  // The Deletes before step `k` that found a secret.
  ghost function Deletes(r: Schedule, k: nat): nat
    requires r.Valid() && k < |r.states|
  {
    if k == 0 then 0 else Deletes(r, k - 1) + Count(r.Present(k - 1) && r.steps[k - 1].Remove?)
  }

  // What is created is deleted or still there.
  lemma {:induction false} CreatesBalanceDeletes(r: Schedule, k: nat)
    requires r.Valid() && k < |r.states|
    ensures r.states[k].creates + Count(r.Present(0)) == Deletes(r, k) + Count(r.Present(k))
  {
    if k > 0 {
      CreatesBalanceDeletes(r, k - 1);
      PresentStep(r, k - 1);
      assert r.states[k] == Next(r.states[k - 1], r.id, r.steps[k - 1]);
    }
  }

  // ---- which Puts fail ---------------------------------------------------

  // Only its own calls move a writer on.
  lemma {:induction false} Waits(r: Schedule, i: nat, a: nat, b: nat)
    requires r.Valid() && a <= b < |r.states| && i < |r.states[0].writers|
    requires forall c :: a <= c < b ==> r.steps[c] != Move(i)
    ensures |r.states[a].writers| == |r.states[b].writers| == |r.states[0].writers|
    ensures r.states[b].writers[i] == r.states[a].writers[i]
  {
    SameWriters(r, a);
    SameWriters(r, b);
    if a < b {
      Waits(r, i, a, b - 1);
      assert r.states[b] == Next(r.states[b - 1], r.id, r.steps[b - 1]);
    }
  }

  // A writer that has left its first stage did so by a call of its own.
  lemma {:induction false} LastCall(r: Schedule, i: nat, k: nat) returns (a: nat)
    requires r.Valid() && k < |r.states| && i < |r.states[k].writers| && r.states[k].writers[i].stage != Getting
    ensures a < k && r.steps[a] == Move(i) && forall c :: a < c < k ==> r.steps[c] != Move(i)
    ensures i < |r.states[0].writers|
  {
    SameWriters(r, k);
    assert r.states[k].writers[i] in r.states[k].writers;
    if r.steps[k - 1] == Move(i) {
      a := k - 1;
    } else {
      SameWriters(r, k - 1);
      assert r.states[k] == Next(r.states[k - 1], r.id, r.steps[k - 1]);
      a := LastCall(r, i, k - 1);
    }
  }

  // A call after which its writer relies on the secret has seen it.
  lemma RelyingSawIt(r: Schedule, i: nat, a: nat)
    requires r.Valid() && a < |r.steps| && r.steps[a] == Move(i)
    requires i < |r.states[a + 1].writers| && Relying(r.states[a + 1].writers[i].stage)
    ensures r.Present(a + 1)
    ensures r.states[a + 1].writers[i].stage.Adding? ==>
              r.states[a + 1].writers[i].stage.created == r.states[a + 1].project.secrets[r.id].created
  {
    assert r.states[a + 1] == Next(r.states[a], r.id, r.steps[a]);
  }

  lemma {:induction false} EndedStays(r: Schedule, i: nat, k: nat, n: nat)
    requires r.Valid() && k <= n < |r.states| && i < |r.states[k].writers| && !Active(r.states[k].writers[i])
    ensures i < |r.states[n].writers| && r.states[n].writers[i] == r.states[k].writers[i]
  {
    if k < n {
      EndedStays(r, i, k, n - 1);
      assert Enabled(r.states[n - 1], r.steps[n - 1]);
      assert r.states[n] == Next(r.states[n - 1], r.id, r.steps[n - 1]);
    }
  }

  // A call fails exactly when its writer relies on a secret that is gone.
  lemma CallFails(r: Schedule, i: nat, b: nat)
    requires r.Valid() && b < |r.steps| && r.steps[b] == Move(i)
    ensures i < |r.states[b].writers| && |r.states[b].writers| == |r.states[b + 1].writers|
    ensures r.states[b + 1].writers[i].stage.Failed? <==> Relying(r.states[b].writers[i].stage) && !r.Present(b)
  {
    assert Enabled(r.states[b], r.steps[b]);
    assert r.states[b + 1] == Next(r.states[b], r.id, r.steps[b]);
  }

  // Whatever the schedule, a Put has failed exactly if between two successive
  // calls of it, the first of which showed it the secret, a Delete came after
  // which nobody created the secret again.
  lemma {:induction false} FailsIffCutOff(r: Schedule, i: nat)
    requires r.Valid() && i < |r.states[0].writers|
    ensures |r.states[|r.steps|].writers| == |r.states[0].writers|
    ensures r.states[|r.steps|].writers[i].stage.Failed? <==> exists a, b :: r.CutOff(i, a, b)
  {
    var n := |r.steps|;
    SameWriters(r, n);
    if r.states[n].writers[i].stage.Failed? {
      var a, b := FailureIsCutOff(r, i);
    }
    if a, b :| r.CutOff(i, a, b) {
      CutOffFails(r, i, a, b);
    }
  }

  lemma FailureIsCutOff(r: Schedule, i: nat) returns (a: nat, b: nat)
    requires r.Valid() && i < |r.states[|r.steps|].writers| && r.states[|r.steps|].writers[i].stage.Failed?
    ensures r.CutOff(i, a, b)
  {
    b := LastCall(r, i, |r.steps|);
    Waits(r, i, b + 1, |r.steps|);
    CallFails(r, i, b);
    a := LastCall(r, i, b);
    Waits(r, i, a + 1, b);
    RelyingSawIt(r, i, a);
    AbsentIffCleared(r, a + 1, b);
  }

  lemma CutOffFails(r: Schedule, i: nat, a: nat, b: nat)
    requires r.Valid() && r.CutOff(i, a, b)
    ensures i < |r.states[|r.steps|].writers| && r.states[|r.steps|].writers[i].stage.Failed?
  {
    SameWriters(r, a + 1);
    Waits(r, i, a + 1, b);
    RelyingSawIt(r, i, a);
    AbsentIffCleared(r, a + 1, b);
    CallFails(r, i, b);
    EndedStays(r, i, b + 1, |r.steps|);
  }

  // ---- what finished Puts report -----------------------------------------

  // The Put of writer `i` added its version at step `p`, having learnt the
  // creation time from step `g`.
  ghost predicate Landed(r: Schedule, i: nat, g: nat, p: nat)
    requires r.Valid()
  {
    r.Relies(i, g, p) && r.Adds(p)
  }

  lemma {:induction false} DoneHasLanded(r: Schedule, i: nat) returns (g: nat, p: nat)
    requires r.Valid() && i < |r.states[|r.steps|].writers| && r.states[|r.steps|].writers[i].stage.Done?
    ensures Landed(r, i, g, p)
  {
    p := LastCall(r, i, |r.steps|);
    Waits(r, i, p + 1, |r.steps|);
    assert Enabled(r.states[p], r.steps[p]);
    assert r.states[p + 1] == Next(r.states[p], r.id, r.steps[p]);
    g := LastCall(r, i, p);
    Waits(r, i, g + 1, p);
  }

  // The versions added since the last Delete, or since the beginning on top
  // of those already there.
  ghost function Since(r: Schedule, k: nat): nat
    requires r.Valid() && k < |r.states|
  {
    if k == 0 then |ValuesAt(r.states[0].project, r.id)|
    else if r.steps[k - 1].Remove? then 0
    else Since(r, k - 1) + Count(r.Adds(k - 1))
  }

  lemma {:induction false} StoredSince(r: Schedule, k: nat)
    requires r.Valid() && k < |r.states|
    ensures |ValuesAt(r.states[k].project, r.id)| == Since(r, k)
  {
    if k > 0 {
      StoredSince(r, k - 1);
      assert r.states[k] == Next(r.states[k - 1], r.id, r.steps[k - 1]);
    }
  }

  // What a finished Put reports.
  lemma {:induction false} LandedReports(r: Schedule, i: nat, g: nat, p: nat)
    requires r.Valid() && Landed(r, i, g, p)
    ensures i < |r.states[|r.steps|].writers| && r.Present(g + 1)
    ensures r.states[|r.steps|].writers[i].stage
            == Done(Since(r, p) + 1, r.states[g + 1].project.secrets[r.id].created)
    ensures r.Present(p + 1) && |ValuesAt(r.states[p + 1].project, r.id)| == Since(r, p) + 1
    ensures i < |r.states[0].writers|
    ensures ValuesAt(r.states[p + 1].project, r.id)[Since(r, p)] == r.states[0].writers[i].value
  {
    SameWriters(r, g + 1);
    SameWriters(r, p);
    Waits(r, i, g + 1, p);
    RelyingSawIt(r, i, g);
    StoredSince(r, p);
    assert r.states[p + 1] == Next(r.states[p], r.id, r.steps[p]);
    EndedStays(r, i, p + 1, |r.steps|);
  }

  lemma VersionReported(r: Schedule, i: nat, g: nat, p: nat)
    requires r.Valid() && Landed(r, i, g, p)
    ensures i < |r.states[|r.steps|].writers| && r.states[|r.steps|].writers[i].stage.Done?
    ensures r.states[|r.steps|].writers[i].stage.version == Since(r, p) + 1
  {
    LandedReports(r, i, g, p);
  }

  lemma LandingCounts(r: Schedule, i: nat, g: nat, p: nat)
    requires r.Valid() && Landed(r, i, g, p)
    ensures Since(r, p + 1) == Since(r, p) + 1
  {}

  // Without a Delete, versions only pile up.
  lemma {:induction false} SinceGrows(r: Schedule, a: nat, b: nat)
    requires r.Valid() && a <= b < |r.states| && !r.Removed(a, b)
    ensures Since(r, a) <= Since(r, b)
  {
    if a < b {
      assert !r.steps[b - 1].Remove?;
      assert !r.Removed(a, b - 1);
      SinceGrows(r, a, b - 1);
    }
  }

  // Two finished Puts report the same version exactly when equally many
  // versions were there before each, which takes a Delete between the two.
  lemma {:induction false} SameVersionIff(r: Schedule, i: nat, j: nat,
                                           g: nat, p: nat, h: nat, q: nat)
    requires r.Valid() && Landed(r, i, g, p) && Landed(r, j, h, q) && p < q
    ensures i < |r.states[|r.steps|].writers| && j < |r.states[|r.steps|].writers|
    ensures var ws := r.states[|r.steps|].writers;
            && ws[i].stage.Done? && ws[j].stage.Done?
            && (ws[i].stage.version == ws[j].stage.version <==> r.Removed(p, q) && Since(r, p) == Since(r, q))
  {
    VersionReported(r, i, g, p);
    VersionReported(r, j, h, q);
    LandingCounts(r, i, g, p);
    if !r.Removed(p, q) {
      assert !r.Removed(p + 1, q);
      SinceGrows(r, p + 1, q);
    }
  }

  // No secret is newer than the project's clock.
  ghost predicate Clocked(pr: Project, id: string) {
    id in pr.secrets ==> pr.secrets[id].created <= pr.now
  }

  lemma {:induction false} ClockRuns(r: Schedule, a: nat, b: nat)
    requires r.Valid() && a <= b < |r.states| && Clocked(r.states[a].project, r.id)
    ensures Clocked(r.states[b].project, r.id) && r.states[a].project.now <= r.states[b].project.now
  {
    if a < b {
      ClockRuns(r, a, b - 1);
      assert r.states[b] == Next(r.states[b - 1], r.id, r.steps[b - 1]);
    }
  }

  // The creation time tells whether it is still the same secret.
  lemma {:induction false} SameSecretIff(r: Schedule, a: nat, b: nat)
    requires r.Valid() && a <= b < |r.states| && Clocked(r.states[a].project, r.id) && r.Present(a)
    ensures !r.Removed(a, b) ==>
              r.Present(b) && r.states[b].project.secrets[r.id].created == r.states[a].project.secrets[r.id].created
    ensures r.Removed(a, b) && r.Present(b) ==>
              r.states[b].project.secrets[r.id].created > r.states[a].project.secrets[r.id].created
  {
    if a < b {
      SameSecretIff(r, a, b - 1);
      ClockRuns(r, a, b - 1);
      assert r.states[b] == Next(r.states[b - 1], r.id, r.steps[b - 1]);
      assert r.Removed(a, b) <==> r.Removed(a, b - 1) || r.steps[b - 1].Remove?;
    }
  }

  // Two finished Puts report the same creation time exactly when no Delete
  // came between the calls that told them.
  lemma {:induction false} SameCreationIff(r: Schedule, i: nat, j: nat,
                                            g: nat, p: nat, h: nat, q: nat)
    requires r.Valid() && Clocked(r.states[0].project, r.id)
    requires Landed(r, i, g, p) && Landed(r, j, h, q) && g < h
    ensures i < |r.states[|r.steps|].writers| && j < |r.states[|r.steps|].writers|
    ensures var ws := r.states[|r.steps|].writers;
            && ws[i].stage.Done? && ws[j].stage.Done?
            && (ws[i].stage.created == ws[j].stage.created <==> !r.Removed(g, h))
  {
    LandedReports(r, i, g, p);
    LandedReports(r, j, h, q);
    ClockRuns(r, 0, g + 1);
    SameSecretIff(r, g + 1, h + 1);
    assert r.Removed(g, h) <==> r.Removed(g + 1, h + 1);
  }

  // A finished Put reports the creation time of the secret its version went
  // into exactly when no Delete came between the call that told it and the
  // call that added the version.
  lemma {:induction false} CreationIsCurrentIff(r: Schedule, i: nat, g: nat, p: nat)
    requires r.Valid() && Clocked(r.states[0].project, r.id) && Landed(r, i, g, p)
    ensures i < |r.states[|r.steps|].writers| && r.states[|r.steps|].writers[i].stage.Done? && r.Present(p)
    ensures r.states[|r.steps|].writers[i].stage.created == r.states[p].project.secrets[r.id].created
            <==> !r.Removed(g, p)
  {
    LandedReports(r, i, g, p);
    ClockRuns(r, 0, g + 1);
    SameSecretIff(r, g + 1, p);
    assert r.Removed(g, p) <==> r.Removed(g + 1, p);
  }

  lemma {:induction false} VersionsStay(r: Schedule, a: nat, b: nat)
    requires r.Valid() && a <= b < |r.states| && !r.Removed(a, b)
    ensures ValuesAt(r.states[a].project, r.id) <= ValuesAt(r.states[b].project, r.id)
  {
    if a < b {
      assert !r.steps[b - 1].Remove?;
      assert !r.Removed(a, b - 1);
      VersionsStay(r, a, b - 1);
      assert r.states[b] == Next(r.states[b - 1], r.id, r.steps[b - 1]);
    }
  }

  // What a finished Put reported is still so at the end, its value under its
  // version number included, exactly when no Delete came after the call that
  // told it the creation time.
  lemma {:induction false} ReportHoldsIff(r: Schedule, i: nat, g: nat, p: nat)
    requires r.Valid() && Clocked(r.states[0].project, r.id) && Landed(r, i, g, p)
    ensures i < |r.states[|r.steps|].writers| && i < |r.states[0].writers|
    ensures r.states[|r.steps|].writers[i].stage.Done?
    ensures Reported(r.id, r.states[|r.steps|].project, r.states[|r.steps|].writers[i].stage,
                     r.states[0].writers[i].value)
            <==> !r.Removed(g, |r.steps|)
  {
    LandedReports(r, i, g, p);
    ClockRuns(r, 0, g + 1);
    SameSecretIff(r, g + 1, |r.steps|);
    assert r.Removed(g, |r.steps|) <==> r.Removed(g + 1, |r.steps|);
    if !r.Removed(g, |r.steps|) {
      assert !r.Removed(p + 1, |r.steps|);
      VersionsStay(r, p + 1, |r.steps|);
    }
  }

  predicate Reported(id: string, pr: Project, stage: Stage, value: Bytes)
    requires stage.Done?
  {
    && id in pr.secrets && pr.secrets[id].created == stage.created
    && 1 <= stage.version <= |pr.secrets[id].versions| && pr.secrets[id].versions[stage.version - 1] == value
  }

  // A Put of an absent secret that nobody disturbs.
  lemma PutAlone(s: State, id: string, i: nat) returns (s1: State, s2: State, t: State)
    requires i < |s.writers| && s.writers[i].stage == Getting && id !in s.project.secrets
    ensures s1 == Next(s, id, Move(i)) && Enabled(s1, Move(i)) && s2 == Next(s1, id, Move(i))
    ensures Enabled(s2, Move(i)) && t == Next(s2, id, Move(i))
    ensures t.writers == s.writers[i := Writer(s.writers[i].value, Done(1, s.project.now + 1))]
    ensures t.project.now == s.project.now + 1 && id in t.project.secrets
  {
    var w := s.writers[i].value;
    s1 := Next(s, id, Move(i));
    assert s1.writers == s.writers[i := Writer(w, Creating)];
    s2 := Next(s1, id, Move(i));
    assert s2.writers == s.writers[i := Writer(w, Adding(s.project.now + 1))];
    t := Next(s2, id, Move(i));
  }

  // Two Puts with a Delete between them succeed, and both report version 1.
  lemma TwoFirstVersions(pr: Project, id: string, v: Bytes, w: Bytes) returns (r: Schedule)
    requires id !in pr.secrets
    ensures r.Valid() && r.id == id && r.states[0].project == pr
    ensures exists c, d :: c < d && r.states[|r.steps|].writers == [Writer(v, Done(1, c)), Writer(w, Done(1, d))]
  {
    var s0 := State(pr, [Writer(v, Getting), Writer(w, Getting)], 0);
    var s1, s2, s3 := PutAlone(s0, id, 0);
    var s4 := Next(s3, id, Remove);
    var s5, s6, s7 := PutAlone(s4, id, 1);
    r := Schedule(id, [s0, s1, s2, s3, s4, s5, s6, s7],
                  [Move(0), Move(0), Move(0), Remove, Move(1), Move(1), Move(1)]);
    assert s7.writers == [Writer(v, Done(1, pr.now + 1)), Writer(w, Done(1, s4.project.now + 1))];
  }

  // A Put whose secret is deleted and created again by another between its
  // calls reports the creation time of the secret that is gone.
  lemma StaleCreation(pr: Project, id: string, v: Bytes, w: Bytes) returns (r: Schedule)
    requires id in pr.secrets && Clocked(pr, id)
    ensures r.Valid() && r.id == id && r.states[0].project == pr
    ensures var t := r.states[|r.steps|];
            && |t.writers| == 2 && t.writers[0].stage == Done(1, pr.secrets[id].created)
            && id in t.project.secrets && t.project.secrets[id].created > pr.secrets[id].created
  {
    var s0 := State(pr, [Writer(v, Getting), Writer(w, Getting)], 0);
    var s1 := Next(s0, id, Move(0));
    var s2 := Next(s1, id, Remove);
    var s3 := Next(s2, id, Move(1));
    assert s3.writers == [Writer(v, Adding(pr.secrets[id].created)), Writer(w, Creating)];
    var s4 := Next(s3, id, Move(1));
    assert s4.writers[0] == s3.writers[0] && s4.project.secrets[id] == StoredSecret(pr.now + 1, [], {});
    var s5 := Next(s4, id, Move(0));
    r := Schedule(id, [s0, s1, s2, s3, s4, s5], [Move(0), Remove, Move(1), Move(1), Move(0)]);
  }
}
