/** Theorems about whole runs of the executor, across crashes and resumes. */
module SchedulerRuns {
  import opened Graph
  import opened Scheduler
  import opened SchedulerSafety
  import M = Macro

  /** A run from a fresh macro, crashes and resumes included. */
  ghost predicate IsRun(c: Config, approvals: map<Id, M.Decision>, states: seq<State>, events: seq<Event>)
  {
    && |states| == |events| + 1
    && states[0] == Begin(c, approvals)
    && forall i :: 0 <= i < |events| ==> StepAt(c, states, events, i)
  }

  ghost predicate StepAt(c: Config, states: seq<State>, events: seq<Event>, i: nat)
    requires |states| == |events| + 1 && i < |events|
  {
    Enabled(c, states[i], events[i]) && states[i + 1] == Step(c, states[i], events[i])
  }

  lemma {:induction false} RunInv(
      c: Config, approvals: map<Id, M.Decision>, states: seq<State>, events: seq<Event>, n: nat)
    requires ValidConfig(c) && IsRun(c, approvals, states, events) && n < |states|
    ensures Inv(c, states[n])
  {
    if n == 0 {
      LaunchInv(c, approvals, map[], map[]);
    } else {
      RunInv(c, approvals, states, events, n - 1);
      assert StepAt(c, states, events, n - 1);
      StepKeepsInv(c, states[n - 1], events[n - 1]);
    }
  }

  lemma RunStep(c: Config, approvals: map<Id, M.Decision>, states: seq<State>, events: seq<Event>, k: nat)
      returns (s: State, e: Event)
    requires ValidConfig(c) && IsRun(c, approvals, states, events) && k < |events|
    ensures s == states[k] && e == events[k] && Inv(c, s) && Enabled(c, s, e) && states[k + 1] == Step(c, s, e)
  {
    RunInv(c, approvals, states, events, k);
    assert StepAt(c, states, events, k);
    s, e := states[k], events[k];
  }

  /**
    Every tool call is justified when it is made: every step it references has published `ok`,
    a controller selected it if it is a branch target, and it was approved if that is required.
   */
  lemma CallsAreJustified(
      c: Config, approvals: map<Id, M.Decision>, states: seq<State>, events: seq<Event>, n: nat, id: Id)
    requires ValidConfig(c) && IsRun(c, approvals, states, events)
    requires n < |events| && events[n] == Task(id, Call)
    ensures id in c.steps && Justified(c, states[n], id)
    ensures id !in states[n].futures
    ensures id in states[n].checkpoint.status ==> !states[n].checkpoint.status[id].status.Terminal()
  {
    var s, e := RunStep(c, approvals, states, events, n);
    assert TaskInv(c, s, id);
  }

  /** At no time do more tools run than the global limit or their own limit allows. */
  lemma ConcurrencyBounded(c: Config, approvals: map<Id, M.Decision>, states: seq<State>, events: seq<Event>, n: nat)
    requires ValidConfig(c) && IsRun(c, approvals, states, events) && n < |states| && states[n].live
    ensures |set id | id in states[n].pc && states[n].pc[id].Calling?| <= c.globalLimit
    ensures forall k :: k in c.toolLimit ==>
      |set id | id in states[n].pc && states[n].pc[id].Calling? && Limited(c, id, k)| <= c.toolLimit[k]
  {
    RunInv(c, approvals, states, events, n);
    var s := states[n];
    Fewer((set id | id in s.pc && s.pc[id].Calling?), GlobalHolders(s.pc));
    forall k | k in c.toolLimit
      ensures |set id | id in s.pc && s.pc[id].Calling? && Limited(c, id, k)| <= c.toolLimit[k]
    {
      Fewer((set id | id in s.pc && s.pc[id].Calling? && Limited(c, id, k)), ToolHolders(c, s.pc, k));
      assert k in s.toolFree && s.toolFree[k] >= 0 && s.toolFree[k] + |ToolHolders(c, s.pc, k)| == Slots(c)[k];
    }
  }

  lemma {:induction false} Fewer(a: set<Id>, b: set<Id>)
    requires a <= b
    ensures |a| <= |b|
  {
    assert |b| == |a| + |b - a| by { assert b == a + (b - a); }
  }

  /** Within one execution a published status, pointer and branch decision never changes. */
  lemma {:induction false} PublishedIsFinal(
      c: Config, approvals: map<Id, M.Decision>, states: seq<State>, events: seq<Event>, i: nat, j: nat)
    requires ValidConfig(c) && IsRun(c, approvals, states, events) && i <= j < |states|
    requires forall k :: i <= k < j ==> events[k].WithinExecution()
    ensures Preserves(states[i], states[j])
    decreases j
  {
    if i < j {
      PublishedIsFinal(c, approvals, states, events, i, j - 1);
      PublishedAt(c, approvals, states, events, j - 1);
      PreservesTransitive(states[i], states[j - 1], states[j]);
    }
  }

  lemma PublishedAt(c: Config, approvals: map<Id, M.Decision>, states: seq<State>, events: seq<Event>, k: nat)
    requires ValidConfig(c) && IsRun(c, approvals, states, events) && k < |events| && events[k].WithinExecution()
    ensures Preserves(states[k], states[k + 1])
  {
    var s, e := RunStep(c, approvals, states, events, k);
    PublishedKept(c, s, e);
  }

  lemma PublishedKept(c: Config, s: State, e: Event)
    requires ValidConfig(c) && Inv(c, s) && Enabled(c, s, e) && e.WithinExecution()
    ensures Preserves(s, Step(c, s, e))
  {
    match e {
      case Task(id, act) => TaskKeepsInv(c, s, id, act);
      case Complete =>
      case TimeOut(pointers) => TimeOutInv(c, s, pointers);
    }
  }

  lemma PreservesTransitive(a: State, b: State, d: State)
    requires Preserves(a, b) && Preserves(b, d)
    ensures Preserves(a, d)
  {
  }

  // ----- Crash and resume -----

  /** The checkpoint holds a final outcome for the step. */
  ghost predicate Persisted(s: State, id: Id, p: Published)
  {
    id in s.checkpoint.status && s.checkpoint.status[id] == p && p.status.Terminal()
  }

  lemma PersistedByTask(c: Config, s: State, x: Id, act: Act, id: Id, p: Published)
    requires ValidConfig(c) && Inv(c, s) && TaskEnabled(c, s, x, act) && Persisted(s, id, p)
    ensures Persisted(TaskStep(c, s, x, act), id, p)
  {
    TaskKeepsInv(c, s, x, act);
    PersistedByFrame(s, TaskStep(c, s, x, act), x, id, p);
  }

  lemma PersistedByFrame(s: State, s': State, x: Id, id: Id, p: Published)
    requires Frame(s, s', x) && PersistedInv(s) && Persisted(s, id, p)
    ensures Persisted(s', id, p)
  {
  }

  lemma PersistedNotCalled(c: Config, s: State, id: Id, p: Published)
    requires Inv(c, s) && Persisted(s, id, p)
    ensures !TaskEnabled(c, s, id, Call)
  {
    if s.live && id in s.pc {
      assert TaskInv(c, s, id);
    }
  }

  lemma PersistedKept(c: Config, s: State, e: Event, id: Id, p: Published)
    requires ValidConfig(c) && Inv(c, s) && Enabled(c, s, e) && Persisted(s, id, p)
    ensures Persisted(Step(c, s, e), id, p) && e != Task(id, Call)
  {
    PersistedNotCalled(c, s, id, p);
    match e {
      case Task(x, act) => PersistedByTask(c, s, x, act, id, p);
      case TimeOut(pointers) => TimeOutInv(c, s, pointers);
      case _ =>
    }
  }

  lemma PersistedAt(
      c: Config, approvals: map<Id, M.Decision>, states: seq<State>, events: seq<Event>, k: nat, id: Id, p: Published)
    requires ValidConfig(c) && IsRun(c, approvals, states, events) && k < |events| && Persisted(states[k], id, p)
    ensures Persisted(states[k + 1], id, p) && events[k] != Task(id, Call)
  {
    var s, e := RunStep(c, approvals, states, events, k);
    PersistedKept(c, s, e, id, p);
  }

  /**
    Across any chain of crashes and resumes, an outcome that was once persisted stays as it
    is and the step's tool is never called again.
   */
  lemma {:induction false} PersistedForever(
      c: Config, approvals: map<Id, M.Decision>, states: seq<State>, events: seq<Event>, i: nat, j: nat, id: Id,
      p: Published)
    requires ValidConfig(c) && IsRun(c, approvals, states, events) && i <= j < |states|
    requires Persisted(states[i], id, p)
    ensures Persisted(states[j], id, p)
    ensures forall k :: i <= k < j ==> events[k] != Task(id, Call)
    decreases j
  {
    if i < j {
      PersistedForever(c, approvals, states, events, i, j - 1, id, p);
      PersistedAt(c, approvals, states, events, j - 1, id, p);
    }
  }

  lemma CompletedStep(c: Config, s: State, e: Event)
    requires Inv(c, s) && Enabled(c, s, e) && s.checkpoint.run == Completed
    ensures e == Crash && Step(c, s, e).checkpoint == s.checkpoint
  {
  }

  lemma CompletedAt(c: Config, approvals: map<Id, M.Decision>, states: seq<State>, events: seq<Event>, k: nat)
    requires ValidConfig(c) && IsRun(c, approvals, states, events) && k < |events|
    requires states[k].checkpoint.run == Completed
    ensures events[k] == Crash && states[k + 1].checkpoint == states[k].checkpoint
  {
    var s, e := RunStep(c, approvals, states, events, k);
    CompletedStep(c, s, e);
  }

  /** A completed checkpoint covers every step and admits nothing but the end of the process. */
  lemma {:induction false} CompletedIsFinal(
      c: Config, approvals: map<Id, M.Decision>, states: seq<State>, events: seq<Event>, i: nat, j: nat)
    requires ValidConfig(c) && IsRun(c, approvals, states, events) && i <= j < |states|
    requires states[i].checkpoint.run == Completed
    ensures states[j].checkpoint == states[i].checkpoint
    ensures forall k :: i <= k < j ==> events[k] == Crash
    decreases j
  {
    if i < j {
      CompletedIsFinal(c, approvals, states, events, i, j - 1);
      CompletedAt(c, approvals, states, events, j - 1);
    }
  }

  lemma CompletedCoversAll(c: Config, approvals: map<Id, M.Decision>, states: seq<State>, events: seq<Event>, i: nat)
    requires ValidConfig(c) && IsRun(c, approvals, states, events) && i < |states|
    requires states[i].checkpoint.run == Completed
    ensures forall id :: id in c.steps ==> exists p :: Persisted(states[i], id, p)
  {
    RunInv(c, approvals, states, events, i);
    var s := states[i];
    forall id | id in c.steps ensures exists p :: Persisted(s, id, p) {
      assert Persisted(s, id, s.checkpoint.status[id]);
    }
  }
}
