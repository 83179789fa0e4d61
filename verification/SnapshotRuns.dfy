/** Concurrent use of one verifier and its clones: any number of calls in flight, their awaits
    interleaved with snapshot replacements (src/api.rs, src/historical_summaries_provider.rs).
    A call reads the lock once for each reply it checks; that read is the step. A source that
    panics counts as a reply. */
module SnapshotRuns {
  import opened Primitives
  import opened NetworkSpec
  import opened HeaderWithProof
  import opened Validator
  import opened Verifier

  datatype Request = ByNumber(number: u64) | ByHash(hash: Digest) | Direct(hwp: HeaderWithProof)

  function CheckRequest(acc: Accumulators, summaries: Summaries, request: Request, reply: Fetched): Call {
    match request
    case ByNumber(number) => CheckNumber(acc, summaries, number, reply)
    case ByHash(hash) => CheckHash(acc, summaries, hash, reply)
    case Direct(hwp) => Check(acc, summaries, hwp)
  }

  /** How many replies a request may check: one for a value at hand, one a source otherwise. */
  function Limit(request: Request, sources: nat): nat {
    if request.Direct? then 1 else sources
  }

  /** A call in flight: the replies it got, and for each the index of the snapshot it read. */
  datatype Task = Task(request: Request, started: nat, replies: seq<Fetched>, seen: seq<nat>, outcome: Option<Call>)

  /** Every snapshot ever installed, oldest first, and all calls ever made. */
  datatype State = State(installed: seq<Summaries>, tasks: map<nat, Task>)

  datatype Step =
    | Install(summaries: Summaries)
    | Begin(id: nat, request: Request)
    | Attempt(id: nat, reply: Fetched)

  function Init(summaries: Summaries): State {
    State([summaries], map[])
  }

  function Next(acc: Accumulators, sources: nat, st: State, step: Step): State
    requires st.installed != []
  {
    var now := |st.installed| - 1;
    match step
    case Install(summaries) => st.(installed := st.installed + [summaries])
    case Begin(id, request) =>
      if id in st.tasks then st
      else
        var outcome := if Limit(request, sources) == 0 then Some(Fails(NoDataSource)) else None;
        st.(tasks := st.tasks[id := Task(request, now, [], [], outcome)])
    case Attempt(id, reply) =>
      if id !in st.tasks || st.tasks[id].outcome.Some? then st
      else
        var t := st.tasks[id];
        var call := CheckRequest(acc, st.installed[now], t.request, reply);
        var over := !call.Fails? || |t.seen| + 1 == Limit(t.request, sources);
        st.(tasks := st.tasks[id := t.(replies := t.replies + [reply], seen := t.seen + [now],
                                       outcome := if over then Some(call) else None)])
  }

  function Run(acc: Accumulators, sources: nat, summaries: Summaries, steps: seq<Step>): (st: State)
    ensures st.installed != []
  {
    if steps == [] then Init(summaries)
    else Next(acc, sources, Run(acc, sources, summaries, steps[..|steps| - 1]), steps[|steps| - 1])
  }

  /** Each read saw a snapshot installed no earlier than the call, and none older than the read
      before it. */
  predicate SeenInOrder(installed: seq<Summaries>, t: Task) {
    && |t.seen| == |t.replies|
    && (forall i :: 0 <= i < |t.seen| ==> t.started <= t.seen[i] < |installed|)
    && (forall i, j :: 0 <= i <= j < |t.seen| ==> t.seen[i] <= t.seen[j])
  }

  /** The pure check of reply `i` against the snapshot read for it. */
  function CallAt(acc: Accumulators, installed: seq<Summaries>, t: Task, i: nat): Call
    requires SeenInOrder(installed, t) && i < |t.seen|
  {
    CheckRequest(acc, installed[t.seen[i]], t.request, t.replies[i])
  }

  /** The outcome is the first check that did not fail, or the last of all. */
  predicate Explained(acc: Accumulators, sources: nat, installed: seq<Summaries>, t: Task) {
    var limit, n := Limit(t.request, sources), |t.seen|;
    && SeenInOrder(installed, t)
    && n <= limit
    && (t.outcome.None? ==> n < limit && forall i :: 0 <= i < n ==> CallAt(acc, installed, t, i).Fails?)
    && (t.outcome.Some? && limit == 0 ==> t.outcome.value == Fails(NoDataSource))
    && (t.outcome.Some? && limit > 0 ==>
        && n > 0
        && (forall i :: 0 <= i < n - 1 ==> CallAt(acc, installed, t, i).Fails?)
        && t.outcome.value == CallAt(acc, installed, t, n - 1)
        && (t.outcome.value.Fails? ==> n == limit))
  }

  predicate Inv(acc: Accumulators, sources: nat, st: State) {
    forall id :: id in st.tasks ==> Explained(acc, sources, st.installed, st.tasks[id])
  }

  lemma InstallKeeps(acc: Accumulators, sources: nat, installed: seq<Summaries>, summaries: Summaries, t: Task)
    requires Explained(acc, sources, installed, t)
    ensures Explained(acc, sources, installed + [summaries], t)
  {
    hide CheckRequest;
    forall i: nat | i < |t.seen|
      ensures SeenInOrder(installed + [summaries], t)
      ensures CallAt(acc, installed + [summaries], t, i) == CallAt(acc, installed, t, i)
    {
    }
  }

  lemma AttemptKeeps(acc: Accumulators, sources: nat, installed: seq<Summaries>, t: Task, reply: Fetched, u: Task)
    requires installed != [] && t.outcome.None? && Explained(acc, sources, installed, t)
    requires var call := CheckRequest(acc, installed[|installed| - 1], t.request, reply);
      u == t.(replies := t.replies + [reply], seen := t.seen + [|installed| - 1],
              outcome := if !call.Fails? || |t.seen| + 1 == Limit(t.request, sources) then Some(call) else None)
    requires t.started < |installed|
    ensures Explained(acc, sources, installed, u)
  {
    hide CheckRequest;
    assert SeenInOrder(installed, u);
    forall i: nat | i < |t.seen|
      ensures CallAt(acc, installed, u, i) == CallAt(acc, installed, t, i)
    {
    }
  }

  /** No call started in the future. */
  predicate StartsKnown(st: State) {
    forall id :: id in st.tasks ==> st.tasks[id].started < |st.installed|
  }

  lemma {:induction false} NextKeepsInv(acc: Accumulators, sources: nat, st: State, step: Step)
    requires st.installed != [] && StartsKnown(st) && Inv(acc, sources, st)
    ensures var st' := Next(acc, sources, st, step);
      StartsKnown(st') && Inv(acc, sources, st')
  {
    hide Explained, CheckRequest;
    var st' := Next(acc, sources, st, step);
    forall id | id in st'.tasks
      ensures Explained(acc, sources, st'.installed, st'.tasks[id])
    {
      match step {
        case Install(summaries) =>
          InstallKeeps(acc, sources, st.installed, summaries, st.tasks[id]);
        case Begin(started, request) =>
          if id !in st.tasks {
            BeginExplained(acc, sources, st.installed, st'.tasks[id]);
          }
        case Attempt(attempted, reply) =>
          if id == attempted && st.tasks[id].outcome.None? {
            AttemptKeeps(acc, sources, st.installed, st.tasks[id], reply, st'.tasks[id]);
          }
      }
    }
  }

  lemma BeginExplained(acc: Accumulators, sources: nat, installed: seq<Summaries>, t: Task)
    requires t.seen == [] && t.replies == []
    requires t.outcome == if Limit(t.request, sources) == 0 then Some(Fails(NoDataSource)) else None
    ensures Explained(acc, sources, installed, t)
  {
  }

  /** Over every run, every call is explained by pure checks against installed snapshots. */
  lemma {:induction false} RunsAreExplained(acc: Accumulators, sources: nat, summaries: Summaries, steps: seq<Step>)
    ensures StartsKnown(Run(acc, sources, summaries, steps))
    ensures Inv(acc, sources, Run(acc, sources, summaries, steps))
  {
    if steps != [] {
      RunsAreExplained(acc, sources, summaries, steps[..|steps| - 1]);
      NextKeepsInv(acc, sources, Run(acc, sources, summaries, steps[..|steps| - 1]), steps[|steps| - 1]);
    }
  }

  /** A call is over exactly when it has its one check, for a value at hand, or one for each source, or
      when its last check did not fail. */
  lemma {:induction false} CallsEndExactly(
    acc: Accumulators, sources: nat, summaries: Summaries, steps: seq<Step>, id: nat)
    requires id in Run(acc, sources, summaries, steps).tasks
    ensures var st := Run(acc, sources, summaries, steps);
      var t := st.tasks[id];
      var n := |t.replies|;
      && n <= (if t.request.Direct? then 1 else sources) && SeenInOrder(st.installed, t)
      && (t.outcome.Some? <==>
          || n == (if t.request.Direct? then 1 else sources)
          || (n > 0 && !CallAt(acc, st.installed, t, n - 1).Fails?))
  {
    hide Run, Next, CheckRequest;
    RunsAreExplained(acc, sources, summaries, steps);
    var st := Run(acc, sources, summaries, steps);
    assert Explained(acc, sources, st.installed, st.tasks[id]);
  }

  // ---- What the steps of a run leave behind ----

  /** The snapshots that the steps install, in order. */
  function Installs(steps: seq<Step>): seq<Summaries> {
    if steps == [] then []
    else
      var (init, last) := (steps[..|steps| - 1], steps[|steps| - 1]);
      Installs(init) + if last.Install? then [last.summaries] else []
  }

  /** The snapshot behind the lock after the steps: the last one installed, or the first of all. */
  function Current(summaries: Summaries, steps: seq<Step>): Summaries {
    ([summaries] + Installs(steps))[|Installs(steps)|]
  }

  /** The position of the step that begins call `id`. */
  function FirstBegin(steps: seq<Step>, id: nat): (k: Option<nat>)
    ensures k.Some? ==> k.value < |steps| && steps[k.value].Begin? && steps[k.value].id == id
    ensures forall j :: 0 <= j < |steps| && steps[j].Begin? && steps[j].id == id ==> k.Some? && k.value <= j
  {
    if steps == [] then None
    else
      var (init, last) := (steps[..|steps| - 1], steps[|steps| - 1]);
      match FirstBegin(init, id)
      case Some(k) => Some(k)
      case None => if last.Begin? && last.id == id then Some(|steps| - 1) else None
  }

  /** The positions of the attempts of call `id` from its beginning on. */
  function Reads(steps: seq<Step>, id: nat): (places: seq<nat>)
    ensures forall i :: 0 <= i < |places| ==>
      places[i] < |steps| && steps[places[i]].Attempt? && steps[places[i]].id == id
  {
    if steps == [] then []
    else
      var (init, last) := (steps[..|steps| - 1], steps[|steps| - 1]);
      Reads(init, id)
      + if last.Attempt? && last.id == id && FirstBegin(init, id).Some? then [|steps| - 1] else []
  }

  /** The call has the request of its first step, and each of its reads has the reply of its own step
      and the number of snapshots installed before that step. While it is open it has used every
      attempt. */
  predicate FollowsSteps(steps: seq<Step>, id: nat, t: Task) {
    var (begin, places) := (FirstBegin(steps, id), Reads(steps, id));
    && begin.Some?
    && t.request == steps[begin.value].request && t.started == |Installs(steps[..begin.value])|
    && |t.seen| == |t.replies| <= |places|
    && (t.outcome.None? ==> |t.replies| == |places|)
    && forall i :: 0 <= i < |t.replies| ==>
         t.replies[i] == steps[places[i]].reply && t.seen[i] == |Installs(steps[..places[i]])|
  }

  /** A step that is none of its own leaves a call as it follows. */
  lemma FollowsOn(steps: seq<Step>, step: Step, id: nat, t: Task)
    requires FollowsSteps(steps, id, t)
    requires step.Attempt? && step.id == id ==> t.outcome.Some?
    ensures FollowsSteps(steps + [step], id, t)
  {
    hide Installs;
    assert (steps + [step])[..|steps|] == steps;
    var places := Reads(steps, id);
    assert forall k :: 0 <= k <= |steps| ==> (steps + [step])[..k] == steps[..k];
    assert forall i :: 0 <= i < |places| ==> Reads(steps + [step], id)[i] == places[i];
  }

  lemma BeginFollows(steps: seq<Step>, id: nat, request: Request, t: Task)
    requires FirstBegin(steps, id).None? && Reads(steps, id) == []
    requires t.request == request && t.started == |Installs(steps)| && t.seen == [] && t.replies == []
    ensures FollowsSteps(steps + [Begin(id, request)], id, t)
  {
    hide Installs;
    assert (steps + [Begin(id, request)])[..|steps|] == steps;
  }

  lemma AttemptFollows(steps: seq<Step>, id: nat, reply: Fetched, t: Task, u: Task)
    requires FollowsSteps(steps, id, t) && t.outcome.None?
    requires u.request == t.request && u.started == t.started
    requires u.replies == t.replies + [reply] && u.seen == t.seen + [|Installs(steps)|]
    ensures FollowsSteps(steps + [Attempt(id, reply)], id, u)
  {
    hide Installs;
    var more := steps + [Attempt(id, reply)];
    assert more[..|steps|] == steps;
    assert forall k :: 0 <= k <= |steps| ==> more[..k] == steps[..k];
    assert Reads(more, id) == Reads(steps, id) + [|steps|];
  }

  /** Reads come after the beginning only. */
  lemma {:induction false} NoReadsBefore(steps: seq<Step>, id: nat)
    requires FirstBegin(steps, id).None?
    ensures Reads(steps, id) == []
  {
    if steps != [] {
      NoReadsBefore(steps[..|steps| - 1], id);
    }
  }

  /** Everything that the run's state says, in terms of its steps. */
  ghost predicate IsOfSteps(summaries: Summaries, steps: seq<Step>, st: State) {
    && st.installed == [summaries] + Installs(steps)
    && (forall id: nat :: id in st.tasks <==> FirstBegin(steps, id).Some?)
    && (forall id :: id in st.tasks ==> FollowsSteps(steps, id, st.tasks[id]))
  }

  /** What one step does to the calls. */
  lemma NextTasks(acc: Accumulators, sources: nat, st: State, step: Step, id: nat)
    requires st.installed != []
    ensures var (tasks, now) := (Next(acc, sources, st, step).tasks, |st.installed| - 1);
      && (id in tasks <==> id in st.tasks || (step.Begin? && step.id == id))
      && (id in tasks && id !in st.tasks ==>
          var u := tasks[id];
          u.request == step.request && u.started == now && u.replies == [] && u.seen == [])
      && (id in st.tasks && step.Attempt? && step.id == id && st.tasks[id].outcome.None? ==>
          var (t, u) := (st.tasks[id], tasks[id]);
          && u.request == t.request && u.started == t.started
          && u.replies == t.replies + [step.reply] && u.seen == t.seen + [now])
      && (id in st.tasks && (!step.Attempt? || step.id != id || st.tasks[id].outcome.Some?) ==>
          tasks[id] == st.tasks[id])
  {
    hide CheckRequest;
  }

  lemma NextInstalled(acc: Accumulators, sources: nat, st: State, step: Step)
    requires st.installed != []
    ensures Next(acc, sources, st, step).installed == st.installed + if step.Install? then [step.summaries] else []
  {
    hide CheckRequest;
  }

  /** The last step alone decides what the definitions over steps add. */
  lemma Snoc(steps: seq<Step>, step: Step, id: nat)
    ensures Installs(steps + [step]) == Installs(steps) + if step.Install? then [step.summaries] else []
    ensures FirstBegin(steps + [step], id).Some? <==> FirstBegin(steps, id).Some? || (step.Begin? && step.id == id)
  {
    assert (steps + [step])[..|steps|] == steps;
  }

  lemma {:induction false} NextIsOfSteps(
    acc: Accumulators, sources: nat, summaries: Summaries, steps: seq<Step>, st: State, step: Step)
    requires st.installed != [] && IsOfSteps(summaries, steps, st)
    ensures IsOfSteps(summaries, steps + [step], Next(acc, sources, st, step))
  {
    hide FollowsSteps, Next, Reads, Installs, FirstBegin;
    var next := Next(acc, sources, st, step);
    NextInstalled(acc, sources, st, step);
    Snoc(steps, step, 0);
    forall id: nat
      ensures id in next.tasks <==> FirstBegin(steps + [step], id).Some?
      ensures id in next.tasks ==> FollowsSteps(steps + [step], id, next.tasks[id])
    {
      NextTasks(acc, sources, st, step, id);
      Snoc(steps, step, id);
      if id in next.tasks {
        NextFollows(steps, st, step, id, next.tasks[id]);
      }
    }
  }

  lemma NextFollows(steps: seq<Step>, st: State, step: Step, id: nat, u: Task)
    requires |st.installed| == |Installs(steps)| + 1
    requires id in st.tasks ==> FollowsSteps(steps, id, st.tasks[id])
    requires id !in st.tasks ==>
      && FirstBegin(steps, id).None? && step.Begin? && step.id == id
      && u.request == step.request && u.started == |st.installed| - 1 && u.replies == [] && u.seen == []
    requires id in st.tasks && step.Attempt? && step.id == id && st.tasks[id].outcome.None? ==>
      && u.request == st.tasks[id].request && u.started == st.tasks[id].started
      && u.replies == st.tasks[id].replies + [step.reply] && u.seen == st.tasks[id].seen + [|st.installed| - 1]
    requires id in st.tasks && (!step.Attempt? || step.id != id || st.tasks[id].outcome.Some?) ==> u == st.tasks[id]
    ensures FollowsSteps(steps + [step], id, u)
  {
    hide FollowsSteps, Reads, Installs, FirstBegin;
    if id !in st.tasks {
      NoReadsBefore(steps, id);
      BeginFollows(steps, id, step.request, u);
    } else if step.Attempt? && step.id == id && st.tasks[id].outcome.None? {
      AttemptFollows(steps, id, step.reply, st.tasks[id], u);
    } else {
      FollowsOn(steps, step, id, st.tasks[id]);
    }
  }

  /** Over every run the installed snapshots are the first and those of the `Install` steps, and every
      call has the request, the replies and the snapshots of its own steps. */
  lemma {:induction false} RunsAreTheirSteps(acc: Accumulators, sources: nat, summaries: Summaries, steps: seq<Step>)
    ensures IsOfSteps(summaries, steps, Run(acc, sources, summaries, steps))
  {
    hide Next, IsOfSteps;
    if steps == [] {
      StartIsOfSteps(summaries);
    } else {
      var (init, last) := (steps[..|steps| - 1], steps[|steps| - 1]);
      RunsAreTheirSteps(acc, sources, summaries, init);
      NextIsOfSteps(acc, sources, summaries, init, Run(acc, sources, summaries, init), last);
      assert steps == init + [last];
    }
  }

  lemma StartIsOfSteps(summaries: Summaries)
    ensures IsOfSteps(summaries, [], Init(summaries))
  {
  }

  lemma {:induction false} InstallsGrow(steps: seq<Step>, k: nat)
    requires k <= |steps|
    ensures Installs(steps[..k]) <= Installs(steps)
    ensures (forall i :: k <= i < |steps| ==> !steps[i].Install?) ==> Installs(steps[..k]) == Installs(steps)
    decreases |steps|
  {
    if k == |steps| {
      assert steps[..k] == steps;
    } else {
      InstallsGrow(steps[..|steps| - 1], k);
      assert steps[..|steps| - 1][..k] == steps[..k];
    }
  }

  /** The check of a read is made against the snapshot that the last `Install` before its step put
      behind the lock. */
  lemma {:induction false} ReadsAreCurrent(
    acc: Accumulators, sources: nat, summaries: Summaries, steps: seq<Step>, id: nat, i: nat)
    requires var st := Run(acc, sources, summaries, steps);
      id in st.tasks && i < |st.tasks[id].replies|
    ensures i < |Reads(steps, id)|
    ensures var st := Run(acc, sources, summaries, steps);
      var (t, at) := (st.tasks[id], Reads(steps, id)[i]);
      && SeenInOrder(st.installed, t)
      && t.replies[i] == steps[at].reply
      && CallAt(acc, st.installed, t, i)
         == CheckRequest(acc, Current(summaries, steps[..at]), t.request, steps[at].reply)
  {
    hide Run, Next, CheckRequest, Installs;
    RunsAreExplained(acc, sources, summaries, steps);
    RunsAreTheirSteps(acc, sources, summaries, steps);
    var st := Run(acc, sources, summaries, steps);
    assert Explained(acc, sources, st.installed, st.tasks[id]);
    InstallsGrow(steps, Reads(steps, id)[i]);
  }

  /** The position of a read lies behind the beginning of its call. */
  lemma {:induction false} ReadsFollowBegin(steps: seq<Step>, id: nat, i: nat)
    requires i < |Reads(steps, id)|
    ensures FirstBegin(steps, id).Some? && FirstBegin(steps, id).value < Reads(steps, id)[i]
  {
    var init := steps[..|steps| - 1];
    if i < |Reads(init, id)| {
      ReadsFollowBegin(init, id, i);
    }
  }

  /** So a call that no replacement falls into is checked against the snapshot it began with alone,
      which is the last one installed before it. */
  lemma {:induction false} LateCallsReadTheLatest(
    acc: Accumulators, sources: nat, summaries: Summaries, steps: seq<Step>, id: nat)
    requires Finished(Run(acc, sources, summaries, steps), id)
    requires FirstBegin(steps, id).Some?
    requires forall j :: FirstBegin(steps, id).value <= j < |steps| ==> !steps[j].Install?
    ensures var t := Run(acc, sources, summaries, steps).tasks[id];
      var k := FirstBegin(steps, id).value;
      && t.request == steps[k].request
      && if Limit(t.request, sources) == 0 then t.outcome.value == Fails(NoDataSource) && t.replies == []
         else FirstThatWorks(ChecksUnder(acc, Current(summaries, steps[..k]), t.request, t.replies),
                             t.outcome.value, |t.replies|)
  {
    hide Run, Next, CheckRequest, Installs, Reads, Current;
    RunsAreExplained(acc, sources, summaries, steps);
    RunsAreTheirSteps(acc, sources, summaries, steps);
    var st := Run(acc, sources, summaries, steps);
    var (t, k) := (st.tasks[id], FirstBegin(steps, id).value);
    assert Explained(acc, sources, st.installed, t) && FollowsSteps(steps, id, t);
    forall i: nat | i < |t.replies|
      ensures CallAt(acc, st.installed, t, i)
           == ChecksUnder(acc, Current(summaries, steps[..k]), t.request, t.replies)[i]
    {
      ReadsAreCurrent(acc, sources, summaries, steps, id, i);
      ReadsFollowBegin(steps, id, i);
      SameCurrent(summaries, steps, k, Reads(steps, id)[i]);
    }
  }

  lemma SameCurrent(summaries: Summaries, steps: seq<Step>, k: nat, at: nat)
    requires k <= at <= |steps| && (forall j :: k <= j < |steps| ==> !steps[j].Install?)
    ensures Current(summaries, steps[..k]) == Current(summaries, steps[..at])
  {
    hide Installs;
    InstallsGrow(steps, k);
    InstallsGrow(steps, at);
  }

  /** A value was accepted that answers the request, against snapshot `k`. */
  predicate AcceptedAt(acc: Accumulators, installed: seq<Summaries>, k: nat, request: Request, hwp: HeaderWithProof) {
    && k < |installed|
    && Validate(acc, installed[k], hwp) == Accepted
    && match request
       case ByNumber(number) => hwp.header.number == number
       case ByHash(hash) => HashSlow(hwp.header) == hash
       case Direct(value) => hwp == value
  }

  lemma CheckedMeansAccepted(acc: Accumulators, installed: seq<Summaries>, k: nat, request: Request, reply: Fetched)
    returns (hwp: HeaderWithProof)
    requires k < |installed| && CheckRequest(acc, installed[k], request, reply).Verified?
    ensures AcceptedAt(acc, installed, k, request, hwp)
    ensures CheckRequest(acc, installed[k], request, reply).block == VerifiedBlock(hwp.header, hwp.proof.Kind())
  {
    hwp := if request.Direct? then request.hwp else FromSszBytes(reply.reply.value).value;
  }

  /** Whatever a call verifies, in any run, answers its request and was accepted against one
      snapshot that was current at some moment of the call; so it agrees with whatever is committed
      to at its position. */
  lemma VerifiedWasAccepted(acc: Accumulators, sources: nat, summaries: Summaries, steps: seq<Step>, id: nat)
    returns (k: nat, hwp: HeaderWithProof)
    requires var st := Run(acc, sources, summaries, steps);
      id in st.tasks && st.tasks[id].outcome.Some? && st.tasks[id].outcome.value.Verified?
    ensures var st := Run(acc, sources, summaries, steps);
      && st.tasks[id].started <= k < |st.installed|
      && AcceptedAt(acc, st.installed, k, st.tasks[id].request, hwp)
      && Authentic(acc, st.installed[k], hwp)
      && st.tasks[id].outcome.value.block == VerifiedBlock(hwp.header, hwp.proof.Kind())
  {
    hide Run, Next, CheckRequest, Validate, Authentic;
    RunsAreExplained(acc, sources, summaries, steps);
    var st := Run(acc, sources, summaries, steps);
    var t := st.tasks[id];
    assert Explained(acc, sources, st.installed, t);
    k := t.seen[|t.seen| - 1];
    hwp := CheckedMeansAccepted(acc, st.installed, k, t.request, t.replies[|t.seen| - 1]);
    AcceptedIsAuthentic(acc, st.installed[k], hwp);
  }

  /** Each installed snapshot extends the one before. */
  predicate Growing(installed: seq<Summaries>) {
    forall i :: 0 < i < |installed| ==> installed[i - 1] <= installed[i]
  }

  lemma {:induction false} LaterExtends(installed: seq<Summaries>, k: nat, m: nat)
    requires Growing(installed) && k <= m < |installed|
    ensures installed[k] <= installed[m]
  {
    if k < m {
      LaterExtends(installed, k, m - 1);
      assert installed[m - 1] <= installed[m];
    }
  }

  /** When snapshots only grow, everything ever verified would still be accepted now. */
  lemma VerifiedStaysAccepted(acc: Accumulators, sources: nat, summaries: Summaries, steps: seq<Step>, id: nat)
    returns (hwp: HeaderWithProof)
    requires var st := Run(acc, sources, summaries, steps);
      Growing(st.installed) && id in st.tasks && st.tasks[id].outcome.Some? && st.tasks[id].outcome.value.Verified?
    ensures var st := Run(acc, sources, summaries, steps);
      && AcceptedAt(acc, st.installed, |st.installed| - 1, st.tasks[id].request, hwp)
      && st.tasks[id].outcome.value.block == VerifiedBlock(hwp.header, hwp.proof.Kind())
  {
    hide Run, Next, Validate;
    var k: nat;
    k, hwp := VerifiedWasAccepted(acc, sources, summaries, steps, id);
    var installed := Run(acc, sources, summaries, steps).installed;
    LaterExtends(installed, k, |installed| - 1);
    ExtensionKeepsAcceptance(acc, installed[k], installed[|installed| - 1], hwp);
  }

  // ---- Calls that the snapshot cannot influence ----

  /** The value that reaches validation, if any does. */
  function Candidate(request: Request, reply: Fetched): Option<HeaderWithProof> {
    match request
    case ByNumber(number) => Matching(Some(number), None, reply)
    case ByHash(hash) => Matching(None, Some(hash), reply)
    case Direct(hwp) => Some(hwp)
  }

  /** Nothing reaches validation, or a proof of one of the two shapes from before Capella. */
  predicate SnapshotFree(request: Request, reply: Fetched) {
    var c := Candidate(request, reply);
    c.Some? ==> c.value.proof.OfHashes? || c.value.proof.OfRoots?
  }

  lemma FreeChecksAgree(acc: Accumulators, s: Summaries, t: Summaries, request: Request, reply: Fetched)
    requires SnapshotFree(request, reply)
    ensures CheckRequest(acc, s, request, reply) == CheckRequest(acc, t, request, reply)
  {
    hide Validate, FromSszBytes;
    if Candidate(request, reply).Some? {
      PreCapellaIgnoresSnapshot(acc, s, t, Candidate(request, reply).value);
    }
  }

  predicate PreCapellaPath(call: Call) {
    call.Verified? && call.block.authPath in {HistoricalHashes, HistoricalRoots}
  }

  /** A pre-Capella result, and any panic, comes from a check without the snapshot. */
  lemma PreCapellaIsFree(acc: Accumulators, s: Summaries, request: Request, reply: Fetched)
    requires PreCapellaPath(CheckRequest(acc, s, request, reply)) || CheckRequest(acc, s, request, reply) == Panics
    ensures SnapshotFree(request, reply)
  {
    hide FromSszBytes;
  }

  /** What checking the replies against one snapshot gives. */
  function ChecksUnder(acc: Accumulators, s: Summaries, request: Request, replies: seq<Fetched>): (calls: seq<Call>)
    ensures |calls| == |replies|
  {
    seq(|replies|, i requires 0 <= i < |replies| => CheckRequest(acc, s, request, replies[i]))
  }

  predicate Finished(st: State, id: nat) {
    id in st.tasks && st.tasks[id].outcome.Some?
  }

  /** In any run, a call by number, by hash or on a value that ends in a pre-Capella block or in
      a panic ends as the pure check of its last reply against any snapshot at all. So does one
      that fails on a reply of a pre-Capella shape. */
  lemma PreCapellaCallsIgnoreSnapshots(
    acc: Accumulators, sources: nat, summaries: Summaries, steps: seq<Step>, id: nat, any: Summaries)
    requires Finished(Run(acc, sources, summaries, steps), id)
    ensures var t := Run(acc, sources, summaries, steps).tasks[id];
      var n := |t.replies|;
      && (PreCapellaPath(t.outcome.value) || t.outcome.value == Panics
          ==> n > 0 && SnapshotFree(t.request, t.replies[n - 1]))
      && (n > 0 && SnapshotFree(t.request, t.replies[n - 1]) ==>
          t.outcome.value == CheckRequest(acc, any, t.request, t.replies[n - 1]))
  {
    hide Run, Next, CheckRequest, SnapshotFree;
    RunsAreExplained(acc, sources, summaries, steps);
    var st := Run(acc, sources, summaries, steps);
    var t := st.tasks[id];
    assert Explained(acc, sources, st.installed, t);
    if t.replies != [] {
      var last := |t.replies| - 1;
      var read := st.installed[t.seen[last]];
      if PreCapellaPath(t.outcome.value) || t.outcome.value == Panics {
        PreCapellaIsFree(acc, read, t.request, t.replies[last]);
      }
      if SnapshotFree(t.request, t.replies[last]) {
        FreeChecksAgree(acc, read, any, t.request, t.replies[last]);
      }
    }
  }

  predicate AllFree(t: Task) {
    forall i :: 0 <= i < |t.replies| ==> SnapshotFree(t.request, t.replies[i])
  }

  /** When no reply is of a later shape, the whole call, its failures and the number of its
      replies included, is what one loop under any one snapshot makes of them. */
  lemma FreeCallsIgnoreSnapshots(
    acc: Accumulators, sources: nat, summaries: Summaries, steps: seq<Step>, id: nat, any: Summaries)
    requires Finished(Run(acc, sources, summaries, steps), id)
    requires AllFree(Run(acc, sources, summaries, steps).tasks[id])
    ensures var t := Run(acc, sources, summaries, steps).tasks[id];
      if Limit(t.request, sources) == 0 then t.outcome.value == Fails(NoDataSource) && t.replies == []
      else
        && FirstThatWorks(ChecksUnder(acc, any, t.request, t.replies), t.outcome.value, |t.replies|)
        && (t.outcome.value.Fails? ==> |t.replies| == Limit(t.request, sources))
  {
    hide Run, Next, CheckRequest, SnapshotFree;
    RunsAreExplained(acc, sources, summaries, steps);
    var st := Run(acc, sources, summaries, steps);
    var t := st.tasks[id];
    assert Explained(acc, sources, st.installed, t);
    forall i: nat | i < |t.replies|
      ensures CallAt(acc, st.installed, t, i) == ChecksUnder(acc, any, t.request, t.replies)[i]
    {
      FreeChecksAgree(acc, st.installed[t.seen[i]], any, t.request, t.replies[i]);
    }
  }

  /** Two calls for one thing, in any two runs with whatever snapshots, whose sources reply alike
      as far as both ask: when no reply is of a later shape they ask equally many sources and end
      the same. */
  lemma FreeRunsAgree(acc: Accumulators, sources: nat, s: Summaries, steps: seq<Step>, id: nat,
                      s': Summaries, steps': seq<Step>, id': nat)
    requires Finished(Run(acc, sources, s, steps), id) && Finished(Run(acc, sources, s', steps'), id')
    requires var t, u := Run(acc, sources, s, steps).tasks[id], Run(acc, sources, s', steps').tasks[id'];
      && t.request == u.request && AllFree(t) && AllFree(u)
      && forall i :: 0 <= i < |t.replies| && i < |u.replies| ==> t.replies[i] == u.replies[i]
    ensures var t, u := Run(acc, sources, s, steps).tasks[id], Run(acc, sources, s', steps').tasks[id'];
      t.outcome == u.outcome && t.replies == u.replies
  {
    hide Run, Next, CheckRequest, SnapshotFree;
    FreeCallsIgnoreSnapshots(acc, sources, s, steps, id, []);
    FreeCallsIgnoreSnapshots(acc, sources, s', steps', id', []);
    RunsAreExplained(acc, sources, s, steps);
    RunsAreExplained(acc, sources, s', steps');
    var st, su := Run(acc, sources, s, steps), Run(acc, sources, s', steps');
    var t, u := st.tasks[id], su.tasks[id'];
    assert Explained(acc, sources, st.installed, t) && Explained(acc, sources, su.installed, u);
    if Limit(t.request, sources) > 0 {
      var a, b := ChecksUnder(acc, [], t.request, t.replies), ChecksUnder(acc, [], u.request, u.replies);
      assert forall i :: 0 <= i < |a| && i < |b| ==> a[i] == b[i];
    }
  }

  // ---- Without a replacement: the verifier's own loops ----

  predicate NoInstall(steps: seq<Step>) {
    forall i :: 0 <= i < |steps| ==> !steps[i].Install?
  }

  lemma {:induction false} NoInstallKeepsSnapshot(
    acc: Accumulators, sources: nat, summaries: Summaries, steps: seq<Step>)
    requires NoInstall(steps)
    ensures Run(acc, sources, summaries, steps).installed == [summaries]
  {
    hide CheckRequest;
    if steps != [] {
      NoInstallKeepsSnapshot(acc, sources, summaries, steps[..|steps| - 1]);
    }
  }

  /** The replies to a call are those of the verifier's sources, in order. */
  predicate RepliesAreOf(v: Verifier, t: Task) {
    forall i :: 0 <= i < |t.replies| && i < |v.dataSources| ==>
      match t.request
      case ByNumber(number) => t.replies[i] == v.dataSources[i].byNumber(number)
      case ByHash(hash) => t.replies[i] == v.dataSources[i].byHash(hash)
      case Direct(_) => true
  }

  /** A call that no replacement falls into ends as the verifier's own method does. */
  lemma {:induction false} LoneCallsAreTheMethods(v: Verifier, steps: seq<Step>, id: nat)
    requires NoInstall(steps)
    requires Finished(Run(v.acc, |v.dataSources|, v.Snapshot(), steps), id)
    requires RepliesAreOf(v, Run(v.acc, |v.dataSources|, v.Snapshot(), steps).tasks[id])
    ensures var t := Run(v.acc, |v.dataSources|, v.Snapshot(), steps).tasks[id];
      match t.request
      case ByNumber(number) =>
        if v.dataSources == [] then t.outcome.value == Fails(NoDataSource) && t.replies == []
        else FirstThatWorks(v.AttemptsByNumber(number), t.outcome.value, |t.replies|)
      case ByHash(hash) =>
        if v.dataSources == [] then t.outcome.value == Fails(NoDataSource) && t.replies == []
        else FirstThatWorks(v.AttemptsByHash(hash), t.outcome.value, |t.replies|)
      case Direct(hwp) => t.outcome.value == Check(v.acc, v.Snapshot(), hwp)
  {
    hide Run, Next, CheckNumber, CheckHash, Check;
    var sources, summaries := |v.dataSources|, v.Snapshot();
    RunsAreExplained(v.acc, sources, summaries, steps);
    NoInstallKeepsSnapshot(v.acc, sources, summaries, steps);
    var st := Run(v.acc, sources, summaries, steps);
    var t := st.tasks[id];
    assert Explained(v.acc, sources, st.installed, t);
    forall i: nat | i < |t.replies|
      ensures CallAt(v.acc, st.installed, t, i) == CheckRequest(v.acc, summaries, t.request, t.replies[i])
    {
    }
  }
}
