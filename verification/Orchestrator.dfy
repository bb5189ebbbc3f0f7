/** `TaskDAG`, the supervisor's dispatch step and the main loop of `AgentOrchestrator::run`
    (agent/orchestrator.cpp), with the worker's synchronous reply (agent/agent_base.cpp).

    Timeouts and `stop()` are looked at only at the top of a pass, so they appear as the number
    of passes that may start.  Hash tables are walked in an arbitrary order.
 */
module Orchestrator {
  import opened Sequences
  import opened TaskGraph
  import opened Scheduling
  import opened Wrappers
  import TopologicalSort

  class TaskDag {
    var tasks: Table

    constructor ()
      ensures tasks == map[]
    {
      tasks := map[];
    }

    method AddTask(id: Id, task: Task)
      modifies this
      ensures tasks == old(tasks)[id := task]
    {
      tasks := tasks[id := task];
    }

    method GetReadyTasks() returns (ready: seq<Id>)
      ensures NoDuplicates(ready)
      ensures forall v :: v in ready <==> Ready(tasks, v)
    {
      ready := [];
      var todo := tasks.Keys;
      while todo != {}
        invariant todo <= tasks.Keys && NoDuplicates(ready)
        invariant forall v :: v in ready <==> v !in todo && Ready(tasks, v)
        decreases |todo|
      {
        var v :| v in todo;
        var task := tasks[v];
        if task.status == Pending {
          var depsDone := true;
          var i := 0;
          while i < |task.dependencies| && depsDone
            invariant i <= |task.dependencies|
            invariant depsDone ==> forall j :: 0 <= j < i ==>
                        task.dependencies[j] in tasks && tasks[task.dependencies[j]].status == Completed
            invariant !depsDone ==> !Ready(tasks, v)
          {
            var dep := task.dependencies[i];
            if dep !in tasks || tasks[dep].status != Completed {
              depsDone := false;
            }
            i := i + 1;
          }
          if depsDone {
            ready := ready + [v];
          }
        }
        todo := todo - {v};
      }
    }

    method CompleteTask(id: Id, result: string)
      modifies this
      ensures tasks == if id in old(tasks) then old(tasks)[id := old(tasks)[id].(status := Completed, result := result)]
                       else old(tasks)
    {
      if id in tasks {
        tasks := tasks[id := tasks[id].(status := Completed, result := result)];
      }
    }

    method AllCompleted() returns (b: bool)
      ensures b <==> tasks != map[] && forall v :: v in tasks ==> tasks[v].status == Completed
    {
      b := |tasks| != 0;
      var todo := tasks.Keys;
      while todo != {}
        invariant todo <= tasks.Keys
        invariant b <==> tasks != map[] && forall v :: v in tasks && v !in todo ==> tasks[v].status == Completed
        decreases |todo|
      {
        var v :| v in todo;
        if tasks[v].status != Completed {
          b := false;
        }
        todo := todo - {v};
      }
    }

    method HasFailure() returns (b: bool)
      ensures b <==> exists v :: v in tasks && tasks[v].status == Failed
    {
      b := false;
      var todo := tasks.Keys;
      while todo != {}
        invariant todo <= tasks.Keys
        invariant b <==> exists v :: v in tasks && v !in todo && tasks[v].status == Failed
        decreases |todo|
      {
        var v :| v in todo;
        if tasks[v].status == Failed {
          b := true;
        }
        todo := todo - {v};
      }
    }

    method IsSortable() returns (ok: bool, order: seq<Id>)
      ensures ok <==> Sortable(tasks)
      ensures ok ==> TopologicalOrder(tasks, order)
    {
      ok, order := TopologicalSort.Sort(tasks);
    }
  }

  /** Every task is dispatched once, while pending, and after all it depends on. */
  ghost predicate Dispatched(start: Table, log: seq<Id>) {
    && NoDuplicates(log)
    && (forall v :: v in log ==> v in start && start[v].status == Pending)
    && (forall i, u :: 0 <= i < |log| && Edge(start, log[i], u) ==>
          u in start && (start[u].status == Completed || u in log[..i]))
  }

  /** The tasks of the log, and no others, were completed since the start. */
  ghost predicate Progress(start: Table, now: Table, log: seq<Id>) {
    && now.Keys == start.Keys
    && Dispatched(start, log)
    && forall v :: v in start ==>
         now[v] == if v in log then start[v].(status := Completed, result := now[v].result) else start[v]
  }

  lemma DispatchExtends(start: Table, before: Table, log: seq<Id>, v: Id)
    requires Progress(start, before, log) && Ready(before, v)
    ensures v !in log && Dispatched(start, log + [v])
  {
    var longer := log + [v];
    forall i, u | 0 <= i < |longer| && Edge(start, longer[i], u)
      ensures u in start && (start[u].status == Completed || u in longer[..i])
    {
      if i < |log| {
        assert longer[..i] == log[..i];
      } else {
        assert longer[..i] == log;
        assert u in before[v].dependencies;
      }
    }
  }

  class AgentOrchestrator {
    const dag: TaskDag
    var agentRoles: map<Id, int>
    /** The supervisor's inbox: (task, content) of the replies not yet polled. */
    var inbox: seq<(Id, string)>
    /** What the handler of an agent answers for a task: (agent, task, description) to content. */
    const handler: (Id, Id, string) -> string

    constructor (handler: (Id, Id, string) -> string)
      ensures this.handler == handler && agentRoles == map[] && inbox == []
      ensures fresh(dag) && dag.tasks == map[]
    {
      this.handler := handler;
      agentRoles := map[];
      inbox := [];
      dag := new TaskDag();
    }

    /** An agent of the wanted role, or else any agent. */
    method ChooseAgent(role: int) returns (agent: Option<Id>)
      ensures agent.None? <==> agentRoles == map[]
      ensures agent.Some? ==> agent.value in agentRoles
      ensures agent.Some? && (exists a :: a in agentRoles && agentRoles[a] == role) ==>
                agentRoles[agent.value] == role
    {
      agent := None;
      var todo := agentRoles.Keys;
      while todo != {} && agent.None?
        invariant todo <= agentRoles.Keys
        invariant agent.Some? ==> agent.value in agentRoles && agentRoles[agent.value] == role
        invariant agent.None? ==> forall a :: a in agentRoles && a !in todo ==> agentRoles[a] != role
        decreases |todo|
      {
        var a :| a in todo;
        if agentRoles[a] == role {
          agent := Some(a);
        }
        todo := todo - {a};
      }
      if agent.None? && |agentRoles| > 0 {
        var a :| a in agentRoles;
        agent := Some(a);
      }
    }

    /** Supervisor::handle_message for a task result. */
    method HandleResult(id: Id, content: string)
      modifies dag
      ensures dag.tasks == if id in old(dag.tasks)
                then old(dag.tasks)[id := old(dag.tasks)[id].(status := Completed, result := content)]
                else old(dag.tasks)
    {
      dag.CompleteTask(id, content);
    }

    /** The assignment message: the worker runs its handler at once and replies; the reply is
        queued for the supervisor and also handed to its handler. */
    method AssignTask(id: Id, description: string, agent: Id)
      requires id in dag.tasks
      modifies dag, this`inbox
      ensures inbox == old(inbox) + [(id, handler(agent, id, description))]
      ensures dag.tasks == old(dag.tasks)[id := old(dag.tasks)[id].(
                  status := Completed, result := handler(agent, id, description))]
    {
      var content := handler(agent, id, description);
      inbox := inbox + [(id, content)];
      HandleResult(id, content);
    }

    /** Mark running, assign, and poll for at most 100 rounds of at most 10 messages. */
    method Dispatch(id: Id, agent: Id)
      requires Ready(dag.tasks, id) && inbox == []
      modifies dag, this`inbox
      ensures inbox == []
      ensures dag.tasks == old(dag.tasks)[id := old(dag.tasks)[id].(
                  status := Completed, result := handler(agent, id, old(dag.tasks)[id].description))]
    {
      var task := dag.tasks[id];
      ghost var goal := dag.tasks[id := task.(
                status := Completed, result := handler(agent, id, task.description))];
      dag.tasks := dag.tasks[id := task.(status := Running)];
      AssignTask(id, task.description, agent);
      assert dag.tasks == goal;
      var w := 0;
      var waiting := true;
      while w < 100 && waiting
        invariant dag.tasks == goal
        invariant inbox == if w == 0 then [(id, handler(agent, id, task.description))] else []
        invariant waiting <==> w == 0
        decreases 100 - w, waiting
      {
        var taken := if |inbox| < 10 then |inbox| else 10;
        var messages := inbox[..taken];
        inbox := inbox[taken..];
        for i := 0 to |messages|
          invariant dag.tasks == goal && inbox == []
        {
          HandleResult(messages[i].0, messages[i].1);
        }
        var status := dag.tasks[id].status;
        if status == Completed || status == Failed {
          waiting := false;
        }
        w := w + 1;
      }
    }

    /** now is the outcome of agent a working on task v. */
    ghost predicate WorkedBy(task: Task, now: Task, v: Id, a: Id)
      reads this`agentRoles
    {
      && a in agentRoles && now.result == handler(a, v, task.description)
      && ((exists b :: b in agentRoles && agentRoles[b] == task.role) ==> agentRoles[a] == task.role)
    }

    ghost predicate WorkedOn(task: Task, now: Task, v: Id)
      reads this`agentRoles
    {
      now == task.(status := Completed, result := now.result) && exists a :: WorkedBy(task, now, v, a)
    }

    /** The tasks in done have been worked on since before; the others are as they were. */
    ghost predicate PassPrefix(before: Table, now: Table, done: set<Id>)
      reads this`agentRoles
    {
      && now.Keys == before.Keys
      && forall v :: v in before ==>
           if v in done then WorkedOn(before[v], now[v], v) else now[v] == before[v]
    }

    /** Every task of the log holds the answer of an agent fit for it. */
    ghost predicate Answered(start: Table, now: Table, log: seq<Id>)
      reads this`agentRoles
    {
      forall v :: v in log ==> v in start && v in now && WorkedOn(start[v], now[v], v)
    }

    /** The body of the loop over the ready tasks. */
    method DispatchNext(id: Id, ghost before: Table, ghost done: set<Id>, ghost start: Table, ghost log: seq<Id>)
      requires inbox == [] && agentRoles != map[] && Progress(start, dag.tasks, log) && Answered(start, dag.tasks, log)
      requires PassPrefix(before, dag.tasks, done) && Ready(before, id) && id !in done
      modifies dag, this`inbox
      ensures inbox == [] && Progress(start, dag.tasks, log + [id]) && Answered(start, dag.tasks, log + [id])
      ensures PassPrefix(before, dag.tasks, done + {id})
    {
      assert Ready(dag.tasks, id);
      var agent := ChooseAgent(dag.tasks[id].role);
      DispatchExtends(start, dag.tasks, log, id);
      Dispatch(id, agent.value);
      assert WorkedBy(before[id], dag.tasks[id], id, agent.value);
    }

    /** One pass over the tasks that were ready at its start.  Without agents nothing happens. */
    method DispatchAll(ready: seq<Id>, ghost start: Table, ghost log0: seq<Id>) returns (ghost log: seq<Id>)
      requires inbox == [] && Progress(start, dag.tasks, log0) && Answered(start, dag.tasks, log0)
      requires NoDuplicates(ready) && forall v :: v in ready <==> Ready(dag.tasks, v)
      modifies dag, this`inbox
      ensures inbox == [] && Progress(start, dag.tasks, log) && Answered(start, dag.tasks, log)
      ensures agentRoles == map[] ==> dag.tasks == old(dag.tasks)
      ensures agentRoles != map[] ==> PassPrefix(old(dag.tasks), dag.tasks, Elements(ready))
      ensures agentRoles != map[] ==> Pass(old(dag.tasks), dag.tasks)
    {
      log := log0;
      if |agentRoles| == 0 {
        return;
      }
      ghost var before := dag.tasks;
      assert Elements(ready[..0]) == {};
      for i := 0 to |ready|
        invariant inbox == [] && Progress(start, dag.tasks, log) && Answered(start, dag.tasks, log)
        invariant PassPrefix(before, dag.tasks, Elements(ready[..i]))
      {
        var id := ready[i];
        assert forall j :: 0 <= j < i ==> ready[j] != id;
        assert Elements(ready[..i + 1]) == Elements(ready[..i]) + {id};
        DispatchNext(id, before, Elements(ready[..i]), start, log);
        log := log + [id];
      }
      assert ready[..|ready|] == ready;
    }

    /** The body of the main loop; done tells that the loop may end early. */
    method RunPass(ghost start: Table, ghost log0: seq<Id>) returns (done: bool, ghost log: seq<Id>)
      requires inbox == [] && Progress(start, dag.tasks, log0) && Answered(start, dag.tasks, log0)
      modifies dag, this`inbox
      ensures inbox == [] && Progress(start, dag.tasks, log) && Answered(start, dag.tasks, log)
      ensures agentRoles == map[] ==> dag.tasks == old(dag.tasks)
      ensures agentRoles != map[] ==> Pass(old(dag.tasks), dag.tasks)
      ensures done ==> forall v :: !Ready(dag.tasks, v)
    {
      done, log := false, log0;
      var ready := dag.GetReadyTasks();
      if |ready| == 0 {
        done := dag.AllCompleted();
        if !done {
          done := dag.HasFailure();
        }
      } else {
        log := DispatchAll(ready, start, log);
      }
    }

    /** What k passes have made of the tasks, and how. */
    ghost predicate InRun(start: Table, now: Table, log: seq<Id>, k: nat)
      reads this`agentRoles
    {
      && Progress(start, now, log) && Answered(start, now, log)
      && (if agentRoles == map[] then now == start else AfterPasses(start, now, k))
    }

    method NextPass(ghost start: Table, ghost log0: seq<Id>, ghost k: nat) returns (done: bool, ghost log: seq<Id>)
      requires inbox == [] && InRun(start, dag.tasks, log0, k)
      modifies dag, this`inbox
      ensures inbox == [] && InRun(start, dag.tasks, log, k + 1)
      ensures done ==> forall v :: !Ready(dag.tasks, v)
    {
      ghost var before := dag.tasks;
      done, log := RunPass(start, log0);
      if |agentRoles| != 0 {
        PassAdvances(start, before, dag.tasks, k);
      }
    }

    /** The main loop of `run`; leaving it early, when nothing is ready, changes nothing. */
    method PassLoop(limit: nat) returns (ghost log: seq<Id>)
      requires inbox == []
      modifies dag, this`inbox
      ensures inbox == [] && InRun(old(dag.tasks), dag.tasks, log, limit)
    {
      ghost var start := dag.tasks;
      log := [];
      var iter := 0;
      var done := false;
      NoPasses(start);
      while iter < limit && !done
        invariant iter <= limit && inbox == [] && InRun(start, dag.tasks, log, iter)
        invariant done ==> forall v :: !Ready(dag.tasks, v)
        decreases limit - iter
      {
        done, log := NextPass(start, log, iter);
        iter := iter + 1;
      }
      if done && |agentRoles| != 0 {
        Quiescent(start, dag.tasks, iter, limit - iter);
      }
    }

    /** `run`, allowed to start mayStart passes before a timeout or a stop. */
    method Run(mayStart: nat) returns (success: bool, ghost log: seq<Id>)
      requires inbox == []
      modifies dag, this`inbox
      ensures agentRoles == map[] ==> dag.tasks == old(dag.tasks)
      ensures agentRoles != map[] ==>
                AfterPasses(old(dag.tasks), dag.tasks, if mayStart < 1000 then mayStart else 1000)
      ensures Progress(old(dag.tasks), dag.tasks, log) && Answered(old(dag.tasks), dag.tasks, log)
      ensures success <==> dag.tasks != map[] && forall v :: v in dag.tasks ==> dag.tasks[v].status == Completed
    {
      log := PassLoop(if mayStart < 1000 then mayStart else 1000);
      var all := dag.AllCompleted();
      var failed := dag.HasFailure();
      success := all && !failed;
    }

    /** What `run` promises in terms of the graph: with all tasks pending and no early stop, it
        succeeds if and only if the graph is non-empty and no task is blocked for 1000 passes.
        In particular a non-empty graph of at most 1000 tasks succeeds if and only if it sorts. */
    method RunToTheEnd() returns (success: bool)
      requires inbox == [] && agentRoles != map[] && AllPending(dag.tasks)
      modifies dag, this`inbox
      ensures success <==> old(dag.tasks) != map[] && NoneBlocked(old(dag.tasks), 1000)
      ensures 0 < |old(dag.tasks)| <= 1000 ==> (success <==> Sortable(old(dag.tasks)))
    {
      SortPredictsScheduling(dag.tasks, 1000);
      ghost var log;
      success, log := Run(1000);
    }
  }
}
