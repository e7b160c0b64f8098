/** The accept loop of aesdsocket.c and its connection threads, interleaved in every possible way. */
module Reaper {
  import opened Links
  import SinglyLinkedList

  /** Connections are numbered in the order they are accepted; a number also names its node. */
  type Id = nat

  /** A connection's thread: it reads its node `work` more times, sets `thread_complete` there,
      then returns. */
  datatype Worker = Unborn | Running(work: nat) | Flagged | Returned

  /** Where the accept loop is. */
  datatype Pc =
    | Listening
    | Inserting(id: Id)
    | Preparing(id: Id)
    | Spawning(id: Id)
    | Scanning(at: nat)
    | Joining(id: Id)
    | Removing(id: Id)
    | Freeing(id: Id)

  /** `flags` is thread_complete of every node ever made, garbage until prepared. `joined`
      and `freed` record the calls in order; `before` is the list length when the last
      connection came in. */
  datatype Sys = Sys(
    pc: Pc, list: seq<Id>, flags: seq<bool>, workers: seq<Worker>,
    joined: seq<Id>, freed: seq<Id>, before: nat)

  ghost predicate Initial(s: Sys) {
    s == Sys(Listening, [], [], [], [], [], 0)
  }

  datatype Action =
    | Accept(garbage: bool) | Insert | Prepare | Spawn(ok: bool, work: nat) | Look | Join | Remove | Free
    | Touch(who: Id) | SetFlag(who: Id) | Return(who: Id)

  function Position(list: seq<Id>, id: Id): (i: nat)
    requires id in list
    ensures i < |list| && list[i] == id
  {
    if list[0] == id then 0 else 1 + Position(list[1..], id)
  }

  ghost predicate Step(s: Sys, s': Sys, a: Action) {
    match a
    case Accept(garbage) =>
      && s.pc.Listening?
      && s' == s.(pc := Inserting(|s.workers|), flags := s.flags + [garbage], workers := s.workers + [Unborn],
                  before := |s.list|)
    case Insert =>
      && s.pc.Inserting?
      && s' == s.(pc := Preparing(s.pc.id), list := [s.pc.id] + s.list)
    case Prepare =>
      && s.pc.Preparing? && s.pc.id < |s.flags|
      && s' == s.(pc := Spawning(s.pc.id), flags := s.flags[s.pc.id := false])
    case Spawn(ok, work) =>
      && s.pc.Spawning? && s.pc.id < |s.workers|
      && s' == s.(pc := Scanning(0), workers := if ok then s.workers[s.pc.id := Running(work)] else s.workers)
    case Look =>
      && s.pc.Scanning?
      && (s.pc.at < |s.list| ==> s.list[s.pc.at] < |s.flags|)
      && s' == s.(pc := if s.pc.at >= |s.list| then Listening
                        else if s.flags[s.list[s.pc.at]] then Joining(s.list[s.pc.at])
                        else Scanning(s.pc.at + 1))
    case Join =>
      && s.pc.Joining? && s.pc.id < |s.workers| && s.workers[s.pc.id].Returned?
      && s' == s.(pc := Removing(s.pc.id), joined := s.joined + [s.pc.id])
    case Remove =>
      && s.pc.Removing? && s.pc.id in s.list
      && s' == s.(pc := Freeing(s.pc.id), list := RemoveAt(s.list, Position(s.list, s.pc.id)))
    case Free =>
      && s.pc.Freeing?
      && s' == s.(pc := Listening, freed := s.freed + [s.pc.id])
    case Touch(who) =>
      && who < |s.workers| && s.workers[who].Running? && s.workers[who].work > 0
      && s' == s.(workers := s.workers[who := Running(s.workers[who].work - 1)])
    case SetFlag(who) =>
      && who < |s.workers| == |s.flags| && s.workers[who] == Running(0)
      && s' == s.(flags := s.flags[who := true], workers := s.workers[who := Flagged])
    case Return(who) =>
      && who < |s.workers| && s.workers[who].Flagged?
      && s' == s.(workers := s.workers[who := Returned])
  }

  ghost predicate Next(s: Sys, s': Sys) {
    exists a: Action :: Step(s, s', a)
  }

  ghost predicate Moves(run: seq<Sys>, i: nat)
    requires i + 1 < |run|
  {
    Next(run[i], run[i + 1])
  }

  ghost predicate Execution(run: seq<Sys>) {
    && run != [] && Initial(run[0])
    && forall i :: 0 <= i < |run| - 1 ==> Moves(run, i)
  }

  // ----- the invariant

  /** Nodes not (yet, or any more) on the list although accepted. */
  ghost predicate OffList(s: Sys, id: Id) {
    id in s.freed || s.pc == Inserting(id) || s.pc == Freeing(id)
  }

  ghost predicate Inv(s: Sys) {
    && |s.flags| == |s.workers|
    && Distinct(s.list) && Distinct(s.joined) && Distinct(s.freed)
    && (forall id: Id :: id in s.list <==> id < |s.workers| && !OffList(s, id))
    && (forall id: Id :: id in s.joined ==> id < |s.workers| && s.workers[id].Returned?)
    && (forall id: Id :: id in s.freed ==> id in s.joined)
    && (forall id: Id :: id in s.joined ==> id in s.freed || s.pc == Removing(id) || s.pc == Freeing(id))
    && (forall id: Id :: id < |s.workers| && (s.workers[id].Flagged? || s.workers[id].Returned?) ==> s.flags[id])
    && (forall id: Id :: id < |s.workers| && s.workers[id].Running? ==> !s.flags[id])
    && (forall id: Id :: id < |s.workers| && s.workers[id].Unborn? && s.flags[id] ==> s.pc == Inserting(id) || s.pc == Preparing(id))
    && (match s.pc
        case Listening => |s.list| == s.before || |s.list| == s.before + 1
        case Inserting(id) => Newest(s, id) && |s.list| == s.before && id !in s.joined
        case Preparing(id) => Newest(s, id) && |s.list| == s.before + 1
        case Spawning(id) => Newest(s, id) && |s.list| == s.before + 1 && !s.flags[id]
        case Scanning(_) => |s.list| == s.before + 1
        case Joining(id) => |s.list| == s.before + 1 && id in s.list && s.flags[id]
        case Removing(id) => |s.list| == s.before + 1 && id in s.list && id in s.joined
        case Freeing(id) => |s.list| == s.before && id in s.joined && id !in s.freed && id < |s.workers|)
  }

  /** The connection being set up: its thread has not started. */
  ghost predicate Newest(s: Sys, id: Id) {
    id < |s.workers| && s.workers[id].Unborn?
  }

  lemma {:induction false} InvAcceptor(s: Sys, s': Sys, a: Action)
    requires Inv(s) && Step(s, s', a) && (a.Accept? || a.Prepare? || a.Spawn? || a.Look?)
    ensures Inv(s')
  {
  }

  lemma {:induction false} InvInsert(s: Sys, s': Sys)
    requires Inv(s) && Step(s, s', Insert)
    ensures Inv(s')
  {
    assert s.pc.id !in s.list;
    assert forall i :: 0 <= i < |s.list| ==> s.list[i] in s.list;
    assert forall id: Id :: id in s'.list <==> id == s.pc.id || id in s.list;
  }

  lemma {:induction false} InvReap(s: Sys, s': Sys, a: Action)
    requires Inv(s) && Step(s, s', a) && (a.Join? || a.Free?)
    ensures Inv(s')
  {
  }

  lemma {:induction false} InvRemove(s: Sys, s': Sys)
    requires Inv(s) && Step(s, s', Remove)
    ensures Inv(s')
  {
    RemoveDistinct(s.list, Position(s.list, s.pc.id));
  }

  lemma {:induction false} InvWorker(s: Sys, s': Sys, a: Action)
    requires Inv(s) && Step(s, s', a) && (a.Touch? || a.SetFlag? || a.Return?)
    ensures Inv(s')
  {
  }

  lemma {:induction false} InvAlways(run: seq<Sys>, i: nat)
    requires Execution(run) && i < |run|
    ensures Inv(run[i])
    decreases i
  {
    if i > 0 {
      InvAlways(run, i - 1);
      assert Moves(run, i - 1);
      var a: Action :| Step(run[i - 1], run[i], a);
      if a.Touch? || a.SetFlag? || a.Return? {
        InvWorker(run[i - 1], run[i], a);
      } else if a.Insert? {
        InvInsert(run[i - 1], run[i]);
      } else if a.Remove? {
        InvRemove(run[i - 1], run[i]);
      } else if a.Join? || a.Free? {
        InvReap(run[i - 1], run[i], a);
      } else {
        InvAcceptor(run[i - 1], run[i], a);
      }
    }
  }

  // ----- safety

  /** Between iterations the list holds exactly the connections accepted and not yet freed, each once. */
  lemma {:induction false} ListIsAcceptedMinusReaped(run: seq<Sys>, i: nat)
    requires Execution(run) && i < |run|
    ensures Distinct(run[i].list)
    ensures run[i].pc.Listening? ==> forall id: Id :: id in run[i].list <==> id < |run[i].workers| && id !in run[i].freed
  {
    InvAlways(run, i);
  }

  /** No thread is joined twice, no node freed twice, and none is freed before its thread
      set the flag, returned and was joined. */
  lemma {:induction false} JoinedThenFreedOnce(run: seq<Sys>, i: nat)
    requires Execution(run) && i < |run|
    ensures Distinct(run[i].joined) && Distinct(run[i].freed)
    ensures forall id: Id :: id in run[i].freed ==>
              id in run[i].joined && id < |run[i].workers| == |run[i].flags| && run[i].workers[id].Returned? && run[i].flags[id]
  {
    InvAlways(run, i);
  }

  /** Neither the accept loop nor a thread ever touches a freed node. */
  lemma {:induction false} NoUseAfterFree(run: seq<Sys>, i: nat, s': Sys, a: Action)
    requires Execution(run) && i < |run| && Step(run[i], s', a)
    ensures a.Touch? || a.SetFlag? ==> a.who !in run[i].freed
    ensures a.Look? && run[i].pc.at < |run[i].list| ==> run[i].list[run[i].pc.at] !in run[i].freed
    ensures a.Insert? || a.Prepare? || a.Spawn? || a.Join? || a.Remove? || a.Free? ==> run[i].pc.id !in run[i].freed
    ensures a.Insert? || a.Look? || a.Remove? ==> forall k :: 0 <= k < |run[i].list| ==> run[i].list[k] !in run[i].freed
  {
    InvAlways(run, i);
    assert forall k :: 0 <= k < |run[i].list| ==> run[i].list[k] in run[i].list;
    if a.Look? && run[i].pc.at < |run[i].list| {
      assert run[i].list[run[i].pc.at] in run[i].list;
    }
  }

  /** A thread that is ready to join is always on the list, and the loop joins only such threads. */
  lemma {:induction false} JoinsOnlyCompleted(run: seq<Sys>, i: nat)
    requires Execution(run) && i < |run| && run[i].pc.Joining?
    ensures run[i].pc.id < |run[i].workers| && run[i].pc.id in run[i].list && run[i].pc.id !in run[i].joined
    ensures run[i].workers[run[i].pc.id].Flagged? || run[i].workers[run[i].pc.id].Returned?
  {
    InvAlways(run, i);
  }

  /** The loop never hangs: even while it waits in a join, the thread it waits for can go on. */
  lemma {:induction false} NoDeadlock(run: seq<Sys>, i: nat)
    requires Execution(run) && i < |run|
    ensures exists s': Sys :: Next(run[i], s')
  {
    InvAlways(run, i);
    var s := run[i];
    match s.pc
    case Listening =>
      Can(s, s.(pc := Inserting(|s.workers|), flags := s.flags + [false], workers := s.workers + [Unborn],
                before := |s.list|), Accept(false));
    case Inserting(id) => Can(s, s.(pc := Preparing(id), list := [id] + s.list), Insert);
    case Preparing(id) => Can(s, s.(pc := Spawning(id), flags := s.flags[id := false]), Prepare);
    case Spawning(id) => Can(s, s.(pc := Scanning(0), workers := s.workers[id := Running(0)]), Spawn(true, 0));
    case Scanning(at) =>
      if at < |s.list| {
        assert s.list[at] in s.list;
        Can(s, s.(pc := if s.flags[s.list[at]] then Joining(s.list[at]) else Scanning(at + 1)), Look);
      } else {
        Can(s, s.(pc := Listening), Look);
      }
    case Joining(id) =>
      if s.workers[id].Returned? {
        Can(s, s.(pc := Removing(id), joined := s.joined + [id]), Join);
      } else {
        Can(s, s.(workers := s.workers[id := Returned]), Return(id));
      }
    case Removing(id) => Can(s, s.(pc := Freeing(id), list := RemoveAt(s.list, Position(s.list, id))), Remove);
    case Freeing(id) => Can(s, s.(pc := Listening, freed := s.freed + [id]), Free);
  }

  lemma {:induction false} Can(s: Sys, s': Sys, a: Action)
    requires Step(s, s', a)
    ensures exists s': Sys :: Next(s, s')
  {
    assert Next(s, s');
  }

  /** The list length the next iteration starts from, should the current one reap. */
  function Floor(s: Sys): nat {
    if s.pc.Listening? then |s.list| else s.before
  }

  /** One iteration adds one node and reaps at most one, so between iterations the list never gets shorter. */
  lemma {:induction false} ListNeverShrinks(run: seq<Sys>, i: nat, j: nat)
    requires Execution(run) && i <= j < |run|
    ensures Floor(run[i]) <= Floor(run[j])
    ensures run[j].pc.Listening? ==> |run[j].list| == run[j].before || |run[j].list| == run[j].before + 1
    decreases j - i
  {
    if run[j].pc.Listening? {
      OneMore(run, j);
    }
    if i < j {
      ListNeverShrinks(run, i, j - 1);
      FloorNext(run, j - 1);
    }
  }

  lemma {:induction false} OneMore(run: seq<Sys>, j: nat)
    requires Execution(run) && j < |run| && run[j].pc.Listening?
    ensures |run[j].list| == run[j].before || |run[j].list| == run[j].before + 1
  {
    InvAlways(run, j);
  }

  lemma {:induction false} FloorNext(run: seq<Sys>, i: nat)
    requires Execution(run) && i + 1 < |run|
    ensures Floor(run[i]) <= Floor(run[i + 1])
  {
    InvAlways(run, i);
    assert Moves(run, i);
    FloorStep(run[i], run[i + 1]);
  }

  lemma {:induction false} FloorStep(s: Sys, s': Sys)
    requires Inv(s) && Next(s, s')
    ensures Floor(s) <= Floor(s')
  {
    var a: Action :| Step(s, s', a);
  }

  // ----- every iteration ends, and reaps

  /** What a thread has still to do. */
  function Work(w: Worker): nat {
    match w
    case Running(work) => work + 2
    case Flagged => 1
    case _ => 0
  }

  function AllWork(workers: seq<Worker>): nat {
    if workers == [] then 0 else Work(workers[0]) + AllWork(workers[1..])
  }

  lemma {:induction false} WorkUpdate(workers: seq<Worker>, id: Id, w: Worker)
    requires id < |workers|
    ensures AllWork(workers[id := w]) == AllWork(workers) - Work(workers[id]) + Work(w)
    decreases id
  {
    if id > 0 {
      assert workers[id := w][1..] == workers[1..][id - 1 := w];
      WorkUpdate(workers[1..], id - 1, w);
    } else {
      assert workers[id := w][1..] == workers[1..];
    }
  }

  /** The scan of an iteration and what follows it. */
  predicate Reaping(pc: Pc) {
    pc.Scanning? || pc.Joining? || pc.Removing? || pc.Freeing?
  }

  /** Steps the loop may still take in this iteration, its waiting not counted. */
  function LoopLeft(s: Sys): nat {
    match s.pc
    case Scanning(at) => 4 + if at < |s.list| then |s.list| - at else 0
    case Joining(_) => 3
    case Removing(_) => 2
    case Freeing(_) => 1
    case _ => 0
  }

  function Left(s: Sys): nat {
    LoopLeft(s) + AllWork(s.workers)
  }

  lemma {:induction false} LeftDrops(s: Sys, s': Sys)
    requires Next(s, s') && Reaping(s.pc)
    ensures Left(s') < Left(s) && (Reaping(s'.pc) || s'.pc.Listening?)
  {
    var a: Action :| Step(s, s', a);
    if a.Touch? || a.SetFlag? || a.Return? {
      WorkerLeft(s, s', a);
    } else {
      LoopDrops(s, s', a);
    }
  }

  lemma {:induction false} WorkerLeft(s: Sys, s': Sys, a: Action)
    requires Step(s, s', a) && (a.Touch? || a.SetFlag? || a.Return?)
    ensures AllWork(s'.workers) < AllWork(s.workers) && s'.pc == s.pc && s'.list == s.list
  {
    WorkUpdate(s.workers, a.who, s'.workers[a.who]);
  }

  lemma {:induction false} LoopDrops(s: Sys, s': Sys, a: Action)
    requires Step(s, s', a) && Reaping(s.pc) && !a.Touch? && !a.SetFlag? && !a.Return?
    ensures LoopLeft(s') < LoopLeft(s) && s'.workers == s.workers && (Reaping(s'.pc) || s'.pc.Listening?)
  {
  }

  /** States `i` to `j` of a run lie in one iteration, the last perhaps at its end. */
  ghost predicate OneIteration(run: seq<Sys>, i: nat, j: nat) {
    && Execution(run) && i <= j < |run|
    && forall m :: i <= m < j ==> !run[m].pc.Listening?
  }

  /** An iteration that has come to its scan ends: its steps and those of the threads are bounded. */
  lemma {:induction false} IterationEnds(run: seq<Sys>, i: nat, j: nat)
    requires OneIteration(run, i, j) && Reaping(run[i].pc)
    ensures j - i + Left(run[j]) <= Left(run[i])
    ensures Reaping(run[j].pc) || run[j].pc.Listening?
    decreases j
  {
    if i < j {
      IterationEnds(run, i, j - 1);
      assert Moves(run, j - 1);
      LeftDrops(run[j - 1], run[j]);
    }
  }

  /** The thread has set its flag. */
  predicate Complete(s: Sys, id: Id) {
    id < |s.workers| && (s.workers[id].Flagged? || s.workers[id].Returned?)
  }

  /** Which the scan sees. */
  lemma {:induction false} FlagSeen(run: seq<Sys>, i: nat, id: Id)
    requires Execution(run) && i < |run| && run[i].pc.Scanning? && id in run[i].list
    ensures id < |run[i].flags| && (run[i].flags[id] <==> Complete(run[i], id))
  {
    InvAlways(run, i);
  }

  /** Nothing taken off the list, joined or freed. */
  ghost predicate NoneReaped(s0: Sys, s: Sys) {
    s.list == s0.list && s.joined == s0.joined && s.freed == s0.freed
  }

  /** The connection at place `k` is the first whose thread was seen complete. */
  ghost predicate FirstComplete(s0: Sys, s: Sys, k: int) {
    && 0 <= k < |s0.list| && Complete(s, s0.list[k])
    && forall q :: 0 <= q < k ==> !Complete(s0, s0.list[q])
  }

  /** That one, and no other, was taken off, joined and freed. */
  ghost predicate Reaped(s0: Sys, s: Sys, k: int) {
    && FirstComplete(s0, s, k)
    && s.list == RemoveAt(s0.list, k) && s.joined == s0.joined + [s0.list[k]] && s.freed == s0.freed + [s0.list[k]]
  }

  /** How far an iteration that started its scan in `s0` has come in `s`. */
  ghost predicate Underway(s0: Sys, s: Sys) {
    && (forall id :: Complete(s0, id) ==> Complete(s, id))
    && match s.pc
       case Scanning(at) => NoneReaped(s0, s) && forall q :: 0 <= q < at && q < |s0.list| ==> !Complete(s0, s0.list[q])
       case Joining(id) => NoneReaped(s0, s) && id in s0.list && FirstComplete(s0, s, Position(s0.list, id))
       case Removing(id) =>
         && id in s0.list && FirstComplete(s0, s, Position(s0.list, id))
         && s.list == s0.list && s.joined == s0.joined + [id] && s.freed == s0.freed
       case Freeing(id) =>
         && id in s0.list && FirstComplete(s0, s, Position(s0.list, id))
         && s.list == RemoveAt(s0.list, Position(s0.list, id)) && s.joined == s0.joined + [id] && s.freed == s0.freed
       case Listening => Ended(s0, s)
       case _ => false
  }

  /** Either no thread on the list was complete at the start, and none is reaped, or exactly one is. */
  ghost predicate Ended(s0: Sys, s: Sys) {
    || (NoneReaped(s0, s) && forall id :: id in s0.list ==> !Complete(s0, id))
    || exists k :: Reaped(s0, s, k)
  }

  lemma {:induction false} UnderwayStep(s0: Sys, s: Sys, s': Sys)
    requires Inv(s) && Next(s, s') && Underway(s0, s) && !s.pc.Listening?
    ensures Underway(s0, s')
  {
    var a: Action :| Step(s, s', a);
    if a.Look? {
      LookStep(s0, s, s');
    } else if a.Touch? || a.SetFlag? || a.Return? {
      WorkerStep(s0, s, s', a);
    } else {
      ReapStep(s0, s, s', a);
    }
  }

  lemma {:induction false} WorkerStep(s0: Sys, s: Sys, s': Sys, a: Action)
    requires Step(s, s', a) && (a.Touch? || a.SetFlag? || a.Return?)
    requires Underway(s0, s) && !s.pc.Listening?
    ensures Underway(s0, s')
  {
    WorkerFrame(s, s', a);
    UnderwayCarried(s0, s, s');
  }

  /** The loop stays where it is, and who was complete still is. */
  ghost predicate Carried(s: Sys, s': Sys) {
    && s'.pc == s.pc && s'.list == s.list && s'.joined == s.joined && s'.freed == s.freed
    && forall id :: Complete(s, id) ==> Complete(s', id)
  }

  lemma {:induction false} WorkerFrame(s: Sys, s': Sys, a: Action)
    requires Step(s, s', a) && (a.Touch? || a.SetFlag? || a.Return?)
    ensures Carried(s, s')
  {
  }

  lemma {:induction false} UnderwayCarried(s0: Sys, s: Sys, s': Sys)
    requires Underway(s0, s) && Carried(s, s') && !s.pc.Listening?
    ensures Underway(s0, s')
  {
  }

  lemma {:induction false} ReapStep(s0: Sys, s: Sys, s': Sys, a: Action)
    requires Step(s, s', a) && !a.Look? && !a.Touch? && !a.SetFlag? && !a.Return?
    requires Underway(s0, s) && !s.pc.Listening?
    ensures Underway(s0, s')
  {
    if a.Free? {
      assert Reaped(s0, s', Position(s0.list, s.pc.id));
    }
  }

  lemma {:induction false} LookStep(s0: Sys, s: Sys, s': Sys)
    requires Inv(s) && Step(s, s', Look) && Underway(s0, s)
    ensures Underway(s0, s')
  {
    var at := s.pc.at;
    if at < |s.list| {
      var id := s.list[at];
      assert id in s.list;
      assert s.flags[id] <==> Complete(s, id);
      if s.flags[id] {
        assert s.list[Position(s.list, id)] == s.list[at];
        assert Position(s.list, id) == at;
      }
    } else {
      forall id | id in s0.list
        ensures !Complete(s0, id)
      {
        assert s0.list[Position(s0.list, id)] == id;
      }
    }
  }

  lemma {:induction false} UnderwayAlways(run: seq<Sys>, i: nat, j: nat)
    requires OneIteration(run, i, j) && run[i].pc == Scanning(0)
    ensures Underway(run[i], run[j])
    decreases j
  {
    if i < j {
      UnderwayAlways(run, i, j - 1);
      UnderwayNext(run, run[i], j - 1);
    } else {
      UnderwayFirst(run[i]);
    }
  }

  lemma {:induction false} UnderwayFirst(s: Sys)
    requires s.pc == Scanning(0)
    ensures Underway(s, s)
  {
  }

  lemma {:induction false} UnderwayNext(run: seq<Sys>, s0: Sys, i: nat)
    requires Execution(run) && i + 1 < |run| && Underway(s0, run[i]) && !run[i].pc.Listening?
    ensures Underway(s0, run[i + 1])
  {
    InvAlways(run, i);
    assert Moves(run, i);
    UnderwayStep(s0, run[i], run[i + 1]);
  }

  /** An iteration reaps exactly one connection if any thread on the list had completed when its
      scan began, the first on the list whose thread it sees complete; and none unless it
      sees one. */
  lemma {:induction false} ReapsOne(run: seq<Sys>, i: nat, j: nat)
    requires OneIteration(run, i, j) && run[i].pc == Scanning(0) && run[j].pc.Listening?
    ensures Ended(run[i], run[j])
    ensures (exists id :: id in run[i].list && Complete(run[i], id)) ==> |run[j].freed| == |run[i].freed| + 1
    ensures (forall id :: id in run[i].list ==> !Complete(run[j], id)) ==> run[j].freed == run[i].freed
  {
    UnderwayAlways(run, i, j);
    if k :| Reaped(run[i], run[j], k) {
      assert run[i].list[k] in run[i].list;
    }
  }

  /** Between an accept in `s0` and the scan: the new node comes on the list, nothing else. */
  ghost predicate Setup(s0: Sys, s: Sys, id: Id) {
    && s.joined == s0.joined && s.freed == s0.freed
    && (forall x :: Complete(s0, x) ==> Complete(s, x))
    && match s.pc
       case Inserting(x) => x == id && s.list == s0.list
       case Preparing(x) => x == id && s.list == [id] + s0.list
       case Spawning(x) => x == id && s.list == [id] + s0.list
       case _ => false
  }

  /** And the scan begins with the new node. */
  ghost predicate Begins(s0: Sys, s: Sys, id: Id) {
    && s.pc == Scanning(0) && s.list == [id] + s0.list && s.joined == s0.joined && s.freed == s0.freed
    && forall x :: Complete(s0, x) ==> Complete(s, x)
  }

  lemma {:induction false} SetupStep(s0: Sys, s: Sys, s': Sys, id: Id)
    requires Next(s, s') && Setup(s0, s, id) && id < |s.workers| && s.workers[id].Unborn?
    ensures Setup(s0, s', id) || Begins(s0, s', id)
  {
    var a: Action :| Step(s, s', a);
    if a.Touch? || a.SetFlag? || a.Return? {
      WorkerFrame(s, s', a);
    } else {
      SetupMoves(s, s', a, id);
    }
  }

  lemma {:induction false} SetupMoves(s: Sys, s': Sys, a: Action, id: Id)
    requires Step(s, s', a) && !a.Touch? && !a.SetFlag? && !a.Return?
    requires s.pc == Inserting(id) || s.pc == Preparing(id) || s.pc == Spawning(id)
    requires id < |s.workers| && s.workers[id].Unborn?
    ensures s'.joined == s.joined && s'.freed == s.freed
    ensures forall x :: Complete(s, x) ==> Complete(s', x)
    ensures s'.list == if s.pc.Inserting? then [id] + s.list else s.list
    ensures s'.pc == if s.pc.Inserting? then Preparing(id) else if s.pc.Preparing? then Spawning(id) else Scanning(0)
  {
  }

  /** Every iteration comes to its scan. */
  lemma {:induction false} ScanBegins(run: seq<Sys>, i: nat, j: nat) returns (m: nat)
    requires OneIteration(run, i, j) && run[i].pc.Inserting?
    ensures i <= m <= j && ((m == j && Setup(run[i], run[j], run[i].pc.id)) || Begins(run[i], run[m], run[i].pc.id))
    decreases j
  {
    if i == j {
      m := j;
    } else {
      m := ScanBegins(run, i, j - 1);
      if !Begins(run[i], run[m], run[i].pc.id) {
        SetupNext(run, run[i], j - 1, run[i].pc.id);
        m := j;
      }
    }
  }

  lemma {:induction false} SetupNext(run: seq<Sys>, s0: Sys, i: nat, id: Id)
    requires Execution(run) && i + 1 < |run| && Setup(s0, run[i], id)
    ensures Setup(s0, run[i + 1], id) || Begins(s0, run[i + 1], id)
  {
    InvAlways(run, i);
    assert Moves(run, i);
    SetupStep(s0, run[i], run[i + 1], id);
  }

  /** From the accept of a connection to the next: exactly one connection is reaped if the thread
      of any on the list had completed, and none unless one has by the end. */
  lemma {:induction false} IterationReaps(run: seq<Sys>, i: nat, j: nat)
    requires OneIteration(run, i, j) && run[i].pc.Inserting? && run[j].pc.Listening?
    ensures (exists id :: id in run[i].list && Complete(run[i], id)) ==> |run[j].freed| == |run[i].freed| + 1
    ensures (forall id :: id in [run[i].pc.id] + run[i].list ==> !Complete(run[j], id)) ==> run[j].freed == run[i].freed
  {
    var m := ScanBegins(run, i, j);
    ReapsOne(run, m, j);
    if id :| id in run[i].list && Complete(run[i], id) {
      assert id in run[m].list && Complete(run[m], id);
    }
  }

  /** The list runs from the newest connection to the oldest. */
  ghost predicate Descending(s: Sys) {
    && (forall p, q :: 0 <= p < q < |s.list| ==> s.list[p] > s.list[q])
    && (s.pc.Inserting? ==> forall p :: 0 <= p < |s.list| ==> s.list[p] < s.pc.id)
  }

  ghost predicate Listed(s: Sys) {
    forall p :: 0 <= p < |s.list| ==> s.list[p] < |s.workers|
  }

  lemma {:induction false} AllListed(s: Sys)
    requires Inv(s)
    ensures Listed(s)
  {
    forall p | 0 <= p < |s.list|
      ensures s.list[p] < |s.workers|
    {
      assert s.list[p] in s.list;
    }
  }

  lemma {:induction false} DescendingStep(s: Sys, s': Sys)
    requires Listed(s) && Next(s, s') && Descending(s)
    ensures Descending(s')
  {
    var a: Action :| Step(s, s', a);
    if a.Remove? {
      DescendingWithout(s.list, Position(s.list, s.pc.id));
    } else if a.Insert? {
      DescendingInsert(s, s');
    } else {
      ListKept(s, s', a);
    }
  }

  lemma {:induction false} ListKept(s: Sys, s': Sys, a: Action)
    requires Step(s, s', a) && !a.Insert? && !a.Remove?
    ensures s'.list == s.list && (s'.pc.Inserting? ==> s'.pc == s.pc || s'.pc.id == |s.workers|)
  {
  }

  lemma {:induction false} DescendingInsert(s: Sys, s': Sys)
    requires Step(s, s', Insert) && Descending(s)
    ensures Descending(s')
  {
  }

  lemma {:induction false} DescendingWithout(list: seq<Id>, i: nat)
    requires i < |list| && forall p, q :: 0 <= p < q < |list| ==> list[p] > list[q]
    ensures forall p, q :: 0 <= p < q < |RemoveAt(list, i)| ==> RemoveAt(list, i)[p] > RemoveAt(list, i)[q]
  {
  }

  /** So of several completed ones the newest goes first. */
  lemma {:induction false} NewestFirst(run: seq<Sys>, i: nat)
    requires Execution(run) && i < |run|
    ensures Descending(run[i])
    decreases i
  {
    if i > 0 {
      NewestFirst(run, i - 1);
      InvAlways(run, i - 1);
      AllListed(run[i - 1]);
      assert Moves(run, i - 1);
      DescendingStep(run[i - 1], run[i]);
    }
  }

  // ----- one iteration on the linked list itself

  /** Inserts the new node and takes out the first completed one, if any. `complete`
      holds the nodes whose flag reads true when the scan gets there. */
  method InsertAndReap(head: Link, node: Link, complete: set<Link>, ghost c: seq<Link>)
    returns (reaped: Link?, ghost left: seq<Link>)
    requires SinglyLinkedList.IsList(c) && c[0] == head && node !in c
    modifies c, node
    ensures SinglyLinkedList.IsList(left)
    ensures reaped == null ==>
              left == InsertAt(c, 1, node) && forall i :: 1 <= i < |left| ==> left[i] !in complete
    ensures reaped != null ==>
              exists i :: && 1 <= i < |c| + 1
                          && InsertAt(c, 1, node)[i] == reaped && reaped in complete
                          && left == RemoveAt(InsertAt(c, 1, node), i)
                          && forall k :: 1 <= k < i ==> InsertAt(c, 1, node)[k] !in complete
  {
    SinglyLinkedList.InsertHead(head, node, c);
    left := InsertAt(c, 1, node);
    reaped := null;
    assert left[0] == head && left[0].fwd == if 1 < |left| then left[1] else null;
    var connectionData := head.fwd;
    ghost var at := 1;
    while connectionData != null
      invariant 1 <= at <= |left|
      invariant connectionData == if at < |left| then left[at] else null
      invariant forall k :: 1 <= k < at ==> left[k] !in complete
      decreases |left| - at
    {
      if connectionData in complete {
        SinglyLinkedList.Remove(head, connectionData, left, at);
        reaped := connectionData;
        left := RemoveAt(left, at);
        return;
      }
      connectionData := connectionData.fwd;
      at := at + 1;
    }
  }
}
