/**
 * The per-distro task queue store: one ordered task list and one summary
 * per distro, saved wholesale, loaded back as saved, emptied per distro, and
 * shrunk by dequeuing a task id; and the detector of tasks enqueued in more
 * than one distro's queue.
 *
 * The store is sequential here. Its contents are a map from distro id to
 * the stored queue; the store's methods are specified by pure functions on
 * that map, and the properties of those functions are the lemmas below.
 */
module TaskQueues {
  import opened Wrappers

  datatype TaskQueueItem = TaskQueueItem(id: string, dependencies: seq<string>)

  datatype TaskGroupInfo = TaskGroupInfo(name: string, count: int, expectedDuration: int)

  /** The summary saved beside a queue; it is stored as given, not derived from the items. */
  datatype DistroQueueInfo = DistroQueueInfo(length: int, taskGroupInfos: seq<TaskGroupInfo>)

  /** The document stored for one distro. */
  datatype StoredQueue = StoredQueue(queue: seq<TaskQueueItem>, distroQueueInfo: DistroQueueInfo)

  /** The stored documents, keyed by distro id. */
  type Queues = map<string, StoredQueue>

  // ---------------------------------------------------------------------
  // Removing every occurrence of a task id
  // ---------------------------------------------------------------------

  /** The queue without any item whose id is the given one. */
  function RemoveTask(q: seq<TaskQueueItem>, id: string): (r: seq<TaskQueueItem>)
    ensures |r| <= |q|
    ensures forall x :: x in r <==> x in q && x.id != id
  {
    if q == [] then []
    else (if q[0].id == id then [] else [q[0]]) + RemoveTask(q[1..], id)
  }

  /** Removing from a concatenation removes from each part and keeps the parts in order. */
  lemma {:induction false} RemoveTaskConcat(a: seq<TaskQueueItem>, b: seq<TaskQueueItem>, id: string)
    ensures RemoveTask(a + b, id) == RemoveTask(a, id) + RemoveTask(b, id)
  {
    if a == [] {
      assert a + b == b;
    } else {
      assert (a + b)[0] == a[0];
      assert (a + b)[1..] == a[1..] + b;
      RemoveTaskConcat(a[1..], b, id);
    }
  }

  /** Dequeuing an id that is not in the queue leaves the queue as it is. */
  lemma {:induction false} RemoveAbsentTask(q: seq<TaskQueueItem>, id: string)
    requires forall k :: 0 <= k < |q| ==> q[k].id != id
    ensures RemoveTask(q, id) == q
  {
    if q != [] {
      RemoveAbsentTask(q[1..], id);
    }
  }

  /** Dequeuing twice is dequeuing once. */
  lemma RemoveTaskIdempotent(q: seq<TaskQueueItem>, id: string)
    ensures RemoveTask(RemoveTask(q, id), id) == RemoveTask(q, id)
  {
    var r := RemoveTask(q, id);
    assert forall k :: 0 <= k < |r| ==> r[k].id != id by {
      forall k | 0 <= k < |r| ensures r[k].id != id {
        assert r[k] in r;
      }
    }
    RemoveAbsentTask(r, id);
  }

  /** Two dequeues give the same queue in either order. */
  lemma {:induction false} RemoveTaskCommutes(q: seq<TaskQueueItem>, a: string, b: string)
    ensures RemoveTask(RemoveTask(q, a), b) == RemoveTask(RemoveTask(q, b), a)
  {
    if q != [] {
      RemoveTaskCommutes(q[1..], a, b);
      var head := [q[0]];
      assert q == head + q[1..];
      RemoveTaskConcat(head, q[1..], a);
      RemoveTaskConcat(head, q[1..], b);
      RemoveTaskConcat(RemoveTask(head, a), RemoveTask(q[1..], a), b);
      RemoveTaskConcat(RemoveTask(head, b), RemoveTask(q[1..], b), a);
    }
  }

  /** The number of items with the id. */
  function Occurrences(q: seq<TaskQueueItem>, id: string): nat {
    if q == [] then 0 else (if q[0].id == id then 1 else 0) + Occurrences(q[1..], id)
  }

  /** Every item with another id keeps its multiplicity; items with the id are all gone. */
  lemma {:induction false} RemoveTaskMultiset(q: seq<TaskQueueItem>, id: string)
    ensures forall x: TaskQueueItem :: x.id != id ==> multiset(RemoveTask(q, id))[x] == multiset(q)[x]
    ensures forall x: TaskQueueItem :: x.id == id ==> multiset(RemoveTask(q, id))[x] == 0
  {
    if q != [] {
      RemoveTaskMultiset(q[1..], id);
      var head := if q[0].id == id then [] else [q[0]];
      assert q == [q[0]] + q[1..];
      assert multiset(q) == multiset([q[0]]) + multiset(q[1..]);
      assert multiset(RemoveTask(q, id)) == multiset(head) + multiset(RemoveTask(q[1..], id));
    }
  }

  /** Dequeuing shortens the queue by exactly the number of items with the id. */
  lemma {:induction false} RemoveTaskLength(q: seq<TaskQueueItem>, id: string)
    ensures |RemoveTask(q, id)| == |q| - Occurrences(q, id)
  {
    if q != [] {
      RemoveTaskLength(q[1..], id);
    }
  }

  /** The behaviours the dequeue tests pin down, item by item. */
  lemma DequeueExamples()
    ensures RemoveTask([], "t1") == []
    ensures RemoveTask([TaskQueueItem("t2", [])], "t1") == [TaskQueueItem("t2", [])]
    ensures RemoveTask([TaskQueueItem("t1", []), TaskQueueItem("t2", []), TaskQueueItem("t3", [])], "t2") ==
              [TaskQueueItem("t1", []), TaskQueueItem("t3", [])]
    ensures RemoveTask([TaskQueueItem("t1", []), TaskQueueItem("t2", []), TaskQueueItem("t1", [])], "t1") ==
              [TaskQueueItem("t2", [])]
  {
  }

  // ---------------------------------------------------------------------
  // The store's operations on its contents
  // ---------------------------------------------------------------------

  /** Saving replaces the distro's document wholesale. */
  function Saved(qs: Queues, distro: string, queue: seq<TaskQueueItem>, info: DistroQueueInfo): Queues {
    qs[distro := StoredQueue(queue, info)]
  }

  /** Dequeuing pulls every item with the id from the stored queue of the distro, if it has one. */
  function Dequeued(qs: Queues, distro: string, id: string): Queues {
    if distro in qs then qs[distro := qs[distro].(queue := RemoveTask(qs[distro].queue, id))] else qs
  }

  /** Clearing empties the stored queue of the distro, if it has one. */
  function Cleared(qs: Queues, distro: string): Queues {
    if distro in qs then qs[distro := qs[distro].(queue := [])] else qs
  }

  function Loaded(qs: Queues, distro: string): Option<StoredQueue> {
    if distro in qs then Some(qs[distro]) else None
  }

  function QueueInfo(qs: Queues, distro: string): Option<DistroQueueInfo> {
    if distro in qs then Some(qs[distro].distroQueueInfo) else None
  }

  /** A saved queue loads back as saved, items in order with their dependencies, summary as given; other distros are untouched. */
  lemma LoadAfterSave(qs: Queues, distro: string, other: string, queue: seq<TaskQueueItem>, info: DistroQueueInfo)
    requires other != distro
    ensures Loaded(Saved(qs, distro, queue, info), distro) == Some(StoredQueue(queue, info))
    ensures QueueInfo(Saved(qs, distro, queue, info), distro) == Some(info)
    ensures Loaded(Saved(qs, distro, queue, info), other) == Loaded(qs, other)
  {
  }

  /** The summary is not recomputed: a summary of length eight comes back beside three items. */
  lemma SummaryIsStoredVerbatim(qs: Queues)
    ensures var info := DistroQueueInfo(8, [TaskGroupInfo("taskGroupInfo1", 8, 2600127105386)]);
      var items := [TaskQueueItem("a", []), TaskQueueItem("b", []), TaskQueueItem("c", [])];
      QueueInfo(Saved(qs, "distro1", items, info), "distro1") == Some(info) &&
      QueueInfo(Saved(qs, "distro1", items, info), "distro1").value.length != |items|
  {
  }

  /** Clearing a distro empties its items, keeps its summary, and leaves every other distro's document as it was. */
  lemma ClearTouchesOneDistro(qs: Queues, distro: string)
    ensures distro in qs ==> Loaded(Cleared(qs, distro), distro) == Some(StoredQueue([], qs[distro].distroQueueInfo))
    ensures distro !in qs ==> Cleared(qs, distro) == qs
    ensures Cleared(qs, distro).Keys == qs.Keys
    ensures forall other :: other != distro ==> Loaded(Cleared(qs, distro), other) == Loaded(qs, other)
  {
  }

  /** Dequeuing an id no stored item of the distro has leaves the whole store as it was. */
  lemma DequeueAbsentIsNoop(qs: Queues, distro: string, id: string)
    requires distro in qs ==> forall k :: 0 <= k < |qs[distro].queue| ==> qs[distro].queue[k].id != id
    ensures Dequeued(qs, distro, id) == qs
  {
    if distro in qs {
      RemoveAbsentTask(qs[distro].queue, id);
      assert qs[distro].(queue := qs[distro].queue) == qs[distro];
    }
  }

  /** Dequeuing is idempotent, so a retried dequeue is harmless. */
  lemma DequeueIdempotent(qs: Queues, distro: string, id: string)
    ensures Dequeued(Dequeued(qs, distro, id), distro, id) == Dequeued(qs, distro, id)
  {
    if distro in qs {
      RemoveTaskIdempotent(qs[distro].queue, id);
    }
  }

  /** Dequeuing touches only the distro's items: its summary and every other distro stay the same. */
  lemma DequeueTouchesOneQueue(qs: Queues, distro: string, id: string)
    ensures Dequeued(qs, distro, id).Keys == qs.Keys
    ensures distro in qs ==> Dequeued(qs, distro, id)[distro].distroQueueInfo == qs[distro].distroQueueInfo
    ensures forall other :: other != distro ==> Loaded(Dequeued(qs, distro, id), other) == Loaded(qs, other)
  {
  }

  // ---------------------------------------------------------------------
  // Tasks enqueued in more than one distro
  // ---------------------------------------------------------------------

  /** The ids in a queue. */
  function Ids(q: seq<TaskQueueItem>): set<string> {
    set k | 0 <= k < |q| :: q[k].id
  }

  /** Every (task id, distro id) pair of the stored queues, with repeats inside one queue merged. */
  function Unwind(qs: Queues): set<(string, string)> {
    set d, t | d in qs && t in Ids(qs[d].queue) :: (t, d)
  }

  function TaskIdsOf(pairs: set<(string, string)>): set<string> {
    set p | p in pairs :: p.0
  }

  function DistrosOf(pairs: set<(string, string)>, t: string): set<string> {
    set p | p in pairs && p.0 == t :: p.1
  }

  /** The distros of each task id among the pairs. */
  function GroupByTask(pairs: set<(string, string)>): map<string, set<string>> {
    map t | t in TaskIdsOf(pairs) :: DistrosOf(pairs, t)
  }

  /** The task ids found in at least two distinct distros' queues, each with the set of those distros. */
  function FindDuplicateEnqueuedTasks(qs: Queues): map<string, set<string>> {
    var groups := GroupByTask(Unwind(qs));
    map t | t in groups && |groups[t]| > 1 :: groups[t]
  }

  /** Whether some item of the queue has the id. */
  predicate Enqueued(q: seq<TaskQueueItem>, t: string) {
    exists k :: 0 <= k < |q| && q[k].id == t
  }

  /** The distros whose stored queue holds the task: the reference the detector is checked against. */
  function DistrosContaining(qs: Queues, t: string): set<string> {
    set d | d in qs && Enqueued(qs[d].queue, t)
  }

  /** The detector reports a task exactly when it is in two or more distinct queues, with exactly those queues' distros. */
  lemma DuplicatesExact(qs: Queues, t: string)
    ensures t in FindDuplicateEnqueuedTasks(qs) <==> |DistrosContaining(qs, t)| >= 2
    ensures t in FindDuplicateEnqueuedTasks(qs) ==> FindDuplicateEnqueuedTasks(qs)[t] == DistrosContaining(qs, t)
  {
    var pairs := Unwind(qs);
    var groups := GroupByTask(pairs);
    var ds := DistrosContaining(qs, t);
    assert t in groups ==> groups[t] == ds by {
      if t in groups {
        forall d | d in groups[t] ensures d in ds {
          var p :| p in pairs && p.0 == t && p.1 == d;
          var k :| 0 <= k < |qs[d].queue| && qs[d].queue[k].id == t;
        }
        forall d | d in ds ensures d in groups[t] {
          var k :| 0 <= k < |qs[d].queue| && qs[d].queue[k].id == t;
          assert t in Ids(qs[d].queue);
          assert (t, d) in pairs;
        }
      }
    }
    if ds != {} {
      var d :| d in ds;
      var k :| 0 <= k < |qs[d].queue| && qs[d].queue[k].id == t;
      assert t in Ids(qs[d].queue);
      assert (t, d) in pairs;
      assert t in groups;
    }
  }

  /** A set with at most one element has no two distinct elements. */
  lemma AtMostOne(s: set<string>)
    requires forall a, b :: a in s && b in s ==> a == b
    ensures |s| <= 1
  {
    if s != {} {
      var a :| a in s;
      assert s == {a};
    }
  }

  /** Repeats of a task inside one queue are not duplicates: a store of one queue reports nothing. */
  lemma SingleQueueHasNoDuplicates(qs: Queues, distro: string)
    requires qs.Keys == {distro}
    ensures FindDuplicateEnqueuedTasks(qs) == map[]
  {
    forall t ensures t !in FindDuplicateEnqueuedTasks(qs) {
      DuplicatesExact(qs, t);
      AtMostOne(DistrosContaining(qs, t));
    }
  }

  /** Queues that share no task id report nothing. */
  lemma DisjointQueuesHaveNoDuplicates(qs: Queues)
    requires forall d, e, t :: d in qs && e in qs && d != e && Enqueued(qs[d].queue, t) ==> !Enqueued(qs[e].queue, t)
    ensures FindDuplicateEnqueuedTasks(qs) == map[]
  {
    forall t ensures t !in FindDuplicateEnqueuedTasks(qs) {
      DuplicatesExact(qs, t);
      AtMostOne(DistrosContaining(qs, t));
    }
  }

  /** An empty queue contributes nothing: dropping it from the store changes no report. */
  lemma EmptyQueueContributesNothing(qs: Queues, distro: string)
    requires distro in qs && qs[distro].queue == []
    ensures FindDuplicateEnqueuedTasks(qs) == FindDuplicateEnqueuedTasks(qs - {distro})
  {
    assert Unwind(qs) == Unwind(qs - {distro}) by {
      assert Ids(qs[distro].queue) == {};
    }
  }

  /** A queue of items with the given ids and no dependencies. */
  function QueueOf(ids: seq<string>): seq<TaskQueueItem> {
    seq(|ids|, k requires 0 <= k < |ids| => TaskQueueItem(ids[k], []))
  }

  lemma EnqueuedInQueueOf(ids: seq<string>, t: string)
    ensures Enqueued(QueueOf(ids), t) <==> t in ids
  {
    if t in ids {
      var k :| 0 <= k < |ids| && ids[k] == t;
      assert QueueOf(ids)[k].id == t;
    }
  }

  /** The store of the cross-queue duplicates test: three queues sharing task1 (two of them) and task3 (all three). */
  function ThreeQueues(info: DistroQueueInfo): Queues {
    map["d1" := StoredQueue(QueueOf(["task1", "task2", "task3"]), info),
        "d2" := StoredQueue(QueueOf(["task1", "task3", "task4", "task5", "task6"]), info),
        "d3" := StoredQueue(QueueOf(["task3"]), info)]
  }

  lemma ThreeQueuesDistros(info: DistroQueueInfo, t: string)
    ensures t == "task1" ==> DistrosContaining(ThreeQueues(info), t) == {"d1", "d2"}
    ensures t == "task3" ==> DistrosContaining(ThreeQueues(info), t) == {"d1", "d2", "d3"}
    ensures t != "task1" && t != "task3" ==> |DistrosContaining(ThreeQueues(info), t)| <= 1
  {
    var qs := ThreeQueues(info);
    var ids1, ids2, ids3 := ["task1", "task2", "task3"], ["task1", "task3", "task4", "task5", "task6"], ["task3"];
    EnqueuedInQueueOf(ids1, t);
    EnqueuedInQueueOf(ids2, t);
    EnqueuedInQueueOf(ids3, t);
    var ds := DistrosContaining(qs, t);
    if t == "task1" {
      assert ds == {"d1", "d2"};
    } else if t == "task3" {
      assert ds == {"d1", "d2", "d3"};
    } else if t == "task2" {
      assert ds == {"d1"};
    } else if t in ["task4", "task5", "task6"] {
      assert ds == {"d2"};
    } else {
      assert ds == {};
    }
  }

  /** The cross-queue test's store reports exactly task1 in d1 and d2, and task3 in all three. */
  lemma DuplicatesAcrossThreeQueues(info: DistroQueueInfo)
    ensures FindDuplicateEnqueuedTasks(ThreeQueues(info)) == map["task1" := {"d1", "d2"}, "task3" := {"d1", "d2", "d3"}]
  {
    var qs := ThreeQueues(info);
    var expected := map["task1" := {"d1", "d2"}, "task3" := {"d1", "d2", "d3"}];
    var r := FindDuplicateEnqueuedTasks(qs);
    forall t ensures t in r <==> t in expected {
      DuplicatesExact(qs, t);
      ThreeQueuesDistros(info, t);
    }
    forall t | t in r ensures r[t] == expected[t] {
      DuplicatesExact(qs, t);
      ThreeQueuesDistros(info, t);
    }
  }

  // ---------------------------------------------------------------------
  // The store and the in-memory queue
  // ---------------------------------------------------------------------

  /** The task queues collection. */
  class TaskQueueStore {
    var queues: Queues

    constructor ()
      ensures queues == map[]
    {
      queues := map[];
    }

    method ClearTaskQueue(distro: string)
      modifies this
      ensures queues == Cleared(old(queues), distro)
    {
      if distro in queues {
        queues := queues[distro := queues[distro].(queue := [])];
      }
    }

    /** The distro's queue as stored, or null when the distro has none. */
    method LoadTaskQueue(distro: string) returns (tq: TaskQueue?)
      ensures tq == null <==> Loaded(queues, distro) == None
      ensures tq != null ==> (fresh(tq) && tq.distro == distro &&
        Loaded(queues, distro) == Some(StoredQueue(tq.queue, tq.distroQueueInfo)))
    {
      if distro !in queues {
        return null;
      }
      tq := new TaskQueue.NewTaskQueue(distro, queues[distro].queue, queues[distro].distroQueueInfo);
    }

    /** Only the summary of the distro's queue. */
    method GetDistroQueueInfo(distro: string) returns (info: Option<DistroQueueInfo>)
      ensures info == QueueInfo(queues, distro)
    {
      if distro !in queues {
        return None;
      }
      return Some(queues[distro].distroQueueInfo);
    }
  }

  /** A distro's queue held in memory. */
  class TaskQueue {
    var distro: string
    var queue: seq<TaskQueueItem>
    var distroQueueInfo: DistroQueueInfo

    constructor NewTaskQueue(distro: string, queue: seq<TaskQueueItem>, info: DistroQueueInfo)
      ensures this.distro == distro && this.queue == queue && this.distroQueueInfo == info
    {
      this.distro := distro;
      this.queue := queue;
      this.distroQueueInfo := info;
    }

    function Length(): nat
      reads this
    {
      |queue|
    }

    method Save(store: TaskQueueStore)
      modifies store
      ensures store.queues == Saved(old(store.queues), distro, queue, distroQueueInfo)
    {
      store.queues := store.queues[distro := StoredQueue(queue, distroQueueInfo)];
    }

    /** Removes every item with the id, in memory and in the store; never fails. */
    method DequeueTask(store: TaskQueueStore, taskId: string)
      modifies this, store
      ensures queue == RemoveTask(old(queue), taskId)
      ensures distro == old(distro) && distroQueueInfo == old(distroQueueInfo)
      ensures store.queues == Dequeued(old(store.queues), distro, taskId)
      ensures old(distro in store.queues && store.queues[distro].queue == queue) ==>
        distro in store.queues && store.queues[distro].queue == queue
    {
      queue := RemoveTask(queue, taskId);
      if distro in store.queues {
        store.queues := store.queues[distro := store.queues[distro].(queue := RemoveTask(store.queues[distro].queue, taskId))];
      }
    }
  }

  // ---------------------------------------------------------------------
  // The tests' scenarios, from the contracts alone
  // ---------------------------------------------------------------------

  method DequeueNotStoredScenario() {
    var t1, t2 := TaskQueueItem("t1", []), TaskQueueItem("t2", []);
    DequeueExamples();
    var store := new TaskQueueStore();
    // An id that is in memory but not stored is still dequeued without failing.
    var tq := new TaskQueue.NewTaskQueue("d1", [t2], DistroQueueInfo(0, []));
    tq.Save(store);
    tq.queue := tq.queue + [t1];
    tq.DequeueTask(store, "t1");
    assert tq.queue == [t2];
    assert store.queues["d1"].queue == [t2];
  }

  method DequeueInOrderScenario() {
    var t1, t2, t3 := TaskQueueItem("t1", []), TaskQueueItem("t2", []), TaskQueueItem("t3", []);
    DequeueExamples();
    var store := new TaskQueueStore();
    var tq := new TaskQueue.NewTaskQueue("d1", [t1, t2, t3], DistroQueueInfo(0, []));
    tq.Save(store);
    // Removing the middle task keeps the others in order, in memory and in the store.
    tq.DequeueTask(store, "t2");
    assert tq.queue == [t1, t3];
    var loaded := store.LoadTaskQueue("d1");
    assert loaded != null && loaded.queue == [t1, t3];
    loaded.DequeueTask(store, "t3");
    assert loaded.Length() == 1;
    loaded.DequeueTask(store, "t1");
    assert loaded.Length() == 0;
    loaded.DequeueTask(store, "foo");
    assert loaded.Length() == 0;
  }

  method DequeueRepeatedScenario() {
    var t1, t2 := TaskQueueItem("t1", []), TaskQueueItem("t2", []);
    DequeueExamples();
    var store := new TaskQueueStore();
    // Every copy of a repeated id goes.
    var tq := new TaskQueue.NewTaskQueue("d1", [t1, t2, t1], DistroQueueInfo(0, []));
    tq.Save(store);
    tq.DequeueTask(store, "t1");
    assert tq.Length() == 1;
    assert store.queues["d1"].queue == [t2];
  }

  method ClearTaskQueueScenario() {
    var tasks := [TaskQueueItem("task1", []), TaskQueueItem("task2", []), TaskQueueItem("task3", [])];
    var info := DistroQueueInfo(3, [TaskGroupInfo("taskGroupInfo1", 8, 2600127105386)]);
    var store := new TaskQueueStore();
    var q := new TaskQueue.NewTaskQueue("distro", tasks, info);
    assert q.Length() == 3;
    q.Save(store);
    var other := new TaskQueue.NewTaskQueue("otherDistro", tasks, info);
    other.Save(store);
    store.ClearTaskQueue("distro");
    var fromStore := store.LoadTaskQueue("distro");
    assert fromStore != null && fromStore.queue == [];
    var otherFromStore := store.LoadTaskQueue("otherDistro");
    assert otherFromStore != null && otherFromStore.Length() == 3;
  }

  method FindDistroTaskQueueScenario() {
    var info := DistroQueueInfo(8, [TaskGroupInfo("taskGroupInfo1", 8, 2600127105386)]);
    var items := [TaskQueueItem("a", ["b"])] + QueueOf(["b", "c", "d", "e", "f", "g", "h"]);
    var store := new TaskQueueStore();
    var q := new TaskQueue.NewTaskQueue("distro1", items, info);
    q.Save(store);
    var out := store.LoadTaskQueue("distro1");
    assert out != null && out.distro == "distro1" && out.Length() == 8 && |out.queue[0].dependencies| == 1;
    assert out.distroQueueInfo.length == 8 && |out.distroQueueInfo.taskGroupInfos| == 1;
    assert out.distroQueueInfo.taskGroupInfos[0] == TaskGroupInfo("taskGroupInfo1", 8, 2600127105386);
  }

  method GetDistroQueueInfoScenario() {
    var info := DistroQueueInfo(8, [TaskGroupInfo("taskGroupInfo1", 8, 2600127105386)]);
    var store := new TaskQueueStore();
    var q := new TaskQueue.NewTaskQueue("distro1", QueueOf(["a", "b", "c"]), info);
    q.Save(store);
    var summary := store.GetDistroQueueInfo("distro1");
    assert summary == Some(info) && summary.value.length == 8;
    assert summary.value.taskGroupInfos[0] == TaskGroupInfo("taskGroupInfo1", 8, 2600127105386);
  }
}
