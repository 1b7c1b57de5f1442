/**
 * The executor behind trie walks (packages/trie/src/prioritizedTaskExecutor.ts): a step system
 * in which tasks are submitted, and started tasks complete in any order.
 */
module TaskExecutors {

  /** A task; `id` is its place in the order of submissions. */
  datatype Task = Task(priority: int, id: nat)

  /** Descending priority, and within a priority the order of submission. */
  predicate Before(a: Task, b: Task) {
    a.priority > b.priority || (a.priority == b.priority && a.id < b.id)
  }

  predicate Ordered(tasks: seq<Task>) {
    forall i, j :: 0 <= i < j < |tasks| ==> Before(tasks[i], tasks[j])
  }

  /** Within a priority, earlier submissions come first. */
  predicate InTurn(tasks: seq<Task>) {
    forall i, j :: 0 <= i < j < |tasks| && tasks[i].priority == tasks[j].priority ==> tasks[i].id < tasks[j].id
  }

  function InsertSorted(t: Task, tasks: seq<Task>): (r: seq<Task>)
    ensures multiset(r) == multiset(tasks) + multiset{t}
  {
    if tasks == [] then [t]
    else
      assert tasks == [tasks[0]] + tasks[1..];
      if tasks[0].priority > t.priority then [tasks[0]] + InsertSorted(t, tasks[1..])
      else [t] + tasks
  }

  /** The stable sort by descending priority, as `Array.prototype.sort` does it. */
  function SortQueue(tasks: seq<Task>): (r: seq<Task>)
    ensures multiset(r) == multiset(tasks) && |r| == |tasks|
  {
    if tasks == [] then []
    else
      assert tasks == [tasks[0]] + tasks[1..];
      var r := InsertSorted(tasks[0], SortQueue(tasks[1..]));
      assert |r| == |multiset(r)| == |multiset(tasks)|;
      r
  }

  lemma {:induction false} InsertKeepsOrder(t: Task, tasks: seq<Task>)
    requires Ordered(tasks)
    requires forall x :: x in tasks && x.priority == t.priority ==> t.id < x.id
    ensures Ordered(InsertSorted(t, tasks))
  {
    if tasks != [] && tasks[0].priority > t.priority {
      var rest := InsertSorted(t, tasks[1..]);
      InsertKeepsOrder(t, tasks[1..]);
      forall x | x in rest ensures Before(tasks[0], x) {
        assert x in multiset(rest);
        assert x == t || x in tasks[1..];
      }
      OrderedCons(tasks[0], rest);
    } else {
      forall x | x in tasks ensures Before(t, x) {
        assert x == tasks[0] || Before(tasks[0], x);
      }
      OrderedCons(t, tasks);
    }
  }

  lemma OrderedCons(t: Task, tasks: seq<Task>)
    requires Ordered(tasks) && forall x :: x in tasks ==> Before(t, x)
    ensures Ordered([t] + tasks)
  {}

  /** The sort puts first what has the highest priority and, among those, what came first. */
  lemma {:induction false} SortOrders(tasks: seq<Task>)
    requires InTurn(tasks)
    ensures Ordered(SortQueue(tasks))
  {
    if tasks != [] {
      var rest := SortQueue(tasks[1..]);
      SortOrders(tasks[1..]);
      forall x | x in rest && x.priority == tasks[0].priority ensures tasks[0].id < x.id {
        assert x in multiset(rest);
        assert x in tasks[1..];
      }
      InsertKeepsOrder(tasks[0], rest);
    }
  }

  lemma SameElements(a: seq<Task>, b: seq<Task>)
    requires multiset(a) == multiset(b)
    ensures forall t :: t in a <==> t in b
  {
    forall t ensures t in a <==> t in b {
      assert t in a <==> t in multiset(a);
      assert t in b <==> t in multiset(b);
    }
  }

  predicate Numbered(tasks: seq<Task>) {
    forall i :: 0 <= i < |tasks| ==> tasks[i].id == i
  }

  predicate Below(tasks: seq<Task>, n: nat) {
    forall t :: t in tasks ==> t.id < n
  }

  lemma JoinsLast(submitted: seq<Task>, queue: seq<Task>, task: Task)
    requires InTurn(queue) && Below(queue, |submitted|) && Numbered(submitted) && task.id == |submitted|
    ensures InTurn(queue + [task]) && multiset(queue + [task]) == multiset(queue) + multiset{task}
    ensures Numbered(submitted + [task]) && multiset(submitted + [task]) == multiset(submitted) + multiset{task}
    ensures Below(queue, |submitted| + 1) && Below(queue + [task], |submitted| + 1)
  {
    forall i | 0 <= i < |queue| ensures queue[i].id < task.id {
      assert queue[i] in queue;
    }
  }

  /** What is taken off the sorted queue, and what stays. */
  lemma FirstOfSorted(queue: seq<Task>, n: nat)
    requires InTurn(queue) && queue != [] && Below(queue, n)
    ensures var sorted := SortQueue(queue);
      && sorted != [] && sorted[0] in queue && InTurn(sorted[1..])
      && multiset(sorted[1..]) == multiset(queue) - multiset{sorted[0]}
      && (forall t :: t in queue && t != sorted[0] ==> Before(sorted[0], t))
      && Below(sorted[1..], n)
  {
    hide SortQueue;
    hide Before;
    hide InTurn;
    var sorted := SortQueue(queue);
    SortOrders(queue);
    SameElements(sorted, queue);
    OrderedFirst(sorted);
    assert sorted == [sorted[0]] + sorted[1..];
    forall t | t in sorted[1..] ensures t in sorted {}
  }

  lemma OrderedFirst(sorted: seq<Task>)
    requires Ordered(sorted) && sorted != []
    ensures InTurn(sorted[1..])
    ensures forall t :: t in sorted && t != sorted[0] ==> Before(sorted[0], t)
  {
    forall t | t in sorted && t != sorted[0] ensures Before(sorted[0], t) {
      var i :| 0 <= i < |sorted| && sorted[i] == t;
    }
    forall i, j | 0 <= i < j < |sorted[1..]| ensures Before(sorted[1..][i], sorted[1..][j]) {
      assert Before(sorted[i + 1], sorted[j + 1]);
    }
  }

  /** Every submitted task is waiting, running or completed. */
  ghost predicate Accounted(submitted: seq<Task>, queue: seq<Task>, running: multiset<Task>,
                            completed: multiset<Task>)
  {
    multiset(submitted) == multiset(queue) + running + completed
  }

  lemma Completing(s: seq<Task>, q: seq<Task>, r: multiset<Task>, c: multiset<Task>, task: Task)
    requires Accounted(s, q, r, c) && task in r
    ensures Accounted(s, q, r - multiset{task}, c + multiset{task}) && |r - multiset{task}| == |r| - 1
  {}

  lemma Starting(s: seq<Task>, q: seq<Task>, r: multiset<Task>, c: multiset<Task>, rest: seq<Task>, task: Task)
    requires Accounted(s, q, r, c) && task in q && multiset(rest) == multiset(q) - multiset{task}
    ensures Accounted(s, rest, r + multiset{task}, c)
  {
    assert task in multiset(q);
  }

  lemma Submitting(s: seq<Task>, q: seq<Task>, r: multiset<Task>, c: multiset<Task>, task: Task)
    requires Accounted(s, q, r, c)
    ensures Accounted(s + [task], q + [task], r, c) && Accounted(s + [task], q, r + multiset{task}, c)
  {}

  class PrioritizedTaskExecutor {
    const maxPoolSize: nat
    var currentPoolSize: nat
    var queue: seq<Task>
    ghost var submitted: seq<Task>
    ghost var running: multiset<Task>
    ghost var completed: multiset<Task>

    ghost predicate Valid()
      reads this
    {
      && currentPoolSize == |running| <= maxPoolSize
      && (queue != [] ==> currentPoolSize == maxPoolSize)
      && Accounted(submitted, queue, running, completed)
      && Numbered(submitted) && InTurn(queue) && Below(queue, |submitted|)
    }

    constructor (maxPoolSize: nat)
      ensures Valid() && this.maxPoolSize == maxPoolSize && submitted == [] && queue == []
      ensures currentPoolSize == 0 && running == completed == multiset{}
    {
      this.maxPoolSize := maxPoolSize;
      currentPoolSize := 0;
      queue := [];
      submitted := [];
      running := multiset{};
      completed := multiset{};
    }

    /** The task starts at once if a spot is free, and waits otherwise. */
    method ExecuteOrQueue(task: Task)
      requires currentPoolSize == |running|
      modifies this`currentPoolSize, this`queue, this`running
      ensures currentPoolSize == |running|
      ensures old(currentPoolSize) < maxPoolSize ==>
                && currentPoolSize == old(currentPoolSize) + 1 && running == old(running) + multiset{task}
                && queue == old(queue)
      ensures old(currentPoolSize) >= maxPoolSize ==>
                currentPoolSize == old(currentPoolSize) && running == old(running) && queue == old(queue) + [task]
    {
      if currentPoolSize < maxPoolSize {
        currentPoolSize := currentPoolSize + 1;
        running := running + multiset{task};
      } else {
        queue := queue + [task];
      }
    }

    /** A new submission; tasks are numbered as they come. */
    method Submit(task: Task)
      requires Valid() && task.id == |submitted|
      modifies this
      ensures Valid() && submitted == old(submitted) + [task] && completed == old(completed)
      ensures if old(currentPoolSize) < maxPoolSize
              then running == old(running) + multiset{task} && queue == old(queue)
              else running == old(running) && queue == old(queue) + [task]
    {
      hide InTurn;
      hide Numbered;
      hide Below;
      hide Accounted;
      JoinsLast(submitted, queue, task);
      Submitting(submitted, queue, running, completed, task);
      submitted := submitted + [task];
      ExecuteOrQueue(task);
    }

    /** Sorts the queue, takes its first task and starts it. */
    method StartNext() returns (item: Task)
      requires queue != [] && currentPoolSize == |running| && currentPoolSize + 1 == maxPoolSize
      requires Accounted(submitted, queue, running, completed) && InTurn(queue) && Below(queue, |submitted|)
      modifies this`currentPoolSize, this`queue, this`running
      ensures item in old(queue) && forall t :: t in old(queue) && t != item ==> Before(item, t)
      ensures multiset(queue) == multiset(old(queue)) - multiset{item} && running == old(running) + multiset{item}
      ensures currentPoolSize == |running| == maxPoolSize
      ensures Accounted(submitted, queue, running, completed) && InTurn(queue) && Below(queue, |submitted|)
    {
      hide Accounted;
      hide InTurn;
      hide Below;
      hide Before;
      hide SortQueue;
      FirstOfSorted(queue, |submitted|);
      var sorted := SortQueue(queue);
      item := sorted[0];
      Starting(submitted, queue, running, completed, sorted[1..], item);
      queue := sorted[1..];
      ExecuteOrQueue(item);
    }

    /** The callback of a running task: its spot goes to the waiting task that comes before all others. */
    method Complete(task: Task) returns (ghost next: Task)
      requires Valid() && task in running
      modifies this
      ensures Valid() && submitted == old(submitted) && completed == old(completed) + multiset{task}
      ensures old(queue) == [] ==> queue == [] && running == old(running) - multiset{task}
      ensures old(queue) != [] ==>
                && next in old(queue) && (forall t :: t in old(queue) && t != next ==> Before(next, t))
                && multiset(queue) == multiset(old(queue)) - multiset{next}
                && running == old(running) - multiset{task} + multiset{next}
    {
      hide InTurn;
      hide Numbered;
      hide Below;
      hide Accounted;
      hide Before;
      next := task;
      Completing(submitted, queue, running, completed, task);
      running := running - multiset{task};
      completed := completed + multiset{task};
      currentPoolSize := currentPoolSize - 1;
      if |queue| > 0 {
        next := StartNext();
      }
    }

    /** With at least one spot, finished means that everything submitted has completed; with none,
        it says so while tasks wait forever. */
    method Finished() returns (finished: bool)
      requires Valid()
      ensures finished <==> running == multiset{}
      ensures finished ==> (completed == multiset(submitted) <==> maxPoolSize >= 1 || queue == [])
    {
      NoneLeft();
      return currentPoolSize == 0;
    }

    lemma NoneLeft()
      requires Valid()
      ensures running == multiset{} ==> (completed == multiset(submitted) <==> queue == [])
    {
      if running == multiset{} && completed == multiset(submitted) {
        assert |multiset(queue)| == 0;
      }
    }

    /** Every submitted task is waiting, running or completed, and is so once: none starts twice. */
    lemma StartedOnce(t: Task)
      requires Valid()
      ensures (running + completed)[t] + multiset(queue)[t] == if t in submitted then 1 else 0
    {
      OnceEach(submitted, t);
    }
  }

  /** An executor without spots: a task is submitted, never started, and still it says finished. */
  method WaitsForever(priority: int) returns (executor: PrioritizedTaskExecutor, finished: bool)
    ensures fresh(executor) && executor.Valid() && executor.maxPoolSize == 0
    ensures finished && executor.queue == executor.submitted == [Task(priority, 0)] && executor.completed == multiset{}
  {
    executor := new PrioritizedTaskExecutor(0);
    executor.Submit(Task(priority, 0));
    finished := executor.Finished();
  }

  lemma {:induction false} OnceEach(tasks: seq<Task>, t: Task)
    requires Numbered(tasks)
    ensures multiset(tasks)[t] == if t in tasks then 1 else 0
  {
    if tasks != [] {
      var front, last := tasks[..|tasks| - 1], tasks[|tasks| - 1];
      assert tasks == front + [last];
      OnceEach(front, t);
    }
  }
}
