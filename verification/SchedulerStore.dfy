/**
  The scheduler's task map and its persistent copy.
 */
module SchedulerStore {
  import opened Common
  import opened Tasks

  const TASK_PREFIX := "agenda/task/"

  /** A record of the underlying store: an encoded task, or anything else. */
  datatype Record = TaskRecord(task: Task) | OtherRecord(data: string)

  type Records = map<string, Record>

  function Key(id: string): string {
    TASK_PREFIX + id
  }

  predicate IsTaskKey(records: Records, k: string) {
    k in records && TASK_PREFIX <= k && records[k].TaskRecord?
  }

  /** The tasks under the prefix, by the rest of their key. */
  ghost function Persisted(records: Records): map<string, Task> {
    var ids := set k | k in records && IsTaskKey(records, k) :: k[|TASK_PREFIX|..];
    map id | id in ids && IsTaskKey(records, Key(id)) :: records[Key(id)].task
  }

  lemma PersistedAt(records: Records, id: string)
    ensures id in Persisted(records) <==> IsTaskKey(records, Key(id))
    ensures id in Persisted(records) ==> Persisted(records)[id] == records[Key(id)].task
  {
    assert Key(id)[|TASK_PREFIX|..] == id;
    if IsTaskKey(records, Key(id)) {
      assert Key(id)[|TASK_PREFIX|..] in set k | k in records && IsTaskKey(records, k) :: k[|TASK_PREFIX|..];
    }
  }

  /** Every task under the prefix is stored under its own id. */
  ghost predicate WellKeyed(records: Records) {
    forall k :: IsTaskKey(records, k) ==> k == Key(records[k].task.id)
  }

  ghost predicate OwnIds(tasks: map<string, Task>) {
    forall id :: id in tasks ==> tasks[id].id == id
  }

  ghost predicate Agree(tasks: map<string, Task>, records: Records) {
    tasks == Persisted(records) && OwnIds(tasks)
  }

  /** Memory and store can agree only when every record has its own key. */
  lemma AgreementNeedsOwnKeys(tasks: map<string, Task>, records: Records)
    requires Agree(tasks, records)
    ensures WellKeyed(records)
  {
    forall k | IsTaskKey(records, k)
      ensures k == Key(records[k].task.id)
    {
      var id := k[|TASK_PREFIX|..];
      assert k == Key(id);
      PersistedAt(records, id);
    }
  }

  // ---------------------------------------------------------------------------------------------
  // API calls as functions
  // ---------------------------------------------------------------------------------------------

  datatype Call = AddTask(task: Task) | RemoveTask(id: string) | SetTaskEnabled(id: string, enabled: bool)

  function TasksAfter(tasks: map<string, Task>, c: Call): map<string, Task> {
    match c
    case AddTask(t) => tasks[t.id := t]
    case RemoveTask(id) => tasks - {id}
    case SetTaskEnabled(id, enabled) =>
      if id in tasks then tasks[id := tasks[id].(enabled := enabled)] else tasks
  }

  function RecordsAfter(tasks: map<string, Task>, records: Records, c: Call): Records {
    match c
    case AddTask(t) => records[Key(t.id) := TaskRecord(t)]
    case RemoveTask(id) => records - {Key(id)}
    case SetTaskEnabled(id, enabled) =>
      if id in tasks then
        var t := tasks[id].(enabled := enabled);
        records[Key(t.id) := TaskRecord(t)]
      else records
  }

  lemma KeyInjective(a: string, b: string)
    requires Key(a) == Key(b)
    ensures a == b
  {
    assert Key(a)[|TASK_PREFIX|..] == a && Key(b)[|TASK_PREFIX|..] == b;
  }

  /** Writing one task. */
  lemma PersistedPut(records: Records, t: Task)
    ensures Persisted(records[Key(t.id) := TaskRecord(t)]) == Persisted(records)[t.id := t]
  {
    hide Persisted;
    var after := records[Key(t.id) := TaskRecord(t)];
    forall id
      ensures id in Persisted(after) <==> id in Persisted(records)[t.id := t]
      ensures id in Persisted(after) ==> Persisted(after)[id] == Persisted(records)[t.id := t][id]
    {
      PersistedAt(records, id);
      PersistedAt(after, id);
      if Key(id) == Key(t.id) {
        KeyInjective(id, t.id);
      }
    }
  }

  /** Deleting one task. */
  lemma PersistedDelete(records: Records, gone: string)
    ensures Persisted(records - {Key(gone)}) == Persisted(records) - {gone}
  {
    hide Persisted;
    var after := records - {Key(gone)};
    forall id
      ensures id in Persisted(after) <==> id in Persisted(records) - {gone}
      ensures id in Persisted(after) ==> Persisted(after)[id] == (Persisted(records) - {gone})[id]
    {
      PersistedAt(records, id);
      PersistedAt(after, id);
      if Key(id) == Key(gone) {
        KeyInjective(id, gone);
      }
    }
  }

  /** Each call keeps memory and store in agreement and leaves records outside the prefix alone. */
  lemma CallKeepsAgreement(tasks: map<string, Task>, records: Records, c: Call)
    requires Agree(tasks, records)
    ensures Agree(TasksAfter(tasks, c), RecordsAfter(tasks, records, c))
    ensures forall k :: !(TASK_PREFIX <= k) ==>
              (k in RecordsAfter(tasks, records, c) <==> k in records)
              && (k in records ==> RecordsAfter(tasks, records, c)[k] == records[k])
  {
    hide Persisted;
    match c
    case AddTask(t) => PersistedPut(records, t);
    case RemoveTask(id) => PersistedDelete(records, id);
    case SetTaskEnabled(id, enabled) =>
      if id in tasks {
        PersistedPut(records, tasks[id].(enabled := enabled));
      }
  }

  function TasksAfterAll(tasks: map<string, Task>, cs: seq<Call>): map<string, Task>
    decreases |cs|
  {
    if cs == [] then tasks else TasksAfterAll(TasksAfter(tasks, cs[0]), cs[1..])
  }

  function RecordsAfterAll(tasks: map<string, Task>, records: Records, cs: seq<Call>): Records
    decreases |cs|
  {
    if cs == [] then records
    else RecordsAfterAll(TasksAfter(tasks, cs[0]), RecordsAfter(tasks, records, cs[0]), cs[1..])
  }

  /** Every sequence of calls keeps memory and store in agreement and leaves records outside the prefix alone. */
  lemma {:induction false} CallsKeepAgreement(tasks: map<string, Task>, records: Records, cs: seq<Call>)
    requires Agree(tasks, records)
    ensures Agree(TasksAfterAll(tasks, cs), RecordsAfterAll(tasks, records, cs))
    ensures forall k :: !(TASK_PREFIX <= k) ==>
              (k in RecordsAfterAll(tasks, records, cs) <==> k in records)
              && (k in records ==> RecordsAfterAll(tasks, records, cs)[k] == records[k])
    decreases |cs|
  {
    hide Agree, TasksAfter, RecordsAfter;
    if cs != [] {
      CallKeepsAgreement(tasks, records, cs[0]);
      CallsKeepAgreement(TasksAfter(tasks, cs[0]), RecordsAfter(tasks, records, cs[0]), cs[1..]);
    }
  }

  function Lookup(tasks: map<string, Task>, id: string): Option<Task> {
    if id in tasks then Some(tasks[id]) else None
  }

  /** What the calls make of the task with this id: the one added last, with the flag set last, unless removed. */
  function Fate(t: Option<Task>, cs: seq<Call>, id: string): Option<Task>
    decreases |cs|
  {
    if cs == [] then t
    else
      var next := match cs[0]
        case AddTask(added) => if added.id == id then Some(added) else t
        case RemoveTask(gone) => if gone == id then None else t
        case SetTaskEnabled(changed, flag) =>
          if changed == id && t.Some? then Some(t.value.(enabled := flag)) else t;
      Fate(next, cs[1..], id)
  }

  /** After every sequence of calls, each task is what the calls for its id make of it, in memory and in the store. */
  lemma {:induction false} EachTaskHasItsFate(tasks: map<string, Task>, records: Records, cs: seq<Call>, id: string)
    ensures Lookup(TasksAfterAll(tasks, cs), id) == Fate(Lookup(tasks, id), cs, id)
    ensures Agree(tasks, records) ==>
              Lookup(Persisted(RecordsAfterAll(tasks, records, cs)), id) == Fate(Lookup(tasks, id), cs, id)
    decreases |cs|
  {
    hide Persisted;
    if cs != [] {
      EachTaskHasItsFate(TasksAfter(tasks, cs[0]), RecordsAfter(tasks, records, cs[0]), cs[1..], id);
      if Agree(tasks, records) {
        CallKeepsAgreement(tasks, records, cs[0]);
      }
    }
  }

  /** `ts` are the tasks under the prefix, one for each record; `keys` says under which key. */
  ghost predicate Lists(ts: seq<Task>, keys: seq<string>, records: Records) {
    && |keys| == |ts|
    && (forall i, j :: 0 <= i < j < |keys| ==> keys[i] != keys[j])
    && (forall i :: 0 <= i < |keys| ==> IsTaskKey(records, keys[i]) && records[keys[i]].task == ts[i])
    && (forall k :: IsTaskKey(records, k) ==> k in keys)
  }

  function TaskKeys(records: Records): set<string> {
    set k | k in records && IsTaskKey(records, k)
  }

  /** Different keys are as many as their set. */
  lemma {:induction false} DistinctKeys(keys: seq<string>)
    requires forall i, j :: 0 <= i < j < |keys| ==> keys[i] != keys[j]
    ensures |(set k | k in keys)| == |keys|
  {
    if keys != [] {
      var init := keys[..|keys| - 1];
      var last := keys[|keys| - 1];
      DistinctKeys(init);
      assert keys == init + [last];
      assert (set k | k in keys) == (set k | k in init) + {last};
    }
  }

  lemma ListedTasks(ts: seq<Task>, keys: seq<string>, records: Records)
    requires Lists(ts, keys, records)
    ensures forall t :: t in ts <==> exists k :: IsTaskKey(records, k) && records[k].task == t
    ensures |ts| == |TaskKeys(records)|
  {
    forall t
      ensures t in ts <==> exists k :: IsTaskKey(records, k) && records[k].task == t
    {
      if t in ts {
        var i :| 0 <= i < |ts| && ts[i] == t;
        assert IsTaskKey(records, keys[i]);
      }
      if k :| IsTaskKey(records, k) && records[k].task == t {
        var i :| 0 <= i < |keys| && keys[i] == k;
        assert ts[i] == t;
      }
    }
    DistinctKeys(keys);
    assert (set k | k in keys) == TaskKeys(records);
  }

  // ---------------------------------------------------------------------------------------------
  // The store and the scheduler
  // ---------------------------------------------------------------------------------------------

  class TaskStore {
    var records: Records

    constructor (records: Records)
      ensures this.records == records
    {
      this.records := records;
    }

    method Upsert(task: Task)
      modifies this
      ensures records == old(records)[Key(task.id) := TaskRecord(task)]
    {
      records := records[Key(task.id) := TaskRecord(task)];
    }

    /** Deleting a missing record is not an error. */
    method Delete(id: string)
      modifies this
      ensures records == old(records) - {Key(id)}
    {
      if Key(id) in records {
        records := records - {Key(id)};
      }
    }

    /** The tasks under the prefix, in the order in which the underlying store lists them. */
    method All() returns (ts: seq<Task>, ghost keys: seq<string>)
      ensures Lists(ts, keys, records)
      ensures forall t :: t in ts <==> exists k :: IsTaskKey(records, k) && records[k].task == t
      ensures |ts| == |TaskKeys(records)|
    {
      ts, keys := [], [];
      var todo := records.Keys;
      while todo != {}
        invariant todo <= records.Keys
        invariant |keys| == |ts| && forall i :: 0 <= i < |keys| ==> keys[i] !in todo
        invariant forall i, j :: 0 <= i < j < |keys| ==> keys[i] != keys[j]
        invariant forall i :: 0 <= i < |keys| ==> IsTaskKey(records, keys[i]) && records[keys[i]].task == ts[i]
        invariant forall k :: IsTaskKey(records, k) && k !in todo ==> k in keys
        decreases |todo|
      {
        var k :| k in todo;
        todo := todo - {k};
        if TASK_PREFIX <= k && records[k].TaskRecord? {
          ts := ts + [records[k].task];
          keys := keys + [k];
        }
      }
      ListedTasks(ts, keys, records);
    }
  }

  class Scheduler {
    var tasks: map<string, Task>
    const store: TaskStore?

    constructor (store: TaskStore?)
      ensures tasks == map[] && this.store == store
    {
      tasks := map[];
      this.store := store;
    }

    /** Memory and store agree. */
    ghost predicate Synced()
      reads this, store
    {
      store != null && Agree(tasks, store.records)
    }

    method Add(task: Task)
      modifies this, store
      ensures tasks == TasksAfter(old(tasks), AddTask(task))
      ensures store != null ==> store.records == RecordsAfter(old(tasks), old(store.records), AddTask(task))
      ensures old(Synced()) ==> Synced()
    {
      tasks := tasks[task.id := task];
      if store != null {
        store.Upsert(task);
        if old(Synced()) {
          CallKeepsAgreement(old(tasks), old(store.records), AddTask(task));
        }
      }
    }

    method Remove(id: string) returns (existed: bool)
      modifies this, store
      ensures existed == (id in old(tasks))
      ensures tasks == TasksAfter(old(tasks), RemoveTask(id))
      ensures store != null ==> store.records == RecordsAfter(old(tasks), old(store.records), RemoveTask(id))
      ensures old(Synced()) ==> Synced()
    {
      existed := id in tasks;
      tasks := tasks - {id};
      if store != null {
        store.Delete(id);
        if old(Synced()) {
          CallKeepsAgreement(old(tasks), old(store.records), RemoveTask(id));
        }
      }
    }

    method SetEnabled(id: string, enabled: bool) returns (found: bool)
      modifies this, store
      ensures found == (id in old(tasks))
      ensures tasks == TasksAfter(old(tasks), SetTaskEnabled(id, enabled))
      ensures store != null ==>
                store.records == RecordsAfter(old(tasks), old(store.records), SetTaskEnabled(id, enabled))
      ensures old(Synced()) ==> Synced()
    {
      if id !in tasks {
        return false;
      }
      var task := tasks[id].(enabled := enabled);
      tasks := tasks[id := task];
      if store != null {
        store.Upsert(task);
        if old(Synced()) {
          CallKeepsAgreement(old(tasks), old(store.records), SetTaskEnabled(id, enabled));
        }
      }
      return true;
    }

    /**
      Loading inserts every persisted task under its own id. If every record has its own key, that adds exactly the
      persisted tasks; and exactly then, loading into an empty scheduler makes memory and store agree.
     */
    method LoadPersisted() returns (loaded: nat, ghost listed: seq<Task>, ghost keys: seq<string>)
      modifies this
      ensures store == null ==> loaded == 0 && tasks == old(tasks)
      ensures store != null ==>
                && Lists(listed, keys, store.records) && loaded == |listed| && tasks == InsertAll(old(tasks), listed)
      ensures store != null && WellKeyed(store.records) ==>
                tasks == old(tasks) + Persisted(store.records) && loaded == |Persisted(store.records)|
      ensures store != null && old(tasks) == map[] ==> (Synced() <==> WellKeyed(store.records))
    {
      hide InsertAll, Persisted, Lists;
      loaded, listed, keys := 0, [], [];
      if store == null {
        return;
      }
      var ts;
      ts, keys := store.All();
      listed := ts;
      loaded := |ts|;
      InsertNothing(tasks);
      for i := 0 to |ts|
        invariant tasks == InsertAll(old(tasks), ts[..i])
      {
        var task := ts[i];
        assert ts[..i + 1] == ts[..i] + [task];
        InsertSnoc(old(tasks), ts[..i], task);
        tasks := tasks[task.id := task];
      }
      assert ts[..|ts|] == ts;
      LoadedAll(old(tasks), store.records, ts, keys);
    }
  }

  /** `HashMap::insert` for each task in turn. */
  function InsertAll(m: map<string, Task>, ts: seq<Task>): map<string, Task> {
    if ts == [] then m
    else
      var t := ts[|ts| - 1];
      InsertAll(m, ts[..|ts| - 1])[t.id := t]
  }

  /** Tasks with different ids are as many as their ids. */
  lemma {:induction false} DistinctIds(ts: seq<Task>)
    requires forall i, j :: 0 <= i < j < |ts| ==> ts[i].id != ts[j].id
    ensures |(set j | 0 <= j < |ts| :: ts[j].id)| == |ts|
  {
    if ts == [] {
    } else {
      var init := ts[..|ts| - 1];
      var last := ts[|ts| - 1].id;
      DistinctIds(init);
      assert (set j | 0 <= j < |ts| :: ts[j].id) == (set j | 0 <= j < |init| :: init[j].id) + {last};
    }
  }

  lemma CountIds(ts: seq<Task>, p: map<string, Task>)
    requires forall i, j :: 0 <= i < j < |ts| ==> ts[i].id != ts[j].id
    requires forall id :: id in p ==> p[id] in ts && p[id].id == id
    requires forall j :: 0 <= j < |ts| ==> ts[j].id in p
    ensures |ts| == |p|
  {
    DistinctIds(ts);
    assert p.Keys == set j | 0 <= j < |ts| :: ts[j].id;
  }

  lemma InsertNothing(m: map<string, Task>)
    ensures InsertAll(m, []) == m
  {
  }

  lemma InsertSnoc(m: map<string, Task>, ts: seq<Task>, t: Task)
    ensures InsertAll(m, ts + [t]) == InsertAll(m, ts)[t.id := t]
  {
    assert (ts + [t])[..|ts|] == ts;
  }

  lemma {:induction false} InsertAllAt(m: map<string, Task>, ts: seq<Task>, id: string)
    requires forall i, j :: 0 <= i < j < |ts| ==> ts[i].id != ts[j].id
    ensures (forall j :: 0 <= j < |ts| ==> ts[j].id != id) ==>
              (id in InsertAll(m, ts) <==> id in m) && (id in m ==> InsertAll(m, ts)[id] == m[id])
    ensures forall j :: 0 <= j < |ts| && ts[j].id == id ==> id in InsertAll(m, ts) && InsertAll(m, ts)[id] == ts[j]
  {
    if ts != [] {
      var init := ts[..|ts| - 1];
      assert forall j :: 0 <= j < |init| ==> ts[j] == init[j];
      InsertAllAt(m, init, id);
    }
  }

  /** Of the tasks with one id, the one inserted last stays. */
  lemma {:induction false} LastInsertedStays(m: map<string, Task>, ts: seq<Task>, i: nat)
    requires i < |ts| && forall j :: i < j < |ts| ==> ts[j].id != ts[i].id
    ensures ts[i].id in InsertAll(m, ts) && InsertAll(m, ts)[ts[i].id] == ts[i]
  {
    if i < |ts| - 1 {
      LastInsertedStays(m, ts[..|ts| - 1], i);
    }
  }

  lemma InsertedIsMerged(m: map<string, Task>, ts: seq<Task>, p: map<string, Task>)
    requires forall i, j :: 0 <= i < j < |ts| ==> ts[i].id != ts[j].id
    requires forall id :: id in p ==> p[id] in ts && p[id].id == id
    requires forall j :: 0 <= j < |ts| ==> ts[j].id in p && p[ts[j].id] == ts[j]
    ensures InsertAll(m, ts) == m + p
  {
    hide InsertAll;
    forall id
      ensures id in InsertAll(m, ts) <==> id in m + p
      ensures id in m + p ==> InsertAll(m, ts)[id] == (m + p)[id]
    {
      InsertAllAt(m, ts, id);
      if id in p {
        var j :| 0 <= j < |ts| && ts[j] == p[id];
      }
    }
  }

  /** Records with their own keys are listed as the persisted tasks, each once. */
  lemma ListedArePersisted(records: Records, ts: seq<Task>, keys: seq<string>)
    requires WellKeyed(records) && Lists(ts, keys, records)
    ensures OwnIds(Persisted(records))
    ensures forall i, j :: 0 <= i < j < |ts| ==> ts[i].id != ts[j].id
    ensures forall id :: id in Persisted(records) ==> Persisted(records)[id] in ts
    ensures forall j :: 0 <= j < |ts| ==> ts[j].id in Persisted(records) && Persisted(records)[ts[j].id] == ts[j]
  {
    hide Persisted;
    forall id | id in Persisted(records)
      ensures Persisted(records)[id].id == id && Persisted(records)[id] in ts
    {
      PersistedAt(records, id);
      KeyInjective(id, records[Key(id)].task.id);
      assert Key(id) in keys;
    }
    forall j | 0 <= j < |ts|
      ensures ts[j].id in Persisted(records) && Persisted(records)[ts[j].id] == ts[j]
    {
      assert keys[j] == Key(ts[j].id);
      PersistedAt(records, ts[j].id);
    }
    forall i, j | 0 <= i < j < |ts|
      ensures ts[i].id != ts[j].id
    {
      assert keys[i] == Key(ts[i].id) && keys[j] == Key(ts[j].id);
    }
  }

  lemma LoadedAll(m: map<string, Task>, records: Records, ts: seq<Task>, keys: seq<string>)
    requires Lists(ts, keys, records)
    ensures WellKeyed(records) ==>
              && InsertAll(m, ts) == m + Persisted(records) && |ts| == |Persisted(records)|
              && OwnIds(Persisted(records))
    ensures m == map[] ==> (Agree(InsertAll(m, ts), records) <==> WellKeyed(records))
  {
    hide Persisted, InsertAll, Lists;
    if WellKeyed(records) {
      var persisted := Persisted(records);
      ListedArePersisted(records, ts, keys);
      InsertedIsMerged(m, ts, persisted);
      CountIds(ts, persisted);
      assert m == map[] ==> m + persisted == persisted;
    } else if Agree(InsertAll(m, ts), records) {
      AgreementNeedsOwnKeys(InsertAll(m, ts), records);
    }
  }

  /** A scheduler started on the store of one in agreement ends up with the same tasks. */
  method Restart(s: Scheduler) returns (r: Scheduler)
    requires s.Synced()
    ensures fresh(r) && r.store == s.store && r.tasks == s.tasks && r.Synced()
    ensures s.tasks == old(s.tasks)
  {
    AgreementNeedsOwnKeys(s.tasks, s.store.records);
    r := new Scheduler(s.store);
    var _, _, _ := r.LoadPersisted();
  }
}
