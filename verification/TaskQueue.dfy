/**
 Background tasks of the proxy, src/proxy/bg_chunk_handler.cc: a queue, the workers' tasks, and a count of
 unfinished tasks per file. What happens under the lock is one step; steps of all threads interleave.
 */
module TaskQueue {
  import opened Wrappers
  import opened Decimal

  /** A task for a file; ids tell tasks of the same file apart. */
  datatype Task = Task(id: nat, namespaceId: nat, name: string) {
    function Key(): string {
      FileKey(namespaceId, name)
    }
  }

  /** The key of a file: its namespace, an underscore, its name. */
  function FileKey(namespaceId: nat, name: string): string {
    Print(namespaceId) + "_" + name
  }

  /** The index of the first underscore, or the length when there is none. */
  function FirstUnderscore(s: string): (i: nat)
    ensures i <= |s| && (i < |s| ==> s[i] == '_') && forall j :: 0 <= j < i ==> s[j] != '_'
  {
    if s == "" || s[0] == '_' then 0 else 1 + FirstUnderscore(s[1..])
  }

  /** How many characters at the front are digits. */
  function LeadingDigits(s: string): (i: nat)
    ensures i <= |s| && (forall j :: 0 <= j < i ==> IsDigit(s[j])) && (i < |s| ==> !IsDigit(s[i]))
  {
    if s == "" || !IsDigit(s[0]) then 0 else 1 + LeadingDigits(s[1..])
  }

  /** Splits a key: the number it starts with, and what follows the first underscore. */
  function KeyParts(key: string): (nat, string)
    requires '_' in key
  {
    (Read(key[..LeadingDigits(key)]), key[FirstUnderscore(key) + 1..])
  }

  /** Splitting the key of a file gives its namespace and its name, whatever the name. */
  lemma KeyRoundTrip(namespaceId: nat, name: string)
    ensures '_' in FileKey(namespaceId, name) && KeyParts(FileKey(namespaceId, name)) == (namespaceId, name)
  {
    hide Print, Read;
    var digits, key := Print(namespaceId), FileKey(namespaceId, name);
    assert key[|digits|] == '_';
    assert forall j :: 0 <= j < |digits| ==> key[j] == digits[j];
    assert LeadingDigits(key) == |digits| && FirstUnderscore(key) == |digits|;
    assert key[..|digits|] == digits && key[|digits| + 1..] == name;
    ReadPrint(namespaceId);
  }

  /** Different files have different keys. */
  lemma KeysDiffer(t: Task, u: Task)
    ensures t.Key() == u.Key() <==> t.namespaceId == u.namespaceId && t.name == u.name
  {
    hide FileKey, KeyParts;
    KeyRoundTrip(t.namespaceId, t.name);
    KeyRoundTrip(u.namespaceId, u.name);
  }

  /** The number of tasks of a file. */
  function Count(tasks: seq<Task>, key: string): nat {
    if tasks == [] then 0 else (if tasks[0].Key() == key then 1 else 0) + Count(tasks[1..], key)
  }

  lemma {:induction false} CountConcat(a: seq<Task>, b: seq<Task>, key: string)
    ensures Count(a + b, key) == Count(a, key) + Count(b, key)
  {
    hide Task.Key;
    if a == [] {
      assert a + b == b;
    } else {
      CountConcat(a[1..], b, key);
      assert (a + b)[1..] == a[1..] + b;
    }
  }

  lemma CountWithout(tasks: seq<Task>, i: nat, key: string)
    requires i < |tasks|
    ensures Count(tasks, key) == Count(tasks[..i] + tasks[i + 1..], key) + if tasks[i].Key() == key then 1 else 0
  {
    hide Task.Key;
    CountConcat(tasks[..i], tasks[i..], key);
    CountConcat(tasks[..i], tasks[i + 1..], key);
    assert tasks == tasks[..i] + tasks[i..] && tasks[i..][1..] == tasks[i + 1..];
  }

  /** A step of some thread: a task is added, a worker takes one, a worker is done with one. */
  datatype Step = Add(task: Task) | Take | Finish(worker: nat)

  class Queue {
    var tasks: seq<Task>
    var inFlight: seq<Task>
    var counts: map<string, nat>

    /** The count of a file is that of its tasks in the queue and with workers; files without have none. */
    ghost predicate Valid()
      reads this
    {
      forall key :: if key in counts then counts[key] == Count(tasks, key) + Count(inFlight, key) > 0
                    else Count(tasks, key) == Count(inFlight, key) == 0
    }

    constructor ()
      ensures Valid() && tasks == [] && inFlight == [] && counts == map[]
    {
      tasks, inFlight, counts := [], [], map[];
    }

    method AddChunkTask(task: Task)
      requires Valid()
      modifies this
      ensures Valid() && tasks == old(tasks) + [task] && inFlight == old(inFlight)
    {
      hide Task.Key, Count;
      forall key: string {
        CountSnoc(tasks, task, key);
      }
      tasks := tasks + [task];
      var name := task.Key();
      if name in counts {
        counts := counts[name := counts[name] + 1];
      } else {
        counts := counts[name := 1];
      }
    }

    /** A worker takes the first task; none when the queue is empty. */
    method TakeTask() returns (task: Option<Task>)
      requires Valid()
      modifies this
      ensures Valid() && counts == old(counts)
      ensures if old(tasks) == [] then task == None && tasks == [] && inFlight == old(inFlight)
              else
                && task == Some(old(tasks)[0]) && tasks == old(tasks)[1..]
                && inFlight == old(inFlight) + [old(tasks)[0]]
    {
      hide Task.Key, Count;
      if |tasks| == 0 {
        return None;
      }
      task := Some(tasks[0]);
      forall key: string {
        CountWithout(tasks, 0, key);
      }
      forall key: string {
        CountSnoc(inFlight, tasks[0], key);
      }
      assert tasks[..0] + tasks[1..] == tasks[1..];
      inFlight, tasks := inFlight + [tasks[0]], tasks[1..];
    }

    /** A worker is done with its task. */
    method FinishTask(worker: nat)
      requires Valid() && worker < |inFlight|
      modifies this
      ensures Valid() && tasks == old(tasks) && inFlight == old(inFlight)[..worker] + old(inFlight)[worker + 1..]
    {
      hide Task.Key, Count;
      forall key: string {
        CountWithout(inFlight, worker, key);
      }
      var name := inFlight[worker].Key();
      inFlight := inFlight[..worker] + inFlight[worker + 1..];
      if name in counts {
        counts := counts[name := counts[name] - 1];
        if counts[name] == 0 {
          counts := counts - {name};
        }
      }
    }

    /** Whether a file has unfinished tasks, waiting or with a worker. */
    method TaskExistsForFile(namespaceId: nat, name: string) returns (exist: bool)
      requires Valid()
      ensures exist <==> exists t :: (t in tasks || t in inFlight) && t.namespaceId == namespaceId && t.name == name
    {
      hide FileKey;
      var key := Task(0, namespaceId, name).Key();
      exist := key in counts;
      CountSeen(tasks, namespaceId, name);
      CountSeen(inFlight, namespaceId, name);
    }

    /** Any interleaving of the steps of all threads keeps the counts right. */
    method Run(steps: seq<Step>)
      requires Valid()
      modifies this
      ensures Valid()
    {
      for i := 0 to |steps|
        invariant Valid()
      {
        match steps[i]
        case Add(task) =>
          AddChunkTask(task);
        case Take =>
          var _ := TakeTask();
        case Finish(worker) =>
          if worker < |inFlight| {
            FinishTask(worker);
          }
      }
    }
  }

  lemma CountSnoc(tasks: seq<Task>, task: Task, key: string)
    ensures Count(tasks + [task], key) == Count(tasks, key) + if task.Key() == key then 1 else 0
  {
    hide Task.Key;
    CountConcat(tasks, [task], key);
  }

  lemma {:induction false} CountSeen(tasks: seq<Task>, namespaceId: nat, name: string)
    ensures Count(tasks, Task(0, namespaceId, name).Key()) > 0 <==>
              exists t :: t in tasks && t.namespaceId == namespaceId && t.name == name
  {
    hide FileKey;
    if tasks != [] {
      CountSeen(tasks[1..], namespaceId, name);
      KeysDiffer(tasks[0], Task(0, namespaceId, name));
      assert forall t :: t in tasks <==> t == tasks[0] || t in tasks[1..];
    }
  }
}
