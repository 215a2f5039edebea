/**
 * The task list of a workload: `n` transfers of the same size whose object keys are
 * `{action}/{dirname}/{i}` with `i` running from 1 to `n`, zero-padded to the number of
 * digits of `n`. The three scripts that build workloads share this loop and the fixed
 * workload fields; they are modelled once here.
 */
module WorkloadTasks {
  import opened Strings

  const Version: int := 2
  const DefaultMaxRepeatCount: int := 10
  const DefaultMaxRepeatSecs: int := 600

  /** One transfer of a workload. */
  datatype Task = Task(action: string, key: string, size: nat)

  /** A run workload, as written out as JSON. `comment` is absent in the combined workload of compare.py. */
  datatype Workload = Workload(
    version: int,
    comment: Option<string>,
    filesOnDisk: bool,
    checksum: Option<string>,
    maxRepeatCount: int,
    maxRepeatSecs: int,
    tasks: seq<Task>)

  /** Number of tasks that `range(n)` yields. */
  function Count(n: int): nat {
    if n > 0 then n else 0
  }

  /** The padding width: the number of decimal digits of `n` when `n > 1`, else 1. */
  function Width(n: int): (w: nat)
    ensures w >= 1
  {
    if n > 1 then NumDigits(n) else 1
  }

  /** `f"{size}-{n:_}x"`: the directory shared by all keys of a workload. */
  function DirName(sizeText: string, n: int): string {
    sizeText + "-" + FormatGrouped(n) + "x"
  }

  /** The file name of the task at index `i`: `i + 1`, zero-padded to `Width(n)`. */
  function FileName(i: nat, n: int): string {
    ZeroPad(i + 1, Width(n))
  }

  function KeyPrefix(action: string, dirname: string): string {
    action + "/" + dirname + "/"
  }

  function TaskAt(action: string, dirname: string, n: int, size: nat, i: nat): Task {
    Task(action, KeyPrefix(action, dirname) + FileName(i, n), size)
  }

  /** The tasks the loop `for i in range(n)` appends, in order. */
  function Tasks(action: string, dirname: string, n: int, size: nat): (ts: seq<Task>)
    ensures |ts| == Count(n)
  {
    seq(Count(n), i requires 0 <= i => TaskAt(action, dirname, n, size, i))
  }

  /**
   * The loop itself: appends one task per file to `tasks`. The result is what it was
   * before, followed by the workload's task list.
   */
  method AppendTasks(tasks: seq<Task>, action: string, dirname: string, n: int, size: nat)
    returns (out: seq<Task>)
    ensures out == tasks + Tasks(action, dirname, n, size)
  {
    out := tasks;
    var i := 0;
    while i < n
      invariant 0 <= i <= Count(n)
      invariant out == tasks + Tasks(action, dirname, n, size)[..i]
    {
      var fileName := ZeroPad(i + 1, Width(n));
      out := out + [Task(action, action + "/" + dirname + "/" + fileName, size)];
      i := i + 1;
    }
    assert Tasks(action, dirname, n, size)[..i] == Tasks(action, dirname, n, size);
  }

  /** The file name of task `i` reads back as `i + 1`, and every file name has `Width(n)` digits. */
  lemma FileNameNumber(i: nat, n: int)
    requires i < n
    ensures AllDigits(FileName(i, n)) && Value(FileName(i, n)) == i + 1
    ensures |FileName(i, n)| == Width(n)
  {
    ValueZeroPad(i + 1, Width(n));
    if n > 1 {
      NumDigitsMonotone(i + 1, n);
    }
  }

  /**
   * What the task list holds: `Count(n)` tasks, each with the given action and size and a
   * key made of the shared prefix and a file name worth its position plus one.
   */
  lemma TasksShape(action: string, dirname: string, n: int, size: nat)
    ensures var ts := Tasks(action, dirname, n, size);
      |ts| == Count(n) &&
      forall i | 0 <= i < |ts| ::
        ts[i].action == action && ts[i].size == size &&
        StartsWith(ts[i].key, KeyPrefix(action, dirname)) &&
        var name := ts[i].key[|KeyPrefix(action, dirname)|..];
        |name| == Width(n) && AllDigits(name) && Value(name) == i + 1
  {
    var ts := Tasks(action, dirname, n, size);
    var p := KeyPrefix(action, dirname);
    forall i | 0 <= i < |ts|
      ensures ts[i].action == action && ts[i].size == size && StartsWith(ts[i].key, p)
      ensures var name := ts[i].key[|p|..];
        |name| == Width(n) && AllDigits(name) && Value(name) == i + 1
    {
      FileNameNumber(i, n);
      assert ts[i].key == p + FileName(i, n);
      assert ts[i].key[..|p|] == p && ts[i].key[|p|..] == FileName(i, n);
    }
  }

  /** No two tasks of a workload share a key. */
  lemma TaskKeysDistinct(action: string, dirname: string, n: int, size: nat)
    ensures var ts := Tasks(action, dirname, n, size);
      forall i, j | 0 <= i < j < |ts| :: ts[i].key != ts[j].key
  {
    var ts := Tasks(action, dirname, n, size);
    var p := KeyPrefix(action, dirname);
    TasksShape(action, dirname, n, size);
    forall i, j | 0 <= i < j < |ts| ensures ts[i].key != ts[j].key {
      assert Value(ts[i].key[|p|..]) != Value(ts[j].key[|p|..]);
    }
  }

  /** All keys of a workload have the same length. */
  lemma TaskKeysSameLength(action: string, dirname: string, n: int, size: nat)
    ensures var ts := Tasks(action, dirname, n, size);
      forall i | 0 <= i < |ts| :: |ts[i].key| == |KeyPrefix(action, dirname)| + Width(n)
  {
    TasksShape(action, dirname, n, size);
  }
}
