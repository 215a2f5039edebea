/**
 * compare.py, the pure parts: the tasks of a workload name, the workload combined from
 * several names on the command line, and the build type of a client. Running builds
 * and benchmarks, git, S3 and reading a payload JSON file are not modelled.
 */
module Compare {
  import opened Strings
  import opened WorkloadNames
  import opened WorkloadTasks

  // ---------------------------------------------------------------------------
  // generate_tasks_from_workload_name

  /** The tasks of a workload name and whether its files are on disk, or why the name is rejected. */
  function NameTasks(name: string): (r: Result<(seq<Task>, bool), Error>)
    ensures r.Failure? ==> ParseName(name).Failure? || r.error == IllegalSize(ParseName(name).value.sizeText)
    ensures r.Success? ==>
      ParseName(name).Success? && r.value.1 == ParseName(name).value.filesOnDisk &&
      |r.value.0| == ParseName(name).value.numFiles
  {
    match ParseName(name)
    case Failure(e) => Failure(e)
    case Success(p) =>
      match SizeFromStr(p.sizeText)
      case Failure(e) => Failure(e)
      case Success(size) => Success((Tasks(p.action, DirName(p.sizeText, p.numFiles), p.numFiles, size), p.filesOnDisk))
  }

  /** `generate_tasks_from_workload_name`: parse, then append one task per file. */
  method GenerateTasksFromWorkloadName(name: string) returns (r: Result<(seq<Task>, bool), Error>)
    ensures r == NameTasks(name)
  {
    var parsed := ParseName(name);
    if parsed.Failure? {
      return Failure(parsed.error);
    }
    var p := parsed.value;
    var size := SizeFromStr(p.sizeText);
    if size.Failure? {
      return Failure(size.error);
    }
    var dirname := p.sizeText + "-" + FormatGrouped(p.numFiles) + "x";
    var tasks := AppendTasks([], p.action, dirname, p.numFiles, size.value);
    assert tasks == Tasks(p.action, DirName(p.sizeText, p.numFiles), p.numFiles, size.value);
    r := Success((tasks, p.filesOnDisk));
  }

  /**
   * An accepted name gives one task per file, each with the parsed action and size in
   * bytes, with pairwise distinct keys; the flag is false exactly for a `-ram` name.
   */
  lemma NameTasksOutcome(name: string)
    ensures NameTasks(name).Success? <==>
      ParseName(name).Success? && SizeFromStr(ParseName(name).value.sizeText).Success?
    ensures NameTasks(name).Success? ==>
      var (ts, filesOnDisk) := NameTasks(name).value;
      var p := ParseName(name).value;
      |ts| == p.numFiles && (filesOnDisk <==> !EndsWith(WithoutJson(name), "-ram")) &&
      (forall i | 0 <= i < |ts| :: ts[i].action == p.action && ts[i].size == SizeFromStr(p.sizeText).value) &&
      (forall i, j | 0 <= i < j < |ts| :: ts[i].key != ts[j].key)
  {
    if NameTasks(name).Success? {
      var p := ParseName(name).value;
      var size := SizeFromStr(p.sizeText).value;
      TasksShape(p.action, DirName(p.sizeText, p.numFiles), p.numFiles, size);
      TaskKeysDistinct(p.action, DirName(p.sizeText, p.numFiles), p.numFiles, size);
    }
  }

  /**
   * The name built at compare.py:188, `f"{action}-{fileSize}-{numFiles}x"`, gives back
   * `numFiles` tasks of `fileSize` bytes each under `{fileSize}-{numFiles:_}x`, on disk.
   */
  lemma NameTasksOfDecimalName(action: string, digits: string, u: Unit, n: nat)
    requires IsAction(action) && |digits| > 0 && AllDigits(digits)
    ensures var sizeText := SizeText(digits, u, false);
      NameTasks(action + "-" + sizeText + "-" + Decimal(n) + "x")
        == Success((Tasks(action, sizeText + "-" + Grouped(n) + "x", n, Value(digits) * Multiplier(u)), true))
  {
    var sizeText := SizeText(digits, u, false);
    SizeTextFitsName(digits, u);
    ParseDecimalName(action, sizeText, n);
    SizeFromStrAccepts(digits, u, false);
  }

  // ---------------------------------------------------------------------------
  // parse_payload, workload-names branch

  /** What one name contributes: its tasks and its files-on-disk flag, or an error. */
  type Step = string -> Result<(seq<Task>, bool), Error>

  /**
   * The tasks of all names, in argument order, and whether every name keeps its files on
   * disk; the first rejected name's error otherwise. `step` is the per-name parse, kept a
   * parameter so that the facts about combining hold whatever it is.
   */
  function Combined(step: Step, names: seq<string>): (r: Result<(seq<Task>, bool), Error>)
    ensures r.Success? ==> forall i | 0 <= i < |names| :: step(names[i]).Success?
    decreases |names|
  {
    assert forall i | 0 <= i < |names| - 1 :: names[..|names| - 1][i] == names[i];
    if names == [] then Success(([], true))
    else
      match Combined(step, names[..|names| - 1])
      case Failure(e) => Failure(e)
      case Success(acc) =>
        match step(names[|names| - 1])
        case Failure(e) => Failure(e)
        case Success(t) => Success((acc.0 + t.0, acc.1 && t.1))
  }

  /** Whether the arguments name a payload JSON file rather than workloads. */
  predicate IsPayloadFile(args: seq<string>) {
    |args| == 1 && EndsWith(args[0], ".json")
  }

  /** The workload `parse_payload` returns for a list of workload names. */
  function NamesWorkload(names: seq<string>): (r: Result<Workload, Error>)
    ensures r.Success? <==> forall i | 0 <= i < |names| :: NameTasks(names[i]).Success?
  {
    CombinedSuccessIff(NameTasks, names);
    match Combined(NameTasks, names)
    case Failure(e) => Failure(e)
    case Success((tasks, filesOnDisk)) =>
      Success(Workload(Version, None, filesOnDisk, None, DefaultMaxRepeatCount, DefaultMaxRepeatSecs, tasks))
  }

  /** `parse_payload` on workload names: extend the task list name by name and fold the flag. */
  method ParsePayloadNames(names: seq<string>) returns (r: Result<Workload, Error>)
    requires !IsPayloadFile(names)
    ensures r == NamesWorkload(names)
  {
    var allTasks: seq<Task> := [];
    var filesOnDisk := true;
    for i := 0 to |names|
      invariant Combined(NameTasks, names[..i]) == Success((allTasks, filesOnDisk))
    {
      var t := GenerateTasksFromWorkloadName(names[i]);
      assert names[..i + 1][..i] == names[..i];
      if t.Failure? {
        CombinedFailurePropagates(NameTasks, names, i + 1);
        return Failure(t.error);
      }
      allTasks := allTasks + t.value.0;
      filesOnDisk := filesOnDisk && t.value.1;
    }
    assert names[..|names|] == names;
    r := Success(Workload(Version, None, filesOnDisk, None, DefaultMaxRepeatCount, DefaultMaxRepeatSecs, allTasks));
  }

  /** Once a prefix of the names is rejected, the whole list is rejected with the same error. */
  lemma {:induction false} CombinedFailurePropagates(step: Step, names: seq<string>, k: nat)
    requires k <= |names| && Combined(step, names[..k]).Failure?
    ensures Combined(step, names) == Combined(step, names[..k])
    decreases |names| - k
  {
    if k < |names| {
      assert names[..k + 1][..k] == names[..k];
      CombinedFailurePropagates(step, names, k + 1);
    } else {
      assert names[..k] == names;
    }
  }

  /** The combined list is accepted exactly when every name is. */
  lemma {:induction false} CombinedSuccessIff(step: Step, names: seq<string>)
    ensures Combined(step, names).Success? <==> forall i | 0 <= i < |names| :: step(names[i]).Success?
    decreases |names|
  {
    if names != [] {
      var init := names[..|names| - 1];
      CombinedSuccessIff(step, init);
      assert forall i | 0 <= i < |init| :: init[i] == names[i];
    }
  }

  /**
   * A rejected list is rejected with the error of its first rejected name.
   */
  lemma {:induction false} CombinedFirstError(step: Step, names: seq<string>) returns (k: nat)
    requires Combined(step, names).Failure?
    ensures k < |names| && step(names[k]).Failure? && Combined(step, names).error == step(names[k]).error
    ensures forall i | 0 <= i < k :: step(names[i]).Success?
    decreases |names|
  {
    var init := names[..|names| - 1];
    if Combined(step, init).Failure? {
      k := CombinedFirstError(step, init);
      assert init[k] == names[k];
      assert forall i | 0 <= i < k :: init[i] == names[i];
    } else {
      k := |names| - 1;
      CombinedSuccessIff(step, init);
      assert forall i | 0 <= i < k :: init[i] == names[i];
    }
  }

  /**
   * Combining is concatenation: the names of `a + b` give the tasks of `a` followed by
   * those of `b`, on disk only if both are.
   */
  lemma {:induction false} CombinedAppend(step: Step, a: seq<string>, b: seq<string>)
    requires Combined(step, a).Success? && Combined(step, b).Success?
    ensures Combined(step, a + b) == Success((Combined(step, a).value.0 + Combined(step, b).value.0,
                                              Combined(step, a).value.1 && Combined(step, b).value.1))
    decreases |b|
  {
    if b == [] {
      assert a + b == a;
      assert Combined(step, a).value.0 + [] == Combined(step, a).value.0;
    } else {
      var init := b[..|b| - 1];
      assert (a + b)[..|a + b| - 1] == a + init;
      assert (a + b)[|a + b| - 1] == b[|b| - 1];
      assert Combined(step, init).Success? && step(b[|b| - 1]).Success?;
      CombinedAppend(step, a, init);
      var ta, ti, tl := Combined(step, a).value, Combined(step, init).value, step(b[|b| - 1]).value;
      assert Combined(step, b).value == (ti.0 + tl.0, ti.1 && tl.1);
      assert Combined(step, a + b).value == ((ta.0 + ti.0) + tl.0, (ta.1 && ti.1) && tl.1);
      assert (ta.0 + ti.0) + tl.0 == ta.0 + (ti.0 + tl.0);
    }
  }

  /** One name alone gives exactly its own tasks and flag. */
  lemma CombinedSingle(step: Step, name: string)
    ensures Combined(step, [name]) == step(name)
  {
    assert [name][..0] == [];
    if step(name).Success? {
      assert [] + step(name).value.0 == step(name).value.0;
    }
  }

  /** The files are on disk for the combined workload exactly when they are for every name. */
  lemma {:induction false} CombinedFilesOnDisk(step: Step, names: seq<string>)
    requires Combined(step, names).Success?
    ensures forall i | 0 <= i < |names| :: step(names[i]).Success?
    ensures Combined(step, names).value.1 <==> forall i | 0 <= i < |names| :: step(names[i]).value.1
    decreases |names|
  {
    CombinedSuccessIff(step, names);
    if names != [] {
      var init := names[..|names| - 1];
      CombinedFilesOnDisk(step, init);
      assert forall i | 0 <= i < |init| :: init[i] == names[i];
    }
  }

  /** The combined workload has version 2, no comment, no checksum, 10 repeats and 600 seconds. */
  lemma NamesWorkloadFields(names: seq<string>)
    ensures NamesWorkload(names).Success? <==> forall i | 0 <= i < |names| :: NameTasks(names[i]).Success?
    ensures NamesWorkload(names).Success? ==>
      var w := NamesWorkload(names).value;
      w.version == 2 && w.comment == None && w.checksum == None && w.maxRepeatCount == 10 &&
      w.maxRepeatSecs == 600 && w.tasks == Combined(NameTasks, names).value.0 &&
      w.filesOnDisk == Combined(NameTasks, names).value.1
  {
    CombinedSuccessIff(NameTasks, names);
  }

  // ---------------------------------------------------------------------------
  // get_build_type

  /**
   * What `clear.sh` and `build.sh` are told to rebuild for a client: the strings
   * `aws-c-s3`, `python`, `java` and `rust`.
   */
  datatype BuildType = AwsCS3 | Python | Java | Rust

  const PythonClients: seq<string> := ["crt-python", "boto3-crt", "boto3-classic", "cli-crt", "cli-classic"]
  const JavaClients: seq<string> :=
    ["crt-java", "sdk-java-client-crt", "sdk-java-client-classic", "sdk-java-tm-crt", "sdk-java-tm-classic"]

  /** The build type of a client; `None` where the script raises "Unknown client". */
  function GetBuildType(client: string): (r: Option<BuildType>)
    ensures r.Some? ==> client in ClientsOf(r.value)
  {
    if client == "crt-c" then Some(AwsCS3)
    else if client in PythonClients then Some(Python)
    else if client in JavaClients then Some(Java)
    else if client == "sdk-rust-tm" then Some(Rust)
    else None
  }

  /** The clients of each build type, as a table. */
  function ClientsOf(b: BuildType): seq<string> {
    match b
    case AwsCS3 => ["crt-c"]
    case Python => PythonClients
    case Java => JavaClients
    case Rust => ["sdk-rust-tm"]
  }

  /** A client gets a build type exactly when the table lists it there; the lists do not overlap. */
  lemma GetBuildTypeTable(client: string, b: BuildType)
    ensures GetBuildType(client) == Some(b) <==> client in ClientsOf(b)
  {
  }

  /** Any client the table does not list is rejected. */
  lemma GetBuildTypeUnknown(client: string)
    ensures GetBuildType(client).None? <==> forall b: BuildType :: client !in ClientsOf(b)
  {
    if GetBuildType(client).Some? {
      GetBuildTypeTable(client, GetBuildType(client).value);
    }
  }
}
