/**
 * generate-tmp-workload.py: turns a workload file name such as `upload-15MiB-1x.json`
 * into a temporary run workload, without a source file. Printing and writing the JSON
 * output are not modelled; the workload is returned as a value.
 */
module GenerateTmpWorkload {
  import opened Strings
  import opened WorkloadNames
  import opened WorkloadTasks

  const CommentPrefix: string := "Temporary workload generated from "

  /** The workload `generate_workload` writes for a file name, or the error it raises. */
  function TmpWorkload(filename: string): (r: Result<Workload, Error>)
    ensures r.Failure? ==> ParseName(filename).Failure? || r.error == IllegalSize(ParseName(filename).value.sizeText)
    ensures r.Success? ==>
      ParseName(filename).Success? && r.value.comment == Some(CommentPrefix + filename) &&
      r.value.filesOnDisk == ParseName(filename).value.filesOnDisk &&
      |r.value.tasks| == ParseName(filename).value.numFiles
  {
    match ParseName(filename)
    case Failure(e) => Failure(e)
    case Success(p) =>
      match SizeFromStr(p.sizeText)
      case Failure(e) => Failure(e)
      case Success(size) =>
        Success(Workload(Version, Some(CommentPrefix + filename), p.filesOnDisk, None,
                         DefaultMaxRepeatCount, DefaultMaxRepeatSecs,
                         Tasks(p.action, DirName(p.sizeText, p.numFiles), p.numFiles, size)))
  }

  /** `generate_workload`: parse the name and the size, then append the tasks one by one. */
  method GenerateWorkload(filename: string) returns (r: Result<Workload, Error>)
    ensures r == TmpWorkload(filename)
  {
    var parsed := ParseName(filename);
    if parsed.Failure? {
      return Failure(parsed.error);
    }
    var p := parsed.value;
    var size := SizeFromStr(p.sizeText);
    if size.Failure? {
      return Failure(size.error);
    }
    var dirname := p.sizeText;
    dirname := dirname + "-" + FormatGrouped(p.numFiles) + "x";
    assert dirname == DirName(p.sizeText, p.numFiles);
    var tasks := AppendTasks([], p.action, dirname, p.numFiles, size.value);
    assert tasks == Tasks(p.action, dirname, p.numFiles, size.value);
    r := Success(Workload(Version, Some(CommentPrefix + filename), p.filesOnDisk, None,
                          DefaultMaxRepeatCount, DefaultMaxRepeatSecs, tasks));
  }

  /**
   * A file name is accepted exactly when its name parses and its size text is a size;
   * the workload then has the fixed fields, the parsed files-on-disk flag, and one task
   * per file with pairwise distinct keys and the parsed size in bytes.
   */
  lemma TmpWorkloadOutcome(filename: string)
    ensures TmpWorkload(filename).Success? <==>
      ParseName(filename).Success? && SizeFromStr(ParseName(filename).value.sizeText).Success?
    ensures TmpWorkload(filename).Success? ==>
      var w := TmpWorkload(filename).value;
      var p := ParseName(filename).value;
      w.version == 2 && w.checksum == None && w.maxRepeatCount == 10 && w.maxRepeatSecs == 600 &&
      w.comment == Some("Temporary workload generated from " + filename) &&
      (w.filesOnDisk <==> !EndsWith(WithoutJson(filename), "-ram")) &&
      |w.tasks| == p.numFiles &&
      (forall i | 0 <= i < |w.tasks| ::
        w.tasks[i].action == p.action && w.tasks[i].size == SizeFromStr(p.sizeText).value) &&
      (forall i, j | 0 <= i < j < |w.tasks| :: w.tasks[i].key != w.tasks[j].key)
  {
    if TmpWorkload(filename).Success? {
      var p := ParseName(filename).value;
      var size := SizeFromStr(p.sizeText).value;
      TasksShape(p.action, DirName(p.sizeText, p.numFiles), p.numFiles, size);
      TaskKeysDistinct(p.action, DirName(p.sizeText, p.numFiles), p.numFiles, size);
    }
  }

  /**
   * Round trip from the fields: for the file name of `n` files of `digits` units, with
   * `-ram` when the files are in memory and with or without `.json`, the temporary
   * workload has `n` tasks of that many bytes each, stored under the directory
   * `{size}-{n:_}x`, and the flag the name carries.
   */
  lemma TmpWorkloadOfName(action: string, digits: string, u: Unit, n: nat, filesOnDisk: bool, json: bool)
    requires IsAction(action) && |digits| > 0 && AllDigits(digits)
    ensures var sizeText := SizeText(digits, u, false);
      var filename := WorkloadName(action, sizeText, Grouped(n), filesOnDisk) + (if json then ".json" else "");
      TmpWorkload(filename) == Success(Workload(2, Some(CommentPrefix + filename), filesOnDisk, None, 10, 600,
        Tasks(action, sizeText + "-" + Grouped(n) + "x", n, Value(digits) * Multiplier(u))))
  {
    var sizeText := SizeText(digits, u, false);
    SizeTextFitsName(digits, u);
    ParseGroupedName(action, sizeText, n, filesOnDisk, json);
    SizeFromStrAccepts(digits, u, false);
  }
}
