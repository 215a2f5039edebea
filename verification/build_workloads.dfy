/**
 * build-workloads.py: builds a run workload from a workload source. The source JSON
 * object is taken as a record whose members are `Option`s, `None` standing for a member
 * the object does not have; reading and writing files is not modelled.
 */
module BuildWorkloads {
  import opened Strings
  import opened WorkloadNames
  import opened WorkloadTasks

  const DefaultNumFiles: int := 1
  const DefaultFilesOnDisk: bool := true

  /** A workload source file. `action` and `fileSize` are required, the rest optional. */
  datatype Source = Source(
    action: Option<string>,
    fileSize: Option<string>,
    comment: Option<string>,
    numFiles: Option<int>,
    filesOnDisk: Option<bool>,
    checksum: Option<string>,
    maxRepeatCount: Option<int>,
    maxRepeatSecs: Option<int>)

  function GetOr<T>(o: Option<T>, default: T): T {
    if o.Some? then o.value else default
  }

  /** The checksum algorithms a workload may name; no checksum is allowed too. */
  predicate ValidChecksum(checksum: Option<string>) {
    checksum.None? || checksum.value in {"CRC32", "CRC32C", "SHA1", "SHA256"}
  }

  /** The directory name: size, grouped count and, when a checksum is set, its lower-case name. */
  function BuildDirName(fileSize: string, n: int, checksum: Option<string>): string {
    DirName(fileSize, n) + ChecksumSuffix(checksum)
  }

  /** `-{checksum.lower()}` when a checksum is set (a non-empty string), else nothing. */
  function ChecksumSuffix(checksum: Option<string>): (suffix: string)
    ensures suffix == "" <==> checksum.None? || checksum.value == ""
    ensures suffix != "" ==> suffix[0] == '-' && |suffix| == |checksum.value| + 1
  {
    if checksum.Some? && checksum.value != "" then "-" + Lower(checksum.value) else ""
  }

  /** The workload `build_workload` writes for a source, or the error it raises. */
  function Built(src: Source): (r: Result<Workload, Error>)
    ensures r.Success? ==> (src.action == Some("upload") || src.action == Some("download")) && ValidChecksum(src.checksum)
    ensures r.Success? ==> r.value.checksum == src.checksum && |r.value.tasks| == Count(GetOr(src.numFiles, DefaultNumFiles))
  {
    if src.action.None? then Failure(MissingField("action"))
    else if src.fileSize.None? then Failure(MissingField("fileSize"))
    else
      match SizeFromStr(src.fileSize.value)
      case Failure(e) => Failure(e)
      case Success(size) =>
        var n := GetOr(src.numFiles, DefaultNumFiles);
        var checksum := src.checksum;
        if !IsAction(src.action.value) then Failure(InvalidAction(src.action.value))
        else if !ValidChecksum(checksum) then Failure(InvalidChecksum(checksum.value))
        else
          Success(Workload(Version, Some(GetOr(src.comment, "")), GetOr(src.filesOnDisk, DefaultFilesOnDisk),
                           checksum, GetOr(src.maxRepeatCount, DefaultMaxRepeatCount),
                           GetOr(src.maxRepeatSecs, DefaultMaxRepeatSecs),
                           Tasks(src.action.value, BuildDirName(src.fileSize.value, n, checksum), n, size)))
  }

  /** `build_workload`: read the fields, validate, build the directory name, append the tasks. */
  method BuildWorkload(src: Source) returns (r: Result<Workload, Error>)
    ensures r == Built(src)
  {
    if src.action.None? {
      return Failure(MissingField("action"));
    }
    var action := src.action.value;
    if src.fileSize.None? {
      return Failure(MissingField("fileSize"));
    }
    var fileSizeStr := src.fileSize.value;
    var fileSize := SizeFromStr(fileSizeStr);
    if fileSize.Failure? {
      return Failure(fileSize.error);
    }
    var comment := GetOr(src.comment, "");
    var numFiles := GetOr(src.numFiles, DefaultNumFiles);
    var filesOnDisk := GetOr(src.filesOnDisk, DefaultFilesOnDisk);
    var checksum := src.checksum;
    var maxRepeatCount := GetOr(src.maxRepeatCount, DefaultMaxRepeatCount);
    var maxRepeatSecs := GetOr(src.maxRepeatSecs, DefaultMaxRepeatSecs);
    if !IsAction(action) {
      return Failure(InvalidAction(action));
    }
    if !ValidChecksum(checksum) {
      return Failure(InvalidChecksum(checksum.value));
    }
    var dirname := fileSizeStr;
    dirname := dirname + "-" + FormatGrouped(numFiles) + "x";
    if checksum.Some? && checksum.value != "" {
      dirname := dirname + "-" + Lower(checksum.value);
    }
    assert dirname == BuildDirName(fileSizeStr, numFiles, checksum);
    var tasks := AppendTasks([], action, dirname, numFiles, fileSize.value);
    assert tasks == Tasks(action, dirname, numFiles, fileSize.value);
    r := Success(Workload(Version, Some(comment), filesOnDisk, checksum, maxRepeatCount, maxRepeatSecs, tasks));
  }

  /**
   * Every source with an action of upload or download, a size written as digits, a unit
   * and at most a final newline, and no checksum or one of the four algorithms is
   * accepted, each task being the number times the unit in bytes.
   */
  lemma BuiltAccepts(src: Source, digits: string, u: Unit, newline: bool)
    requires src.action == Some("upload") || src.action == Some("download")
    requires |digits| > 0 && AllDigits(digits) && src.fileSize == Some(SizeText(digits, u, newline))
    requires src.checksum in {None, Some("CRC32"), Some("CRC32C"), Some("SHA1"), Some("SHA256")}
    ensures Built(src).Success?
    ensures forall t <- Built(src).value.tasks :: t.size == Value(digits) * Multiplier(u)
  {
    var size := Value(digits) * Multiplier(u);
    assert SizeFromStr(src.fileSize.value) == Success(size) by {
      SizeFromStrAccepts(digits, u, newline);
    }
    assert IsAction(src.action.value) && ValidChecksum(src.checksum);
    var n := GetOr(src.numFiles, DefaultNumFiles);
    var ts := Tasks(src.action.value, BuildDirName(src.fileSize.value, n, src.checksum), n, size);
    BuiltOfValidSource(src, size);
    forall t <- ts ensures t.size == size {
      var i :| 0 <= i < |ts| && ts[i] == t;
    }
  }

  /** A source with a valid action, size and checksum gets the tasks of its parsed size. */
  lemma BuiltOfValidSource(src: Source, size: nat)
    requires src.action.Some? && IsAction(src.action.value) && ValidChecksum(src.checksum)
    requires src.fileSize.Some? && SizeFromStr(src.fileSize.value) == Success(size)
    ensures var n := GetOr(src.numFiles, DefaultNumFiles);
      Built(src).Success? &&
      Built(src).value.tasks == Tasks(src.action.value, BuildDirName(src.fileSize.value, n, src.checksum), n, size)
  {
  }

  /**
   * Only such sources are accepted: an accepted source has an action of upload or
   * download, a size of digits, a unit and at most a final newline, and an allowed checksum.
   */
  lemma BuiltOnly(src: Source) returns (digits: string, u: Unit, newline: bool)
    requires Built(src).Success?
    ensures src.action == Some("upload") || src.action == Some("download")
    ensures |digits| > 0 && AllDigits(digits) && src.fileSize == Some(SizeText(digits, u, newline))
    ensures src.checksum in {None, Some("CRC32"), Some("CRC32C"), Some("SHA1"), Some("SHA256")}
  {
    digits, u, newline := SizeFromStrOnly(src.fileSize.value);
  }

  /**
   * An accepted source gives a workload of version 2 that copies the optional members or
   * their defaults, with `Count(numFiles)` tasks of the parsed size and pairwise distinct keys.
   */
  lemma BuiltOutcome(src: Source)
    requires Built(src).Success?
    ensures var w := Built(src).value;
      var n := GetOr(src.numFiles, 1);
      w.version == 2 && w.comment == Some(GetOr(src.comment, "")) &&
      w.filesOnDisk == GetOr(src.filesOnDisk, true) && w.checksum == src.checksum &&
      w.maxRepeatCount == GetOr(src.maxRepeatCount, 10) && w.maxRepeatSecs == GetOr(src.maxRepeatSecs, 600) &&
      |w.tasks| == Count(n) &&
      (forall i | 0 <= i < |w.tasks| ::
        w.tasks[i].action == src.action.value && w.tasks[i].size == SizeFromStr(src.fileSize.value).value) &&
      (forall i, j | 0 <= i < j < |w.tasks| :: w.tasks[i].key != w.tasks[j].key)
  {
    var n := GetOr(src.numFiles, 1);
    var dirname := BuildDirName(src.fileSize.value, n, src.checksum);
    var size := SizeFromStr(src.fileSize.value).value;
    TasksShape(src.action.value, dirname, n, size);
    TaskKeysDistinct(src.action.value, dirname, n, size);
  }

  /** The source with only the required members: one task, keyed `{action}/{size}-1x/1`. */
  lemma BuiltDefaults(action: string, fileSize: string)
    requires IsAction(action) && SizeFromStr(fileSize).Success?
    ensures Built(Source(Some(action), Some(fileSize), None, None, None, None, None, None))
      == Success(Workload(2, Some(""), true, None, 10, 600,
                          [Task(action, action + "/" + (fileSize + "-" + "1" + "x") + "/" + "1", SizeFromStr(fileSize).value)]))
  {
    assert Decimal(1) == "1";
    assert Zeros(0) == "";
    assert FileName(0, 1) == "1";
    assert FormatGrouped(1) == "1";
    var d := DirName(fileSize, 1);
    assert BuildDirName(fileSize, 1, None) == d + "" == d;
    assert d == fileSize + "-" + "1" + "x";
    var ts := Tasks(action, d, 1, SizeFromStr(fileSize).value);
    assert ts == [ts[0]];
    assert ts[0].key == action + "/" + d + "/" + "1";
  }

  /** Whether the files are kept on disk does not change any task: the `-ram` suffix is never used. */
  lemma FilesOnDiskLeavesTasks(src: Source, filesOnDisk: Option<bool>)
    ensures Built(src).Success? <==> Built(src.(filesOnDisk := filesOnDisk)).Success?
    ensures Built(src).Success? ==> Built(src).value.tasks == Built(src.(filesOnDisk := filesOnDisk)).value.tasks
  {
  }

  /** Keys that share their action and count but lie in different directories never collide. */
  lemma KeysInDifferentDirectories(action: string, dir1: string, dir2: string, n: int, size1: nat, size2: nat, i: nat, j: nat)
    requires dir1 != dir2 && '/' !in dir1 && '/' !in dir2
    requires i < Count(n) && j < Count(n)
    ensures Tasks(action, dir1, n, size1)[i].key != Tasks(action, dir2, n, size2)[j].key
  {
    var k1 := Tasks(action, dir1, n, size1)[i].key;
    var k2 := Tasks(action, dir2, n, size2)[j].key;
    FileNameNumber(i, n);
    FileNameNumber(j, n);
    var a := action + "/";
    assert k1 == a + dir1 + "/" + FileName(i, n);
    assert k2 == a + dir2 + "/" + FileName(j, n);
    if |dir1| == |dir2| {
      var m :| 0 <= m < |dir1| && dir1[m] != dir2[m];
      assert k1[|a| + m] == dir1[m] && k2[|a| + m] == dir2[m];
    } else if |dir1| < |dir2| {
      assert k1[|a| + |dir1|] == '/' && k2[|a| + |dir1|] == dir2[|dir1|];
    } else {
      assert k2[|a| + |dir2|] == '/' && k1[|a| + |dir2|] == dir1[|dir2|];
    }
  }

  /**
   * Workloads that differ only in their checksum (one of the allowed settings) store their
   * files in different directories, so none of their keys collide.
   */
  lemma ChecksumSeparatesKeys(src: Source, checksum: Option<string>, i: nat, j: nat)
    requires Built(src).Success? && Built(src.(checksum := checksum)).Success?
    requires src.checksum != checksum
    requires '/' !in src.fileSize.value
    requires i < |Built(src).value.tasks| && j < |Built(src.(checksum := checksum)).value.tasks|
    ensures Built(src).value.tasks[i].key != Built(src.(checksum := checksum)).value.tasks[j].key
  {
    var n := GetOr(src.numFiles, 1);
    var f := src.fileSize.value;
    var d1 := BuildDirName(f, n, src.checksum);
    var d2 := BuildDirName(f, n, checksum);
    ChecksumDirectoriesDiffer(f, n, src.checksum, checksum);
    KeysInDifferentDirectories(src.action.value, d1, d2, n, SizeFromStr(f).value, SizeFromStr(f).value, i, j);
  }

  /** The suffix each allowed checksum setting adds to the directory name. */
  lemma ChecksumSuffixes(c: Option<string>)
    requires ValidChecksum(c)
    ensures c.None? ==> ChecksumSuffix(c) == ""
    ensures c == Some("CRC32") ==> ChecksumSuffix(c) == "-crc32"
    ensures c == Some("CRC32C") ==> ChecksumSuffix(c) == "-crc32c"
    ensures c == Some("SHA1") ==> ChecksumSuffix(c) == "-sha1"
    ensures c == Some("SHA256") ==> ChecksumSuffix(c) == "-sha256"
  {
    assert Lower("CRC32") == "crc32" && Lower("CRC32C") == "crc32c";
    assert Lower("SHA1") == "sha1" && Lower("SHA256") == "sha256";
  }

  /** A grouped count holds digits, `_` and at most a leading `-`, never `/`. */
  lemma FormatGroupedLacksSlash(n: int)
    ensures '/' !in FormatGrouped(n)
  {
    var m: nat := if n < 0 then -n else n;
    GroupedChars(m);
    assert '/' !in Grouped(m);
  }

  /** Different allowed checksum settings give different directory names, both free of `/`. */
  lemma ChecksumDirectoriesDiffer(f: string, n: int, c1: Option<string>, c2: Option<string>)
    requires ValidChecksum(c1) && ValidChecksum(c2) && c1 != c2 && '/' !in f
    ensures BuildDirName(f, n, c1) != BuildDirName(f, n, c2)
    ensures '/' !in BuildDirName(f, n, c1) && '/' !in BuildDirName(f, n, c2)
  {
    ChecksumSuffixes(c1);
    ChecksumSuffixes(c2);
    FormatGroupedLacksSlash(n);
    var d := DirName(f, n);
    var s1, s2 := ChecksumSuffix(c1), ChecksumSuffix(c2);
    assert s1 != s2;
    assert (d + s1)[|d|..] == s1 && (d + s2)[|d|..] == s2;
    assert '/' !in s1 && '/' !in s2;
  }
}
