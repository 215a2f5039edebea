/**
 * Workload names and sizes. A workload is named `{action}-{size}-{count}x`, optionally
 * followed by `-ram` (files kept in memory) and `.json`; a size is a decimal number
 * followed by one of the units KiB, MiB, GiB, bytes or byte. The scripts carry three
 * copies of the size parser and two of the name parser; they behave alike and are
 * modelled once here.
 */
module WorkloadNames {
  import opened Strings

  /** Why a workload description is rejected (the scripts raise an exception). */
  datatype Error =
    | IllegalSize(sizeText: string)
    | TooFewParts
    | InvalidAction(action: string)
    | InvalidCount(count: string)
    | InvalidNumber(text: string)
    | MissingField(field: string)
    | InvalidChecksum(checksum: string)

  // ---------------------------------------------------------------------------
  // size_from_str

  datatype Unit = KiB | MiB | GiB | Bytes | Byte

  function UnitName(u: Unit): string {
    match u
    case KiB => "KiB"
    case MiB => "MiB"
    case GiB => "GiB"
    case Bytes => "bytes"
    case Byte => "byte"
  }

  /** The number of bytes in one unit. */
  function Multiplier(u: Unit): nat {
    match u
    case KiB => 1024
    case MiB => 1024 * 1024
    case GiB => 1024 * 1024 * 1024
    case Bytes => 1
    case Byte => 1
  }

  /** The unit a whole string names, if any. */
  function UnitNamed(t: string): (r: Option<Unit>)
    ensures r.Some? ==> UnitName(r.value) == t
  {
    if t == "KiB" then Some(KiB)
    else if t == "MiB" then Some(MiB)
    else if t == "GiB" then Some(GiB)
    else if t == "bytes" then Some(Bytes)
    else if t == "byte" then Some(Byte)
    else None
  }

  lemma UnitNamedName(u: Unit)
    ensures UnitNamed(UnitName(u)) == Some(u)
  {
  }

  /** The unit group of the pattern followed by `$`, which also matches before one final newline. */
  function UnitAtEnd(rest: string): Option<Unit> {
    UnitNamed(if EndsWith(rest, "\n") then rest[..|rest| - 1] else rest)
  }

  /** The length of the run of digits that `s` starts with (what the greedy `\d+` takes). */
  function DigitRun(s: string): (k: nat)
    ensures k <= |s| && AllDigits(s[..k]) && (k < |s| ==> !IsDigit(s[k]))
    decreases |s|
  {
    if s != [] && IsDigit(s[0]) then
      var k := 1 + DigitRun(s[1..]);
      assert s[..k] == [s[0]] + s[1..][..k - 1];
      k
    else 0
  }

  /** `size_from_str(s)`: bytes in a size such as `5GiB`, `10KiB` or `1byte`. */
  function SizeFromStr(s: string): (r: Result<nat, Error>)
    ensures r.Failure? ==> r.error == IllegalSize(s)
    ensures r.Success? ==> s != [] && IsDigit(s[0])
  {
    var k := DigitRun(s);
    if k == 0 then Failure(IllegalSize(s))
    else match UnitAtEnd(s[k..])
      case None => Failure(IllegalSize(s))
      case Some(u) => Success(Value(s[..k]) * Multiplier(u))
  }

  /** The strings `size_from_str` accepts: digits, a unit, and at most one final newline. */
  function SizeText(digits: string, u: Unit, newline: bool): string {
    digits + UnitName(u) + (if newline then "\n" else "")
  }

  lemma {:induction false} DigitRunStopsAtNonDigit(digits: string, tail: string)
    requires AllDigits(digits) && tail != [] && !IsDigit(tail[0])
    ensures DigitRun(digits + tail) == |digits|
    decreases |digits|
  {
    if digits == [] {
      assert digits + tail == tail;
    } else {
      var s := digits + tail;
      assert s[0] == digits[0] && IsDigit(s[0]);
      assert s[1..] == digits[1..] + tail;
      assert DigitRun(s) == 1 + DigitRun(s[1..]);
      DigitRunStopsAtNonDigit(digits[1..], tail);
    }
  }

  lemma UnitAtEndOfName(u: Unit, newline: bool)
    ensures UnitAtEnd(UnitName(u) + (if newline then "\n" else "")) == Some(u)
  {
    var tail := UnitName(u) + (if newline then "\n" else "");
    if newline {
      assert EndsWith(tail, "\n") && tail[..|tail| - 1] == UnitName(u);
    } else {
      assert tail == UnitName(u);
    }
    UnitNamedName(u);
  }

  /** Every size written as digits and a unit is accepted, worth the number times the unit. */
  lemma SizeFromStrAccepts(digits: string, u: Unit, newline: bool)
    requires |digits| > 0 && AllDigits(digits)
    ensures SizeFromStr(SizeText(digits, u, newline)) == Success(Value(digits) * Multiplier(u))
  {
    var tail := UnitName(u) + (if newline then "\n" else "");
    assert tail[0] == UnitName(u)[0];
    assert SizeText(digits, u, newline) == digits + tail;
    UnitAtEndOfName(u, newline);
    SizeFromStrOfParts(digits, tail, u);
  }

  /** Digits followed by a text that starts with no digit and ends in a unit. */
  lemma SizeFromStrOfParts(digits: string, tail: string, u: Unit)
    requires |digits| > 0 && AllDigits(digits)
    requires tail != [] && !IsDigit(tail[0]) && UnitAtEnd(tail) == Some(u)
    ensures SizeFromStr(digits + tail) == Success(Value(digits) * Multiplier(u))
  {
    var s := digits + tail;
    DigitRunStopsAtNonDigit(digits, tail);
    assert s[..|digits|] == digits && s[|digits|..] == tail;
  }

  /** Only such sizes are accepted: a successful parse gives back the digits, unit and newline. */
  lemma SizeFromStrOnly(s: string) returns (digits: string, u: Unit, newline: bool)
    requires SizeFromStr(s).Success?
    ensures |digits| > 0 && AllDigits(digits) && s == SizeText(digits, u, newline)
    ensures SizeFromStr(s).value == Value(digits) * Multiplier(u)
  {
    var k := DigitRun(s);
    digits := s[..k];
    var rest := s[k..];
    newline := EndsWith(rest, "\n");
    var name := if newline then rest[..|rest| - 1] else rest;
    u := UnitNamed(name).value;
    assert UnitName(u) == name;
    assert rest == UnitName(u) + (if newline then "\n" else "");
    assert s == digits + rest;
  }

  /** A size text never holds `-` or `.`, so it can stand in a workload name. */
  lemma SizeTextFitsName(digits: string, u: Unit)
    requires AllDigits(digits)
    ensures '-' !in SizeText(digits, u, false) && !Occurs(SizeText(digits, u, false), ".json")
  {
    var t := SizeText(digits, u, false);
    forall k | 0 <= k < |t| ensures t[k] != '-' && t[k] != '.' {
      if k < |digits| {
        assert t[k] == digits[k];
      } else {
        assert t[k] == UnitName(u)[k - |digits|];
      }
    }
    OccursNeedsFirstChar(t, ".json");
  }

  lemma SizeExampleMiB()
    ensures SizeFromStr("15MiB") == Success(15 * 1024 * 1024)
  {
    UnitAtEndOfName(MiB, false);
    assert UnitName(MiB) + "" == "MiB";
    SizeFromStrOfParts("15", "MiB", MiB);
    assert "15" + "MiB" == "15MiB";
    assert "15"[..1] == "1" && "1"[..0] == "";
    assert Value("15") == 15;
  }

  /** Underscores are not digits, so a grouped size is rejected. */
  lemma SizeExampleGrouped()
    ensures SizeFromStr("10_000KiB") == Failure(IllegalSize("10_000KiB"))
  {
    var t := "10_000KiB";
    assert t == "10" + "_000KiB";
    DigitRunStopsAtNonDigit("10", "_000KiB");
    assert t[2..] == "_000KiB";
  }

  // ---------------------------------------------------------------------------
  // parse_filename / parse_workload_name

  /** What a workload name describes. */
  datatype ParsedName = ParsedName(action: string, sizeText: string, numFiles: nat, filesOnDisk: bool)

  predicate IsAction(a: string) {
    a == "upload" || a == "download"
  }

  /** The name with every `.json` removed. */
  function WithoutJson(name: string): string {
    ReplaceAll(name, ".json", "")
  }

  /** The name with one final `-ram` removed. */
  function WithoutRam(s: string): string {
    if EndsWith(s, "-ram") then s[..|s| - 4] else s
  }

  /** A count as a name spells it before its `x`: digits and `_` only, not all of it `_`. */
  predicate CountText(c: string) {
    (forall k | 0 <= k < |c| :: IsDigit(c[k]) || c[k] == '_') && exists k | 0 <= k < |c| :: c[k] != '_'
  }

  /** The number a count text stands for, `int(count.replace('_', ''))`. */
  function CountValue(c: string): nat
    requires CountText(c)
  {
    CountTextUngroups(c);
    Value(ReplaceAll(c, "_", ""))
  }

  /** A count text reads as a number once its underscores are dropped, and holds no `-` or `.`. */
  lemma CountTextUngroups(c: string)
    ensures CountText(c) <==> |ReplaceAll(c, "_", "")| > 0 && AllDigits(ReplaceAll(c, "_", ""))
    ensures CountText(c) ==> '-' !in c && '.' !in c
  {
    UngroupDigits(c);
    if CountText(c) {
      forall k | 0 <= k < |c| ensures c[k] != '-' && c[k] != '.' {
        assert IsDigit(c[k]) || c[k] == '_';
      }
    }
  }

  /**
   * `parse_filename` / `parse_workload_name`: remove every `.json`, then one `-ram`
   * suffix (which clears files-on-disk), split on `-`, and read the action, the size
   * text and the count (all remaining parts joined back, ending in `x`, underscores
   * dropped).
   */
  function ParseName(name: string): (r: Result<ParsedName, Error>)
    ensures r.Success? ==> IsAction(r.value.action) && '-' !in r.value.sizeText
    ensures r.Success? ==> (r.value.filesOnDisk <==> !EndsWith(WithoutJson(name), "-ram"))
  {
    var noJson := WithoutJson(name);
    var filesOnDisk := !EndsWith(noJson, "-ram");
    var base := WithoutRam(noJson);
    var parts := Split(base, '-');
    SplitPartsLackSeparator(base, '-');
    if |parts| < 3 then Failure(TooFewParts)
    else if !IsAction(parts[0]) then Failure(InvalidAction(parts[0]))
    else
      var count := Join('-', parts[2..]);
      if !EndsWith(count, "x") then Failure(InvalidCount(count))
      else
        var digits := ReplaceAll(count[..|count| - 1], "_", "");
        match ParseNat(digits)
        case None => Failure(InvalidNumber(digits))
        case Some(n) => Success(ParsedName(parts[0], parts[1], n, filesOnDisk))
  }

  /**
   * Which error a rejected name raises, read off the name with `.json` and `-ram`
   * removed: fewer than two `-` give too few parts; otherwise the name is
   * `action-size-count` with a dash-free action and size, and it fails on the action,
   * then on a count that does not end in `x`, then on a count that is not a number.
   */
  lemma ParseNameRejects(name: string) returns (action: string, sizeText: string, count: string)
    requires ParseName(name).Failure?
    ensures var base := WithoutRam(WithoutJson(name));
      var e := ParseName(name).error;
      (e == TooFewParts <==> multiset(base)['-'] < 2) &&
      (e != TooFewParts ==> base == action + "-" + sizeText + "-" + count && '-' !in action && '-' !in sizeText) &&
      (e.InvalidAction? ==> e == InvalidAction(action) && !IsAction(action)) &&
      (e.InvalidCount? ==> e == InvalidCount(count) && IsAction(action) && !EndsWith(count, "x")) &&
      (e.InvalidNumber? ==>
        IsAction(action) && EndsWith(count, "x") && !CountText(count[..|count| - 1]) &&
        e == InvalidNumber(ReplaceAll(count[..|count| - 1], "_", ""))) &&
      (e.TooFewParts? || e.InvalidAction? || e.InvalidCount? || e.InvalidNumber?)
  {
    var base := WithoutRam(WithoutJson(name));
    var parts := Split(base, '-');
    SplitCount(base, '-');
    SplitPartsLackSeparator(base, '-');
    if |parts| >= 3 {
      action, sizeText, count := parts[0], parts[1], Join('-', parts[2..]);
      JoinSplit(base, '-');
      JoinThree(parts, '-');
      assert parts[0] in parts && parts[1] in parts;
      if IsAction(action) && EndsWith(count, "x") {
        CountTextUngroups(count[..|count| - 1]);
      }
    } else {
      action, sizeText, count := "", "", "";
    }
  }

  /** Joining three or more parts puts the first two in front of the join of the rest. */
  lemma JoinThree(parts: seq<string>, sep: char)
    requires |parts| >= 3
    ensures Join(sep, parts) == parts[0] + [sep] + parts[1] + [sep] + Join(sep, parts[2..])
  {
    assert parts[1..][1..] == parts[2..];
    assert Join(sep, parts[1..]) == parts[1] + [sep] + Join(sep, parts[2..]);
  }

  /**
   * Only names of the composed shape are accepted: an accepted name, with `.json`
   * removed, is `action-size-countx` with `-ram` exactly when the files are in memory,
   * where the count is digits and `_` and gives the number of files.
   */
  lemma ParseNameOnly(name: string) returns (count: string)
    requires ParseName(name).Success?
    ensures var p := ParseName(name).value;
      CountText(count) && p.numFiles == CountValue(count) &&
      WithoutJson(name) == WorkloadName(p.action, p.sizeText, count, p.filesOnDisk)
  {
    var p := ParseName(name).value;
    var noJson := WithoutJson(name);
    var base := WithoutRam(noJson);
    var parts := Split(base, '-');
    SplitPartsLackSeparator(base, '-');
    var cx := Join('-', parts[2..]);
    count := cx[..|cx| - 1];
    CountTextUngroups(count);
    assert cx == count + "x" by {
      assert cx[|cx| - 1..] == "x";
      assert cx == cx[..|cx| - 1] + cx[|cx| - 1..];
    }
    assert '-' !in cx by {
      forall k | 0 <= k < |cx| ensures cx[k] != '-' {
        if k < |count| {
          assert cx[k] == count[k];
        }
      }
    }
    assert parts[2..] == [parts[2]];
    JoinSplit(base, '-');
    JoinThree(parts, '-');
    assert base == NameBase(p.action, p.sizeText, count);
    if EndsWith(noJson, "-ram") {
      assert noJson == noJson[..|noJson| - 4] + noJson[|noJson| - 4..];
    } else {
      assert noJson == base + "";
    }
  }

  /**
   * Every name of the composed shape is accepted: with `.json` removed it is
   * `action-size-countx`, optionally `-ram`, for an action, a dash-free size and a count
   * of digits and `_`.
   */
  lemma ParseNameAccepts(name: string, action: string, sizeText: string, count: string, filesOnDisk: bool)
    requires IsAction(action) && '-' !in sizeText && CountText(count)
    requires WithoutJson(name) == WorkloadName(action, sizeText, count, filesOnDisk)
    ensures ParseName(name) == Success(ParsedName(action, sizeText, CountValue(count), filesOnDisk))
  {
    CountTextUngroups(count);
    RamSuffix(action, sizeText, count, filesOnDisk);
    SplitNameBase(action, sizeText, count);
    var parts := [action, sizeText, count + "x"];
    assert parts[2..] == [count + "x"];
    assert Join('-', parts[2..]) == count + "x";
    assert (count + "x")[..|count|] == count;
  }

  /** The name a workload with these fields is given, with the count grouped as `{n:_}`. */
  function WorkloadName(action: string, sizeText: string, count: string, filesOnDisk: bool): string {
    NameBase(action, sizeText, count) + (if filesOnDisk then "" else "-ram")
  }

  /** The three dash-free fields of a name, as one string; the count carries its `x`. */
  function NameBase(action: string, sizeText: string, count: string): string {
    action + "-" + sizeText + "-" + count + "x"
  }

  lemma WorkloadNameShape(action: string, sizeText: string, count: string, filesOnDisk: bool)
    ensures WorkloadName(action, sizeText, count, filesOnDisk)
      == action + ['-'] + (sizeText + ['-'] + (count + "x" + (if filesOnDisk then "" else "-ram")))
  {
  }

  /** A name built from fields without `.json` and without `.` in the count has no `.json`. */
  lemma NameLacksJson(action: string, sizeText: string, count: string, filesOnDisk: bool)
    requires IsAction(action) && !Occurs(sizeText, ".json") && '.' !in count
    ensures !Occurs(WorkloadName(action, sizeText, count, filesOnDisk), ".json")
  {
    var rest := count + "x" + (if filesOnDisk then "" else "-ram");
    assert '.' !in action;
    OccursNeedsFirstChar(action, ".json");
    assert '.' !in rest;
    OccursNeedsFirstChar(rest, ".json");
    OccursAcrossSeparator(sizeText, '-', rest, ".json");
    OccursAcrossSeparator(action, '-', sizeText + ['-'] + rest, ".json");
    WorkloadNameShape(action, sizeText, count, filesOnDisk);
  }

  /** Removing `.json` from a name built from fields gives back that name. */
  lemma WithoutJsonOfName(action: string, sizeText: string, count: string, filesOnDisk: bool, json: bool)
    requires IsAction(action) && !Occurs(sizeText, ".json") && '.' !in count
    ensures WithoutJson(WorkloadName(action, sizeText, count, filesOnDisk) + (if json then ".json" else ""))
      == WorkloadName(action, sizeText, count, filesOnDisk)
  {
    var named := WorkloadName(action, sizeText, count, filesOnDisk);
    NameLacksJson(action, sizeText, count, filesOnDisk);
    if json {
      var last := named[|named| - 1];
      assert last == 'x' || last == 'm';
      forall k | 0 < k < 5 ensures !EndsWith(named, ".json"[..k]) {
        assert ".json"[..k][k - 1] != last;
      }
      ReplaceAllSuffix(named, ".json", "");
      assert named + "" == named;
    } else {
      ReplaceAllAbsent(named, ".json", "");
      assert named + "" == named;
    }
  }

  /** Removing the optional `-ram` suffix leaves the three fields. */
  lemma RamSuffix(action: string, sizeText: string, count: string, filesOnDisk: bool)
    ensures var named := WorkloadName(action, sizeText, count, filesOnDisk);
      (EndsWith(named, "-ram") <==> !filesOnDisk) &&
      (if filesOnDisk then named else named[..|named| - 4]) == NameBase(action, sizeText, count)
  {
    var named := WorkloadName(action, sizeText, count, filesOnDisk);
    var base := NameBase(action, sizeText, count);
    if filesOnDisk {
      assert named == base + "";
      assert named[|named| - 1] == 'x';
    } else {
      assert named == base + "-ram";
      assert named[|named| - 4..] == "-ram";
    }
  }

  /** Splitting the three fields on `-` gives them back. */
  lemma SplitNameBase(action: string, sizeText: string, count: string)
    requires IsAction(action) && '-' !in sizeText && '-' !in count
    ensures Split(NameBase(action, sizeText, count), '-') == [action, sizeText, count + "x"]
  {
    var parts := [action, sizeText, count + "x"];
    assert parts[1..] == [sizeText, count + "x"] && parts[1..][1..] == [count + "x"];
    assert Join('-', parts[1..]) == sizeText + ['-'] + (count + "x");
    assert Join('-', parts) == action + ['-'] + (sizeText + ['-'] + (count + "x"));
    WorkloadNameShape(action, sizeText, count, true);
    assert NameBase(action, sizeText, count) + "" == NameBase(action, sizeText, count);
    assert count + "x" + "" == count + "x";
    SplitJoin(parts, '-');
  }

  /** The core of the round trips: any count text that reads back as a number. */
  lemma ParseComposedName(action: string, sizeText: string, count: string, filesOnDisk: bool, json: bool)
    requires IsAction(action) && '-' !in sizeText && !Occurs(sizeText, ".json")
    requires '-' !in count && '.' !in count
    requires |ReplaceAll(count, "_", "")| > 0 && AllDigits(ReplaceAll(count, "_", ""))
    ensures ParseName(WorkloadName(action, sizeText, count, filesOnDisk) + (if json then ".json" else ""))
      == Success(ParsedName(action, sizeText, Value(ReplaceAll(count, "_", "")), filesOnDisk))
  {
    WithoutJsonOfName(action, sizeText, count, filesOnDisk, json);
    CountTextUngroups(count);
    ParseNameAccepts(WorkloadName(action, sizeText, count, filesOnDisk) + (if json then ".json" else ""),
                     action, sizeText, count, filesOnDisk);
  }

  /** compare.py builds `f"{action}-{size}-{n}x"`, and parsing that name gives back its fields. */
  lemma ParseDecimalName(action: string, sizeText: string, n: nat)
    requires IsAction(action) && '-' !in sizeText && !Occurs(sizeText, ".json")
    ensures ParseName(action + "-" + sizeText + "-" + Decimal(n) + "x") == Success(ParsedName(action, sizeText, n, true))
  {
    var d := Decimal(n);
    DigitsLackChar(d, '_');
    ReplaceAllAbsent(d, "_", "");
    ValueDecimal(n);
    assert '-' !in d && '.' !in d by {
      forall k | 0 <= k < |d| ensures d[k] != '-' && d[k] != '.' {
        assert IsDigit(d[k]);
      }
    }
    ParseComposedName(action, sizeText, d, true, false);
    DecimalNameShape(action, sizeText, d);
  }

  /** The on-disk name without `.json` is the plain `action-size-countx`. */
  lemma DecimalNameShape(action: string, sizeText: string, count: string)
    ensures WorkloadName(action, sizeText, count, true) + "" == action + "-" + sizeText + "-" + count + "x"
  {
  }

  /**
   * A name with the count grouped by `_`, with or without `-ram` and `.json`, parses back
   * to its fields: for example `download-5GiB-10_000x-ram.json` gives 10000 files in memory.
   */
  lemma ParseGroupedName(action: string, sizeText: string, n: nat, filesOnDisk: bool, json: bool)
    requires IsAction(action) && '-' !in sizeText && !Occurs(sizeText, ".json")
    ensures ParseName(WorkloadName(action, sizeText, Grouped(n), filesOnDisk) + (if json then ".json" else ""))
      == Success(ParsedName(action, sizeText, n, filesOnDisk))
  {
    var g := Grouped(n);
    GroupedChars(n);
    GroupedUngroups(n);
    assert '-' !in g && '.' !in g by {
      forall k | 0 <= k < |g| ensures g[k] != '-' && g[k] != '.' {
        assert IsDigit(g[k]) || g[k] == '_';
      }
    }
    ParseComposedName(action, sizeText, g, filesOnDisk, json);
  }
}
