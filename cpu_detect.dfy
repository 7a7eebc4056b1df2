/** CPU detection helpers: expanding a Linux CPU list such as "0-3,5", and
    the fixed-order feature list and one-line summary of a CPUInfo. */
module CpuDetect {
  import opened Text

  /** What `sscanf(range, "%d-%d", &low, &high)` leaves behind: its return
      value and the two variables, which start at 0. */
  datatype RangeScan = RangeScan(parts: int, low: int, high: int)

  /** `sscanf` with "%d-%d": -1 (EOF) when the input is empty or all white
      space, 0 when no number starts it, 1 when only the first number is
      read (the '-' must follow it directly), 2 when both are read. */
  function ScanRange(range: string): (r: RangeScan)
    ensures r.parts <= 0 ==> r.low == 0 && r.high == 0
    ensures r.parts == 1 ==> r.high == 0
    ensures -1 <= r.parts <= 2
  {
    if SkipSpace(range) == [] then RangeScan(-1, 0, 0)
    else
      match ScanInt(range)
      case None => RangeScan(0, 0, 0)
      case Some(first) =>
        if first.rest != [] && first.rest[0] == '-' then
          match ScanInt(first.rest[1..])
          case None => RangeScan(1, first.value, 0)
          case Some(second) => RangeScan(2, first.value, second.value)
        else RangeScan(1, first.value, 0)
  }

  /** low, low + 1, ..., high (nothing when low > high). */
  function Expand(low: int, high: int): (xs: seq<int>)
    decreases if low <= high then high - low + 1 else 0
  {
    if low > high then [] else Expand(low, high - 1) + [high]
  }

  /** The CPUs one range contributes: a single number stands for itself. */
  function RangeValues(range: string): seq<int>
  {
    var r := ScanRange(range);
    Expand(r.low, if r.parts == 1 then r.low else r.high)
  }

  /** The CPUs of all ranges, in input order. */
  function ExpandAll(ranges: seq<string>): seq<int>
  {
    if ranges == [] then [] else RangeValues(ranges[0]) + ExpandAll(ranges[1..])
  }

  /** Expands the text of a CPU list file; `data` is None when the file
      cannot be read. */
  method ParseCPUList(data: Option<string>) returns (results: seq<int>)
    ensures data.None? ==> results == []
    ensures data.Some? ==> results == ExpandAll(Split(data.value, ','))
  {
    results := [];
    if data.None? {
      return;
    }
    var ranges := Split(data.value, ',');
    var k := 0;
    while k < |ranges|
      invariant 0 <= k <= |ranges|
      invariant results == ExpandAll(ranges[..k])
    {
      var scan := ScanRange(ranges[k]);
      var low, high := scan.low, scan.high;
      if scan.parts == 1 {
        high := low;
      }
      results := PushRange(results, low, high);
      ExpandAllSnoc(ranges[..k], ranges[k]);
      assert ranges[..k + 1] == ranges[..k] + [ranges[k]];
      k := k + 1;
    }
    assert ranges[..|ranges|] == ranges;
  }

  /** The inner loop of ParseCPUList: pushes low, low + 1, ..., high. */
  method PushRange(results: seq<int>, low: int, high: int) returns (r: seq<int>)
    ensures r == results + Expand(low, high)
  {
    r := results;
    var i := low;
    while i <= high
      invariant low <= i && (i <= high + 1 || i == low)
      invariant r == results + Expand(low, i - 1)
      decreases high - i + 1
    {
      r := r + [i];
      i := i + 1;
    }
  }

  lemma {:induction false} ExpandAllSnoc(ranges: seq<string>, last: string)
    ensures ExpandAll(ranges + [last]) == ExpandAll(ranges) + RangeValues(last)
  {
    if ranges != [] {
      assert (ranges + [last])[1..] == ranges[1..] + [last];
      ExpandAllSnoc(ranges[1..], last);
    } else {
      assert ExpandAll([last]) == RangeValues(last) + ExpandAll([]);
    }
  }

  /** A range holds every integer from low to high, in increasing order, and
      nothing when low > high. */
  lemma {:induction false} ExpandSpec(low: int, high: int)
    ensures |Expand(low, high)| == if low <= high then high - low + 1 else 0
    ensures forall k :: 0 <= k < |Expand(low, high)| ==> Expand(low, high)[k] == low + k
    decreases if low <= high then high - low + 1 else 0
  {
    if low <= high {
      ExpandSpec(low, high - 1);
    }
  }

  /** A range holding one number `n` contributes exactly [n]. */
  lemma RangeSingle(n: int, rest: string)
    requires rest == [] || (!IsDigit(rest[0]) && rest[0] != '-')
    ensures RangeValues(IntToString(n) + rest) == [n]
  {
    var s := IntToString(n) + rest;
    ScanIntToStringThen(n, rest);
    ScanFindsText(s);
    assert ScanRange(s) == RangeScan(1, n, 0);
    assert Expand(n, n) == [n];
  }

  /** A number followed by '-' and no second number ("5-", "5-x") also
      contributes only itself: sscanf reads one part. */
  lemma RangeDashOnly(n: int, rest: string)
    requires ScanInt(rest).None?
    ensures RangeValues(IntToString(n) + "-" + rest) == [n]
  {
    var t := "-" + rest;
    var s := IntToString(n) + t;
    assert IntToString(n) + "-" + rest == s;
    ScanIntToStringThen(n, t);
    ScanFindsText(s);
    assert t[1..] == rest;
    assert ScanRange(s) == RangeScan(1, n, 0);
    assert Expand(n, n) == [n];
  }

  /** A range "a-b" contributes a, a + 1, ..., b. */
  lemma RangePair(a: int, b: int, rest: string)
    requires rest == [] || !IsDigit(rest[0])
    ensures RangeValues(IntToString(a) + "-" + IntToString(b) + rest) == Expand(a, b)
  {
    var tail := IntToString(b) + rest;
    var s := IntToString(a) + ("-" + tail);
    Regroup(IntToString(a), "-", IntToString(b), rest);
    ScanIntToStringThen(a, "-" + tail);
    ScanIntToStringThen(b, rest);
    assert ("-" + tail)[1..] == tail;
    ScanRangeTwo(s, a, "-" + tail, b, rest);
  }

  lemma Regroup(w: string, x: string, y: string, z: string)
    ensures w + x + y + z == w + (x + (y + z))
  {
  }

  /** How "%d-%d" reads two numbers from the results of two %d reads. */
  lemma ScanRangeTwo(s: string, a: int, t: string, b: int, r: string)
    requires ScanInt(s) == Some(Scanned(a, t))
    requires t != [] && t[0] == '-' && ScanInt(t[1..]) == Some(Scanned(b, r))
    ensures ScanRange(s) == RangeScan(2, a, b)
  {
    ScanFindsText(s);
  }

  /** A text from which %d reads a number is not all white space. */
  lemma ScanFindsText(s: string)
    requires ScanInt(s).Some?
    ensures SkipSpace(s) != []
  {
  }

  /** A range that starts with no number contributes [0]. */
  lemma RangeNoNumber(range: string)
    requires ScanInt(range) == None
    ensures RangeValues(range) == [0]
  {
    assert Expand(0, 0) == [0];
  }

  /** The ranges before and after a comma are expanded one after the other. */
  lemma ParseConcat(first: string, others: string)
    requires ',' !in first
    ensures ExpandAll(Split(first + "," + others, ',')) == RangeValues(first) + ExpandAll(Split(others, ','))
  {
    var s := first + "," + others;
    assert s == first + [','] + others;
    IndexOfConcat(first, ',', others);
    assert s[..|first|] == first && s[|first| + 1..] == others;
    assert Split(s, ',') == [first] + Split(others, ',');
  }

  /** The feature table, in the order it is printed. */
  const FeatureNames: seq<string> := [
    "SSE", "SSE2", "SSE3", "SSSE3", "SSE4.1", "SSE4.2", "SSE4A", "HTT",
    "AVX", "AVX2", "FMA3", "FMA4", "AES", "SHA", "XOP", "TSX", "F16C",
    "BMI1", "BMI2", "POPCNT", "MOVBE", "LZCNT", "64-bit support"]

  /** Position of HTT in the table. */
  const HttIndex: nat := 7

  /** The names whose flag is set, in table order. */
  function Selected(bits: seq<bool>, names: seq<string>): seq<string>
    requires |bits| == |names|
  {
    if bits == [] then []
    else Selected(bits[..|bits| - 1], names[..|names| - 1]) +
         (if bits[|bits| - 1] then [names[|names| - 1]] else [])
  }

  /** Testing one more flag appends its name when it is set. */
  lemma SelectedStep(bits: seq<bool>, names: seq<string>, k: nat)
    requires k < |bits| == |names|
    ensures Selected(bits[..k + 1], names[..k + 1]) ==
      Selected(bits[..k], names[..k]) + (if bits[k] then [names[k]] else [])
  {
    var b1, n1 := bits[..k + 1], names[..k + 1];
    assert b1[..|b1| - 1] == bits[..k] && n1[..|n1| - 1] == names[..k];
  }

  predicate Distinct(names: seq<string>)
  {
    forall i, j :: 0 <= i < j < |names| ==> names[i] != names[j]
  }

  /** With distinct names, a name is selected exactly when its flag is set,
      and nothing else is selected. */
  lemma {:induction false} SelectedMembers(bits: seq<bool>, names: seq<string>)
    requires |bits| == |names| && Distinct(names)
    ensures forall i :: 0 <= i < |names| ==> (names[i] in Selected(bits, names) <==> bits[i])
    ensures forall x :: x in Selected(bits, names) ==> x in names
  {
    if bits != [] {
      var n := |bits| - 1;
      var initB, initN := bits[..n], names[..n];
      assert Distinct(initN) by {
        forall i, j | 0 <= i < j < n ensures initN[i] != initN[j] {
          assert initN[i] == names[i] && initN[j] == names[j];
        }
      }
      SelectedMembers(initB, initN);
      var a := Selected(initB, initN);
      assert Selected(bits, names) == a + (if bits[n] then [names[n]] else []);
      assert names[n] !in initN by {
        forall i | 0 <= i < n ensures initN[i] != names[n] {
          assert initN[i] == names[i];
        }
      }
      forall i | 0 <= i < |names|
        ensures names[i] in Selected(bits, names) <==> bits[i]
      {
        if i < n {
          assert initN[i] == names[i] && initB[i] == bits[i];
        }
      }
      forall x | x in Selected(bits, names) ensures x in names {
        if x in a {
          var j :| 0 <= j < n && initN[j] == x;
          assert names[j] == x;
        }
      }
    }
  }

  /** With distinct names no name is selected twice. */
  lemma {:induction false} SelectedDistinct(bits: seq<bool>, names: seq<string>)
    requires |bits| == |names| && Distinct(names)
    ensures Distinct(Selected(bits, names))
  {
    if bits != [] {
      var n := |bits| - 1;
      var initB, initN := bits[..n], names[..n];
      assert Distinct(initN) by {
        forall i, j | 0 <= i < j < n ensures initN[i] != initN[j] {
          assert initN[i] == names[i] && initN[j] == names[j];
        }
      }
      SelectedDistinct(initB, initN);
      SelectedMembers(initB, initN);
      var a := Selected(initB, initN);
      assert names[n] !in initN by {
        forall i | 0 <= i < n ensures initN[i] != names[n] {
          assert initN[i] == names[i];
        }
      }
      assert names[n] !in a;
      assert Selected(bits, names) == a + (if bits[n] then [names[n]] else []);
    }
  }

  lemma FeatureNamesDistinct()
    ensures Distinct(FeatureNames)
  {
  }

  /** `Features` lists exactly the set flags' names, each once. */
  lemma FeaturesExact(flags: seq<bool>)
    requires |flags| == |FeatureNames|
    ensures forall i :: 0 <= i < |FeatureNames| ==> (FeatureNames[i] in Selected(flags, FeatureNames) <==> flags[i])
    ensures forall x :: x in Selected(flags, FeatureNames) ==> x in FeatureNames
    ensures Distinct(Selected(flags, FeatureNames))
  {
    FeatureNamesDistinct();
    SelectedMembers(flags, FeatureNames);
    SelectedDistinct(flags, FeatureNames);
  }

  /** The summary before the feature list. */
  function Header(cpuString: string, numCores: int, htt: bool, logicalCpuCount: int): string
  {
    if numCores == 1 then cpuString + ", " + IntToString(numCores) + " core"
    else
      cpuString + ", " + IntToString(numCores) + " cores" +
      (if htt then " (" + IntToString(logicalCpuCount) + " logical threads per physical core)" else "")
  }

  /** ", " and the name, for every feature. */
  function FeatureSuffix(features: seq<string>): string
  {
    if features == [] then "" else FeatureSuffix(features[..|features| - 1]) + ", " + features[|features| - 1]
  }

  /** The core count printed after the CPU name reads back with %d; it is
      followed by " core" exactly when it is 1, and otherwise by " cores"
      and the logical-thread clause exactly when HTT is set. */
  lemma HeaderCoreCount(cpuString: string, numCores: int, htt: bool, logicalCpuCount: int)
    ensures var h := Header(cpuString, numCores, htt, logicalCpuCount);
      |h| >= |cpuString| + 2 && h[..|cpuString| + 2] == cpuString + ", " &&
      ScanInt(h[|cpuString| + 2..]) == Some(Scanned(numCores,
        if numCores == 1 then " core"
        else " cores" + (if htt then " (" + IntToString(logicalCpuCount) + " logical threads per physical core)" else "")))
  {
    var word := if numCores == 1 then " core"
      else " cores" + (if htt then " (" + IntToString(logicalCpuCount) + " logical threads per physical core)" else "");
    assert word[0] == ' ';
    assert Header(cpuString, numCores, htt, logicalCpuCount) == cpuString + ", " + IntToString(numCores) + word;
    CountThenWord(cpuString, numCores, word);
  }

  /** After the CPU name and ", ", the header scans as the count followed by
      the text that starts with a space. */
  lemma CountThenWord(name: string, n: int, word: string)
    requires word != [] && word[0] == ' '
    ensures var h := name + ", " + IntToString(n) + word;
      |h| >= |name| + 2 && h[..|name| + 2] == name + ", " &&
      ScanInt(h[|name| + 2..]) == Some(Scanned(n, word))
  {
    var h := name + ", " + IntToString(n) + word;
    assert h == (name + ", ") + (IntToString(n) + word);
    assert h[|name| + 2..] == IntToString(n) + word;
    ScanIntToStringThen(n, word);
  }

  /** The feature text of a list is the texts of its parts one after the other. */
  lemma {:induction false} FeatureSuffixAppend(a: seq<string>, b: seq<string>)
    ensures FeatureSuffix(a + b) == FeatureSuffix(a) + FeatureSuffix(b)
    decreases |b|
  {
    if b == [] {
      assert a + b == a;
    } else {
      var init := b[..|b| - 1];
      assert (a + b)[..|a + b| - 1] == a + init;
      FeatureSuffixAppend(a, init);
    }
  }

  lemma FeatureSuffixStep(features: seq<string>, i: nat)
    requires i < |features|
    ensures FeatureSuffix(features[..i + 1]) == FeatureSuffix(features[..i]) + ", " + features[i]
  {
    assert features[..i + 1][..i] == features[..i];
  }

  /** The feature loop of Summarize: ", " and the name, for each feature. */
  method AppendFeatures(start: string, features: seq<string>) returns (sum: string)
    ensures sum == start + FeatureSuffix(features)
  {
    sum := start;
    var i := 0;
    while i < |features|
      invariant 0 <= i <= |features|
      invariant sum == start + FeatureSuffix(features[..i])
    {
      FeatureSuffixStep(features, i);
      sum := sum + ", " + features[i];
      i := i + 1;
    }
    assert features[..i] == features;
  }

  /** The processor description; the flags are kept in table order. */
  class CPUInfo {
    var cpuString: string
    var numCores: int
    var logicalCpuCount: int
    var featureFlags: seq<bool>

    ghost predicate Valid()
      reads this
    {
      |featureFlags| == |FeatureNames|
    }

    /** The global object is zero-initialised and then runs Detect. */
    constructor ()
      ensures Valid()
      ensures cpuString == "" && numCores == 0 && logicalCpuCount == 1
      ensures forall i :: 0 <= i < |featureFlags| ==> !featureFlags[i]
    {
      cpuString := "";
      numCores := 0;
      featureFlags := seq(|FeatureNames|, _ => false);
      logicalCpuCount := 0;
      new;
      Detect();
    }

    method Detect()
      modifies this`logicalCpuCount
      ensures logicalCpuCount == 1
    {
      logicalCpuCount := 1;
    }

    /** The names of the set flags, in table order. */
    method Features() returns (features: seq<string>)
      requires Valid()
      ensures features == Selected(featureFlags, FeatureNames)
    {
      features := [];
      var i := 0;
      while i < |FeatureNames|
        invariant 0 <= i <= |FeatureNames|
        invariant features == Selected(featureFlags[..i], FeatureNames[..i])
      {
        SelectedStep(featureFlags, FeatureNames, i);
        if featureFlags[i] {
          features := features + [FeatureNames[i]];
        }
        i := i + 1;
      }
      assert featureFlags[..i] == featureFlags && FeatureNames[..i] == FeatureNames;
    }

    /** The CPU name, the core count (with the logical-thread clause when
        there are several cores and HTT), then ", " and each feature. */
    method Summarize() returns (sum: string)
      requires Valid()
      ensures sum == Header(cpuString, numCores, featureFlags[HttIndex], logicalCpuCount) +
                     FeatureSuffix(Selected(featureFlags, FeatureNames))
    {
      if numCores == 1 {
        sum := cpuString + ", " + IntToString(numCores) + " core";
      } else {
        sum := cpuString + ", " + IntToString(numCores) + " cores";
        if featureFlags[HttIndex] {
          sum := sum + " (" + IntToString(logicalCpuCount) + " logical threads per physical core)";
        }
      }
      ghost var header := sum;
      assert header == Header(cpuString, numCores, featureFlags[HttIndex], logicalCpuCount);
      var features := Features();
      sum := AppendFeatures(sum, features);
    }
  }
}
