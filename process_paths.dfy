/**
  The process path matcher of check_process_paths.py: every running process
  whose name is a key of the baseline table is reported as having no known
  executable, as running from the expected location, or as running from
  somewhere else. Process enumeration is an input sequence; the printed
  lines are `Finding` values.
 */
module ProcessPaths {
  import opened Wrappers

  /**
    The baseline as the script writes it. The script's raw strings keep both
    characters of every `\\`, and so do these verbatim strings: each
    separator in these paths is two backslashes.
   */
  const ExpectedLocations: map<string, string> := map[
    "spoolsv.exe" := @"C:\\Windows\\System32\\spoolsv.exe",
    "WerFault.exe" := @"C:\\Windows\\System32\\WerFault.exe",
    "explorer.exe" := @"C:\\Windows\\explorer.exe",
    "lsass.exe" := @"C:\\Windows\\System32\\lsass.exe"
  ]

  /** The same baseline with the single separators the real paths have. */
  const IntendedLocations: map<string, string> := map[
    "spoolsv.exe" := @"C:\Windows\System32\spoolsv.exe",
    "WerFault.exe" := @"C:\Windows\System32\WerFault.exe",
    "explorer.exe" := @"C:\Windows\explorer.exe",
    "lsass.exe" := @"C:\Windows\System32\lsass.exe"
  ]

  /**
    One process as the loop body sees it: its pid, name and executable as
    `process_iter` filled them in (`None` where psutil could not read one),
    or an exception that reading it raised inside the loop body.
   */
  datatype ProcessEntry =
    | Listed(pid: int, name: Option<string>, exe: Option<string>)
    | Raised(error: ProcessError)

  datatype ProcessError = NoSuchProcess | AccessDenied

  /** The three outcomes the script prints for a watched process. */
  datatype Status =
    | PathNotFound
    | Mismatch(expected: string, found: string)
    | LocationCorrect

  datatype Finding = Finding(name: string, pid: int, status: Status)

  predicate IsUpper(c: char) {
    'A' <= c <= 'Z'
  }

  predicate IsSeparator(c: char) {
    c == '/' || c == '\\'
  }

  /** One character of `ntpath.normcase`: `/` becomes `\`, then ASCII lower case. */
  function NormChar(c: char): (d: char)
    ensures !IsUpper(d) && d != '/'
  {
    if c == '/' then '\\'
    else if IsUpper(c) then (c as int + 32) as char
    else c
  }

  /** `os.path.normcase` on Windows. */
  function NormCase(p: string): (r: string)
    ensures |r| == |p|
    ensures forall i :: 0 <= i < |p| ==> r[i] == NormChar(p[i])
  {
    if p == [] then [] else [NormChar(p[0])] + NormCase(p[1..])
  }

  /**
    Two characters that Windows treats as the same in a path: equal, both
    separators, or one the upper-case form of the other.
   */
  predicate SameInPath(x: char, y: char) {
    || x == y
    || (IsSeparator(x) && IsSeparator(y))
    || (IsUpper(x) && y as int == x as int + 32)
    || (IsUpper(y) && x as int == y as int + 32)
  }

  /** Paths that differ at most in letter case and in the kind of separator. */
  predicate PathEquivalent(a: string, b: string) {
    |a| == |b| && forall i :: 0 <= i < |a| ==> SameInPath(a[i], b[i])
  }

  lemma NormCharSame(x: char, y: char)
    ensures NormChar(x) == NormChar(y) <==> SameInPath(x, y)
  {
  }

  /** Comparing normcased paths is comparing paths up to case and separator kind. */
  lemma NormCaseEqualIff(a: string, b: string)
    ensures NormCase(a) == NormCase(b) <==> PathEquivalent(a, b)
  {
    if NormCase(a) == NormCase(b) {
      forall i | 0 <= i < |a| ensures SameInPath(a[i], b[i]) {
        NormCharSame(a[i], b[i]);
      }
    }
    if PathEquivalent(a, b) {
      forall i | 0 <= i < |a| ensures NormCase(a)[i] == NormCase(b)[i] {
        NormCharSame(a[i], b[i]);
      }
    }
  }

  /** `normcase` is idempotent. */
  lemma NormCaseIdempotent(p: string)
    ensures NormCase(NormCase(p)) == NormCase(p)
  {
  }

  /** The decision at check_process_paths.py:47-55 for a watched process. */
  function Classify(expected: string, exe: Option<string>): (s: Status)
    ensures s.PathNotFound? <==> exe.None?
    ensures s.LocationCorrect? <==> exe.Some? && PathEquivalent(exe.value, expected)
    ensures s.Mismatch? ==> s.expected == expected && s.found == exe.value
  {
    match exe
    case None => PathNotFound
    case Some(found) =>
      NormCaseEqualIff(found, expected);
      if NormCase(found) != NormCase(expected) then Mismatch(expected, found) else LocationCorrect
  }

  /** What one iteration of the loop reports, if anything. */
  function Check(table: map<string, string>, e: ProcessEntry): (f: Option<Finding>)
    ensures f.Some? <==> e.Listed? && e.name.Some? && e.name.value in table
    ensures f.Some? ==> f.value.name == e.name.value && f.value.pid == e.pid
    ensures f.Some? ==> (f.value.status.PathNotFound? <==> e.exe.None?)
    ensures f.Some? ==>
      (f.value.status.LocationCorrect? <==> e.exe.Some? && PathEquivalent(e.exe.value, table[e.name.value]))
    ensures f.Some? && f.value.status.Mismatch? ==>
      f.value.status == Mismatch(table[e.name.value], e.exe.value)
  {
    match e
    case Raised(_) => None
    case Listed(pid, name, exe) =>
      if name.Some? && name.value in table then Some(Finding(name.value, pid, Classify(table[name.value], exe)))
      else None
  }

  /** All findings of a scan over `entries`, in iteration order. */
  function Findings(table: map<string, string>, entries: seq<ProcessEntry>): seq<Finding>
  {
    if entries == [] then []
    else
      var last := entries[|entries| - 1];
      Findings(table, entries[..|entries| - 1]) + (match Check(table, last) case None => [] case Some(f) => [f])
  }

  /** `check_process_locations`: one pass over the process list. */
  method CheckProcessLocations(table: map<string, string>, entries: seq<ProcessEntry>) returns (findings: seq<Finding>)
    ensures findings == Findings(table, entries)
  {
    findings := [];
    for i := 0 to |entries|
      invariant findings == Findings(table, entries[..i])
    {
      assert entries[..i + 1][..i] == entries[..i];
      match Check(table, entries[i]) {
        case None =>
        case Some(f) => findings := findings + [f];
      }
    }
    assert entries[..|entries|] == entries;
  }

  /** Scanning two stretches of the process list is scanning each in turn. */
  lemma {:induction false} FindingsAppend(table: map<string, string>, a: seq<ProcessEntry>, b: seq<ProcessEntry>)
    ensures Findings(table, a + b) == Findings(table, a) + Findings(table, b)
    decreases |b|
  {
    if b == [] {
      assert a + b == a;
    } else {
      assert (a + b)[..|a + b| - 1] == a + b[..|b| - 1];
      FindingsAppend(table, a, b[..|b| - 1]);
    }
  }

  /** A finding exists exactly for each watched, listed process, and says what `Check` says of it. */
  lemma {:induction false} FindingsMembership(table: map<string, string>, entries: seq<ProcessEntry>, f: Finding)
    ensures f in Findings(table, entries) <==> exists i :: 0 <= i < |entries| && Check(table, entries[i]) == Some(f)
    decreases |entries|
  {
    if entries != [] {
      var init := entries[..|entries| - 1];
      FindingsMembership(table, init, f);
      if f in Findings(table, init) {
        var i :| 0 <= i < |init| && Check(table, init[i]) == Some(f);
        assert entries[i] == init[i];
      }
      if exists i :: 0 <= i < |entries| && Check(table, entries[i]) == Some(f) {
        var i :| 0 <= i < |entries| && Check(table, entries[i]) == Some(f);
        if i < |init| {
          assert init[i] == entries[i];
        }
      }
    }
  }

  /** Every watched, listed process yields exactly one finding, in iteration order. */
  lemma {:induction false} FindingsCount(table: map<string, string>, entries: seq<ProcessEntry>)
    ensures |Findings(table, entries)| == |set i | 0 <= i < |entries| && Check(table, entries[i]).Some?|
    decreases |entries|
  {
    var n := |entries|;
    var watched := set i | 0 <= i < n && Check(table, entries[i]).Some?;
    if n > 0 {
      var init := entries[..n - 1];
      FindingsCount(table, init);
      WatchedSnoc(table, entries, init);
    }
  }

  /** The watched indices of a list are those of its front, and the last index if that entry is watched. */
  lemma WatchedSnoc(table: map<string, string>, entries: seq<ProcessEntry>, init: seq<ProcessEntry>)
    requires entries != [] && init == entries[..|entries| - 1]
    ensures
      var n := |entries|;
      var watched := set i | 0 <= i < n && Check(table, entries[i]).Some?;
      var before := set i | 0 <= i < n - 1 && Check(table, init[i]).Some?;
      watched == before + (if Check(table, entries[n - 1]).Some? then {n - 1} else {})
  {
    assert forall i :: 0 <= i < |init| ==> init[i] == entries[i];
  }

  /** A process that is not watched, has no name, or raised adds nothing and does not stop the scan. */
  lemma UnwatchedSkipped(table: map<string, string>, a: seq<ProcessEntry>, e: ProcessEntry, b: seq<ProcessEntry>)
    requires !(e.Listed? && e.name.Some? && e.name.value in table)
    ensures Findings(table, a + [e] + b) == Findings(table, a) + Findings(table, b)
  {
    FindingsAppend(table, a + [e], b);
    assert (a + [e])[..|a + [e]| - 1] == a;
  }

  /** A watched process without an executable path is reported as not found, and the scan goes on. */
  lemma MissingPathReported(table: map<string, string>, a: seq<ProcessEntry>, pid: int, name: string, b: seq<ProcessEntry>)
    requires name in table
    ensures Findings(table, a + [Listed(pid, Some(name), None)] + b)
         == Findings(table, a) + [Finding(name, pid, PathNotFound)] + Findings(table, b)
  {
    var e := Listed(pid, Some(name), None);
    FindingsAppend(table, a + [e], b);
    assert (a + [e])[..|a + [e]| - 1] == a;
  }

  /** A key is watched only under its exact spelling: "LSASS.EXE" is not looked at. */
  lemma NameMatchIsCaseSensitive(pid: int, exe: Option<string>)
    ensures Findings(ExpectedLocations, [Listed(pid, Some("LSASS.EXE"), exe)]) == []
  {
    assert [Listed(pid, Some("LSASS.EXE"), exe)][..0] == [];
  }

  /** Every path of the written baseline has two separators right after the drive. */
  lemma ExpectedHasDoubledSeparator(name: string)
    requires name in ExpectedLocations
    ensures |ExpectedLocations[name]| > 3
    ensures ExpectedLocations[name][2] == '\\' && ExpectedLocations[name][3] == '\\'
  {
  }

  /**
    With the written baseline a watched process is reported correct only if
    its own path has two separators after the drive, which a real Windows
    executable path does not: every real location is reported as a mismatch.
   */
  lemma WrittenBaselineNeedsDoubledSeparator(name: string, exe: string)
    requires name in ExpectedLocations
    requires Classify(ExpectedLocations[name], Some(exe)).LocationCorrect?
    ensures |exe| > 3 && IsSeparator(exe[2]) && IsSeparator(exe[3])
  {
    ExpectedHasDoubledSeparator(name);
    var expected := ExpectedLocations[name];
    assert SameInPath(exe[2], expected[2]) && SameInPath(exe[3], expected[3]);
  }

  /** A found path of another length than the expected one is always a mismatch. */
  lemma LengthDifferenceIsMismatch(expected: string, exe: string)
    requires |exe| != |expected|
    ensures Classify(expected, Some(exe)) == Mismatch(expected, exe)
  {
  }

  /** The genuine print spooler, seen with the written baseline, is reported as a mismatch. */
  lemma WrittenBaselineRejectsGenuineSpooler()
    ensures Classify(ExpectedLocations["spoolsv.exe"], Some(@"C:\Windows\System32\spoolsv.exe"))
         == Mismatch(@"C:\\Windows\\System32\\spoolsv.exe", @"C:\Windows\System32\spoolsv.exe")
  {
    var expected := ExpectedLocations["spoolsv.exe"];
    assert expected == @"C:\\Windows\\System32\\spoolsv.exe";
    LengthDifferenceIsMismatch(expected, @"C:\Windows\System32\spoolsv.exe");
  }

  /** With single separators, the spooler seen in upper case is at its expected location. */
  lemma IntendedBaselineAcceptsSpooler()
    ensures Classify(IntendedLocations["spoolsv.exe"], Some(@"C:\Windows\System32\SPOOLSV.EXE")) == LocationCorrect
  {
    var exe := @"C:\Windows\System32\SPOOLSV.EXE";
    var expected := IntendedLocations["spoolsv.exe"];
    assert PathEquivalent(exe, expected) by {
      forall i | 0 <= i < |exe| ensures SameInPath(exe[i], expected[i]) {
      }
    }
  }

  /** An lsass.exe outside System32 is a mismatch that names both paths. */
  lemma ImpostorLsassMismatch()
    ensures Classify(IntendedLocations["lsass.exe"], Some(@"C:\Users\Public\lsass.exe"))
         == Mismatch(@"C:\Windows\System32\lsass.exe", @"C:\Users\Public\lsass.exe")
  {
    var exe := @"C:\Users\Public\lsass.exe";
    var expected := IntendedLocations["lsass.exe"];
    assert !SameInPath(exe[3], expected[3]);
  }
}
