/**
 * Which recording `FindDemo` picks for a report: the `*.demo` files whose names
 * parse, whose map and mode match the server's, and whose start lies in the
 * look-back window; among those the most recently written one, ties going to
 * the earlier file of the listing; for T6 the `.json` next to it when it exists.
 */
module Matcher {
  import opened Wrappers
  import opened Text
  import opened Calendar
  import opened FileName

  /** A file of the demo folder: `FileInfo.FullName`, `FileInfo.Name`, `LastWriteTimeUtc` in ticks. */
  datatype FileEntry = FileEntry(fullName: string, name: string, lastWrite: int)

  /** What the report asks for: the server's map and mode, the report time in ticks, the look-back. */
  datatype Query = Query(expectedMap: string, expectedMode: string, reportTime: int, maxLookbackMinutes: int)

  /** The outcome of `FindDemo`: nothing (`demoPath == null`), or a demo and maybe its sidecar. */
  datatype Selection = NoDemo | Found(demoPath: string, jsonPath: Option<string>)

  /**
   * `0 <= (reportTime - start).TotalMinutes <= maxLookbackMinutes`: the recording
   * started at or before the report, and at most `lookback` minutes earlier.
   */
  predicate InWindow(reportTime: int, start: DateTime, lookback: int) {
    var delta := reportTime - Ticks(start);
    0 <= delta <= lookback * TicksPerMinute
  }

  /** The three tests of the `Where` clause on a parsed name. */
  predicate Accepts(q: Query, m: Meta) {
    && ContainsIgnoreCase(m.mapName, q.expectedMap)
    && (IsBlank(q.expectedMode) || EqualsIgnoreCase(m.mode, q.expectedMode))
    && InWindow(q.reportTime, m.start, q.maxLookbackMinutes)
  }

  /** A listed file with what its name parses to: the `Select` step of `FindDemo`. */
  datatype Parsed = Parsed(file: FileEntry, meta: Option<Meta>)

  /** The listing, each file paired with `ParseFilename(f.Name)`. */
  function Annotate(files: seq<FileEntry>): (r: seq<Parsed>)
    ensures |r| == |files|
    ensures forall i :: 0 <= i < |files| ==> r[i] == Parsed(files[i], ParseFilename(files[i].name))
  {
    seq(|files|, i requires 0 <= i < |files| => Parsed(files[i], ParseFilename(files[i].name)))
  }

  /** The two `Where` clauses: the name parsed and the metadata is accepted. */
  predicate IsCandidate(q: Query, x: Parsed) {
    x.meta.Some? && Accepts(q, x.meta.value)
  }

  /** The same test stated on a file directly. */
  predicate Eligible(q: Query, f: FileEntry) {
    ParseFilename(f.name).Some? && Accepts(q, ParseFilename(f.name).value)
  }

  /** The filtered listing, in listing order. */
  function Survivors(q: Query, xs: seq<Parsed>): (r: seq<Parsed>)
    ensures |r| <= |xs|
  {
    if |xs| == 0 then []
    else
      var init := Survivors(q, xs[..|xs| - 1]);
      var last := xs[|xs| - 1];
      if IsCandidate(q, last) then init + [last] else init
  }

  /** The survivors are exactly the candidates of the listing. */
  lemma {:induction false} SurvivorsMembers(q: Query, xs: seq<Parsed>)
    ensures forall x :: x in Survivors(q, xs) <==> x in xs && IsCandidate(q, x)
  {
    if |xs| > 0 {
      var last := xs[|xs| - 1];
      SurvivorsMembers(q, xs[..|xs| - 1]);
      assert xs == xs[..|xs| - 1] + [last];
    }
  }

  /** A survivor of the annotated listing is an eligible file of it, and every eligible file survives. */
  lemma SurvivorsEligible(q: Query, files: seq<FileEntry>)
    ensures forall x :: x in Survivors(q, Annotate(files)) ==> x.file in files && Eligible(q, x.file)
    ensures forall f :: f in files && Eligible(q, f) ==> Parsed(f, ParseFilename(f.name)) in Survivors(q, Annotate(files))
  {
    var xs := Annotate(files);
    SurvivorsMembers(q, xs);
    forall x | x in Survivors(q, xs) ensures x.file in files && Eligible(q, x.file) {
      var i :| 0 <= i < |xs| && xs[i] == x;
      assert x.file == files[i];
    }
    forall f | f in files && Eligible(q, f) ensures Parsed(f, ParseFilename(f.name)) in Survivors(q, xs) {
      var i :| 0 <= i < |files| && files[i] == f;
      assert xs[i] == Parsed(f, ParseFilename(f.name));
    }
  }

  // ---------------------------------------------------------------------------
  // Which survivor: `OrderByDescending(lastWrite).FirstOrDefault()`
  // ---------------------------------------------------------------------------

  /** `k` holds the latest write time of `s`, and no earlier entry has it. */
  predicate IsFirstLatest(s: seq<Parsed>, k: int) {
    && 0 <= k < |s|
    && (forall j :: 0 <= j < |s| ==> s[j].file.lastWrite <= s[k].file.lastWrite)
    && (forall j :: 0 <= j < k ==> s[j].file.lastWrite < s[k].file.lastWrite)
  }

  /** There is only one first-latest entry, so the choice does not depend on how it is found. */
  lemma FirstLatestUnique(s: seq<Parsed>, a: int, b: int)
    requires IsFirstLatest(s, a) && IsFirstLatest(s, b)
    ensures a == b
  {
    assert s[a].file.lastWrite == s[b].file.lastWrite;
  }

  /** Position of the first entry with the latest write time. */
  function FirstLatest(s: seq<Parsed>): (k: nat)
    requires |s| > 0
    ensures IsFirstLatest(s, k)
  {
    if |s| == 1 then 0
    else
      var j := FirstLatest(s[1..]);
      if s[0].file.lastWrite >= s[1..][j].file.lastWrite then 0 else j + 1
  }

  /** Descending by write time, the earlier of two equal entries first (a stable sort). */
  predicate SortedDesc(s: seq<Parsed>) {
    forall i, j :: 0 <= i < j < |s| ==> s[i].file.lastWrite >= s[j].file.lastWrite
  }

  /** Puts `x` in front of the first entry written no later than it. */
  function Insert(x: Parsed, t: seq<Parsed>): (r: seq<Parsed>)
    ensures |r| == |t| + 1
    ensures multiset(r) == multiset(t) + multiset{x}
    ensures r[0] == (if |t| == 0 || t[0].file.lastWrite <= x.file.lastWrite then x else t[0])
  {
    if |t| == 0 || t[0].file.lastWrite <= x.file.lastWrite then [x] + t
    else
      assert t == [t[0]] + t[1..];
      [t[0]] + Insert(x, t[1..])
  }

  /** No entry of `s` was written after `bound`. */
  predicate AllAtMost(s: seq<Parsed>, bound: int) {
    forall k :: 0 <= k < |s| ==> s[k].file.lastWrite <= bound
  }

  lemma {:induction false} InsertAtMost(x: Parsed, t: seq<Parsed>, bound: int)
    requires AllAtMost(t, bound) && x.file.lastWrite <= bound
    ensures AllAtMost(Insert(x, t), bound)
    decreases |t|
  {
    if |t| > 0 && t[0].file.lastWrite > x.file.lastWrite {
      InsertAtMost(x, t[1..], bound);
      var r := Insert(x, t);
      assert r == [t[0]] + Insert(x, t[1..]);
    }
  }

  lemma {:induction false} InsertSorted(x: Parsed, t: seq<Parsed>)
    requires SortedDesc(t)
    ensures SortedDesc(Insert(x, t))
    decreases |t|
  {
    if |t| > 0 && t[0].file.lastWrite > x.file.lastWrite {
      var head := t[0];
      var rest := Insert(x, t[1..]);
      InsertSorted(x, t[1..]);
      InsertAtMost(x, t[1..], head.file.lastWrite);
      ConsSorted(head, rest);
    }
  }

  lemma ConsSorted(head: Parsed, rest: seq<Parsed>)
    requires SortedDesc(rest) && AllAtMost(rest, head.file.lastWrite)
    ensures SortedDesc([head] + rest)
  {
  }

  /** The reference ordering: insertion sort, stable and descending. */
  function SortDesc(s: seq<Parsed>): (r: seq<Parsed>)
    ensures |r| == |s|
    ensures multiset(r) == multiset(s)
  {
    if |s| == 0 then []
    else
      assert s == [s[0]] + s[1..];
      Insert(s[0], SortDesc(s[1..]))
  }

  lemma {:induction false} SortDescSorted(s: seq<Parsed>)
    ensures SortedDesc(SortDesc(s))
  {
    if |s| > 0 {
      SortDescSorted(s[1..]);
      InsertSorted(s[0], SortDesc(s[1..]));
    }
  }

  /** What `FirstOrDefault` takes from the sorted sequence is the first-latest entry. */
  lemma {:induction false} SortDescHead(s: seq<Parsed>)
    requires |s| > 0
    ensures SortDesc(s)[0] == s[FirstLatest(s)]
  {
    if |s| > 1 {
      SortDescHead(s[1..]);
    }
  }

  // ---------------------------------------------------------------------------
  // The `.json` sidecar
  // ---------------------------------------------------------------------------

  predicate IsDirectorySeparator(c: char) {
    c == '\\' || c == '/'
  }

  /**
   * Where `Path.ChangeExtension` cuts `path`: the last `.` after the last directory
   * separator, or the end of the path when the file name has no dot.
   */
  function ExtensionStart(path: string, i: nat): (k: nat)
    requires i <= |path|
    ensures k <= |path|
    ensures k < |path| ==> k < i && path[k] == '.'
    ensures k < |path| ==> forall j :: k < j < i ==> path[j] != '.' && !IsDirectorySeparator(path[j])
    ensures k == |path| ==> forall j :: 0 <= j < i ==> path[j] == '.' ==> exists d :: j < d < i && IsDirectorySeparator(path[d])
    decreases i
  {
    if i == 0 then |path|
    else if path[i - 1] == '.' then i - 1
    else if IsDirectorySeparator(path[i - 1]) then |path|
    else ExtensionStart(path, i - 1)
  }

  /** `Path.ChangeExtension(path, ext)` for an `ext` starting with a dot (Windows separators). */
  function ChangeExtension(path: string, ext: string): (r: string)
    requires |ext| > 0 && ext[0] == '.'
  {
    if |path| == 0 then ""
    else path[..ExtensionStart(path, |path|)] + ext
  }

  /** A `*.demo` path gets its sidecar name by swapping the extension. */
  lemma ChangeDemoExtension(stem: string)
    ensures ChangeExtension(stem + ".demo", ".json") == stem + ".json"
  {
    var path := stem + ".demo";
    assert path[|stem|] == '.';
    assert ExtensionStart(path, |path|) == |stem|;
    assert path[..|stem|] == stem;
  }

  /** The sidecar of a non-empty path always carries the new extension. */
  lemma ChangeExtensionEnds(path: string, ext: string)
    requires |path| > 0 && |ext| > 0 && ext[0] == '.'
    ensures var r := ChangeExtension(path, ext);
      |r| >= |ext| && r[|r| - |ext|..] == ext && r[..|r| - |ext|] == path[..|r| - |ext|]
  {
  }

  /** The `.json` returned with a demo: only for T6, and only when that file exists. */
  function Sidecar(demoPath: string, isT6: bool, existing: set<string>): (r: Option<string>)
    ensures r.Some? <==> isT6 && ChangeExtension(demoPath, ".json") in existing
    ensures r.Some? ==> r.value == ChangeExtension(demoPath, ".json")
  {
    var j := ChangeExtension(demoPath, ".json");
    if isT6 && j in existing then Some(j) else None
  }

  // ---------------------------------------------------------------------------
  // FindDemo
  // ---------------------------------------------------------------------------

  /** The reference selection: the head of the stably sorted survivors, with its sidecar. */
  function SelectRef(q: Query, files: seq<FileEntry>, isT6: bool, existing: set<string>): Selection {
    var s := Survivors(q, Annotate(files));
    if |s| == 0 then NoDemo
    else
      var best := SortDesc(s)[0].file;
      Found(best.fullName, Sidecar(best.fullName, isT6, existing))
  }

  lemma SurvivorsStep(q: Query, xs: seq<Parsed>, i: nat, seen: seq<Parsed>, keep: bool)
    requires i < |xs|
    requires seen == Survivors(q, xs[..i]) && keep == IsCandidate(q, xs[i])
    ensures Survivors(q, xs[..i + 1]) == if keep then seen + [xs[i]] else seen
  {
    assert xs[..i + 1][..i] == xs[..i];
  }

  /** When `s` grows by one entry, the first-latest entry moves only to a strictly later one. */
  lemma FirstLatestSnoc(s: seq<Parsed>, k: nat, x: Parsed)
    requires IsFirstLatest(s, k)
    ensures x.file.lastWrite > s[k].file.lastWrite ==> IsFirstLatest(s + [x], |s|)
    ensures x.file.lastWrite <= s[k].file.lastWrite ==> IsFirstLatest(s + [x], k)
  {
  }

  /**
   * The scan behind `OrderByDescending(lastWrite).FirstOrDefault()` over the
   * filtered listing: it keeps the first survivor and replaces it only by a
   * strictly later one.
   */
  method LatestSurvivor(q: Query, xs: seq<Parsed>) returns (chosen: Option<Parsed>)
    ensures chosen.None? <==> |Survivors(q, xs)| == 0
    ensures chosen.Some? ==> chosen.value == Survivors(q, xs)[FirstLatest(Survivors(q, xs))]
  {
    chosen := None;
    ghost var k: nat := 0;
    ghost var seen: seq<Parsed> := [];
    var i := 0;
    while i < |xs|
      invariant 0 <= i <= |xs|
      invariant seen == Survivors(q, xs[..i])
      invariant chosen.None? <==> |seen| == 0
      invariant chosen.Some? ==> IsFirstLatest(seen, k) && chosen.value == seen[k]
    {
      var x := xs[i];
      var keep := IsCandidate(q, x);
      SurvivorsStep(q, xs, i, seen, keep);
      if keep {
        if chosen.None? {
          chosen, k := Some(x), 0;
        } else {
          FirstLatestSnoc(seen, k, x);
          if x.file.lastWrite > chosen.value.file.lastWrite {
            chosen, k := Some(x), |seen|;
          }
        }
      }
      seen := Survivors(q, xs[..i + 1]);
      i := i + 1;
    }
    assert xs[..|xs|] == xs;
    if chosen.Some? {
      FirstLatestUnique(seen, k, FirstLatest(seen));
    }
  }

  /** No survivor exactly when no file of the listing is eligible. */
  lemma NoSurvivors(q: Query, files: seq<FileEntry>)
    ensures |Survivors(q, Annotate(files))| == 0 <==> forall f :: f in files ==> !Eligible(q, f)
  {
    var s := Survivors(q, Annotate(files));
    SurvivorsEligible(q, files);
    if |s| > 0 {
      assert s[0] in s;
    }
  }

  /**
   * `FindDemo` over a listing `files` (`Directory.GetFiles(folder, "*.demo")`), the
   * set of paths that exist, and the report.
   */
  method FindDemo(q: Query, files: seq<FileEntry>, isT6: bool, existing: set<string>)
    returns (r: Selection)
    ensures r.NoDemo? <==> forall f :: f in files ==> !Eligible(q, f)
    ensures r.Found? ==> exists k :: IsFirstLatest(Survivors(q, Annotate(files)), k)
                                  && Survivors(q, Annotate(files))[k].file.fullName == r.demoPath
    ensures r.Found? ==> r.jsonPath == Sidecar(r.demoPath, isT6, existing)
    ensures !isT6 ==> r.NoDemo? || r.jsonPath.None?
    ensures r == SelectRef(q, files, isT6, existing)
  {
    var parsed := Annotate(files);
    var chosen := LatestSurvivor(q, parsed);
    NoSurvivors(q, files);
    if chosen.None? {
      r := NoDemo;
    } else {
      SortDescHead(Survivors(q, parsed));
      var path := chosen.value.file.fullName;
      r := Found(path, Sidecar(path, isT6, existing));
    }
  }

  // ---------------------------------------------------------------------------
  // Properties of a selection
  // ---------------------------------------------------------------------------

  /**
   * The selected file is in the listing, its name parsed, its map contains the
   * expected map and its mode equals the (non-blank) expected mode ignoring case,
   * it started inside the window, and no eligible file was written later.
   */
  lemma SelectedMatches(q: Query, files: seq<FileEntry>, isT6: bool, existing: set<string>)
    requires SelectRef(q, files, isT6, existing).Found?
    ensures exists f :: (
      && f in files && f.fullName == SelectRef(q, files, isT6, existing).demoPath
      && ParseFilename(f.name).Some?
      && ContainsIgnoreCase(ParseFilename(f.name).value.mapName, q.expectedMap)
      && (!IsBlank(q.expectedMode) ==> EqualsIgnoreCase(ParseFilename(f.name).value.mode, q.expectedMode))
      && 0 <= q.reportTime - Ticks(ParseFilename(f.name).value.start) <= q.maxLookbackMinutes * TicksPerMinute
      && forall g :: g in files && Eligible(q, g) ==> g.lastWrite <= f.lastWrite)
  {
    var s := Survivors(q, Annotate(files));
    SurvivorsEligible(q, files);
    var k := FirstLatest(s);
    SortDescHead(s);
    var f := s[k].file;
    assert s[k] in s;
    forall g | g in files && Eligible(q, g) ensures g.lastWrite <= f.lastWrite {
      var y := Parsed(g, ParseFilename(g.name));
      assert y in s;
      var j :| 0 <= j < |s| && s[j] == y;
    }
  }

  /**
   * A recording whose start minute comes after the minute of the report is never
   * chosen, whatever the look-back and wherever in its minute the report falls.
   */
  lemma FutureStartRejected(q: Query, m: Meta, reportAt: DateTime)
    requires Ticks(reportAt) <= q.reportTime < Ticks(reportAt) + TicksPerMinute
    requires Before(reportAt, m.start)
    ensures !Accepts(q, m)
  {
    TicksMonotone(reportAt, m.start);
    assert MinuteNumber(reportAt) + 1 <= MinuteNumber(m.start);
    assert Ticks(reportAt) + TicksPerMinute <= Ticks(m.start);
  }

  // ---------------------------------------------------------------------------
  // The recording of the parser's documentation against two report times
  // ---------------------------------------------------------------------------

  const NuketownFile: FileEntry := FileEntry(
    "C:\\demos\\tdm_mp_nuketown_2020_12_10_2025_4_4.demo", "tdm_mp_nuketown_2020_12_10_2025_4_4.demo", 0)

  /** A report at `hour:minute` on 2025-12-10 from a nuketown TDM server, 90 minutes of look-back. */
  function NuketownReport(hour: int, minute: int): Query
    requires 0 <= hour <= 23 && 0 <= minute <= 59
  {
    Query("nuketown", "tdm", Ticks(Timestamp(2025, 12, 10, hour, minute)), 90)
  }

  lemma NuketownMapMatches()
    ensures ContainsIgnoreCase("mp_nuketown_2020", "nuketown")
  {
    var s := "mp_nuketown_2020";
    var t := "nuketown";
    assert forall i :: 0 <= i < |t| ==> s[3 + i] == t[i];
    assert s[3..11] == t;
    assert MatchesAt(s, t, 3);
  }

  /** The only file of the listing, annotated. */
  lemma NuketownAnnotated()
    ensures Annotate([NuketownFile])
         == [Parsed(NuketownFile, Some(Meta("tdm", "mp_nuketown_2020", Timestamp(2025, 12, 10, 4, 4))))]
  {
    NuketownExample();
  }

  /** Six minutes after the recording started, the report finds it. */
  lemma ReportSixMinutesLater()
    ensures SelectRef(NuketownReport(4, 10), [NuketownFile], false, {}) == Found(NuketownFile.fullName, None)
  {
    var q := NuketownReport(4, 10);
    NuketownAnnotated();
    NuketownMapMatches();
    var start := Timestamp(2025, 12, 10, 4, 4);
    assert q.reportTime - Ticks(start) == 6 * TicksPerMinute;
    var xs := Annotate([NuketownFile]);
    assert IsCandidate(q, xs[0]);
    assert xs[..0] == [];
    assert Survivors(q, xs) == [xs[0]];
  }

  /** A report two hours before the recording started does not pick it. */
  lemma ReportBeforeRecording()
    ensures SelectRef(NuketownReport(2, 0), [NuketownFile], true, {}) == NoDemo
  {
    var xs := Annotate([NuketownFile]);
    NuketownAnnotated();
    NotCandidateEarlier(xs[0]);
    assert xs[..0] == [];
  }

  lemma NotCandidateEarlier(x: Parsed)
    requires x.meta == Some(Meta("tdm", "mp_nuketown_2020", Timestamp(2025, 12, 10, 4, 4)))
    ensures !IsCandidate(NuketownReport(2, 0), x)
  {
  }
}
