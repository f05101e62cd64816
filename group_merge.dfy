/** The second fix-up of loading a project: every run-time environment file
    of the project file is added to the display group of its component's
    class, so that the groups list what the project window shows. */
module GroupMerge {
  import opened Types
  import opened Paths
  import opened Options

  /** A run-time environment file: the path of its instance and the class
      of the component it belongs to. */
  datatype RteFile = RteFile(instance: string, componentClass: string)

  /** The groups after the merge and the warnings issued on the way. */
  datatype Merged = Merged(groups: seq<Group>, warnings: seq<Warning>)

  // ---------------------------------------------------------------------
  // The search for the group
  // ---------------------------------------------------------------------

  /** `s.strip(":")`: leading and trailing colons removed. */
  function StripColons(s: string): (r: string)
    ensures |r| <= |s|
    ensures r != [] ==> r[0] != ':' && r[|r| - 1] != ':'
    ensures s != [] && s[0] != ':' && s[|s| - 1] != ':' ==> r == s
  {
    if s == [] then s
    else if s[0] == ':' then StripColons(s[1..])
    else if s[|s| - 1] == ':' then StripColons(s[..|s| - 1])
    else s
  }

  /** `r` is `s` with its first `a` characters and its last
      `|s| - a - |r|` characters cut, every cut character a colon. */
  predicate ColonsCut(s: string, r: string, a: nat) {
    && a + |r| <= |s| && r == s[a..a + |r|]
    && (forall i :: 0 <= i < a ==> s[i] == ':')
    && (forall i :: a + |r| <= i < |s| ==> s[i] == ':')
  }

  /** `strip(":")` cuts colons only, and only at the two ends: the result
      is a middle part of the name with nothing but colons around it. */
  lemma {:induction false} StripColonsCutsEnds(s: string)
    ensures exists a: nat :: ColonsCut(s, StripColons(s), a)
  {
    var r := StripColons(s);
    if s == [] {
      assert ColonsCut(s, r, 0);
    } else if s[0] == ':' {
      var t := s[1..];
      StripColonsCutsEnds(t);
      var a: nat :| ColonsCut(t, r, a);
      forall i | 0 <= i < a + 1
        ensures s[i] == ':'
      {
        if i > 0 {
          assert s[i] == t[i - 1];
        }
      }
      forall i | a + 1 + |r| <= i < |s|
        ensures s[i] == ':'
      {
        assert s[i] == t[i - 1];
      }
      assert r == s[a + 1..a + 1 + |r|];
      assert ColonsCut(s, r, a + 1);
    } else if s[|s| - 1] == ':' {
      var t := s[..|s| - 1];
      StripColonsCutsEnds(t);
      var a: nat :| ColonsCut(t, r, a);
      // the first character is no colon, so nothing was cut at the front
      assert a == 0;
      forall i | a + |r| <= i < |s|
        ensures s[i] == ':'
      {
        if i < |t| {
          assert s[i] == t[i];
        }
      }
      assert r == s[a..a + |r|];
      assert ColonsCut(s, r, a);
    } else {
      assert r == s[0..|s|];
      assert ColonsCut(s, r, 0);
    }
  }

  /** The group the file belongs to: a run-time environment group whose name,
      without its colons, is the class of the file's component. */
  predicate Matches(g: Group, f: RteFile) {
    g.rteFlag && StripColons(g.name) == f.componentClass
  }

  function SearchFrom(groups: seq<Group>, f: RteFile, i: nat): (r: nat)
    requires i < |groups|
    ensures i <= r < |groups|
    decreases |groups| - i
  {
    if Matches(groups[i], f) || i == |groups| - 1 then i else SearchFrom(groups, f, i + 1)
  }

  /** The position (from 0) where the search loop stops. */
  function StopIndex(groups: seq<Group>, f: RteFile): (r: nat)
    requires groups != []
    ensures r < |groups|
  {
    SearchFrom(groups, f, 0)
  }

  lemma {:induction false} SearchFromSpec(groups: seq<Group>, f: RteFile, i: nat)
    requires i < |groups|
    ensures var r := SearchFrom(groups, f, i);
      && (forall j :: i <= j < r ==> !Matches(groups[j], f))
      && (Matches(groups[r], f) || r == |groups| - 1)
    decreases |groups| - i
  {
    if !(Matches(groups[i], f) || i == |groups| - 1) {
      SearchFromSpec(groups, f, i + 1);
    }
  }

  /** The search stops at the first matching group, or at the last group when
      none matches, since the loop variables keep their last values. */
  lemma StopIndexSpec(groups: seq<Group>, f: RteFile)
    requires groups != []
    ensures var r := StopIndex(groups, f);
      && (forall j :: 0 <= j < r ==> !Matches(groups[j], f))
      && (Matches(groups[r], f) || r == |groups| - 1)
  {
    SearchFromSpec(groups, f, 0);
  }

  /** The consistency warnings of the first `upto` groups: a group whose
      first file does not carry the group's 1-based position. */
  function ConsistencyWarnings(groups: seq<Group>, upto: nat): (ws: seq<Warning>)
    requires upto <= |groups|
    ensures |ws| <= upto
  {
    if upto == 0 then []
    else
      var g := groups[upto - 1];
      ConsistencyWarnings(groups, upto - 1)
      + (if g.files != [] && g.files[0].groupNumber != upto
         then [InconsistentGroupNumber(g.name, g.files[0].groupNumber, upto)] else [])
  }

  /** Group `g` (from 0) has a first file that does not carry its 1-based
      position. */
  predicate Inconsistent(groups: seq<Group>, g: nat)
    requires g < |groups|
  {
    groups[g].files != [] && groups[g].files[0].groupNumber != g + 1
  }

  /** The warning the search issues for an inconsistent group `g` (from 0). */
  function WarningFor(groups: seq<Group>, g: nat): Warning
    requires g < |groups| && groups[g].files != []
  {
    InconsistentGroupNumber(groups[g].name, groups[g].files[0].groupNumber, g + 1)
  }

  /** The warnings for the first `upto` groups are exactly the warnings for
      the inconsistent ones among them. */
  lemma {:induction false} ConsistencyWarningsMembers(groups: seq<Group>, upto: nat)
    requires upto <= |groups|
    ensures forall w :: w in ConsistencyWarnings(groups, upto) <==>
      exists g :: 0 <= g < upto && Inconsistent(groups, g) && w == WarningFor(groups, g)
  {
    if upto > 0 {
      var k := upto - 1;
      ConsistencyWarningsMembers(groups, k);
      var prev := ConsistencyWarnings(groups, k);
      var last := if Inconsistent(groups, k) then [WarningFor(groups, k)] else [];
      assert ConsistencyWarnings(groups, upto) == prev + last;
      forall w
        ensures w in prev + last <==>
          exists g :: 0 <= g < upto && Inconsistent(groups, g) && w == WarningFor(groups, g)
      {
        if w in last {
          assert Inconsistent(groups, k) && w == WarningFor(groups, k);
        }
        if exists g :: 0 <= g < upto && Inconsistent(groups, g) && w == WarningFor(groups, g) {
          var g :| 0 <= g < upto && Inconsistent(groups, g) && w == WarningFor(groups, g);
          if g == k {
            assert w in last;
          }
        }
      }
    }
  }

  /** Searching further only adds warnings at the end, so the warnings come
      in group order. */
  lemma {:induction false} ConsistencyWarningsPrefix(groups: seq<Group>, u: nat, v: nat)
    requires u <= v <= |groups|
    ensures ConsistencyWarnings(groups, u) <= ConsistencyWarnings(groups, v)
    decreases v - u
  {
    if u < v {
      ConsistencyWarningsPrefix(groups, u, v - 1);
    }
  }

  // ---------------------------------------------------------------------
  // The running maximum
  // ---------------------------------------------------------------------

  function MaxIn(files: seq<FileEntry>): (r: Option<int>)
    ensures r.None? <==> files == []
  {
    if files == [] then None
    else
      var last := files[|files| - 1].number;
      match MaxIn(files[..|files| - 1])
      case None => Some(last)
      case Some(m) => Some(if m < last then last else m)
  }

  lemma {:induction false} MaxInBounds(files: seq<FileEntry>)
    requires files != []
    ensures forall i :: 0 <= i < |files| ==> files[i].number <= MaxIn(files).value
    ensures exists i :: 0 <= i < |files| && files[i].number == MaxIn(files).value
  {
    var init := files[..|files| - 1];
    if init != [] {
      MaxInBounds(init);
      var i :| 0 <= i < |init| && init[i].number == MaxIn(init).value;
      assert files[i] == init[i];
    }
  }

  /** `max(f.number for g in groups for f in g.files)`, None where `max`
      would raise for want of any file. */
  function MaxNumber(groups: seq<Group>): Option<int> {
    if groups == [] then None
    else
      var last := MaxIn(groups[|groups| - 1].files);
      match MaxNumber(groups[..|groups| - 1])
      case None => last
      case Some(m) =>
        match last
        case None => Some(m)
        case Some(n) => Some(if m < n then n else m)
  }

  /** `max` has nothing to take the maximum of exactly when no group has a
      file. */
  lemma {:induction false} MaxNumberNone(groups: seq<Group>)
    ensures MaxNumber(groups).None? <==> forall g :: 0 <= g < |groups| ==> groups[g].files == []
  {
    if groups != [] {
      var init := groups[..|groups| - 1];
      MaxNumberNone(init);
      assert forall g :: 0 <= g < |init| ==> init[g] == groups[g];
    }
  }

  /** The maximum is the number of some file, and no file's number exceeds it. */
  lemma {:induction false} MaxNumberBounds(groups: seq<Group>)
    requires MaxNumber(groups).Some?
    ensures forall g, i :: 0 <= g < |groups| && 0 <= i < |groups[g].files| ==> groups[g].files[i].number <= MaxNumber(groups).value
    ensures exists g, i :: 0 <= g < |groups| && 0 <= i < |groups[g].files| && groups[g].files[i].number == MaxNumber(groups).value
  {
    var init := groups[..|groups| - 1];
    assert forall g :: 0 <= g < |init| ==> init[g] == groups[g];
    var lastFiles := groups[|groups| - 1].files;
    if lastFiles != [] {
      MaxInBounds(lastFiles);
    }
    MaxNumberNone(init);
    if MaxNumber(init).Some? {
      MaxNumberBounds(init);
    }
  }

  /** The maximum is the number some file carries that no file exceeds. */
  lemma MaxNumberIs(groups: seq<Group>, m: int, g: nat, i: nat)
    requires g < |groups| && i < |groups[g].files| && groups[g].files[i].number == m
    requires forall h, j :: 0 <= h < |groups| && 0 <= j < |groups[h].files| ==> groups[h].files[j].number <= m
    ensures MaxNumber(groups) == Some(m)
  {
    assert MaxNumber(groups).Some?;
    MaxNumberBounds(groups);
  }

  // ---------------------------------------------------------------------
  // One file, and all of them
  // ---------------------------------------------------------------------

  /** The entry the merge appends for a run-time environment file. */
  function NewEntry(f: RteFile, groupNumber: int, number: int): (e: FileEntry)
    ensures e.groupNumber == groupNumber && e.number == number
    ensures e.rteFlag && e.fileType == None && !e.shared
    ensures e.path == f.instance && e.filename == f.instance[SegmentStart(f.instance)..]
  {
    BaseNameIsLastSegment(f.instance);
    FileEntry(groupNumber, number, None, false, false, false, f.instance, BaseName(f.instance), true, false)
  }

  /** The merge of one file: the warnings of the groups searched, then the
      file appended to the group the search stopped at, numbered one above
      every file so far. No group at all fails on the missing group, and no
      file at all fails in `max`. */
  function MergeOne(groups: seq<Group>, f: RteFile): (r: Result<Merged>)
    ensures groups == [] ==> r == Err(NoGroup)
    ensures groups != [] && MaxNumber(groups).None? ==> r == Err(NoFileNumbers)
    ensures r.Ok? <==> groups != [] && MaxNumber(groups).Some?
    ensures r.Ok? ==> |r.value.groups| == |groups|
  {
    if groups == [] then Err(NoGroup)
    else
      var s := StopIndex(groups, f);
      match MaxNumber(groups)
      case None => Err(NoFileNumbers)
      case Some(m) =>
        Ok(Merged(groups[s := groups[s].(files := groups[s].files + [NewEntry(f, s + 1, m + 1)])],
                  ConsistencyWarnings(groups, s + 1)))
  }

  /** The merge of the files in order; the first failure ends it. */
  function MergeAll(groups: seq<Group>, fs: seq<RteFile>): Result<Merged> {
    if fs == [] then Ok(Merged(groups, []))
    else
      match MergeAll(groups, fs[..|fs| - 1])
      case Err(e) => Err(e)
      case Ok(prev) =>
        match MergeOne(prev.groups, fs[|fs| - 1])
        case Err(e) => Err(e)
        case Ok(next) => Ok(Merged(next.groups, prev.warnings + next.warnings))
  }

  /** A failure on some file is the failure of the whole merge. */
  lemma {:induction false} FailurePersists(groups: seq<Group>, fs: seq<RteFile>, k: nat)
    requires k <= |fs| && MergeAll(groups, fs[..k]).Err?
    ensures MergeAll(groups, fs) == MergeAll(groups, fs[..k])
    decreases |fs| - k
  {
    if k == |fs| {
      assert fs[..k] == fs;
    } else {
      var init := fs[..|fs| - 1];
      assert init[..k] == fs[..k];
      FailurePersists(groups, init, k);
    }
  }

  /** The search loop of the merge, for groups present: the position it
      stops at and the warnings it issues on the way. */
  method SearchGroup(gs: seq<Group>, file: RteFile) returns (j: nat, log: seq<Warning>)
    requires gs != []
    ensures j == StopIndex(gs, file)
    ensures log == ConsistencyWarnings(gs, j + 1)
  {
    j := 0;
    log := [];
    var found := false;
    while !found && j < |gs|
      invariant 0 <= j <= |gs|
      invariant found ==> j < |gs| && Matches(gs[j], file)
      invariant forall q :: 0 <= q < j ==> !Matches(gs[q], file)
      invariant log == ConsistencyWarnings(gs, if found then j + 1 else j)
    {
      if gs[j].files != [] && gs[j].files[0].groupNumber != j + 1 {
        log := log + [InconsistentGroupNumber(gs[j].name, gs[j].files[0].groupNumber, j + 1)];
      }
      if Matches(gs[j], file) {
        found := true;
      } else {
        j := j + 1;
      }
    }
    if !found {
      // the loop ran out: the loop variables keep the last group
      j := |gs| - 1;
    }
    StopIndexSpec(gs, file);
  }

  /** The merge of the first k + 1 files continues that of the first k. */
  lemma MergeAllStep(groups: seq<Group>, fs: seq<RteFile>, k: nat, prev: Merged)
    requires k < |fs| && MergeAll(groups, fs[..k]) == Ok(prev)
    ensures MergeAll(groups, fs[..k + 1]) ==
      match MergeOne(prev.groups, fs[k])
      case Err(e) => Err(e)
      case Ok(next) => Ok(Merged(next.groups, prev.warnings + next.warnings))
  {
    assert fs[..k + 1][..k] == fs[..k];
  }

  /** The merge loop of the loader. */
  method MergeRteFiles(groups: seq<Group>, rteFiles: seq<RteFile>) returns (r: Result<Merged>)
    ensures r == MergeAll(groups, rteFiles)
  {
    var gs := groups;
    var log: seq<Warning> := [];
    for k := 0 to |rteFiles|
      invariant MergeAll(groups, rteFiles[..k]) == Ok(Merged(gs, log))
    {
      var file := rteFiles[k];
      MergeAllStep(groups, rteFiles, k, Merged(gs, log));
      if gs == [] {
        r := Err(NoGroup);
        FailurePersists(groups, rteFiles, k + 1);
        return;
      }
      var j, ws := SearchGroup(gs, file);
      var highest := MaxNumber(gs);
      if highest.None? {
        r := Err(NoFileNumbers);
        FailurePersists(groups, rteFiles, k + 1);
        return;
      }
      var gs' := gs[j := gs[j].(files := gs[j].files + [NewEntry(file, j + 1, highest.value + 1)])];
      assert MergeOne(gs, file) == Ok(Merged(gs', ws));
      gs := gs';
      log := log + ws;
    }
    assert rteFiles[..|rteFiles|] == rteFiles;
    r := Ok(Merged(gs, log));
  }

  // ---------------------------------------------------------------------
  // The merge in closed form
  // ---------------------------------------------------------------------

  /** The entries group `g` receives when the files start numbering above `m`:
      the k-th file (from 1) is numbered `m + k`. */
  function Appended(groups: seq<Group>, fs: seq<RteFile>, g: nat, m: int): seq<FileEntry>
    requires groups != []
  {
    if fs == [] then []
    else Appended(groups, fs[..|fs| - 1], g, m)
         + (if StopIndex(groups, fs[|fs| - 1]) == g then [NewEntry(fs[|fs| - 1], g + 1, m + |fs|)] else [])
  }

  /** Every group with its received entries appended at the end. */
  function Closed(groups: seq<Group>, fs: seq<RteFile>, m: int): (r: seq<Group>)
    requires groups != []
    ensures |r| == |groups|
  {
    seq(|groups|, g requires 0 <= g < |groups| => groups[g].(files := groups[g].files + Appended(groups, fs, g, m)))
  }

  /** The warnings of each file's search, in file order. */
  function AllWarnings(groups: seq<Group>, fs: seq<RteFile>): seq<Warning>
    requires groups != []
  {
    if fs == [] then []
    else AllWarnings(groups, fs[..|fs| - 1]) + ConsistencyWarnings(groups, StopIndex(groups, fs[|fs| - 1]) + 1)
  }

  /** What group `g` receives: entries numbered with its 1-based position,
      flagged as run-time environment files, numbered above `m` and at most
      `m + |fs|`; and it receives the entry of every file whose search stops
      at it, the k-th file (from 0) numbered `m + k + 1`. */
  lemma {:induction false} AppendedEntries(groups: seq<Group>, fs: seq<RteFile>, g: nat, m: int)
    requires groups != []
    ensures forall e :: e in Appended(groups, fs, g, m) ==>
      e.groupNumber == g + 1 && e.rteFlag && e.fileType == None && m < e.number <= m + |fs|
    ensures forall k :: 0 <= k < |fs| && StopIndex(groups, fs[k]) == g ==>
      NewEntry(fs[k], g + 1, m + k + 1) in Appended(groups, fs, g, m)
  {
    if fs != [] {
      var init := fs[..|fs| - 1];
      AppendedEntries(groups, init, g, m);
      assert forall k :: 0 <= k < |init| ==> init[k] == fs[k];
    }
  }

  /** Searching the merged groups stops where searching the original ones
      does: the merge changes no name and no flag. */
  lemma StopIndexSame(gs: seq<Group>, hs: seq<Group>, f: RteFile)
    requires gs != [] && |gs| == |hs|
    requires forall g :: 0 <= g < |gs| ==> gs[g].name == hs[g].name && gs[g].rteFlag == hs[g].rteFlag
    ensures StopIndex(gs, f) == StopIndex(hs, f)
  {
    var a, b := StopIndex(gs, f), StopIndex(hs, f);
    StopIndexSpec(gs, f);
    StopIndexSpec(hs, f);
    assert Matches(gs[a], f) <==> Matches(hs[a], f);
    assert Matches(gs[b], f) <==> Matches(hs[b], f);
  }

  lemma {:induction false} ConsistencyWarningsClosed(groups: seq<Group>, fs: seq<RteFile>, m: int, u: nat)
    requires groups != [] && u <= |groups|
    ensures ConsistencyWarnings(Closed(groups, fs, m), u) == ConsistencyWarnings(groups, u)
  {
    if u > 0 {
      ConsistencyWarningsClosed(groups, fs, m, u - 1);
      var c := Closed(groups, fs, m);
      var g := u - 1;
      AppendedEntries(groups, fs, g, m);
      if groups[g].files == [] && c[g].files != [] {
        assert c[g].files[0] in Appended(groups, fs, g, m);
      }
    }
  }

  /** No file of the closed form is numbered above `m + |fs|`. */
  lemma ClosedBounded(groups: seq<Group>, fs: seq<RteFile>, m: int)
    requires groups != [] && MaxNumber(groups) == Some(m)
    ensures var c := Closed(groups, fs, m);
      forall h, j :: 0 <= h < |c| && 0 <= j < |c[h].files| ==> c[h].files[j].number <= m + |fs|
  {
    var c := Closed(groups, fs, m);
    MaxNumberBounds(groups);
    forall h, j | 0 <= h < |c| && 0 <= j < |c[h].files|
      ensures c[h].files[j].number <= m + |fs|
    {
      AppendedEntries(groups, fs, h, m);
      assert c[h].files == groups[h].files + Appended(groups, fs, h, m);
      if j >= |groups[h].files| {
        assert c[h].files[j] in Appended(groups, fs, h, m);
      } else {
        assert c[h].files[j] == groups[h].files[j];
      }
    }
  }

  /** Some file of the closed form is numbered `m + |fs|`. */
  lemma ClosedReaches(groups: seq<Group>, fs: seq<RteFile>, m: int) returns (g: nat, i: nat)
    requires groups != [] && MaxNumber(groups) == Some(m)
    ensures var c := Closed(groups, fs, m);
      g < |c| && i < |c[g].files| && c[g].files[i].number == m + |fs|
  {
    var c := Closed(groups, fs, m);
    if fs == [] {
      MaxNumberBounds(groups);
      g, i :| 0 <= g < |groups| && 0 <= i < |groups[g].files| && groups[g].files[i].number == m;
      assert c[g].files == groups[g].files + Appended(groups, fs, g, m);
    } else {
      var k := |fs| - 1;
      g := StopIndex(groups, fs[k]);
      AppendedEntries(groups, fs, g, m);
      var e := NewEntry(fs[k], g + 1, m + k + 1);
      var a := Appended(groups, fs, g, m);
      var j :| 0 <= j < |a| && a[j] == e;
      assert c[g].files == groups[g].files + a;
      i := |groups[g].files| + j;
      assert c[g].files[i] == e;
    }
  }

  lemma MaxNumberClosed(groups: seq<Group>, fs: seq<RteFile>, m: int)
    requires groups != [] && MaxNumber(groups) == Some(m)
    ensures MaxNumber(Closed(groups, fs, m)) == Some(m + |fs|)
  {
    ClosedBounded(groups, fs, m);
    var g, i := ClosedReaches(groups, fs, m);
    MaxNumberIs(Closed(groups, fs, m), m + |fs|, g, i);
  }

  /** The merge in closed form. With groups present and `m` the highest file
      number before the merge, the merge does not fail; the k-th file (from
      1) is numbered `m + k`, carries the 1-based position of the group its
      search stopped at, and is appended at the end of that group; no group
      changes otherwise; and each file issues the consistency warnings of the
      groups up to and including the one its search stopped at. */
  lemma {:induction false} MergeAllClosed(groups: seq<Group>, fs: seq<RteFile>, m: int)
    requires groups != [] && MaxNumber(groups) == Some(m)
    ensures MergeAll(groups, fs).Ok?
    ensures MergeAll(groups, fs).value.groups == Closed(groups, fs, m)
    ensures MergeAll(groups, fs).value.warnings == AllWarnings(groups, fs)
  {
    if fs == [] {
      var c := Closed(groups, fs, m);
      forall g | 0 <= g < |groups|
        ensures c[g] == groups[g]
      {
        assert c[g].files == groups[g].files + [];
      }
      assert c == groups;
    } else {
      var init, last := fs[..|fs| - 1], fs[|fs| - 1];
      assert AllWarnings(groups, fs) == AllWarnings(groups, init) + ConsistencyWarnings(groups, StopIndex(groups, last) + 1);
      var prev := MergeAll(groups, init);
      assert prev.Ok? && prev.value.groups == Closed(groups, init, m) && prev.value.warnings == AllWarnings(groups, init) by {
        MergeAllClosed(groups, init, m);
      }
      MergeOneClosed(groups, fs, m);
      MergeAllExtend(groups, fs);
    }
  }

  /** Merging the last file into the closed form of the others gives the
      closed form of all, with the warnings of the last file's search. */
  lemma MergeOneClosed(groups: seq<Group>, fs: seq<RteFile>, m: int)
    requires groups != [] && fs != [] && MaxNumber(groups) == Some(m)
    ensures var next := MergeOne(Closed(groups, fs[..|fs| - 1], m), fs[|fs| - 1]);
      && next.Ok?
      && next.value.groups == Closed(groups, fs, m)
      && next.value.warnings == ConsistencyWarnings(groups, StopIndex(groups, fs[|fs| - 1]) + 1)
  {
    var init, last := fs[..|fs| - 1], fs[|fs| - 1];
    var c0 := Closed(groups, init, m);
    var s := StopIndex(groups, last);
    ClosedSearch(groups, fs, m);
    ClosedStep(groups, fs, m);
    ConsistencyWarningsClosed(groups, init, m, s + 1);
  }

  /** In the closed form of all files but the last, the search for the last
      stops where it does in the original groups, and the last file is
      numbered above the file before it. */
  lemma ClosedSearch(groups: seq<Group>, fs: seq<RteFile>, m: int)
    requires groups != [] && fs != [] && MaxNumber(groups) == Some(m)
    ensures var n := |fs|;
      var c0 := Closed(groups, fs[..n - 1], m);
      var s := StopIndex(groups, fs[n - 1]);
      MergeOne(c0, fs[n - 1]) == Ok(Merged(c0[s := c0[s].(files := c0[s].files + [NewEntry(fs[n - 1], s + 1, m + n)])],
                                           ConsistencyWarnings(c0, s + 1)))
  {
    var init, last := fs[..|fs| - 1], fs[|fs| - 1];
    var c0 := Closed(groups, init, m);
    MaxNumberClosed(groups, init, m);
    ClosedKeepsHeads(groups, init, m);
    StopIndexSame(c0, groups, last);
    MergeOneAt(c0, last, StopIndex(groups, last), m + |fs| - 1);
  }

  /** The merge of all files continues the merge of all but the last. */
  lemma MergeAllExtend(groups: seq<Group>, fs: seq<RteFile>)
    requires fs != [] && MergeAll(groups, fs[..|fs| - 1]).Ok?
    requires MergeOne(MergeAll(groups, fs[..|fs| - 1]).value.groups, fs[|fs| - 1]).Ok?
    ensures var prev := MergeAll(groups, fs[..|fs| - 1]).value;
      var next := MergeOne(prev.groups, fs[|fs| - 1]).value;
      && MergeAll(groups, fs).Ok?
      && MergeAll(groups, fs).value.groups == next.groups
      && MergeAll(groups, fs).value.warnings == prev.warnings + next.warnings
  {
  }

  /** The closed form keeps every group's name and flags. */
  lemma ClosedKeepsHeads(groups: seq<Group>, fs: seq<RteFile>, m: int)
    requires groups != []
    ensures var c := Closed(groups, fs, m);
      forall g :: 0 <= g < |groups| ==> c[g].name == groups[g].name && c[g].rteFlag == groups[g].rteFlag
  {
  }

  /** One merge, once its search and its maximum are known. */
  lemma MergeOneAt(gs: seq<Group>, f: RteFile, s: nat, top: int)
    requires gs != [] && StopIndex(gs, f) == s && MaxNumber(gs) == Some(top)
    ensures MergeOne(gs, f) == Ok(Merged(gs[s := gs[s].(files := gs[s].files + [NewEntry(f, s + 1, top + 1)])],
                                         ConsistencyWarnings(gs, s + 1)))
  {
  }

  /** Appending the last file's entry to the closed form of the others gives
      the closed form of all. */
  lemma ClosedStep(groups: seq<Group>, fs: seq<RteFile>, m: int)
    requires groups != [] && fs != []
    ensures var n := |fs|;
      var c0 := Closed(groups, fs[..n - 1], m);
      var s := StopIndex(groups, fs[n - 1]);
      c0[s := c0[s].(files := c0[s].files + [NewEntry(fs[n - 1], s + 1, m + n)])] == Closed(groups, fs, m)
  {
    var n := |fs|;
    var init := fs[..n - 1];
    var c0 := Closed(groups, init, m);
    var s := StopIndex(groups, fs[n - 1]);
    var c1 := c0[s := c0[s].(files := c0[s].files + [NewEntry(fs[n - 1], s + 1, m + n)])];
    var c := Closed(groups, fs, m);
    forall g | 0 <= g < |groups|
      ensures c1[g] == c[g]
    {
      assert Appended(groups, fs, g, m) == Appended(groups, init, g, m)
        + (if s == g then [NewEntry(fs[n - 1], g + 1, m + n)] else []);
    }
  }

  /** Without any group the merge of a file fails on the missing group. */
  lemma {:induction false} NoGroupFails(fs: seq<RteFile>)
    requires fs != []
    ensures MergeAll([], fs) == Err(NoGroup)
  {
    var init := fs[..|fs| - 1];
    if init != [] {
      NoGroupFails(init);
    }
  }

  /** With groups but no file at all the merge of a file fails in `max`. */
  lemma {:induction false} NoFileFails(groups: seq<Group>, fs: seq<RteFile>)
    requires groups != [] && fs != []
    requires forall g :: 0 <= g < |groups| ==> groups[g].files == []
    ensures MergeAll(groups, fs) == Err(NoFileNumbers)
  {
    var init := fs[..|fs| - 1];
    MaxNumberNone(groups);
    if init != [] {
      NoFileFails(groups, init);
    }
  }
}
