/** Path cleaning for include paths and file paths (`CMake._clean_paths`):
    `os.path.normpath` followed by `Path.as_posix`, as they behave on the
    Windows hosts the IDE runs on: both '/' and '\' separate segments,
    empty and "." segments vanish, ".." cancels the segment before it, and
    the result is written with '/'. */
module Paths {
  import opened XmlFields

  /** Every '\' replaced by '/'. */
  function ToSlashes(p: string): (r: string)
    ensures |r| == |p|
    ensures forall i :: 0 <= i < |p| ==> r[i] == (if p[i] == '\\' then '/' else p[i])
  {
    if p == [] then [] else ToSlashes(p[..|p| - 1]) + [if p[|p| - 1] == '\\' then '/' else p[|p| - 1]]
  }

  /** A segment that survives normalisation. */
  predicate IsName(seg: string) {
    seg != "" && seg != "." && '/' !in seg && '\\' !in seg
  }

  /** A normalised segment list: names only, every ".." before every other
      name, and no ".." at all under the root. */
  predicate IsClean(st: seq<string>, absolute: bool) {
    && (forall i :: 0 <= i < |st| ==> IsName(st[i]))
    && (forall i, j :: 0 <= i < j < |st| && st[j] == ".." ==> st[i] == "..")
    && (absolute ==> forall i :: 0 <= i < |st| ==> st[i] != "..")
  }

  /** One segment applied to the segments kept so far. */
  function Step(st: seq<string>, seg: string, absolute: bool): seq<string> {
    if seg == "" || seg == "." then st
    else if seg == ".." then
      if st != [] && st[|st| - 1] != ".." then st[..|st| - 1]
      else if absolute then st
      else st + [".."]
    else st + [seg]
  }

  /** The segments left after applying `segs` one by one, left to right. */
  function Resolve(st: seq<string>, segs: seq<string>, absolute: bool): seq<string>
    decreases |segs|
  {
    if segs == [] then st else Resolve(Step(st, segs[0], absolute), segs[1..], absolute)
  }

  /** `Path(os.path.normpath(p)).as_posix()`: never empty, and rooted
      exactly when the path is. */
  function Normalize(p: string): (r: string)
    ensures r != []
    ensures r[0] == '/' <==> ToSlashes(p) != [] && ToSlashes(p)[0] == '/'
  {
    var q := ToSlashes(p);
    var absolute := q != [] && q[0] == '/';
    var st := Resolve([], Split(q, '/'), absolute);
    var body := Join(st, '/');
    if absolute then "/" + body
    else if body == "" then "."
    else
      SplitWithoutBackslash(q);
      ResolveIsClean([], Split(q, '/'), absolute);
      JoinStartsWithFirst(st, '/');
      body
  }

  /** `_clean_paths`: every path normalised, order kept. */
  function CleanPaths(paths: seq<string>): (r: seq<string>)
    ensures |r| == |paths|
    ensures forall i :: 0 <= i < |r| ==> r[i] == Normalize(paths[i])
  {
    if paths == [] then [] else [Normalize(paths[0])] + CleanPaths(paths[1..])
  }

  // ---------------------------------------------------------------------
  // Properties
  // ---------------------------------------------------------------------

  lemma StepKeepsClean(st: seq<string>, seg: string, absolute: bool)
    requires IsClean(st, absolute) && '/' !in seg && '\\' !in seg
    ensures IsClean(Step(st, seg, absolute), absolute)
  {
    var r := Step(st, seg, absolute);
    if seg == ".." && !(st != [] && st[|st| - 1] != "..") && !absolute {
      assert forall i :: 0 <= i < |st| ==> st[i] == "..";
    }
  }

  lemma {:induction false} ResolveIsClean(st: seq<string>, segs: seq<string>, absolute: bool)
    requires IsClean(st, absolute)
    requires forall i :: 0 <= i < |segs| ==> '/' !in segs[i] && '\\' !in segs[i]
    ensures IsClean(Resolve(st, segs, absolute), absolute)
    decreases |segs|
  {
    if segs != [] {
      StepKeepsClean(st, segs[0], absolute);
      ResolveIsClean(Step(st, segs[0], absolute), segs[1..], absolute);
    }
  }

  /** Segments that are already clean are kept as they are. */
  lemma {:induction false} ResolveClean(st: seq<string>, segs: seq<string>, absolute: bool)
    requires IsClean(st + segs, absolute)
    ensures Resolve(st, segs, absolute) == st + segs
    decreases |segs|
  {
    if segs != [] {
      var all := st + segs;
      assert all[|st|] == segs[0];
      if segs[0] == ".." && st != [] {
        assert all[|st| - 1] == st[|st| - 1];
      }
      assert Step(st, segs[0], absolute) == st + [segs[0]];
      assert st + [segs[0]] + segs[1..] == all;
      ResolveClean(st + [segs[0]], segs[1..], absolute);
    }
  }

  lemma {:induction false} NoCharInJoin(parts: seq<string>, sep: char, c: char)
    requires c != sep
    requires forall i :: 0 <= i < |parts| ==> c !in parts[i]
    ensures c !in Join(parts, sep)
  {
    if |parts| > 1 {
      NoCharInJoin(parts[1..], sep, c);
    }
  }

  lemma {:induction false} JoinStartsWithFirst(parts: seq<string>, sep: char)
    requires |parts| >= 1 && parts[0] != []
    ensures Join(parts, sep) != [] && Join(parts, sep)[0] == parts[0][0]
  {
  }

  lemma ToSlashesFixed(p: string)
    requires '\\' !in p
    ensures ToSlashes(p) == p
  {
  }

  lemma {:induction false} SplitWithoutBackslash(q: string)
    requires '\\' !in q
    ensures forall i :: 0 <= i < |Split(q, '/')| ==> '/' !in Split(q, '/')[i] && '\\' !in Split(q, '/')[i]
  {
    JoinSplit(q, '/');
    if q != [] {
      SplitWithoutBackslash(q[1..]);
    }
  }

  /** The result is clean: written with '/', rooted exactly when the input
      is, and made of clean segments. */
  lemma NormalizeShape(p: string)
    ensures '\\' !in Normalize(p)
    ensures var q := ToSlashes(p);
            var absolute := q != [] && q[0] == '/';
            IsClean(Resolve([], Split(q, '/'), absolute), absolute)
  {
    var q := ToSlashes(p);
    var absolute := q != [] && q[0] == '/';
    SplitWithoutBackslash(q);
    ResolveIsClean([], Split(q, '/'), absolute);
    NoCharInJoin(Resolve([], Split(q, '/'), absolute), '/', '\\');
  }

  /** A rooted clean path is its own normal form. */
  lemma NormalizeRooted(st: seq<string>)
    requires IsClean(st, true)
    ensures Normalize("/" + Join(st, '/')) == "/" + Join(st, '/')
  {
    var body := Join(st, '/');
    var n := "/" + body;
    NoCharInJoin(st, '/', '\\');
    ToSlashesFixed(n);
    assert n[1..] == body;
    assert Split(n, '/') == [""] + Split(body, '/');
    assert Step([], "", true) == [];
    if st == [] {
      assert Split(body, '/') == [""];
      assert Resolve([], [""], true) == [];
    } else {
      SplitJoin(st, '/');
      ResolveClean([], st, true);
      assert [] + st == st;
      assert ([""] + st)[1..] == st;
    }
  }

  /** A relative clean path with at least one segment is its own normal form. */
  lemma NormalizeRelative(st: seq<string>)
    requires IsClean(st, false) && st != []
    ensures Normalize(Join(st, '/')) == Join(st, '/')
  {
    var body := Join(st, '/');
    NoCharInJoin(st, '/', '\\');
    ToSlashesFixed(body);
    JoinStartsWithFirst(st, '/');
    SplitJoin(st, '/');
    ResolveClean([], st, false);
    assert [] + st == st;
  }

  /** Normalising twice is normalising once, so paths compare equal in the
      consolidator exactly when their normal forms do. */
  lemma NormalizeIdempotent(p: string)
    ensures Normalize(Normalize(p)) == Normalize(p)
  {
    var q := ToSlashes(p);
    var absolute := q != [] && q[0] == '/';
    var st := Resolve([], Split(q, '/'), absolute);
    NormalizeShape(p);
    if absolute {
      NormalizeRooted(st);
    } else if st == [] {
      assert Normalize(p) == ".";
      SplitNoSeparator(".", '/');
      assert Normalize(".") == ".";
    } else {
      NormalizeRelative(st);
    }
  }

  /** Paths that differ only in the separator they use clean to the same value. */
  lemma NormalizeIgnoresSeparator(p: string, p': string)
    requires ToSlashes(p) == ToSlashes(p')
    ensures Normalize(p) == Normalize(p')
  {
  }

  /** "a/b" and "a\\b" clean to the same include path. */
  lemma CleanExample()
    ensures Normalize("a\\b") == "a/b" && Normalize("a/b") == "a/b"
  {
    assert ToSlashes("a\\b") == "a/b";
    assert ToSlashes("a/b") == "a/b";
    SplitNoSeparator("b", '/');
    SplitAfterPiece("a", "b", '/');
    assert "a" + ['/'] + "b" == "a/b";
    assert Resolve([], ["a", "b"], false) == ["a", "b"];
    assert Join(["a", "b"], '/') == "a/b";
  }

  /** A path separator on the hosts the IDE runs on. */
  predicate IsSeparator(c: char) {
    c == '/' || c == '\\'
  }

  /** Where the last segment of a path starts: just after its last
      separator, or at 0 when it has none. */
  function SegmentStart(p: string): (k: nat)
    ensures k <= |p|
    ensures k > 0 ==> IsSeparator(p[k - 1])
    ensures forall i :: k <= i < |p| ==> !IsSeparator(p[i])
  {
    if p == [] then 0
    else if IsSeparator(p[|p| - 1]) then |p|
    else
      var init := p[..|p| - 1];
      assert forall i :: 0 <= i < |init| ==> init[i] == p[i];
      SegmentStart(init)
  }

  /** `os.path.basename`: the part after the last separator. */
  function BaseName(p: string): (r: string)
  {
    if p == [] || IsSeparator(p[|p| - 1]) then []
    else BaseName(p[..|p| - 1]) + [p[|p| - 1]]
  }

  /** The base name is the path from the start of its last segment: it holds
      no separator, and is preceded by one unless it is the whole path. */
  lemma {:induction false} BaseNameIsLastSegment(p: string)
    ensures BaseName(p) == p[SegmentStart(p)..]
  {
    if p != [] && !IsSeparator(p[|p| - 1]) {
      var init := p[..|p| - 1];
      BaseNameIsLastSegment(init);
      assert p[SegmentStart(init)..] == init[SegmentStart(init)..] + [p[|p| - 1]];
    }
  }

  /** "d/f" and "d\\f" both name "f"; "f" names itself. */
  lemma BaseNameExample()
    ensures BaseName("d/f") == "f" && BaseName("d\\f") == "f" && BaseName("f") == "f"
  {
    BaseNameAfterSeparator("d", '/', 'f');
    assert "d/f" == "d" + ['/', 'f'];
    BaseNameAfterSeparator("d", '\\', 'f');
    assert "d\\f" == "d" + ['\\', 'f'];
    assert "f"[..0] == [];
    assert BaseName("f") == BaseName([]) + "f";
  }

  /** A one-character name after a separator is the base name. */
  lemma BaseNameAfterSeparator(d: string, sep: char, c: char)
    requires IsSeparator(sep) && !IsSeparator(c)
    ensures BaseName(d + [sep, c]) == [c]
  {
    var p := d + [sep, c];
    assert p[..|p| - 1] == d + [sep];
    assert (d + [sep])[|d + [sep]| - 1] == sep;
  }
}
