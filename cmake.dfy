/** The consolidator (`CMake`): five insertion-ordered lists of records,
    filled from the build settings of both languages and from the project's
    files, then flagged as common or language-specific and rendered as the
    text of a CMake include file. */
module CMakeFile {
  import opened Types
  import opened Paths
  import opened Records
  import opened Render

  // ---------------------------------------------------------------------
  // check_common, on values
  // ---------------------------------------------------------------------

  /** The languages attributed to at least one record of the list. */
  function LanguagesOf(lst: seq<StringRec>): set<Language>
  {
    if lst == [] then {}
    else LanguagesOf(lst[..|lst| - 1]) + lst[|lst| - 1].languages
  }

  /** A language is in `LanguagesOf(lst)` exactly when some record has it. */
  lemma {:induction false} LanguagesOfMembers(lst: seq<StringRec>)
    ensures forall l :: l in LanguagesOf(lst) <==> exists i :: 0 <= i < |lst| && l in lst[i].languages
  {
    if lst != [] {
      var init := lst[..|lst| - 1];
      LanguagesOfMembers(init);
      forall l ensures l in LanguagesOf(lst) <==> exists i :: 0 <= i < |lst| && l in lst[i].languages {
        if l in LanguagesOf(init) {
          var i :| 0 <= i < |init| && l in init[i].languages;
          assert init[i] == lst[i];
        }
        if exists i :: 0 <= i < |lst| && l in lst[i].languages {
          var i :| 0 <= i < |lst| && l in lst[i].languages;
          if i < |init| {
            assert init[i] == lst[i];
          }
        }
      }
    }
  }

  /** The languages `check_common` returns: those used by any include path,
      definition, un-definition or source file. Other files do not count. */
  function UsedLanguages(includePaths: seq<StringRec>, defines: seq<StringRec>, undefines: seq<StringRec>,
                         sourceFiles: seq<StringRec>): set<Language>
  {
    LanguagesOf(includePaths) + LanguagesOf(defines) + LanguagesOf(undefines) + LanguagesOf(sourceFiles)
  }

  /** Every record's common flag set to whether its languages are exactly `langs`. */
  function MarkCommon(lst: seq<StringRec>, langs: set<Language>): (r: seq<StringRec>)
    ensures |r| == |lst|
    ensures forall i :: 0 <= i < |r| ==> r[i] == lst[i].(common := lst[i].languages == langs)
  {
    seq(|lst|, i requires 0 <= i < |lst| => lst[i].(common := lst[i].languages == langs))
  }

  /** `for prop in props: for lang in prop.languages`: the languages of a
      list joined into `acc`. */
  method CollectLanguages(lst: seq<StringRec>, acc: set<Language>) returns (r: set<Language>)
    ensures r == acc + LanguagesOf(lst)
  {
    r := acc;
    for k := 0 to |lst|
      invariant r == acc + LanguagesOf(lst[..k])
    {
      assert lst[..k + 1][..k] == lst[..k];
      r := r + lst[k].languages;
    }
    assert lst[..|lst|] == lst;
  }

  /** `for prop in props: prop.common = (prop.languages == languages)`. */
  method SetCommon(lst: seq<StringRec>, langs: set<Language>) returns (r: seq<StringRec>)
    ensures r == MarkCommon(lst, langs)
    ensures Values(r) == Values(lst)
  {
    MarkKeepsValues(lst, langs);
    r := lst;
    for k := 0 to |lst|
      invariant |r| == |lst|
      invariant forall i :: 0 <= i < k ==> r[i] == lst[i].(common := lst[i].languages == langs)
      invariant forall i :: k <= i < |lst| ==> r[i] == lst[i]
    {
      r := r[k := r[k].(common := r[k].languages == langs)];
    }
  }

  /** The two loops of `check_common` over the four language-bearing lists:
      the used languages collected, then every record flagged. */
  method MarkLists(includePaths: seq<StringRec>, defines: seq<StringRec>, undefines: seq<StringRec>,
                   sourceFiles: seq<StringRec>)
    returns (languages: set<Language>, ip: seq<StringRec>, ds: seq<StringRec>, us: seq<StringRec>, sf: seq<StringRec>)
    ensures languages == UsedLanguages(includePaths, defines, undefines, sourceFiles)
    ensures ip == MarkCommon(includePaths, languages) && Values(ip) == Values(includePaths)
    ensures ds == MarkCommon(defines, languages) && Values(ds) == Values(defines)
    ensures us == MarkCommon(undefines, languages) && Values(us) == Values(undefines)
    ensures sf == MarkCommon(sourceFiles, languages) && Values(sf) == Values(sourceFiles)
  {
    languages := CollectLanguages(includePaths, {});
    languages := CollectLanguages(defines, languages);
    languages := CollectLanguages(undefines, languages);
    languages := CollectLanguages(sourceFiles, languages);
    ip := SetCommon(includePaths, languages);
    ds := SetCommon(defines, languages);
    us := SetCommon(undefines, languages);
    sf := SetCommon(sourceFiles, languages);
  }

  /** One section of `__str__`: the blocks of its buckets (COMMON, then one
      per language) rendered in turn and joined by a blank line. */
  method RenderSection(ps: PropSet, recs: seq<StringRec>, langs: seq<Language>) returns (t: string)
    ensures t == PropertyText(ps, recs, langs)
  {
    var ssStr := RenderBlocks(SectionBlocks(ps, recs, langs));
    t := JoinWith(ssStr, "\n\n");
  }

  /** The loop over the buckets: `_add_section_files` called for each block. */
  method RenderBlocks(bs: seq<Block>) returns (ssStr: seq<string>)
    ensures ssStr == BlockTexts(bs)
  {
    ssStr := [];
    for k := 0 to |bs|
      invariant |ssStr| == k
      invariant forall j :: 0 <= j < k ==> ssStr[j] == BlockText(bs[j])
    {
      var block := AddSectionFiles(bs[k].title, bs[k].varName, bs[k].entries, bs[k].prefix);
      ssStr := ssStr + [block];
    }
  }

  /** The list `__str__` joins: the banner, one text per section and the
      block of other files. */
  method RenderParts(defines: seq<StringRec>, undefines: seq<StringRec>, includePaths: seq<StringRec>,
                     sourceFiles: seq<StringRec>, otherFiles: seq<StringRec>, used: set<Language>)
    returns (retStr: seq<string>)
    ensures retStr == FileParts(defines, undefines, includePaths, sourceFiles, otherFiles, used)
  {
    var langs := SortedLanguages(used);
    var lists := [defines, undefines, includePaths, sourceFiles];
    retStr := [HeaderAsWritten];
    for j := 0 to 4
      invariant |retStr| == j + 1 && retStr[0] == HeaderAsWritten
      invariant forall m :: 0 <= m < j ==> retStr[m + 1] == PropertyText(PropSets[m], lists[m], langs)
    {
      var t := RenderSection(PropSets[j], lists[j], langs);
      retStr := retStr + [t];
    }
    var other := AddSectionFiles("Other files", "OTHER_FILES", otherFiles, "");
    retStr := retStr + [other];
    FilePartsAt(defines, undefines, includePaths, sourceFiles, otherFiles, used);
  }

  /** The parts of the file one by one. */
  lemma FilePartsAt(defines: seq<StringRec>, undefines: seq<StringRec>, includePaths: seq<StringRec>,
                    sourceFiles: seq<StringRec>, otherFiles: seq<StringRec>, used: set<Language>)
    ensures var ps := FileParts(defines, undefines, includePaths, sourceFiles, otherFiles, used);
      var lists := [defines, undefines, includePaths, sourceFiles];
      && ps[0] == HeaderAsWritten && ps[5] == BlockText(OtherBlock(otherFiles))
      && forall m :: 0 <= m < 4 ==> ps[m + 1] == PropertyText(PropSets[m], lists[m], SortedLanguages(used))
  {
  }

  // ---------------------------------------------------------------------
  // Properties of check_common
  // ---------------------------------------------------------------------

  lemma MarkKeepsValues(lst: seq<StringRec>, langs: set<Language>)
    ensures Values(MarkCommon(lst, langs)) == Values(lst)
  {
  }

  lemma MarkKeepsLanguages(lst: seq<StringRec>, langs: set<Language>)
    ensures LanguagesOf(MarkCommon(lst, langs)) == LanguagesOf(lst)
  {
    var m := MarkCommon(lst, langs);
    LanguagesOfMembers(m);
    LanguagesOfMembers(lst);
    forall l ensures l in LanguagesOf(m) <==> l in LanguagesOf(lst) {
      if l in LanguagesOf(lst) {
        var i :| 0 <= i < |lst| && l in lst[i].languages;
        assert l in m[i].languages;
      }
    }
  }

  /** Calling `check_common` a second time, with no value added in between,
      returns the same languages and leaves every flag as the first call set it. */
  lemma CheckCommonIdempotent(includePaths: seq<StringRec>, defines: seq<StringRec>, undefines: seq<StringRec>,
                              sourceFiles: seq<StringRec>)
    ensures var u := UsedLanguages(includePaths, defines, undefines, sourceFiles);
      var i1, d1, n1, s1 := MarkCommon(includePaths, u), MarkCommon(defines, u), MarkCommon(undefines, u), MarkCommon(sourceFiles, u);
      && UsedLanguages(i1, d1, n1, s1) == u
      && MarkCommon(i1, u) == i1 && MarkCommon(d1, u) == d1 && MarkCommon(n1, u) == n1 && MarkCommon(s1, u) == s1
  {
    var u := UsedLanguages(includePaths, defines, undefines, sourceFiles);
    MarkKeepsLanguages(includePaths, u);
    MarkKeepsLanguages(defines, u);
    MarkKeepsLanguages(undefines, u);
    MarkKeepsLanguages(sourceFiles, u);
  }

  /** Every record of the four lists is attributed only to used languages. */
  lemma LanguagesAreUsed(includePaths: seq<StringRec>, defines: seq<StringRec>, undefines: seq<StringRec>,
                         sourceFiles: seq<StringRec>, i: nat)
    ensures var u := UsedLanguages(includePaths, defines, undefines, sourceFiles);
      && (i < |includePaths| ==> includePaths[i].languages <= u)
      && (i < |defines| ==> defines[i].languages <= u)
      && (i < |undefines| ==> undefines[i].languages <= u)
      && (i < |sourceFiles| ==> sourceFiles[i].languages <= u)
  {
    LanguagesOfMembers(includePaths);
    LanguagesOfMembers(defines);
    LanguagesOfMembers(undefines);
    LanguagesOfMembers(sourceFiles);
  }

  /** After the marking, a record is common exactly when it is attributed to
      every used language (its languages being among the used ones). */
  lemma CommonExactlyWhenEveryLanguage(lst: seq<StringRec>, u: set<Language>, i: nat)
    requires LanguagesOf(lst) <= u && i < |lst|
    ensures MarkCommon(lst, u)[i].common <==> forall l :: l in u ==> l in lst[i].languages
  {
    LanguagesOfMembers(lst);
    assert lst[i].languages <= u;
  }

  /** What the reader of the file sees of a list after the marking: a record
      is listed in some block of its section exactly when it has a language
      or no language is used at all. A record without a language next to
      records with languages is listed nowhere. */
  lemma ShownExactlyWhen(lst: seq<StringRec>, u: set<Language>, ps: PropSet, i: nat)
    requires LanguagesOf(lst) <= u && i < |lst|
    ensures var recs := MarkCommon(lst, u);
      var bs := SectionBlocks(ps, recs, SortedLanguages(u));
      (exists k :: 0 <= k < |bs| && recs[i] in bs[k].entries) <==> lst[i].languages != {} || u == {}
  {
    var recs := MarkCommon(lst, u);
    assert recs[i] in recs;
    LanguagesOfMembers(lst);
    assert lst[i].languages <= u;
    SortedLanguagesSorted(u);
    MarkedShown(recs, SortedLanguages(u), ps, recs[i], u);
  }

  /** A marked record among the languages `u`, sorted into `langs`, is
      listed in some block exactly when it has a language or `u` is empty. */
  lemma MarkedShown(recs: seq<StringRec>, langs: seq<Language>, ps: PropSet, rec: StringRec, u: set<Language>)
    requires rec in recs && rec.languages <= u && (rec.common <==> rec.languages == u)
    requires forall l :: l in langs <==> l in u
    ensures var bs := SectionBlocks(ps, recs, langs);
      (exists k :: 0 <= k < |bs| && rec in bs[k].entries) <==> rec.languages != {} || u == {}
  {
    var bs := SectionBlocks(ps, recs, langs);
    BlockMembership(recs, langs, ps, rec);
    if rec.languages != {} || u == {} {
      if rec.common {
        assert rec in bs[0].entries;
      } else {
        var l :| l in rec.languages;
        assert l in langs;
        var j :| 0 <= j < |langs| && langs[j] == l;
        assert rec in bs[j + 1].entries;
      }
    } else {
      forall k | 0 <= k < |bs|
        ensures rec !in bs[k].entries
      {
        if k > 0 {
          assert langs[k - 1] !in rec.languages;
        }
      }
    }
  }

  // ---------------------------------------------------------------------
  // The consolidator
  // ---------------------------------------------------------------------

  /** The records of every list of other files: no language and never common. */
  ghost predicate NoLanguages(lst: seq<StringRec>) {
    forall i :: 0 <= i < |lst| ==> lst[i].languages == {} && !lst[i].common
  }

  /** A batch without languages keeps a list without languages so. */
  lemma AddAllNoLanguages(lst: seq<StringRec>, vs: seq<string>, comment: Option<string>)
    requires Unique(Values(lst)) && NoLanguages(lst)
    ensures NoLanguages(AddAll(lst, vs, {}, comment))
  {
    AddAllOutcome(lst, vs, {}, comment);
  }

  class CMake {
    var includePaths: seq<StringRec>
    var defines: seq<StringRec>
    var undefines: seq<StringRec>
    var sourceFilePaths: seq<StringRec>
    var otherFilePaths: seq<StringRec>

    /** No list names a value twice, and other files carry no language. */
    ghost predicate Valid()
      reads this
    {
      && Unique(Values(includePaths)) && Unique(Values(defines)) && Unique(Values(undefines))
      && Unique(Values(sourceFilePaths)) && Unique(Values(otherFilePaths))
      && NoLanguages(otherFilePaths)
    }

    constructor()
      ensures Valid()
      ensures includePaths == [] && defines == [] && undefines == [] && sourceFilePaths == [] && otherFilePaths == []
    {
      includePaths := [];
      defines := [];
      undefines := [];
      sourceFilePaths := [];
      otherFilePaths := [];
    }

    /** `add_include_paths`: the cleaned paths added for `languages`. */
    method AddIncludePaths(paths: seq<string>, languages: set<Language>, comment: Option<string>)
      requires Valid()
      modifies this
      ensures Valid()
      ensures includePaths == AddAll(old(includePaths), CleanPaths(paths), languages, comment)
      ensures defines == old(defines) && undefines == old(undefines)
      ensures sourceFilePaths == old(sourceFilePaths) && otherFilePaths == old(otherFilePaths)
    {
      AddAllUnique(includePaths, CleanPaths(paths), languages, comment);
      includePaths := AddValues(includePaths, CleanPaths(paths), languages, comment);
    }

    /** `add_defines`: the definitions added as given. */
    method AddDefines(values: seq<string>, languages: set<Language>, comment: Option<string>)
      requires Valid()
      modifies this
      ensures Valid()
      ensures defines == AddAll(old(defines), values, languages, comment)
      ensures includePaths == old(includePaths) && undefines == old(undefines)
      ensures sourceFilePaths == old(sourceFilePaths) && otherFilePaths == old(otherFilePaths)
    {
      AddAllUnique(defines, values, languages, comment);
      defines := AddValues(defines, values, languages, comment);
    }

    /** `add_undefines`: the un-definitions added as given. */
    method AddUndefines(values: seq<string>, languages: set<Language>, comment: Option<string>)
      requires Valid()
      modifies this
      ensures Valid()
      ensures undefines == AddAll(old(undefines), values, languages, comment)
      ensures includePaths == old(includePaths) && defines == old(defines)
      ensures sourceFilePaths == old(sourceFilePaths) && otherFilePaths == old(otherFilePaths)
    {
      AddAllUnique(undefines, values, languages, comment);
      undefines := AddValues(undefines, values, languages, comment);
    }

    /** `add_source_files`: the cleaned paths go to the source files when a
        language is given and to the other files otherwise. */
    method AddSourceFiles(paths: seq<string>, languages: set<Language>, comment: Option<string>)
      requires Valid()
      modifies this
      ensures Valid()
      ensures languages != {} ==> sourceFilePaths == AddAll(old(sourceFilePaths), CleanPaths(paths), languages, comment)
                                  && otherFilePaths == old(otherFilePaths)
      ensures languages == {} ==> otherFilePaths == AddAll(old(otherFilePaths), CleanPaths(paths), languages, comment)
                                  && sourceFilePaths == old(sourceFilePaths)
      ensures includePaths == old(includePaths) && defines == old(defines) && undefines == old(undefines)
    {
      var cleaned := CleanPaths(paths);
      if languages != {} {
        AddAllUnique(sourceFilePaths, cleaned, languages, comment);
        sourceFilePaths := AddValues(sourceFilePaths, cleaned, languages, comment);
      } else {
        AddAllUnique(otherFilePaths, cleaned, languages, comment);
        AddAllNoLanguages(otherFilePaths, cleaned, comment);
        otherFilePaths := AddValues(otherFilePaths, cleaned, languages, comment);
      }
    }

    /** `add_other_files`: `add_source_files` without a language. */
    method AddOtherFiles(paths: seq<string>, comment: Option<string>)
      requires Valid()
      modifies this
      ensures Valid()
      ensures otherFilePaths == AddAll(old(otherFilePaths), CleanPaths(paths), {}, comment)
      ensures includePaths == old(includePaths) && defines == old(defines) && undefines == old(undefines)
      ensures sourceFilePaths == old(sourceFilePaths)
    {
      AddSourceFiles(paths, {}, comment);
    }

    /** `check_common`: the used languages, with every record of the four
        language-bearing lists flagged common exactly when its languages are
        all of them. */
    method CheckCommon() returns (languages: set<Language>)
      requires Valid()
      modifies this
      ensures Valid()
      ensures languages == UsedLanguages(old(includePaths), old(defines), old(undefines), old(sourceFilePaths))
      ensures includePaths == MarkCommon(old(includePaths), languages)
      ensures defines == MarkCommon(old(defines), languages)
      ensures undefines == MarkCommon(old(undefines), languages)
      ensures sourceFilePaths == MarkCommon(old(sourceFilePaths), languages)
      ensures otherFilePaths == old(otherFilePaths)
    {
      var ip, ds, us, sf;
      languages, ip, ds, us, sf := MarkLists(includePaths, defines, undefines, sourceFilePaths);
      includePaths, defines, undefines, sourceFilePaths := ip, ds, us, sf;
    }

    /** `__str__`: flags the common records, then writes the banner, the
        four sections and the block of other files. */
    method ToString() returns (s: string)
      requires Valid()
      modifies this
      ensures Valid()
      ensures var used := UsedLanguages(old(includePaths), old(defines), old(undefines), old(sourceFilePaths));
        && includePaths == MarkCommon(old(includePaths), used)
        && defines == MarkCommon(old(defines), used)
        && undefines == MarkCommon(old(undefines), used)
        && sourceFilePaths == MarkCommon(old(sourceFilePaths), used)
        && otherFilePaths == old(otherFilePaths)
        && s == FileText(defines, undefines, includePaths, sourceFilePaths, otherFilePaths, used)
    {
      var used := CheckCommon();
      var retStr := RenderParts(defines, undefines, includePaths, sourceFilePaths, otherFilePaths, used);
      s := JoinWith(retStr, "\n\n\n");
    }
  }
}
