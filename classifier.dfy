/** The source files of the project, grouped for the CMake file: each file
    of a display group is given a language (or none) from its declared type
    or, for a run-time environment file without a type, from its suffix; the
    files of a group are then yielded language by language, and only the
    first file of each language carries the group's name as a comment. */
module Classifier {
  import opened Types
  import opened Options

  /** What the rule chain decides for one file. */
  datatype Verdict = Keep(lang: Option<Language>) | Skip(warning: Warning)

  /** A kept file with the language it was given. */
  datatype Item = Item(file: FileEntry, lang: Option<Language>)

  /** One yielded triple: the file, its language and the comment before it. */
  datatype Yielded = Yielded(file: FileEntry, lang: Option<Language>, comment: Option<string>)

  predicate EndsWith(s: string, suffix: string) {
    |suffix| <= |s| && s[|s| - |suffix|..] == suffix
  }

  /** The suffixes that give an untyped run-time environment file a language. */
  predicate KnownSuffix(name: string) {
    EndsWith(name, ".s") || EndsWith(name, ".c") || EndsWith(name, ".cpp")
  }

  /** The rule chain, tried in order: declared assembler, C and text types;
      then an untyped run-time environment file by its suffix; anything else
      is skipped with a warning. A declared C++ type is among the skipped. */
  function Classify(f: FileEntry): (v: Verdict)
    ensures v.Keep? <==>
      f.fileType == Some(AsmSource) || f.fileType == Some(CSource) || f.fileType == Some(TextDocument)
      || (f.fileType == None && f.rteFlag && KnownSuffix(f.filename))
    ensures v == Keep(None) <==> f.fileType == Some(TextDocument)
    ensures v.Skip? && f.fileType == None && f.rteFlag ==> v.warning == UnknownRteFile(f.filename)
    ensures v.Skip? && !(f.fileType == None && f.rteFlag) ==> v.warning == UnsupportedFileType(f.filename, f.fileType)
  {
    match f.fileType
    case Some(AsmSource) => Keep(Some(Asm))
    case Some(CSource) => Keep(Some(C))
    case Some(TextDocument) => Keep(None)
    case None =>
      if !f.rteFlag then Skip(UnsupportedFileType(f.filename, None))
      else if EndsWith(f.filename, ".s") then Keep(Some(Asm))
      else if EndsWith(f.filename, ".c") then Keep(Some(C))
      else if EndsWith(f.filename, ".cpp") then Keep(Some(Cpp))
      else Skip(UnknownRteFile(f.filename))
    case Some(t) => Skip(UnsupportedFileType(f.filename, Some(t)))
  }

  /** Only an untyped run-time environment file ending in ".cpp" is C++:
      a declared C++ source is skipped. */
  lemma CppOnlyBySuffix(f: FileEntry)
    ensures Classify(f) == Keep(Some(Cpp)) <==> f.fileType == None && f.rteFlag && EndsWith(f.filename, ".cpp")
  {
    var n := f.filename;
    LastOfSuffix(n, ".cpp");
    LastOfSuffix(n, ".s");
    LastOfSuffix(n, ".c");
  }

  /** A file is assembler exactly when it is declared so or is an untyped
      run-time environment file ending in ".s"; it is C exactly when it is
      declared so or is such a file ending in ".c" (and, tried after ".s",
      not in ".s"). */
  lemma AsmAndCBySuffix(f: FileEntry)
    ensures Classify(f) == Keep(Some(Asm)) <==>
      f.fileType == Some(AsmSource) || (f.fileType == None && f.rteFlag && EndsWith(f.filename, ".s"))
    ensures Classify(f) == Keep(Some(C)) <==>
      f.fileType == Some(CSource)
      || (f.fileType == None && f.rteFlag && !EndsWith(f.filename, ".s") && EndsWith(f.filename, ".c"))
  {
    var n := f.filename;
    LastOfSuffix(n, ".s");
    LastOfSuffix(n, ".c");
  }

  lemma LastOfSuffix(s: string, suffix: string)
    requires suffix != []
    ensures EndsWith(s, suffix) ==> s[|s| - 1] == suffix[|suffix| - 1]
  {
    if EndsWith(s, suffix) {
      assert s[|s| - 1] == s[|s| - |suffix|..][|suffix| - 1];
    }
  }

  /** The comment of a group: its name, prefixed with "RTE" for a run-time
      environment group, whose name starts with a double colon. */
  function GroupComment(g: Group): (c: string)
    ensures g.rteFlag ==> |c| == |g.name| + 3 && c[..3] == "RTE" && c[3..] == g.name
    ensures !g.rteFlag ==> c == g.name
  {
    if g.rteFlag then "RTE" + g.name else g.name
  }

  // ---------------------------------------------------------------------
  // The grouping, as functions
  // ---------------------------------------------------------------------

  /** The kept files of a group, in file order, with their languages. */
  function Kept(files: seq<FileEntry>): seq<Item> {
    if files == [] then []
    else
      var f := files[|files| - 1];
      Kept(files[..|files| - 1]) + (match Classify(f) case Keep(l) => [Item(f, l)] case Skip(_) => [])
  }

  /** The warnings of the skipped files, in file order. */
  function WarningsOf(files: seq<FileEntry>): seq<Warning> {
    if files == [] then []
    else
      var f := files[|files| - 1];
      WarningsOf(files[..|files| - 1]) + (match Classify(f) case Keep(_) => [] case Skip(w) => [w])
  }

  /** The keys of the dictionary of lists: each language in the order of its
      first kept file. */
  function Languages(items: seq<Item>): (keys: seq<Option<Language>>)
    ensures forall a, b :: 0 <= a < b < |keys| ==> keys[a] != keys[b]
  {
    if items == [] then []
    else
      var init := Languages(items[..|items| - 1]);
      var l := items[|items| - 1].lang;
      if l in init then init else init + [l]
  }

  /** The keys are exactly the languages of the kept files. */
  lemma {:induction false} LanguagesMembers(items: seq<Item>)
    ensures forall l :: l in Languages(items) <==> exists i :: 0 <= i < |items| && items[i].lang == l
  {
    if items != [] {
      var init := items[..|items| - 1];
      LanguagesMembers(init);
      assert forall i :: 0 <= i < |init| ==> init[i] == items[i];
    }
  }

  /** The list of one language: its kept files in file order. */
  function Of(items: seq<Item>, l: Option<Language>): seq<FileEntry> {
    if items == [] then []
    else Of(items[..|items| - 1], l) + (if items[|items| - 1].lang == l then [items[|items| - 1].file] else [])
  }

  /** One list yielded, the comment on its first file only. */
  function Emit(fs: seq<FileEntry>, l: Option<Language>, comment: string): seq<Yielded> {
    seq(|fs|, i requires 0 <= i < |fs| => Yielded(fs[i], l, if i == 0 then Some(comment) else None))
  }

  /** The lists of the given keys yielded one after the other. */
  function EmitAll(items: seq<Item>, keys: seq<Option<Language>>, comment: string): seq<Yielded> {
    if keys == [] then []
    else
      var l := keys[|keys| - 1];
      EmitAll(items, keys[..|keys| - 1], comment) + Emit(Of(items, l), l, comment)
  }

  /** What the generator yields for one group. */
  function GroupOutput(g: Group): seq<Yielded> {
    var items := Kept(g.files);
    EmitAll(items, Languages(items), GroupComment(g))
  }

  /** What the generator yields, group after group. */
  function SourceFilesOf(groups: seq<Group>): seq<Yielded> {
    if groups == [] then []
    else SourceFilesOf(groups[..|groups| - 1]) + GroupOutput(groups[|groups| - 1])
  }

  /** The warnings issued while the generator runs, group after group. */
  function SourceWarnings(groups: seq<Group>): seq<Warning> {
    if groups == [] then []
    else SourceWarnings(groups[..|groups| - 1]) + WarningsOf(groups[|groups| - 1].files)
  }

  // ---------------------------------------------------------------------
  // The generator
  // ---------------------------------------------------------------------

  /** The first loop of a group: each kept file appended to the list of
      its language in a dictionary whose keys keep their first-seen order,
      each skipped file warned about. */
  method SortFiles(files: seq<FileEntry>)
    returns (keys: seq<Option<Language>>, lists: map<Option<Language>, seq<FileEntry>>, log: seq<Warning>)
    ensures keys == Languages(Kept(files))
    ensures forall l :: l in lists <==> l in keys
    ensures forall l :: l in lists ==> lists[l] == Of(Kept(files), l)
    ensures log == WarningsOf(files)
  {
    keys, lists, log := [], map[], [];
    for i := 0 to |files|
      invariant keys == Languages(Kept(files[..i]))
      invariant forall l :: l in lists <==> l in keys
      invariant forall l :: l in lists ==> lists[l] == Of(Kept(files[..i]), l)
      invariant log == WarningsOf(files[..i])
    {
      var f := files[i];
      KeptStep(files, i);
      var v := Classify(f);
      if v.Skip? {
        log := log + [v.warning];
      } else {
        keys, lists := Place(Kept(files[..i]), keys, lists, Item(f, v.lang));
      }
    }
    assert files[..|files|] == files;
  }

  /** `files[lang].append(file)` on the `defaultdict(list)`: one kept file
      added to the dictionary, its language becoming the last key if it was
      not one. */
  method Place(items: seq<Item>, keys: seq<Option<Language>>, lists: map<Option<Language>, seq<FileEntry>>, it: Item)
    returns (keys': seq<Option<Language>>, lists': map<Option<Language>, seq<FileEntry>>)
    requires keys == Languages(items)
    requires forall l :: l in lists <==> l in keys
    requires forall l :: l in lists ==> lists[l] == Of(items, l)
    ensures keys' == Languages(items + [it])
    ensures forall l :: l in lists' <==> l in keys'
    ensures forall l :: l in lists' ==> lists'[l] == Of(items + [it], l)
  {
    AppendItem(items, it);
    if it.lang in lists {
      keys', lists' := keys, lists[it.lang := lists[it.lang] + [it.file]];
    } else {
      OfAbsent(items, it.lang);
      keys', lists' := keys + [it.lang], lists[it.lang := [it.file]];
    }
  }

  lemma KeptStep(files: seq<FileEntry>, i: nat)
    requires i < |files|
    ensures var f := files[i];
      Classify(f).Keep? ==>
        Kept(files[..i + 1]) == Kept(files[..i]) + [Item(f, Classify(f).lang)]
        && WarningsOf(files[..i + 1]) == WarningsOf(files[..i])
    ensures var f := files[i];
      Classify(f).Skip? ==>
        Kept(files[..i + 1]) == Kept(files[..i])
        && WarningsOf(files[..i + 1]) == WarningsOf(files[..i]) + [Classify(f).warning]
  {
    assert files[..i + 1][..i] == files[..i];
  }

  lemma AppendItem(items: seq<Item>, it: Item)
    ensures Languages(items + [it]) ==
      if it.lang in Languages(items) then Languages(items) else Languages(items) + [it.lang]
    ensures forall l :: Of(items + [it], l) == Of(items, l) + (if it.lang == l then [it.file] else [])
  {
    assert (items + [it])[..|items|] == items;
  }

  /** The inner loop of the second part: one list yielded, the comment
      dropped after its first file. */
  method EmitList(fs: seq<FileEntry>, l: Option<Language>, comment: string) returns (out: seq<Yielded>)
    ensures out == Emit(fs, l, comment)
  {
    out := [];
    var c: Option<string> := Some(comment);
    for j := 0 to |fs|
      invariant out == Emit(fs[..j], l, comment)
      invariant c == if j == 0 then Some(comment) else None
    {
      out := out + [Yielded(fs[j], l, c)];
      c := None;
    }
    assert fs[..|fs|] == fs;
  }

  /** One group: the files sorted into a dictionary of lists keyed by
      language in first-seen order, then each list yielded with the group
      comment on its first file. */
  method GroupFiles(g: Group) returns (out: seq<Yielded>, log: seq<Warning>)
    ensures out == GroupOutput(g)
    ensures log == WarningsOf(g.files)
  {
    var comment := GroupComment(g);
    var keys, lists;
    keys, lists, log := SortFiles(g.files);
    ghost var items := Kept(g.files);
    out := [];
    for k := 0 to |keys|
      invariant out == EmitAll(items, keys[..k], comment)
    {
      assert keys[k] in lists;
      var part := EmitList(lists[keys[k]], keys[k], comment);
      EmitAllStep(items, keys, k, comment);
      out := out + part;
    }
    assert keys[..|keys|] == keys;
  }

  lemma EmitAllStep(items: seq<Item>, keys: seq<Option<Language>>, k: nat, comment: string)
    requires k < |keys|
    ensures EmitAll(items, keys[..k + 1], comment) == EmitAll(items, keys[..k], comment) + Emit(Of(items, keys[k]), keys[k], comment)
  {
    assert keys[..k + 1][..k] == keys[..k];
  }

  /** `source_files`: every group in turn. */
  method SourceFiles(groups: seq<Group>) returns (out: seq<Yielded>, log: seq<Warning>)
    ensures out == SourceFilesOf(groups)
    ensures log == SourceWarnings(groups)
  {
    out, log := [], [];
    for gi := 0 to |groups|
      invariant out == SourceFilesOf(groups[..gi])
      invariant log == SourceWarnings(groups[..gi])
    {
      var o, w := GroupFiles(groups[gi]);
      out, log := out + o, log + w;
      assert groups[..gi + 1][..gi] == groups[..gi];
    }
    assert groups[..|groups|] == groups;
  }

  // ---------------------------------------------------------------------
  // Properties
  // ---------------------------------------------------------------------

  /** A language no kept file has has an empty list. */
  lemma {:induction false} OfAbsent(items: seq<Item>, l: Option<Language>)
    requires l !in Languages(items)
    ensures Of(items, l) == []
  {
    if items != [] {
      var init := items[..|items| - 1];
      assert forall i :: 0 <= i < |init| ==> init[i] == items[i];
      OfAbsent(init, l);
    }
  }

  /** Every file is either kept or skipped with one warning. */
  lemma {:induction false} KeptOrWarned(files: seq<FileEntry>)
    ensures |Kept(files)| + |WarningsOf(files)| == |files|
  {
    if files != [] {
      KeptOrWarned(files[..|files| - 1]);
    }
  }

  /** Every yielded file has one of the keys as its language. */
  lemma {:induction false} EmitAllLanguages(items: seq<Item>, keys: seq<Option<Language>>, comment: string)
    ensures forall y :: y in EmitAll(items, keys, comment) ==> y.lang in keys
  {
    if keys != [] {
      var init := keys[..|keys| - 1];
      EmitAllLanguages(items, init, comment);
      assert forall l :: l in init ==> l in keys;
    }
  }

  /** No file before position `i` has the language of the file at `i`. */
  predicate FirstOfLanguage(out: seq<Yielded>, i: nat)
    requires i < |out|
  {
    forall j :: 0 <= j < i ==> out[j].lang != out[i].lang
  }

  /** Exactly the first file of each language carries the comment. */
  predicate CommentOnFirst(out: seq<Yielded>, comment: string) {
    forall i :: 0 <= i < |out| ==> out[i].comment == if FirstOfLanguage(out, i) then Some(comment) else None
  }

  /** Yielded with distinct keys, a file carries the comment exactly when it
      is the first yielded file of its language. */
  lemma {:induction false} EmitAllComments(items: seq<Item>, keys: seq<Option<Language>>, comment: string)
    requires forall a, b :: 0 <= a < b < |keys| ==> keys[a] != keys[b]
    ensures CommentOnFirst(EmitAll(items, keys, comment), comment)
  {
    if keys != [] {
      var init, l := keys[..|keys| - 1], keys[|keys| - 1];
      var prefix := EmitAll(items, init, comment);
      var tail := Emit(Of(items, l), l, comment);
      var out := prefix + tail;
      EmitAllComments(items, init, comment);
      EmitAllLanguages(items, init, comment);
      assert l !in init;
      forall y | y in prefix
        ensures y.lang != l
      {
      }
      forall i | 0 <= i < |out|
        ensures out[i].comment == if FirstOfLanguage(out, i) then Some(comment) else None
      {
        if i < |prefix| {
          assert out[i] == prefix[i];
          assert CommentOnFirst(prefix, comment);
          assert prefix[i].comment == if FirstOfLanguage(prefix, i) then Some(comment) else None;
          FirstInPrefix(prefix, tail, i);
        } else {
          var t := i - |prefix|;
          assert out[i] == tail[t];
          assert tail[t].comment == if t == 0 then Some(comment) else None;
          FirstInTail(prefix, tail, l, i);
        }
      }
    }
  }

  lemma FirstInPrefix(prefix: seq<Yielded>, tail: seq<Yielded>, i: nat)
    requires i < |prefix|
    ensures FirstOfLanguage(prefix + tail, i) == FirstOfLanguage(prefix, i)
  {
    var out := prefix + tail;
    assert forall j :: 0 <= j <= i ==> out[j] == prefix[j];
  }

  lemma FirstInTail(prefix: seq<Yielded>, tail: seq<Yielded>, l: Option<Language>, i: nat)
    requires |prefix| <= i < |prefix| + |tail|
    requires forall y :: y in prefix ==> y.lang != l
    requires forall j :: 0 <= j < |tail| ==> tail[j].lang == l
    ensures FirstOfLanguage(prefix + tail, i) <==> i == |prefix|
  {
    var out := prefix + tail;
    assert out[i] == tail[i - |prefix|];
    if i == |prefix| {
      forall j | 0 <= j < i
        ensures out[j].lang != out[i].lang
      {
        assert out[j] == prefix[j];
      }
    } else {
      assert out[|prefix|] == tail[0];
    }
  }

  /** Within a group, only the first yielded file of each language carries
      the group comment, which is "RTE" and the name for a run-time
      environment group and the name otherwise. */
  lemma CommentOnFirstOfLanguage(g: Group)
    ensures CommentOnFirst(GroupOutput(g), GroupComment(g))
  {
    var items := Kept(g.files);
    assert GroupOutput(g) == EmitAll(items, Languages(items), GroupComment(g));
    EmitAllComments(items, Languages(items), GroupComment(g));
  }

  /** The files of one language among a yielded sequence. */
  function Select(out: seq<Yielded>, l: Option<Language>): seq<FileEntry> {
    if out == [] then []
    else Select(out[..|out| - 1], l) + (if out[|out| - 1].lang == l then [out[|out| - 1].file] else [])
  }

  lemma {:induction false} SelectAppend(a: seq<Yielded>, b: seq<Yielded>, l: Option<Language>)
    ensures Select(a + b, l) == Select(a, l) + Select(b, l)
    decreases |b|
  {
    if b != [] {
      var init := b[..|b| - 1];
      assert (a + b)[..|a + b| - 1] == a + init;
      assert (a + b)[|a + b| - 1] == b[|b| - 1];
      SelectAppend(a, init, l);
    } else {
      assert a + b == a;
    }
  }

  lemma {:induction false} SelectEmit(fs: seq<FileEntry>, k: Option<Language>, comment: string, l: Option<Language>)
    ensures Select(Emit(fs, k, comment), l) == if k == l then fs else []
  {
    if fs != [] {
      var init := fs[..|fs| - 1];
      assert Emit(fs, k, comment)[..|fs| - 1] == Emit(init, k, comment);
      SelectEmit(init, k, comment, l);
    }
  }

  lemma {:induction false} SelectEmitAll(items: seq<Item>, keys: seq<Option<Language>>, comment: string, l: Option<Language>)
    requires forall a, b :: 0 <= a < b < |keys| ==> keys[a] != keys[b]
    ensures Select(EmitAll(items, keys, comment), l) == if l in keys then Of(items, l) else []
  {
    if keys != [] {
      var init, k := keys[..|keys| - 1], keys[|keys| - 1];
      SelectEmitAll(items, init, comment, l);
      SelectAppend(EmitAll(items, init, comment), Emit(Of(items, k), k, comment), l);
      SelectEmit(Of(items, k), k, comment, l);
      assert k !in init;
      assert l in keys <==> l in init || l == k;
    }
  }

  /** Within a group, the files yielded with one language are exactly the
      files the rule chain gives that language, in file order; and every
      yielded file is a file of the group yielded with its own language. */
  lemma PerLanguageOrder(g: Group, l: Option<Language>)
    ensures Select(GroupOutput(g), l) == Chosen(g.files, l)
    ensures forall y :: y in GroupOutput(g) ==> y.file in g.files && Classify(y.file) == Keep(y.lang)
  {
    var items := Kept(g.files);
    var keys := Languages(items);
    var out := GroupOutput(g);
    forall k: Option<Language>
      ensures Select(out, k) == Chosen(g.files, k)
    {
      SelectEmitAll(items, keys, GroupComment(g), k);
      if k !in keys {
        OfAbsent(items, k);
      }
      OfKept(g.files, k);
    }
    forall y | y in out
      ensures y.file in g.files && Classify(y.file) == Keep(y.lang)
    {
      SelectHas(out, y);
      ChosenMembers(g.files, y.lang);
    }
  }

  lemma {:induction false} SelectHas(out: seq<Yielded>, y: Yielded)
    requires y in out
    ensures y.file in Select(out, y.lang)
  {
    var init := out[..|out| - 1];
    if out[|out| - 1] != y {
      assert y in init by {
        var i :| 0 <= i < |out| && out[i] == y;
        assert init[i] == y;
      }
      SelectHas(init, y);
    }
  }

  lemma {:induction false} ChosenMembers(files: seq<FileEntry>, l: Option<Language>)
    ensures forall f :: f in Chosen(files, l) ==> f in files && Classify(f) == Keep(l)
  {
    if files != [] {
      var init := files[..|files| - 1];
      ChosenMembers(init, l);
      assert forall f :: f in init ==> f in files;
    }
  }

  /** The kept files of one language are the files the rule chain gives that
      language, in file order. */
  lemma {:induction false} OfKept(files: seq<FileEntry>, l: Option<Language>)
    ensures Of(Kept(files), l) == Chosen(files, l)
  {
    if files != [] {
      var init := files[..|files| - 1];
      var f := files[|files| - 1];
      OfKept(init, l);
      var ext := match Classify(f) case Keep(k) => [Item(f, k)] case Skip(_) => [];
      OfAppend(Kept(init), ext, l);
    }
  }

  /** The files the rule chain gives language `l`, in file order. */
  function Chosen(files: seq<FileEntry>, l: Option<Language>): seq<FileEntry> {
    if files == [] then []
    else Chosen(files[..|files| - 1], l) + (if Classify(files[|files| - 1]) == Keep(l) then [files[|files| - 1]] else [])
  }

  lemma {:induction false} OfAppend(a: seq<Item>, b: seq<Item>, l: Option<Language>)
    ensures Of(a + b, l) == Of(a, l) + Of(b, l)
    decreases |b|
  {
    if b != [] {
      var init := b[..|b| - 1];
      assert (a + b)[..|a + b| - 1] == a + init;
      assert (a + b)[|a + b| - 1] == b[|b| - 1];
      OfAppend(a, init, l);
    } else {
      assert a + b == a;
    }
  }
}
