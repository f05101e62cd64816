/** The text of the generated CMake file (`CMake.__str__`): a header, then
    for definitions, un-definitions, include directories and source files
    one section each, made of a COMMON block followed by one block per used
    language, and finally the block of other files. */
module Render {
  import opened Types
  import opened Records

  // ---------------------------------------------------------------------
  // Buckets: which records a block lists
  // ---------------------------------------------------------------------

  /** A block lists the common records, or the records specific to one language. */
  datatype Bucket = Common | Specific(lang: Language)

  /** The filter of a bucket: common records for COMMON, and for a language
      the records that are not common and are attributed to it. */
  predicate InBucket(rec: StringRec, b: Bucket) {
    match b
    case Common => rec.common
    case Specific(lang) => !rec.common && lang in rec.languages
  }

  /** `filter(filter_fun, props)`: the records of the bucket, in list order. */
  function Filter(recs: seq<StringRec>, b: Bucket): (r: seq<StringRec>)
    ensures |r| <= |recs|
  {
    if recs == [] then []
    else Filter(recs[..|recs| - 1], b) + (if InBucket(recs[|recs| - 1], b) then [recs[|recs| - 1]] else [])
  }

  /** A block lists exactly the records of the list that fall in its bucket. */
  lemma {:induction false} FilterMembers(recs: seq<StringRec>, b: Bucket)
    ensures forall x :: x in Filter(recs, b) <==> x in recs && InBucket(x, b)
  {
    if recs != [] {
      var init := recs[..|recs| - 1];
      FilterMembers(init, b);
      assert recs == init + [recs[|recs| - 1]];
    }
  }

  /** The positions in `recs` of the records `Filter` keeps. */
  function FilterPositions(recs: seq<StringRec>, b: Bucket): seq<nat> {
    if recs == [] then []
    else FilterPositions(recs[..|recs| - 1], b) + (if InBucket(recs[|recs| - 1], b) then [|recs| - 1] else [])
  }

  /** A block keeps the insertion order of the list: its records sit at
      strictly increasing positions of the list. */
  lemma {:induction false} FilterKeepsOrder(recs: seq<StringRec>, b: Bucket)
    ensures var r := Filter(recs, b); var pos := FilterPositions(recs, b);
      && |pos| == |r|
      && (forall k :: 0 <= k < |pos| ==> pos[k] < |recs| && r[k] == recs[pos[k]])
      && (forall k, m :: 0 <= k < m < |pos| ==> pos[k] < pos[m])
  {
    if recs != [] {
      var init, last := recs[..|recs| - 1], recs[|recs| - 1];
      FilterKeepsOrder(init, b);
      var r, pos := Filter(init, b), FilterPositions(init, b);
      assert forall k :: 0 <= k < |pos| ==> pos[k] < |init| && init[pos[k]] == recs[pos[k]];
      if InBucket(last, b) {
        assert Filter(recs, b) == r + [last];
        assert FilterPositions(recs, b) == pos + [|init|];
      }
    }
  }

  /** The buckets of each section: COMMON, then one per language in the given order. */
  function Buckets(langs: seq<Language>): (bs: seq<Bucket>)
    ensures |bs| == |langs| + 1 && bs[0] == Common
    ensures forall k :: 0 < k < |bs| ==> bs[k] == Specific(langs[k - 1])
  {
    [Common] + seq(|langs|, k requires 0 <= k < |langs| => Specific(langs[k]))
  }

  function BucketTitle(b: Bucket): string {
    match b
    case Common => "Common"
    case Specific(lang) => lang.DisplayName() + " specific"
  }

  function BucketSuffix(b: Bucket): string {
    match b
    case Common => "COMMON"
    case Specific(lang) => lang.Name()
  }

  // ---------------------------------------------------------------------
  // Language order
  // ---------------------------------------------------------------------

  /** Python's ordering of strings: lexicographic by code point. */
  predicate StrLess(a: string, b: string) {
    if a == [] then b != []
    else if b == [] then false
    else if a[0] != b[0] then a[0] < b[0]
    else StrLess(a[1..], b[1..])
  }

  /** `sorted(languages, key=attrgetter('value'))`: the used languages in
      the order of their display names. */
  function SortedLanguages(used: set<Language>): seq<Language> {
    (if Asm in used then [Asm] else []) + (if C in used then [C] else []) + (if Cpp in used then [Cpp] else [])
  }

  /** The sorted languages are exactly the used ones, each once, in
      strictly increasing order of display name ("Assembler" < "C" < "C++"). */
  lemma SortedLanguagesSorted(used: set<Language>)
    ensures var r := SortedLanguages(used);
      && (forall l :: l in r <==> l in used)
      && (forall i, j :: 0 <= i < j < |r| ==> StrLess(r[i].DisplayName(), r[j].DisplayName()))
  {
    var r := SortedLanguages(used);
    forall l: Language
      ensures l in r <==> l in used
    {
      match l
      case Asm =>
      case C =>
      case Cpp =>
    }
    DisplayNameOrder();
    forall i, j | 0 <= i < j < |r|
      ensures StrLess(r[i].DisplayName(), r[j].DisplayName())
    {
      assert r[i] == Asm || (r[i] == C && r[j] == Cpp);
    }
  }

  /** "Assembler" < "C" < "C++". */
  lemma DisplayNameOrder()
    ensures StrLess(Asm.DisplayName(), C.DisplayName())
    ensures StrLess(C.DisplayName(), Cpp.DisplayName())
    ensures StrLess(Asm.DisplayName(), Cpp.DisplayName())
  {
    assert StrLess("Assembler", "C");
    assert "C++"[1..] == "++" && "C"[1..] == [];
    assert StrLess("C", "C++");
    assert StrLess("Assembler", "C++");
  }

  // ---------------------------------------------------------------------
  // Text
  // ---------------------------------------------------------------------

  /** `sep.join(parts)` for a string separator. */
  function JoinWith(parts: seq<string>, sep: string): string {
    if |parts| == 0 then ""
    else if |parts| == 1 then parts[0]
    else parts[0] + sep + JoinWith(parts[1..], sep)
  }

  /** The lines one record contributes to a block: its comment line, if it
      has a comment, then its value with the block's prefix. */
  function EntryText(rec: StringRec, prefix: string): string {
    (if rec.comment.Some? then "\n\t# " + rec.comment.value else "") + "\n\t" + prefix + rec.value
  }

  function EntriesText(recs: seq<StringRec>, prefix: string): string {
    if recs == [] then ""
    else EntriesText(recs[..|recs| - 1], prefix) + EntryText(recs[|recs| - 1], prefix)
  }

  /** The text `_add_section_files` builds for a block. */
  function SectionText(title: string, varName: string, recs: seq<StringRec>, prefix: string): string {
    "# " + title + "\n" + "set(" + varName + EntriesText(recs, prefix) + "\n)"
  }

  /** `_add_section_files`: a `set(...)` block listing the records in order. */
  method AddSectionFiles(title: string, varName: string, values: seq<StringRec>, prefix: string) returns (s: string)
    ensures s == SectionText(title, varName, values, prefix)
  {
    s := "# " + title + "\n" + "set(" + varName;
    ghost var head := s;
    for k := 0 to |values|
      invariant s == head + EntriesText(values[..k], prefix)
    {
      s := AddEntry(s, values[k], prefix);
      EntriesStep(values, k, prefix);
    }
    assert values[..|values|] == values;
    s := s + "\n)";
  }

  /** The body of the loop of `_add_section_files`: the comment line, if
      any, then the value line. */
  method AddEntry(s: string, value: StringRec, prefix: string) returns (s': string)
    ensures s' == s + EntryText(value, prefix)
  {
    s' := s;
    if value.comment.Some? {
      s' := s' + "\n\t# " + value.comment.value;
    }
    s' := s' + "\n\t" + prefix + value.value;
  }

  lemma EntriesStep(values: seq<StringRec>, k: nat, prefix: string)
    requires k < |values|
    ensures EntriesText(values[..k + 1], prefix) == EntriesText(values[..k], prefix) + EntryText(values[k], prefix)
  {
    assert values[..k + 1][..k] == values[..k];
  }

  // ---------------------------------------------------------------------
  // The structure of the file
  // ---------------------------------------------------------------------

  /** One `set(...)` block: its comment, its variable name, the records it
      lists and the prefix written before each value. */
  datatype Block = Block(title: string, varName: string, entries: seq<StringRec>, prefix: string)

  function BlockText(b: Block): string {
    SectionText(b.title, b.varName, b.entries, b.prefix)
  }

  /** The kinds of build property, in the order the file lists them:
      section comment, variable prefix, value prefix. */
  datatype PropSet = PropSet(title: string, varPrefix: string, valuePrefix: string)

  const PropSets: seq<PropSet> := [
    PropSet("definitions", "DEFINES", "-D"),
    PropSet("un-defines", "UNDEFINES", ""),
    PropSet("include directories", "INCLUDE_DIRS", ""),
    PropSet("source files", "SOURCES", "")
  ]

  /** The blocks of one section. */
  function SectionBlocks(ps: PropSet, recs: seq<StringRec>, langs: seq<Language>): (bs: seq<Block>)
    ensures |bs| == |langs| + 1
  {
    var buckets := Buckets(langs);
    seq(|buckets|, k requires 0 <= k < |buckets| =>
      Block(BucketTitle(buckets[k]) + " " + ps.title, ps.varPrefix + "_" + BucketSuffix(buckets[k]),
            Filter(recs, buckets[k]), ps.valuePrefix))
  }

  function OtherBlock(otherFiles: seq<StringRec>): Block {
    Block("Other files", "OTHER_FILES", otherFiles, "")
  }

  function BlockTexts(bs: seq<Block>): (ts: seq<string>)
    ensures |ts| == |bs| && forall k :: 0 <= k < |bs| ==> ts[k] == BlockText(bs[k])
  {
    seq(|bs|, k requires 0 <= k < |bs| => BlockText(bs[k]))
  }

  /** The two literals of the generator's banner. */
  const BannerLine: string := "# Made with CMake <> uVision project file synchronizer"
  const BannerLink: string := "# " + "https://github.com/bojanpotocnik/cmake-uvision-syncer"

  /** The generator's banner, as the code writes it: two adjacent string
      literals with no line break between them. */
  const HeaderAsWritten: string := BannerLine + BannerLink

  /** The banner as its two comment lines were evidently meant to be
      written: the link on a line of its own. */
  const IntendedHeader: string := BannerLine + "\n" + BannerLink

  /** The text of one section: its blocks separated by a blank line. */
  function PropertyText(ps: PropSet, recs: seq<StringRec>, langs: seq<Language>): string {
    JoinWith(BlockTexts(SectionBlocks(ps, recs, langs)), "\n\n")
  }

  /** The parts `__str__` joins with two blank lines: the banner, the four
      sections in the order of `PropSets` and the block of other files. */
  function FileParts(defines: seq<StringRec>, undefines: seq<StringRec>, includePaths: seq<StringRec>,
                     sourceFiles: seq<StringRec>, otherFiles: seq<StringRec>, used: set<Language>): (ps: seq<string>)
    ensures |ps| == 6
  {
    var lists := [defines, undefines, includePaths, sourceFiles];
    var langs := SortedLanguages(used);
    [HeaderAsWritten]
    + seq(4, j requires 0 <= j < 4 => PropertyText(PropSets[j], lists[j], langs))
    + [BlockText(OtherBlock(otherFiles))]
  }

  /** The whole generated file for lists whose common flags are already set. */
  function FileText(defines: seq<StringRec>, undefines: seq<StringRec>, includePaths: seq<StringRec>,
                    sourceFiles: seq<StringRec>, otherFiles: seq<StringRec>, used: set<Language>): string
  {
    JoinWith(FileParts(defines, undefines, includePaths, sourceFiles, otherFiles, used), "\n\n\n")
  }

  // ---------------------------------------------------------------------
  // Properties of the structure
  // ---------------------------------------------------------------------

  /** Section `i` is built from the `i`-th property kind: DEFINES,
      UNDEFINES, INCLUDE_DIRS, SOURCES, in that order; its first block is
      COMMON and block `k > 0` is specific to the `k`-th used language in
      display-name order; only definitions are written with "-D". */
  lemma SectionLayout(defines: seq<StringRec>, undefines: seq<StringRec>, includePaths: seq<StringRec>,
                      sourceFiles: seq<StringRec>, otherFiles: seq<StringRec>, used: set<Language>, i: nat, k: nat)
    requires i < 4 && k <= |SortedLanguages(used)|
    ensures var langs := SortedLanguages(used);
      var lists := [defines, undefines, includePaths, sourceFiles];
      var bs := SectionBlocks(PropSets[i], lists[i], langs);
      var b := if k == 0 then Common else Specific(langs[k - 1]);
      && FileParts(defines, undefines, includePaths, sourceFiles, otherFiles, used)[i + 1] == JoinWith(BlockTexts(bs), "\n\n")
      && |bs| == |langs| + 1
      && bs[k].varName == ["DEFINES", "UNDEFINES", "INCLUDE_DIRS", "SOURCES"][i] + "_" + BucketSuffix(b)
      && bs[k].entries == Filter(lists[i], b)
      && bs[k].prefix == (if i == 0 then "-D" else "")
  {
    var langs := SortedLanguages(used);
    var lists := [defines, undefines, includePaths, sourceFiles];
    assert FileParts(defines, undefines, includePaths, sourceFiles, otherFiles, used)[i + 1]
      == PropertyText(PropSets[i], lists[i], langs);
    var b := if k == 0 then Common else Specific(langs[k - 1]);
    assert Buckets(langs)[k] == b;
    assert PropSets[i].varPrefix == ["DEFINES", "UNDEFINES", "INCLUDE_DIRS", "SOURCES"][i];
  }

  /** A record is listed in the COMMON block of its section exactly when it
      is common, and in the block of a used language exactly when it is not
      common and is attributed to that language. */
  lemma BlockMembership(recs: seq<StringRec>, langs: seq<Language>, ps: PropSet, rec: StringRec)
    requires rec in recs
    ensures var bs := SectionBlocks(ps, recs, langs);
      && (rec in bs[0].entries <==> rec.common)
      && (forall k :: 0 < k < |bs| ==> (rec in bs[k].entries <==> !rec.common && langs[k - 1] in rec.languages))
  {
    var bs := SectionBlocks(ps, recs, langs);
    forall b: Bucket
      ensures rec in Filter(recs, b) <==> InBucket(rec, b)
    {
      FilterMembers(recs, b);
    }
  }

  /** The banner as written runs its second comment on from the end of the
      first, on the same line. */
  lemma HeaderAsWrittenIsOneLine()
    ensures |BannerLine| == 54 && HeaderAsWritten[..54] == BannerLine
    ensures HeaderAsWritten[53] == 'r' && HeaderAsWritten[54] == '#'
  {
    assert |BannerLine| == 54 && BannerLine[53] == 'r' && BannerLink[0] == "# "[0];
    assert HeaderAsWritten[..54] == BannerLine;
  }

  /** The generated file starts with the banner as written, so its first
      comment line runs on into the repository link. */
  lemma FileStartsWithOneLineBanner(defines: seq<StringRec>, undefines: seq<StringRec>, includePaths: seq<StringRec>,
                                    sourceFiles: seq<StringRec>, otherFiles: seq<StringRec>, used: set<Language>)
    ensures var t := FileText(defines, undefines, includePaths, sourceFiles, otherFiles, used);
      && |HeaderAsWritten| <= |t| && t[..|HeaderAsWritten|] == HeaderAsWritten
      && t[53] == 'r' && t[54] == '#'
  {
    var ps := FileParts(defines, undefines, includePaths, sourceFiles, otherFiles, used);
    var t := FileText(defines, undefines, includePaths, sourceFiles, otherFiles, used);
    assert ps[0] == HeaderAsWritten;
    assert t == HeaderAsWritten + "\n\n\n" + JoinWith(ps[1..], "\n\n\n");
    HeaderAsWrittenIsOneLine();
    assert t[54] == HeaderAsWritten[54];
  }

  /** The intended banner ends the first comment line and starts the
      second with a new "# ". */
  lemma HeaderIsTwoCommentLines()
    ensures IntendedHeader[..54] == BannerLine
    ensures IntendedHeader[54] == '\n' && IntendedHeader[55..57] == "# "
  {
    assert |BannerLine| == 54 && BannerLink[..2] == "# ";
    assert IntendedHeader[..54] == BannerLine;
    assert IntendedHeader[55..] == BannerLink;
  }
}
