# cmake-uvision-syncer core, in Dafny

cmake-uvision-syncer reads a uVision project. That is two XML documents: the project file and the project options file. From them it writes a CMake include file. The include file lists the definitions, un-definitions, include directories and source files of the project. Each list is split into values common to every build language and values specific to one language. A last block lists the other files.

This project models the core of that conversion (`main.py`):

- **Field accessors**: `text`, `strict_bool` and `strict_hex`, and the list-valued build fields. The fields MiscControls, Define, Undefine and IncludePath, and the linker's Misc, are read with `str.split` and `str.strip` (module `XmlFields`).
- **Loader fix-ups**: two passes that follow the XML parsing.
  - Every run-time environment (RTE) component is rebound to the first equal package of the package list (module `Packages`, imperative over classes).
  - Every RTE file is merged into the display group of its component class (module `GroupMerge`).
- **`source_files`**: the generator that gives each file of a display group a language, or skips it with a warning. It yields the files language by language and puts the group comment on the first file of each language (module `Classifier`).
- **`CMake` consolidator**: the insertion-ordered lists of `CMake.String` records (module `Records` for `_get` and `_add_values`). Paths are cleaned on the way in (module `Paths`). The class `CMakeFile.CMake` holds the five lists as fields and updates them in place through `add_*` and `check_common`. It renders them through `__str__` (module `Render` for the text).

Methods model the loops of the source. Each method is proved against a function that specifies it. The properties are proved about those functions: round trips, invariants, closed forms, and order and membership facts.

Modelling choices:

- A Python exception becomes an `Err` of `Types.Error`.
- A `warnings.warn` becomes an entry of a returned warning log.
- An XML element is reduced to its attributes and, for each child path, the texts of the elements that path selects (`XmlFields.Element`).

## Model

| member | source | states |
|---|---|---|
| XmlFields.Text | main.py:264-278 | An attribute read fails exactly when the attribute is missing and the read is not nullable. A child read succeeds exactly when the path selects one element, or none for a nullable read. The value is the attribute or the text of that element, and None when a nullable read finds nothing. |
| XmlFields.StrictBool | main.py:281-287 | The result is false exactly when the text is "0" and true exactly when it is "1". Any other text, a missing one included, is an error. An error of the text read is passed on. |
| XmlFields.StrictBoolRoundTrip | main.py:281-287 | A flag written as "0" or "1" reads back as the same flag. |
| XmlFields.StrictHex | main.py:290-294 | Success implies the text starts with "0x" and the rest is a valid base-16 body. A text with "0x" and a valid body is accepted and reads as the value of its digits, underscores dropped and trailing whitespace ignored. A text without "0x" is rejected. A missing text is an error. |
| XmlFields.StrictHexRoundTrip | main.py:290-294 | A number written as "0x" plus its hexadecimal digits reads back as that number. |
| XmlFields.StrictHexReadsDigits | main.py:290-294 | "0x" followed by any hexadecimal digits, in either case and with leading zeros, is accepted and reads as the digits' value. |
| XmlFields.HexValueLeadingZeros | main.py:294 | Leading zeros do not change the value `int(..., 16)` reads. |
| XmlFields.HexValueUpper | main.py:294 | Upper- and lower-case letter digits have the same value. |
| XmlFields.StrictHexSpellings | main.py:290-294 | Every spelling of n as "0x", zeros, then its digits in lower or upper case reads as n. |
| XmlFields.StrictHexAddressExample | main.py:290-294 | "0x08000000" reads as 134217728. |
| XmlFields.StrictHexUnderscoreExample | main.py:290-294 | "0x_1F " reads as 31: an underscore after the prefix and trailing whitespace are accepted. |
| XmlFields.HexValueOfHexDigits | main.py:294 | The value of the hexadecimal digits of n is n. |
| XmlFields.Split | main.py:387 | `str.split` with an explicit separator always yields at least one piece. |
| XmlFields.JoinSplit | main.py:387 | Joining the pieces of a split with the separator gives back the original text, so no character is lost. No piece contains the separator. |
| XmlFields.SplitJoin | main.py:387 | Splitting the join of separator-free pieces gives back those pieces. |
| XmlFields.Strip | main.py:387 | The stripped text neither starts nor ends with whitespace. It is the middle of the input, and everything cut off is whitespace. |
| XmlFields.StripIdempotent | main.py:387 | Stripping twice is stripping once. |
| XmlFields.StripAll | main.py:386-397 | Every piece is stripped, in order, one output per piece. |
| XmlFields.SplitField | main.py:386-413 | The reader of MiscControls, Define, IncludePath and the linker's Misc succeeds exactly when the field has a text. It then yields the stripped pieces of that text. |
| XmlFields.SplitFieldOrEmpty | main.py:393 | The Undefine reader succeeds exactly when the tag lookup does. A missing text counts as "" and gives one empty piece. |
| XmlFields.SplitCount | main.py:386-413 | `str.split(sep)` gives one piece more than the text holds separators. |
| XmlFields.MiscControlsExample | main.py:386-388 | MiscControls splits at commas and each piece is stripped: "a, b" gives "a" and "b". |
| XmlFields.DefineExample | main.py:389-391 | Define splits at spaces: "A B" gives "A" and "B". |
| XmlFields.UndefineExample | main.py:392-394 | Undefine splits at spaces: "U V" gives "U" and "V". |
| XmlFields.IncludePathExample | main.py:395-397 | IncludePath splits at semicolons: "i;j" gives "i" and "j". |
| XmlFields.SplitFieldPieces | main.py:386-413 | A list field has one piece per separator plus one (`XmlFields.SplitCount`). No piece contains the separator or surrounding whitespace. |
| XmlFields.EmptyDefineRaises | main.py:389-394 | A Define element without text makes the reader fail, while the Undefine reader gives [""] for the same element. |
| Paths.CleanPaths | main.py:690-694 | Every path is normalised, the order and the number of paths are kept. |
| Paths.ToSlashes | main.py:694 | Every backslash becomes '/' and nothing else changes. |
| Paths.ResolveIsClean | main.py:694 | Resolving segments keeps the segment list clean: only names, every ".." before every name, no ".." under the root. |
| Paths.Normalize | main.py:694 | A cleaned path is never empty ("." stands for nothing), and it starts with '/' exactly when the path is rooted. |
| Paths.NormalizeShape | main.py:694 | A cleaned path contains no backslash, and its segments are clean. |
| Paths.NormalizeRooted | main.py:694 | A rooted path made of clean segments is its own normal form. |
| Paths.NormalizeRelative | main.py:694 | A relative path made of clean segments is its own normal form. |
| Paths.NormalizeIdempotent | main.py:694 | Cleaning a cleaned path changes nothing. So two paths name the same record exactly when their normal forms are equal. |
| Paths.NormalizeIgnoresSeparator | main.py:694 | Paths that differ only in '/' versus '\' clean to the same value. |
| Paths.CleanExample | main.py:694 | "a\b" and "a/b" both clean to "a/b". |
| Paths.SegmentStart | main.py:583 | The last segment starts after the last separator, and no separator follows it. |
| Paths.BaseNameIsLastSegment | main.py:583 | The base name of an RTE file's instance path is exactly its last segment: the suffix after the last '/' or '\', holding no separator. |
| Paths.BaseNameExample | main.py:583 | "d/f" and "d\f" have base name "f", and "f" is its own base name. |
| Packages.FirstMatch | main.py:519-527 | The position found is that of the first package equal to the component's package (target lists left out). None means no package is equal. |
| Packages.Resolved | main.py:515-527 | The bound package belongs to the list and equals the component's package. Nothing is bound exactly when no package is equal. |
| Packages.ResolveOne | main.py:516-527 | One component ends bound to the first equal package, or to none. Every package of the list gets its target list back. The package object the component was read with is left without a target list. |
| Packages.ResolvePackages | main.py:515-527 | This holds for every component. The packages of the list keep their target lists. |
| GroupMerge.StripColons | main.py:573 | The stripped name neither starts nor ends with a colon. A name without them is unchanged. |
| GroupMerge.StripColonsCutsEnds | main.py:573 | `str.strip(":")` cuts colons only, at the two ends: the result is a middle slice of the name with only colons before and after it. |
| GroupMerge.StopIndexSpec | main.py:569-574 | The search stops at the first RTE group named after the file's component class. When no group matches, it stops at the last group. |
| GroupMerge.ConsistencyWarnings | main.py:570-572 | At most one warning per group searched. |
| GroupMerge.ConsistencyWarningsMembers | main.py:570-572 | A warning is issued exactly for each searched group whose first file does not carry the group's 1-based position, naming the group, that number and the position. |
| GroupMerge.ConsistencyWarningsPrefix | main.py:570-572 | Searching further only appends warnings, so they come in group order. |
| GroupMerge.SearchGroup | main.py:567-574 | The search loop stops at that position. It issues the consistency warnings of every group up to and including that one, in order. |
| GroupMerge.NewEntry | main.py:575-586 | The new entry carries the given group number and file number, the RTE flag and no type. Its path is the instance path and its file name is the last segment of that path. |
| GroupMerge.MergeOne | main.py:566-586 | Merging one file fails on the missing group exactly when there is no group, and in `max` exactly when groups exist but none has a file. Otherwise it succeeds and keeps the number of groups. |
| GroupMerge.MaxInBounds | main.py:577 | The maximum over a group's files is the number of one of them, and no file exceeds it. |
| GroupMerge.MaxNumberNone | main.py:577 | `max` has nothing to work on exactly when no group has a file. |
| GroupMerge.MaxNumberBounds | main.py:577 | The maximum over all groups is some file's number, and no file exceeds it. |
| GroupMerge.MaxNumberIs | main.py:577 | A file number that no other exceeds is the maximum. |
| GroupMerge.MergeRteFiles | main.py:565-586 | The merge loop computes the merge of all the files in order, failures included. |
| GroupMerge.FailurePersists | main.py:565-586 | A failure on one file is the failure of the whole merge. |
| GroupMerge.NoGroupFails | main.py:567-575 | With no display group at all, merging any file fails on the missing group. |
| GroupMerge.NoFileFails | main.py:577 | When groups exist but none has a file, merging any file fails in `max`. |
| GroupMerge.StopIndexSame | main.py:573 | Groups with the same names and RTE flags stop the search at the same place. |
| GroupMerge.AppendedEntries | main.py:575-586 | Every entry a group receives carries the group's 1-based position and the RTE flag, has no type, and is numbered above the old maximum. Every file whose search stops at the group is received. |
| GroupMerge.ConsistencyWarningsClosed | main.py:570-572 | Appending files at the end of groups changes no consistency warning. |
| GroupMerge.MaxNumberClosed | main.py:577 | After k files are merged, the highest number is the old maximum plus k. |
| GroupMerge.MergeOneClosed | main.py:565-586 | Merging the last file into the merged form of the others gives the merged form of all. |
| GroupMerge.MergeAllClosed | main.py:565-586 | With groups present and m the highest number, the merge succeeds. The k-th file is numbered m + k. It goes to the end of the group its search stopped at, with that group's 1-based position. No group changes otherwise. The warnings are those of each search, in file order. |
| Classifier.Classify | main.py:609-628 | The rule chain keeps exactly: declared assembler, C and text files, and untyped RTE files ending in ".s", ".c" or ".cpp". Text files get no language. An untyped RTE file with another suffix draws the unknown-RTE warning. Every other file draws the unsupported-type warning. |
| Classifier.AsmAndCBySuffix | main.py:609-628 | A file is assembler exactly when it is declared so or is an untyped RTE file ending in ".s". It is C exactly when it is declared so or is an untyped RTE file ending in ".c" and not in ".s". |
| Classifier.CppOnlyBySuffix | main.py:609-628 | A file is C++ exactly when it is an untyped RTE file ending in ".cpp". A declared C++ source is skipped. |
| Classifier.GroupComment | main.py:601-604 | An RTE group's comment is "RTE" followed by its name. Any other group's comment is its name. |
| Classifier.Languages | main.py:607-629 | The keys of the dictionary never repeat. |
| Classifier.LanguagesMembers | main.py:607-629 | The keys are exactly the languages of the kept files. |
| Classifier.Place | main.py:629 | `files[lang].append(file)` on the `defaultdict(list)` keeps the dictionary equal to the lists per language in first-seen key order. |
| Classifier.SortFiles | main.py:607-629 | The first loop builds those keys and lists, and the warnings of the skipped files in file order. |
| Classifier.EmitList | main.py:632-635 | One list is yielded in order, with the comment on its first file only. |
| Classifier.GroupFiles | main.py:601-635 | One group yields its lists key after key. It warns about each skipped file. |
| Classifier.SourceFiles | main.py:595-635 | The generator yields the output of each group, group after group, and the warnings in the same order. |
| Classifier.KeptOrWarned | main.py:609-629 | Every file is either kept or skipped with exactly one warning. |
| Classifier.EmitAllLanguages | main.py:631-635 | Every yielded file carries one of the keys as its language. |
| Classifier.EmitAllComments | main.py:631-635 | With distinct keys, a yielded file carries the comment exactly when no earlier yielded file has its language. |
| Classifier.CommentOnFirstOfLanguage | main.py:600-635 | Within a group, exactly the first yielded file of each language carries the group comment. |
| Classifier.PerLanguageOrder | main.py:600-635 | Within a group, the files yielded with one language are exactly the group's files that the rule chain gives that language, in file order. Every yielded file belongs to the group and carries the language the rule chain gives it. |
| Classifier.OfKept | main.py:609-629 | The list of a language holds exactly the kept files of that language, in file order. |
| Classifier.ChosenMembers | main.py:609-629 | Every file chosen for a language belongs to the group and is classified with that language. |
| Records.Find | main.py:668 | `lst.index` finds the first record whose value string equals the value (the comparison `__eq__` makes), and nothing when no record has it. |
| Records.Get | main.py:663-673 | `_get` returns the position of the first record with the value and leaves the list alone. When no record has the value, it appends a blank record at the end and returns its position. |
| Records.Update | main.py:683-688 | One loop step writes a pending comment over the old one, then drops it. It joins in the batch's languages. |
| Records.AddValues | main.py:675-688 | `_add_values` applies the batch value by value. Only the first value receives the comment. |
| Records.AddAllUnique | main.py:663-688 | After a batch no value occurs twice in the list. The list holds exactly the old values and the batch's values. |
| Records.AddAllValues | main.py:663-688 | A batch appends its new values, once each and in first-occurrence order, behind the old ones. |
| Records.AddAllOutcome | main.py:675-688 | Record by record: positions are kept. The batch's languages are joined into each record it names. The comment is replaced exactly on the batch's first value when the batch has a comment. The common flag and every record the batch does not name stay as they were. |
| Records.AddAllMonotone | main.py:687-688 | The languages of a record never shrink. A named record ends with all the batch's languages. |
| Records.AddAllFrame | main.py:681-688 | A record the batch does not name is left exactly as it was. |
| Records.CommentOverwriteExample | main.py:683-686 | Adding "x" for C with comment "first", then for assembler with "second", leaves one record for both languages with the comment "second". |
| Render.FilterMembers | main.py:753-776 | A block lists exactly the records of its section that fall in its bucket: common for COMMON, not common and attributed to the language for a language. |
| Render.FilterKeepsOrder | main.py:776 | A block lists its records in the insertion order of the list. |
| Render.Buckets | main.py:753-758 | Each section has COMMON first, then one bucket per language, in the given order. |
| Render.SortedLanguagesSorted | main.py:737 | The sorted languages are exactly the used ones, once each, in increasing display-name order. |
| Render.AddSectionFiles | main.py:760-768 | The `set(...)` block holds the title comment and the variable, then each record: its comment line if any, then its prefixed value. |
| Render.AddEntry | main.py:765-767 | One record adds its comment line, if it has one, then its value line. |
| Render.SectionBlocks | main.py:770-778 | A section has one block per bucket. |
| Render.BlockTexts | main.py:772-778 | Each block of a section is rendered in bucket order. |
| Render.SectionLayout | main.py:744-779 | Sections come in the order DEFINES, UNDEFINES, INCLUDE_DIRS, SOURCES. In each, block 0 is COMMON and block k lists the k-th used language. Each block lists the filtered records of its own list. Only definitions carry "-D". |
| Render.BlockMembership | main.py:753-776 | A record is in the COMMON block exactly when it is common. It is in a language's block exactly when it is not common and has that language. |
| Render.HeaderAsWrittenIsOneLine | main.py:739-742 | The banner as written puts the second comment on the same line as the first. |
| Render.FileStartsWithOneLineBanner | main.py:739-742 | The rendered file starts with the banner as written: character 54 is the '#' of the link, on the first line. |
| Render.HeaderIsTwoCommentLines | main.py:739-742 | The banner as evidently intended is two comment lines: the generator line, then the link. |
| CMakeFile.LanguagesOfMembers | main.py:725-728 | A language is collected exactly when some record of the list has it. |
| CMakeFile.CollectLanguages | main.py:725-728 | The comprehension collects the languages of every record of a list. |
| CMakeFile.SetCommon | main.py:730-732 | Each record's flag is set to whether its languages are exactly the used ones. Values and order are kept. |
| CMakeFile.MarkLists | main.py:716-734 | The used languages are those of the four language-bearing lists. Every record of those lists is flagged against them. |
| CMakeFile.MarkKeepsValues | main.py:730-732 | The flagging keeps every value in place. |
| CMakeFile.MarkKeepsLanguages | main.py:730-732 | The flagging keeps the languages of every list. |
| CMakeFile.CheckCommonIdempotent | main.py:716-734 | A second `check_common` with nothing added in between returns the same languages and changes no flag. |
| CMakeFile.LanguagesAreUsed | main.py:725-728 | Every record of the four lists has only used languages. |
| CMakeFile.CommonExactlyWhenEveryLanguage | main.py:730-732 | After the flagging, a record is common exactly when it has every used language. |
| CMakeFile.ShownExactlyWhen | main.py:730-757 | After the flagging, a record appears in some block of its section exactly when it has a language or no language is used. A record without a language, beside records with one, is listed nowhere. |
| CMakeFile.MarkedShown | main.py:753-778 | The same, stated for any flagged record over any order of the used languages. |
| CMakeFile.AddAllNoLanguages | main.py:708-714 | A batch without languages keeps a list of language-free, non-common records so. |
| CMakeFile.RenderBlocks | main.py:772-778 | The inner loop renders every block of a section in order. |
| CMakeFile.RenderSection | main.py:770-779 | One section is its blocks joined by a blank line. |
| CMakeFile.RenderParts | main.py:736-785 | The parts are the banner as written (one line, see Findings), the four sections in order, then the block of other files. |
| CMakeFile.CMake.constructor | main.py:656-661 | The five lists start empty. |
| CMakeFile.CMake.AddIncludePaths | main.py:696-698 | The cleaned paths are added as one batch to the include paths. No other list changes, and no list gains a duplicate. |
| CMakeFile.CMake.AddDefines | main.py:700-702 | The definitions are added as given. No other list changes. |
| CMakeFile.CMake.AddUndefines | main.py:704-706 | The un-definitions are added as given. No other list changes. |
| CMakeFile.CMake.AddSourceFiles | main.py:708-711 | With languages, the cleaned paths go to the source files. Without, they go to the other files, which stay language-free. No other list changes. |
| CMakeFile.CMake.AddOtherFiles | main.py:713-714 | The cleaned paths go to the other files with no language. |
| CMakeFile.CMake.CheckCommon | main.py:716-734 | Returns the languages used by the four lists. Flags every record of those lists common exactly when its languages are all of them. Leaves the other files alone. |
| CMakeFile.CMake.ToString | main.py:736-787 | Flags the records as `check_common` does, then returns the banner as written (one line, see Findings), the four sections and the other-files block joined by two blank lines. |

## Left out

- **Not part of this model:**
  - reading the two documents from disk;
  - the command line;
  - writing the output file;
  - the lxml parsing;
  - the mapping of every XML element onto the project's dataclasses.

  The accessors take an already selected element (`XmlFields.Element`).
- Warnings are returned as logs, not printed.
  - Where a later step fails (`Err`), the warnings issued before the failure are not kept.
  - Warnings name a file by its file name, while the source formats the whole file record.
- Path cleaning follows `os.path.normpath` as it behaves on Windows, the host of the IDE: both '/' and '\' separate segments. Drive letters and UNC prefixes are not modelled.
- `_clean_paths` wraps a single string into a one-element list (main.py:692); the model takes the list. `_add_values` given a single string would iterate it and make one record per character; only the list form is modelled.
- A `Language` passed in place of a collection is modelled as a one-element set. `None` is modelled as the empty set.
- Records and groups are values. The source mutates `CMake.String` objects reached through `_get`, and appends to each group's `files` list with `group.files.append`. In the source no object is reachable from two lists, so no aliasing is lost.
- Packages.ResolvePackages: requires the components to be distinct objects, each read with a package object of its own that is not in the package list. These are the conditions under which the loader's objects are built.
- XmlFields.Strip: removes the characters Python's `str.isspace` accepts, as code points; Unicode normalisation is not modelled.
- XmlFields.StrictHex: does not accept the non-ASCII decimal digits (Arabic-Indic and other Unicode digits) that `int(..., 16)` also reads; such a text is rejected as not hexadecimal.
- `strict_hex` reads the number only through the base-16 body `int(..., 16)` accepts: digits, single underscores between digits or right after the prefix, and trailing whitespace. Leading whitespace before "0x" makes `startswith` fail, as in the source.
- The RTE file records carry more attributes than the instance path and the component class. Only those two are modelled, because the merge reads only them.
- Behaviour kept as the code writes it:
  - `_add_values` overwrites an existing comment with the new batch's comment (`Records.CommentOverwriteExample`); it does not keep the first one.
  - When no group matches an RTE file's component class, the merge appends the file to the last group instead of failing (`GroupMerge.StopIndexSpec`).
  - A declared C++ source type is skipped with a warning (`Classifier.CppOnlyBySuffix`).
  - A value used by the only language in use is common. It is therefore listed in the COMMON block, not in that language's block (`CMakeFile.CommonExactlyWhenEveryLanguage`).

## Findings

| source | as written | input that shows it | evidently intended | confidence | as-written member | corrected member |
|---|---|---|---|---|---|---|
| main.py:739-742 | The two banner literals are adjacent string literals with no line break between them, so they form one line. | Any call of `__str__`: character 54 of the output is '#', directly after "synchronizer". | Two comment lines: the generator line, then the repository link. Either a "\n" is missing at the end of the first literal, or a comma is missing between them, which would make two list elements joined by "\n\n\n" (main.py:787). The corrected member states the one-line-break reading. | high (not executed) | Render.FileStartsWithOneLineBanner | Render.HeaderIsTwoCommentLines |
