# Introspector-generator, modelled in Dafny

Introspector-generator scans C++ headers for marker comments, for example
`// GEN INTROSPECTOR struct ns::Vec2 class T`, and writes one header of
generated code for them:

- the forward declarations of the marked types, grouped into namespace
  blocks;
- for every enum, a helper listing its constants, plus a helper that
  enumerates them;
- for every struct or class, an "introspector" function body with one
  fragment per field, in source order.

Every piece of text is produced by filling `%x` placeholders in
user-supplied format strings with `typesafe_sprintf`.

This project models the generator's core as pure Dafny functions over
strings and line sequences, and proves properties about it. It covers:

- **`text.dfy` (`Text`).** The `std::string` operations the core relies on:
  - `find`, `rfind`, `find_first_of` and `find_first_not_of`, with `npos`;
  - `substr`, which clamps its count;
  - `size_t` subtraction, which wraps modulo 2^64;
  - `istringstream >>` word extraction;
  - decimal rendering of line numbers.
- **`spellbook.dfy` (`Spellbook`).** The helper library, which both
  generations of the generator share:
  - `replace_all`, both as the loop and as a recursive definition;
  - `typesafe_sprintf`: left to right, `%` plus one character replaced,
    the search resuming at the start of the inserted text;
  - `lines_to_string` and `make_get_line_until`;
  - the strict `break_lines_by_properties` and the older lenient one;
  - the blank/comment filter for configuration lines.
- **`buckets.dfy` (`Buckets`).** The `std::map<std::string, std::string>`
  of namespace buckets, modelled as a strictly sorted list of entries with
  its map view. Also the rendering of the buckets (`make_namespaces`).
- **`header.dfy` (`Header`).** The marker line's header:
  - the declaration kind, the name and the template parameter pairs;
  - the argument list, with `...` for parameter packs, and the parameter
    list;
  - the namespace split at `::`;
  - the forward-declaration lines added to the buckets.
- **`classify.dfy` (`Classify`).** The classification of a line inside a
  block. The outcomes are: end of block, pass-through (`#` or blank), enum
  constant, base-introspector reference, skipped keyword line, field (name
  and type), a malformed line, or the `std::out_of_range` the base marker
  can throw.
- **`field_quirks.dfy` (`FieldQuirks`).** Two field lines worked through
  the classification: an empty name, and a line that uses tabs instead of
  spaces.
- **`scan.dfy` (`Scan`).** The final generator's scan, as a state machine
  over lines: seeking a marker, or inside a block. It covers block closing
  (enum bodies with the trailing comma removed, and introspector bodies),
  the `#error` artifact written for a failed check, and the final document.
- **`legacy.dfy` (`Legacy`).** The first generation of the generator:
  - a header with only a name and parameter pairs, and no pack expansion;
  - field lines that print a diagnostic and carry on;
  - `pad` fields dropped;
  - either one output file, or one file per type (`introspect_<type>.h`,
    with `::` replaced by `_`) plus an include-all header.

`results.dfy` holds the `Option` and `Result` types.

**Behaviour of the code that the model keeps, including where it may be
unexpected:**

- The final generator does not drop fields named `pad`. Only the first
  generation does.
- A field name with brackets, or a field line without an end, is fatal in
  the final generator. It only prints a diagnostic in the first generation.
- `typesafe_sprintf` searches again at the start of a value it has just
  inserted, so a `%` inside a value is itself a placeholder. A `%` that
  ends the format is replaced on its own. A digit after `%` is consumed
  only as the second placeholder character: after `f`, the digit that
  follows stays in the text.
- The unnamed namespace bucket renders as its text followed by a single
  newline.
- Buckets are ordered by `std::map`, which means lexicographically by
  character.
- The base introspector's type name is not trimmed. It is the rest of the
  line, starting one character after the base marker, with whatever
  trailing text the line holds.
- An empty field name is accepted. In `int ;` the name runs from the
  space to the `;`, so the line is the field `("", "int")`.
- The field name begins after the last space (`rfind(" ")`), not after the
  last whitespace character. In `\tint\tx;`, which uses tabs, the name is
  `\tint\tx` and the type is `int\tx;`.

**Integer behaviour is modelled explicitly:**

- `size_t` arithmetic wraps: `npos + 1 == 0`, and `e - 1` wraps when `e`
  is 0.
- `substr` clamps its count to the end of the string.

So a field line without `;`, or a line that starts with ` =`, has a
defined name in the model, exactly as in the code.

**Cases the code leaves undefined, or ends by exception, are explicit
errors:**

- A block not closed before the end of its file reads past the last line.
  The model reports `UnterminatedBlock` in the final generator and
  `RunsOffEnd` in the first generation.
- An enum whose argument text is non-empty but has no comma makes `erase`
  run at `npos`. The model reports `MissingEnumComma`.
- A base marker at the very end of a line makes `substr` throw. The model
  reports `SubstrOutOfRange`, and no file is written.

## Model

| member | source | states |
|---|---|---|
| Text.SizeDiff | src/main.cpp:377-393 | `size_t` subtraction: the true difference when it is not negative, otherwise the difference wrapped modulo 2^64 |
| Text.Substr | src/main.cpp:385-394 | `substr` yields the characters from `pos`, and as many as the count allows, clamped to the string's end |
| Text.FindIsFirstMatch | src/main.cpp:166 | `find` returns the first occurrence at or after the start, and `npos` exactly when there is none |
| Text.ContainsIff | src/main.cpp:292 | "the line holds the marker" means the marker occurs at some position |
| Text.RFindChar | src/main.cpp:377-382 | `rfind(" ", pos)` returns the last space at or before `pos`, and `npos` when there is none |
| Text.FindFirstNotOf | src/main.cpp:389 | `find_first_not_of` returns the first character outside the set, and `npos` when every character is in it |
| Text.FindFirstOfIsFirst | src/main.cpp:396 | `find_first_of("[]")` returns the first bracket, and `npos` exactly when there is none |
| Text.WordsAreWords | src/main.cpp:170-173 | every word that `>>` extracts is non-empty and holds no whitespace |
| Text.WordsOfJoin | src/main.cpp:170-209 | words written with single spaces are read back by `>>` one for one |
| Text.ConcatAppend | src/main.cpp:275-277 | appending fragments one after another is appending their concatenation |
| Text.NatToDecimal | src/main.cpp:148-153 | the line number is printed as decimal digits with no leading zero, and reads back as the same number |
| Spellbook.ReplaceAllLoop | src/spellbook.h:50-61 | the loop that replaces in place and resumes after the inserted text computes the recursive replacement |
| Spellbook.ReplaceAllAbsent | src/spellbook.h:56 | without an occurrence, the string is returned unchanged |
| Spellbook.ReplaceAllIdentity | src/spellbook.h:50-61 | replacing a pattern by itself changes nothing, because the search resumes past the inserted text |
| Spellbook.ReplaceAllRemovesAll | Introspector-generator/spellbook.h:11-22 | a non-empty replacement that shares no character with the pattern leaves no occurrence of the pattern |
| Spellbook.SprintfNoPlaceholder | src/spellbook.h:68-94 | a format without `%` comes back unchanged, whatever the values |
| Spellbook.SprintfFirst | src/spellbook.h:68-94 | the first `%` and the character after it are replaced by the first value, and the rest is filled from the remaining values |
| Spellbook.SprintfSingle | src/spellbook.h:96-107 | one placeholder and one value: the value takes the placeholder's place, whatever it contains |
| Spellbook.SprintfRescansInsertedValue | src/spellbook.h:68-93 | after the first placeholder is filled, the search resumes at the start of the inserted value, so the remaining values fill the value's own `%` before the rest of the format |
| Spellbook.SprintfKeepsPrecisionDigit | src/spellbook.h:75-90 | after `%f`, the precision digit is not consumed and stays in the output, right after the value |
| Spellbook.LinesToStringAppend | src/spellbook.h:182-192 | joining lines with newlines distributes over concatenating the line lists |
| Spellbook.SplitLinesToString | src/spellbook.h:182-192 | lines without newlines are recovered from their joined text |
| Spellbook.GetLineUntil | src/spellbook.h:154-170 | the reader stops at the end of the lines, or consumes a line equal to the delimiter and reports false; otherwise it continues without consuming |
| Spellbook.CollectUntil | src/spellbook.h:215-217 | the collected lines are a contiguous run up to the delimiter, or up to the end, and none of them is the delimiter |
| Spellbook.BreakLinesByProperties | src/spellbook.h:194-238 | it fails exactly when the first line is not the first property name; otherwise it yields one group per property, and the last group is a suffix of the lines |
| Spellbook.BreakLinesOfLayout | src/spellbook.h:194-238 | property names followed by their groups are split back into exactly those groups |
| Spellbook.BreakLinesLenient | Introspector-generator/spellbook.h:183-222 | the older version never stops; it yields one group per property whenever both lists are non-empty |
| Spellbook.LenientAgreesWithStrict | Introspector-generator/spellbook.h:183-222 | the two versions agree wherever the strict one succeeds; otherwise the lenient one still yields a group per property |
| Spellbook.FilterConfigLines | Introspector-generator/spellbook.h:91-111 | the lines kept are exactly the input lines that are neither blank nor comments, in order |
| Spellbook.FilterConfigLinesAppend | Introspector-generator/spellbook.h:99-108 | filtering works line by line, so it distributes over concatenation |
| Spellbook.FilterConfigLinesIdempotent | Introspector-generator/spellbook.h:91-111 | filtering an already filtered list changes nothing |
| Buckets.LexLessTransitive | src/main.cpp:111 | the key order of the map is transitive |
| Buckets.LexLessTotal | src/main.cpp:111 | any two distinct keys are ordered |
| Buckets.AppendSorted | src/main.cpp:275-277 | `namespaces[key] += text` keeps the entries sorted by key |
| Buckets.AppendView | src/main.cpp:275-277 | appending to a key changes only that key's text: the old text, or "" for a new key, followed by the appended text |
| Buckets.AppendAllView | src/main.cpp:275-277 | appending several lines to one key appends their concatenation, keeps the entries sorted, and changes no other key |
| Buckets.ViewTail | src/main.cpp:116 | the entries after the first one are sorted and stand for the map without the first key |
| Buckets.SortedUnique | src/main.cpp:111 | two sorted entry lists that stand for the same map are identical |
| Buckets.RenderUnnamed | src/main.cpp:117-118 | the unnamed bucket renders as its text and a newline |
| Buckets.RenderNamed | src/main.cpp:120-121 | a named bucket renders as a `namespace` block around its text |
| Buckets.RenderNamespacesAppend | src/main.cpp:113-126 | the rendering is the buckets' renderings in map order |
| Buckets.RenderDependsOnMap | src/main.cpp:113-126 | the rendering depends only on the map's contents |
| Header.PairsOfFlatten | src/main.cpp:203-209 | reading consecutive word pairs gives back the parameters those pairs were written from |
| Header.PairsIndex | src/main.cpp:203-209 | pair `i` is made of words `2i` and `2i+1`, and a dangling last word is dropped |
| Header.ParseHeaderOfText | src/main.cpp:169-211 | a well-formed header written as words is parsed back to itself, including `enum class` |
| Header.ParseHeaderKind | src/main.cpp:172-183 | the header is rejected exactly when the first word is not `struct`, `class` or `enum` |
| Header.BuildTemplateArgs | src/main.cpp:211-236 | the one-pass loop builds the argument list `<a, b...>` and the parameter list `, class A, class... B` |
| Header.SplitNamespaceUnqualified | src/main.cpp:239-242 | a name without `::` belongs to the unnamed namespace and keeps its whole text |
| Header.SplitNamespaceRejoin | src/main.cpp:242-249 | a qualified name is its namespace, then `::`, then the rest, and the namespace holds no `::` |
| Header.SplitNamespaceOfQualified | src/main.cpp:242-249 | a namespace without colons, joined to a name by `::`, is split back into those two parts |
| Header.TemplateLineText | src/main.cpp:253-257 | the template line lists each parameter's kind and name inside `template <...>` |
| Header.DeclLineText | src/main.cpp:259-265 | the declaration line is the kind word, the bare name and `;` |
| Header.DeclareView | src/main.cpp:251-277 | declaring a type appends its forward lines to its namespace's bucket, keeps the map sorted, and touches no other bucket |
| Classify.NameEndAfterBegin | src/main.cpp:372-383 | when the end is found, the name lies before it inside the line, and the end is the space of ` =` or the `;` |
| Classify.NameHasNoSpace | src/main.cpp:369-387 | the extracted field name never contains a space, even when the end is missing and the name runs to the end of the line |
| Classify.EnumLineHasStart | src/main.cpp:306-308 | a line that is not blank has a first non-blank character, so the enum check never fails |
| Classify.EnumConstantChars | src/main.cpp:306-316 | an enum constant holds none of `=`, `,` or blank |
| Classify.ClassifyEnumConstant | src/main.cpp:306-316 | indentation, a name, then `=`, `,`, a blank or the end: the constant read is exactly that name |
| Classify.FieldMalformedIff | src/main.cpp:366-396 | a field line is rejected exactly when its name's end is missing or its name holds a bracket, and the type is always found |
| Classify.ClassifyDeclaration | src/main.cpp:366-402 | a declaration `type name;` with no `=` reads back its name and its type |
| Classify.EnumLinesNeverFail | src/main.cpp:287-330 | inside an enum, a line ends the block, passes through, or is a constant |
| Classify.BaseRefText | src/main.cpp:332-343 | a base-marker line names the text after the marker and one separator character, and throws when the marker ends the line |
| Classify.FieldNameClean | src/main.cpp:385-396 | an accepted field's name holds no space and no bracket |
| Classify.ClassifyDeclarationLine | src/main.cpp:287-402 | inside a struct or class, an ordinary declaration line yields that field |
| Classify.ClassifyInitialiser | src/main.cpp:366-402 | a declaration with an initialiser, `type name = value;`, reads back its name and its type: the name ends at the first ` =` and begins after the last space before it |
| Classify.ClassifyInitialiserLine | src/main.cpp:287-402 | inside a struct or class, a declaration line with an initialiser yields that field |
| FieldQuirks.EmptyNameAccepted | src/main.cpp:381-387 | a field line whose name is empty, `int ;`, is accepted as a field with an empty name |
| FieldQuirks.NameSplitsOnSpaceOnly | src/main.cpp:378-393 | the name starts after the last space only, so a tab-separated line `\tint\tx;` gives the name `\tint\tx` and the type `int\tx;` |
| Scan.RemoveLastCommaOfAppend | src/main.cpp:413-415 | erasing the last comma removes exactly that comma, and keeps the text before and after it |
| Scan.RemoveLastCommaFails | src/main.cpp:413-415 | the erase is undefined exactly when the text holds no comma |
| Scan.ConstPointerText | src/main.cpp:427 | the introspected type is passed as `const T* const` |
| Scan.CloseBlockAppends | src/main.cpp:406-431 | closing a block leaves the namespaces alone and only appends: to the enum output for enums, to the introspectors otherwise |
| Scan.CloseEnumArgs | src/main.cpp:406-422 | an enum's body is followed by its enumerating helper, with the last comma of the argument text removed |
| Scan.CloseRecord | src/main.cpp:423-431 | a struct or class body gets the template parameters, the `const T* const` type and the fields |
| Scan.ErrorTextOf | src/main.cpp:146-155 | the diagnostic names the line number in decimal, the file and the offending line's text |
| Scan.StepProblem | src/main.cpp:146-162 | a failed check on a line reports that line's index, the file and the line's own text |
| Scan.RunProblemLine | src/main.cpp:146-162 | a failed check during a scan names a line inside the scanned range, and quotes that line's text |
| Scan.RunWithoutMarker | src/main.cpp:165-172 | lines without the beginning marker leave the state unchanged |
| Scan.ScanFilesWithoutMarker | src/main.cpp:140-172 | files without markers leave the output unchanged |
| Scan.GenerateWithoutBlocks | src/main.cpp:442-447 | with no block, the document is the format filled with three empty texts |
| Scan.StepSeeking | src/main.cpp:166-277 | a seeking step stays put, fails, or opens an empty block after declaring the type |
| Scan.StepInside | src/main.cpp:287-404 | a step inside a block keeps the output and the block open, or closes the block with its rendering |
| Scan.StepInvariant | src/main.cpp:166-431 | one step keeps the namespace map sorted, and only appends to the enum and introspector texts |
| Scan.RunInvariant | src/main.cpp:165-435 | a whole scan keeps the namespace map sorted, and only appends to the enum and introspector texts |
| Scan.RunSplit | src/main.cpp:165-435 | scanning a range is scanning its first part, then the rest from the resulting state |
| Scan.StepContinues | src/main.cpp:296-404 | a content line adds its field and argument fragments to the open block and nothing else |
| Scan.RunInBlock | src/main.cpp:287-404 | the content lines add their fragments to the block in source order |
| Scan.StepOpens | src/main.cpp:166-285 | a marker line with a valid header declares the type and opens an empty block |
| Scan.RunOpens | src/main.cpp:166-285 | a marker line hands the rest of the scan an empty block and the updated namespaces |
| Scan.StepCloses | src/main.cpp:292-294 | the ending marker closes the open block |
| Scan.BlockThenClose | src/main.cpp:287-431 | content lines followed by the ending line render the block from its fragments, in source order |
| Legacy.ParseLegacyHeaderOfText | Introspector-generator/main.cpp:45-62 | a name and parameter pairs written as words are read back exactly |
| Legacy.LegacyArgumentListAgrees | Introspector-generator/main.cpp:64-81 | without parameter packs, the first generation writes the same argument list as the final one |
| Legacy.LegacyDeclaration | Introspector-generator/main.cpp:103-146 | a declaration `type name;` adds its name through the field format (nothing for `pad`) and prints no diagnostic |
| Legacy.LegacyInitialiser | Introspector-generator/main.cpp:114-146 | a declaration with an initialiser, `type name = value;`, adds its name through the field format (nothing for `pad`) and prints no diagnostic |
| Legacy.NameWithoutEnd | Introspector-generator/main.cpp:114-140 | a line without ` =` or `;` prints a diagnostic, and its name is the text after the line's last space |
| Legacy.SameFieldName | Introspector-generator/main.cpp:114-138 | both generations read the same name from an accepted field line |
| Legacy.ScanBodyEnd | Introspector-generator/main.cpp:85-107 | a block's body fails exactly when no later line holds the ending marker |
| Legacy.ScanBodyFirstEnd | Introspector-generator/main.cpp:85-107 | the body ends at the first line holding the ending marker |
| Legacy.ScanBodyFields | Introspector-generator/main.cpp:85-147 | the fields are each content line's contribution, concatenated in source order |
| Legacy.PerTypeFileNameClean | Introspector-generator/main.cpp:156-158 | the whole per-type file name holds no `::`, neither in the type's text nor where it meets the fixed prefix and suffix |
| Legacy.AddIntrospectorPerType | Introspector-generator/main.cpp:149-169 | in per-type mode each type's file holds only its own introspector, and the accumulator is emptied |
| Legacy.WalkPerType | Introspector-generator/main.cpp:41-173 | per-type mode keeps the accumulator empty through a file, and only adds files and diagnostics |
| Legacy.WalkSingleFile | Introspector-generator/main.cpp:41-173 | single-file mode writes nothing during a scan, and only appends introspectors and diagnostics |
| Legacy.WalkFilesPerType | Introspector-generator/main.cpp:31-177 | across all files, per-type mode leaves no unwritten introspector |
| Legacy.IncludeAllText | Introspector-generator/main.cpp:179-190 | the include-all header has one `#include "<file>"` line per generated file, in order |
| Legacy.GenerateWithoutBlocks | Introspector-generator/main.cpp:179-196 | with no block, single-file mode writes the file format with an empty fill, and per-type mode writes an empty include-all header |
| Legacy.GenerateSingleFile | Introspector-generator/main.cpp:191-196 | single-file mode writes exactly one file, at the output path |

## Left out

- Reading and writing files is left out. This covers `get_file_lines`, `file_to_string`/`get_file_contents`, `create_text_file`, `guarded_create_file`, the recursive directory walk and the `.h` extension filter. The source files are given as values (a path and its lines), and the written files are returned as values.
- The configuration plumbing in `src/main.cpp:1-103` is left out: reading the settings file through `break_lines_by_properties`, and the error reply when a value is missing. The scan receives the configuration already read. `break_lines_by_properties` itself is modelled.
- Time measurement, `scope_guard`, `LOG`, `getchar`, `debugbreak`, the `ensure` macro's pause and console output are left out. They do not affect the generated text. The first generation's diagnostics are modelled as the list of messages it prints.
- Formatting values in `typesafe_sprintf` is left out. Values are text that has already been rendered, so the `%f`, digit and `*` precision opcodes, which only affect numbers, do not change the model's output. Only their effect on which characters are replaced is modelled. The `wchar_t` overloads are left out.
- Legacy.LegacyGenerate: the test `output_path.filename() == "."` that selects per-type mode is a parameter (`Target`), and creating the output directory is left out.
- Classify.NameHasNoSpace: assumes the line is shorter than 2^64 - 1 characters (`Addressable`). The C++ code cannot hold longer strings either.
- Classify.ClassifyDeclaration: assumes lines shorter than 2^64 - 1 characters, as above. The same holds for Classify.ClassifyDeclarationLine, Classify.ClassifyInitialiser, Classify.ClassifyInitialiserLine, Classify.FieldNameClean, Legacy.LegacyDeclaration, Legacy.LegacyInitialiser and Legacy.NameWithoutEnd.
- Undefined behaviour is modelled as errors rather than as arbitrary results. This covers reading past the last line in a block, `erase` at `npos` for an enum argument text without a comma, and `isspace` on negative `char` values (characters are taken as they are).
- The generated files' byte-for-byte writing is left out. This includes `guarded_create_file` comparing against the previous contents.
