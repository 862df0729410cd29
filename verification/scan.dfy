/** The generator's scan: a two-state machine folded over the lines of each
    header file. While seeking, a line holding the beginning marker opens a
    block (after its forward declaration is filed under its namespace);
    inside a block every line adds to the block's field text until the
    ending marker closes it and renders the block's body. The document is
    the configured format filled with the namespaces, the enum bodies and
    the introspector bodies. */
module Scan {
  import opened Results
  import opened Text
  import opened Spellbook
  import opened Buckets
  import opened Header
  import opened Classify

  /** The format strings a configuration provides. */
  datatype Formats = Formats(
    field: string,
    baseField: string,
    body: string,
    enumField: string,
    enumBody: string,
    enumArg: string,
    enumToArgs: string,
    document: string)

  datatype Config = Config(markers: Markers, formats: Formats)

  /** What the scan accumulates across all files. */
  datatype Output = Output(namespaces: seq<Bucket>, enums: string, introspectors: string)

  const EMPTY_OUTPUT: Output := Output([], "", "")

  /** An open block: its header and the field and enum-argument text so far. */
  datatype Block = Block(header: Header, fields: string, enumArgs: string)

  datatype Phase = Seeking | InBlock(block: Block)

  datatype State = State(phase: Phase, out: Output)

  datatype ScanError =
      /** A failed check: the line index, the file and the line's text. */
    | Problem(line: nat, path: string, text: string)
      /** `substr` threw `std::out_of_range` (a base marker ending the line). */
    | SubstrOutOfRange
      /** The file ended inside a block; the generator would read past the
          end of its lines. */
    | UnterminatedBlock(path: string)
      /** An enum's argument text is not empty yet holds no comma to remove;
          the generator would erase at `npos`. */
    | MissingEnumComma(line: nat, path: string)

  // ---------------------------------------------------------------------
  // Inside a block

  /** What a line inside a block adds to the field text. */
  function FieldFragment(f: Formats, h: Header, c: LineClass, line: string): string {
    match c
    case PassThrough => line + "\n"
    case EnumConstant(n) => Sprintf(f.enumField, [TypeName(h), n, n])
    case BaseRef(base) => Sprintf(f.baseField, [base])
    case Field(n, t) => Sprintf(f.field, [n, t])
    case _ => ""
  }

  /** What a line inside a block adds to the enum-argument text. */
  function ArgFragment(f: Formats, h: Header, c: LineClass, line: string): string {
    match c
    case PassThrough => line + "\n"
    case EnumConstant(n) => Sprintf(f.enumArg, [TypeName(h), n + ","])
    case _ => ""
  }

  /** `s.erase(s.rfind(','))`: the last comma removed; `None` when there is
      no comma. */
  function RemoveLastComma(s: string): Option<string> {
    match LastBelow(s, ',', |s|)
    case None => None
    case Some(p) => Some(s[..p] + s[p + 1..])
  }

  /** Exactly the last comma goes: whatever follows it holds no comma and is
      kept, as is everything before it. */
  lemma RemoveLastCommaOfAppend(a: string, b: string)
    requires forall k :: 0 <= k < |b| ==> b[k] != ','
    ensures RemoveLastComma(a + "," + b) == Some(a + b)
  {
    var s := a + "," + b;
    assert s[|a|] == ',';
    forall j | |a| < j < |s| ensures s[j] != ',' {
      assert s[j] == b[j - |a| - 1];
    }
    assert LastBelow(s, ',', |s|) == Some(|a|);
    assert s[..|a|] == a;
    assert s[|a| + 1..] == b;
  }

  /** The removal fails exactly when there is no comma. */
  lemma RemoveLastCommaFails(s: string)
    ensures RemoveLastComma(s).None? <==> forall k :: 0 <= k < |s| ==> s[k] != ','
  {
  }

  /** `typesafe_sprintf("const %x* const", type_name)`. */
  function ConstPointer(typeName: string): string {
    Sprintf("const %x* const", [typeName])
  }

  lemma ConstPointerText(typeName: string)
    ensures ConstPointer(typeName) == "const " + typeName + "* const"
  {
    assert "const %x* const" == "const " + ['%', 'x'] + "* const";
    SprintfSingle("const ", 'x', "* const", typeName);
  }

  /** Closing a block renders its body: for an enum, the enum body and the
      argument list with its trailing comma removed; for a struct or class,
      the introspector body with the template parameters, the pointer type
      and the fields. `None` is the enum whose argument text has no comma. */
  function CloseBlock(f: Formats, b: Block, out: Output): Option<Output> {
    var tn := TypeName(b.header);
    if IsEnumKind(b.header.kind) then
      var enums := out.enums + Sprintf(f.enumBody, [tn, b.fields]);
      var args := if |b.enumArgs| > 0 then RemoveLastComma(b.enumArgs) else Some(b.enumArgs);
      match args
      case None => None
      case Some(a) => Some(out.(enums := enums + Sprintf(f.enumToArgs, [tn, a])))
    else
      Some(out.(introspectors := out.introspectors
                  + Sprintf(f.body, [TemplateParams(b.header.params), ConstPointer(tn), b.fields])))
  }

  /** Closing keeps the namespaces and only appends to the two bodies. */
  lemma CloseBlockAppends(f: Formats, b: Block, out: Output)
    requires CloseBlock(f, b, out).Some?
    ensures CloseBlock(f, b, out).value.namespaces == out.namespaces
    ensures out.enums <= CloseBlock(f, b, out).value.enums
    ensures out.introspectors <= CloseBlock(f, b, out).value.introspectors
    ensures IsEnumKind(b.header.kind) ==> CloseBlock(f, b, out).value.introspectors == out.introspectors
    ensures !IsEnumKind(b.header.kind) ==> CloseBlock(f, b, out).value.enums == out.enums
  {
  }

  // ---------------------------------------------------------------------
  // One line

  /** The state after line `i` of file `path`. */
  function Step(cfg: Config, path: string, i: nat, line: string, st: State): Result<State, ScanError> {
    match st.phase
    case Seeking =>
      (match Find(line, cfg.markers.beginning, 0)
       case None => Success(st)
       case Some(k) =>
         (match ParseHeader(line[k + |cfg.markers.beginning|..])
          case None => Failure(Problem(i, path, line))
          case Some(h) =>
            Success(State(InBlock(Block(h, "", "")), st.out.(namespaces := Declare(st.out.namespaces, h))))))
    case InBlock(b) =>
      var c := ClassifyLine(line, IsEnumKind(b.header.kind), cfg.markers);
      match c
      case EndOfBlock =>
        (match CloseBlock(cfg.formats, b, st.out)
         case None => Failure(MissingEnumComma(i, path))
         case Some(o) => Success(State(Seeking, o)))
      case Malformed => Failure(Problem(i, path, line))
      case OutOfRange => Failure(SubstrOutOfRange)
      case _ =>
        Success(State(InBlock(Block(b.header,
                                    b.fields + FieldFragment(cfg.formats, b.header, c, line),
                                    b.enumArgs + ArgFragment(cfg.formats, b.header, c, line))),
                      st.out))
  }

  /** The lines `i` up to `j` of a file, one step at a time; the first
      failure stops the scan. */
  function Run(cfg: Config, path: string, lines: seq<string>, i: nat, j: nat, st: State): Result<State, ScanError>
    requires i <= j <= |lines|
    decreases j - i
  {
    if i == j then Success(st)
    else
      match Step(cfg, path, i, lines[i], st)
      case Failure(e) => Failure(e)
      case Success(next) => Run(cfg, path, lines, i + 1, j, next)
  }

  /** One file, starting and ending outside a block. */
  function ScanFile(cfg: Config, path: string, lines: seq<string>, out: Output): Result<Output, ScanError> {
    match Run(cfg, path, lines, 0, |lines|, State(Seeking, out))
    case Failure(e) => Failure(e)
    case Success(s) => if s.phase.InBlock? then Failure(UnterminatedBlock(path)) else Success(s.out)
  }

  datatype SourceFile = SourceFile(path: string, lines: seq<string>)

  /** All files in turn, sharing one output; the first failure stops. */
  function ScanFiles(cfg: Config, files: seq<SourceFile>, out: Output): Result<Output, ScanError>
    decreases |files|
  {
    if |files| == 0 then Success(out)
    else
      match ScanFile(cfg, files[0].path, files[0].lines, out)
      case Failure(e) => Failure(e)
      case Success(o) => ScanFiles(cfg, files[1..], o)
  }

  /** The generated document. */
  function Document(cfg: Config, out: Output): string {
    Sprintf(cfg.formats.document, [RenderNamespaces(out.namespaces), out.enums, out.introspectors])
  }

  function Generate(cfg: Config, files: seq<SourceFile>): Result<string, ScanError> {
    match ScanFiles(cfg, files, EMPTY_OUTPUT)
    case Failure(e) => Failure(e)
    case Success(out) => Success(Document(cfg, out))
  }

  /** The `errcheck` message. */
  function ErrorText(line: nat, path: string, text: string): string {
    Sprintf("A problem in line %x in file %x:\n%x\n", [NatToDecimal(line), path, text])
  }

  /** What ends up in the generated file: the document, or an `#error`
      directive quoting the failed line; `None` when the run fails without
      writing (a thrown `out_of_range`, or one of the undefined cases). */
  function GeneratedFile(cfg: Config, files: seq<SourceFile>): Option<string> {
    match Generate(cfg, files)
    case Success(d) => Some(d)
    case Failure(Problem(n, p, t)) => Some("#error " + ErrorText(n, p, t))
    case Failure(_) => None
  }

  // ---------------------------------------------------------------------
  // Properties

  /** The error message spelled out: the line number in decimal, the path
      and the line, when the path holds no `%`. */
  lemma ErrorTextOf(line: nat, path: string, text: string)
    requires NoPercent(path)
    ensures ErrorText(line, path, text)
            == "A problem in line " + NatToDecimal(line) + " in file " + path + ":\n" + text + "\n"
  {
    var d := NatToDecimal(line);
    DecimalNoPercent(d);
    var b1 := "x in file %x:\n%x\n";
    assert "A problem in line %x in file %x:\n%x\n" == "A problem in line " + "%" + b1;
    assert [d, path, text] == [d] + [path, text];
    SprintfFirst("A problem in line ", b1, d, [path, text]);
    ErrorTextTail(path, text);
    Glue("A problem in line ", d, " in file ", path, ":\n", text, "\n");
  }

  lemma Glue(a: string, b: string, c: string, d: string, e: string, f: string, g: string)
    ensures a + b + (c + d + e + f + g) == a + b + c + d + e + f + g
  {
  }

  lemma ErrorTextTail(path: string, text: string)
    requires NoPercent(path)
    ensures Sprintf("x in file %x:\n%x\n"[1..], [path, text]) == " in file " + path + ":\n" + text + "\n"
  {
    var b2 := "x:\n%x\n";
    assert "x in file %x:\n%x\n"[1..] == " in file " + "%" + b2;
    assert [path, text] == [path] + [text];
    SprintfFirst(" in file ", b2, path, [text]);
    assert "x:\n%x\n"[1..] == ":\n" + ['%', 'x'] + "\n";
    SprintfSingle(":\n", 'x', "\n", text);
    Glue4(" in file ", path, ":\n", text, "\n");
  }

  lemma Glue4(a: string, b: string, c: string, d: string, e: string)
    ensures a + b + (c + d + e) == a + b + c + d + e
  {
  }

  lemma DecimalNoPercent(d: string)
    requires IsDecimal(d)
    ensures NoPercent(d)
  {
  }

  /** A failed check in a step names the step's line and quotes it. */
  lemma StepProblem(cfg: Config, path: string, i: nat, line: string, st: State)
    ensures var r := Step(cfg, path, i, line, st);
            r.Failure? && r.error.Problem? ==> r.error == Problem(i, path, line)
  {
  }

  /** A failure names a line of the range, and a failed check quotes it. */
  lemma {:induction false} RunProblemLine(cfg: Config, path: string, lines: seq<string>, i: nat, j: nat, st: State)
    requires i <= j <= |lines|
    ensures var r := Run(cfg, path, lines, i, j, st);
            r.Failure? && r.error.Problem? ==>
              i <= r.error.line < j && r.error.path == path && r.error.text == lines[r.error.line]
    decreases j - i
  {
    if i < j {
      var r := Step(cfg, path, i, lines[i], st);
      StepProblem(cfg, path, i, lines[i], st);
      if r.Success? {
        RunProblemLine(cfg, path, lines, i + 1, j, r.value);
        assert Run(cfg, path, lines, i, j, st) == Run(cfg, path, lines, i + 1, j, r.value);
      } else {
        assert Run(cfg, path, lines, i, j, st) == Failure(r.error);
      }
    }
  }

  /** Lines without the beginning marker leave a seeking scan untouched. */
  lemma {:induction false} RunWithoutMarker(cfg: Config, path: string, lines: seq<string>, i: nat, j: nat, out: Output)
    requires i <= j <= |lines|
    requires forall k :: i <= k < j ==> !Contains(lines[k], cfg.markers.beginning)
    ensures Run(cfg, path, lines, i, j, State(Seeking, out)) == Success(State(Seeking, out))
    decreases j - i
  {
    if i < j {
      RunWithoutMarker(cfg, path, lines, i + 1, j, out);
    }
  }

  predicate NoMarker(cfg: Config, files: seq<SourceFile>) {
    forall f, k :: 0 <= f < |files| && 0 <= k < |files[f].lines| ==>
      !Contains(files[f].lines[k], cfg.markers.beginning)
  }

  /** With no block in any file the output is what it was. */
  lemma {:induction false} ScanFilesWithoutMarker(cfg: Config, files: seq<SourceFile>, out: Output)
    requires NoMarker(cfg, files)
    ensures ScanFiles(cfg, files, out) == Success(out)
    decreases |files|
  {
    if |files| > 0 {
      RunWithoutMarker(cfg, files[0].path, files[0].lines, 0, |files[0].lines|, out);
      assert NoMarker(cfg, files[1..]) by {
        forall f, k | 0 <= f < |files[1..]| && 0 <= k < |files[1..][f].lines|
          ensures !Contains(files[1..][f].lines[k], cfg.markers.beginning)
        {
          assert files[1..][f] == files[f + 1];
        }
      }
      ScanFilesWithoutMarker(cfg, files[1..], out);
    }
  }

  /** With no block at all, the document is the format filled with three
      empty texts. */
  lemma GenerateWithoutBlocks(cfg: Config, files: seq<SourceFile>)
    requires NoMarker(cfg, files)
    ensures Generate(cfg, files) == Success(Sprintf(cfg.formats.document, ["", "", ""]))
  {
    ScanFilesWithoutMarker(cfg, files, EMPTY_OUTPUT);
  }

  /** A seeking step either leaves the state alone, fails, or opens a
      block after declaring its type. */
  lemma StepSeeking(cfg: Config, path: string, i: nat, line: string, out: Output)
    ensures var r := Step(cfg, path, i, line, State(Seeking, out));
            r.Success? ==>
              r.value == State(Seeking, out)
              || exists h :: r.value == State(InBlock(Block(h, "", "")), out.(namespaces := Declare(out.namespaces, h)))
  {
    var k := Find(line, cfg.markers.beginning, 0);
    if k.Some? {
      var ph := ParseHeader(line[k.value + |cfg.markers.beginning|..]);
      if ph.Some? {
        var h := ph.value;
        assert Step(cfg, path, i, line, State(Seeking, out))
               == Success(State(InBlock(Block(h, "", "")), out.(namespaces := Declare(out.namespaces, h))));
      }
    }
  }

  /** A step inside a block either keeps it open with the same output, or
      closes it. */
  lemma StepInside(cfg: Config, path: string, i: nat, line: string, b: Block, out: Output)
    ensures var r := Step(cfg, path, i, line, State(InBlock(b), out));
            r.Success? ==>
              (r.value.phase.InBlock? && r.value.out == out)
              || (r.value.phase.Seeking? && CloseBlock(cfg.formats, b, out) == Some(r.value.out))
  {
  }

  /** One step keeps the namespace container sorted and only appends to the
      enum and introspector bodies. */
  lemma StepInvariant(cfg: Config, path: string, i: nat, line: string, st: State)
    requires Sorted(st.out.namespaces)
    requires Step(cfg, path, i, line, st).Success?
    ensures Sorted(Step(cfg, path, i, line, st).value.out.namespaces)
    ensures st.out.enums <= Step(cfg, path, i, line, st).value.out.enums
    ensures st.out.introspectors <= Step(cfg, path, i, line, st).value.out.introspectors
  {
    var r := Step(cfg, path, i, line, st).value;
    match st.phase
    case Seeking =>
      StepSeeking(cfg, path, i, line, st.out);
      if r != State(Seeking, st.out) {
        var h :| r == State(InBlock(Block(h, "", "")), st.out.(namespaces := Declare(st.out.namespaces, h)));
        DeclareView(st.out.namespaces, h);
      }
    case InBlock(b) =>
      StepInside(cfg, path, i, line, b, st.out);
      if r.phase.Seeking? {
        CloseBlockAppends(cfg.formats, b, st.out);
      }
  }

  /** The whole scan keeps the namespace container sorted (so its render
      depends only on the map it stands for) and only appends to the enum
      and introspector bodies. */
  lemma {:induction false} RunInvariant(cfg: Config, path: string, lines: seq<string>, i: nat, j: nat, st: State)
    requires i <= j <= |lines|
    requires Sorted(st.out.namespaces)
    requires Run(cfg, path, lines, i, j, st).Success?
    ensures Sorted(Run(cfg, path, lines, i, j, st).value.out.namespaces)
    ensures st.out.enums <= Run(cfg, path, lines, i, j, st).value.out.enums
    ensures st.out.introspectors <= Run(cfg, path, lines, i, j, st).value.out.introspectors
    decreases j - i
  {
    if i < j {
      RunAdvance(cfg, path, lines, i, j, st);
      StepInvariant(cfg, path, i, lines[i], st);
      var next := Step(cfg, path, i, lines[i], st).value;
      var last := Run(cfg, path, lines, i + 1, j, next).value;
      RunInvariant(cfg, path, lines, i + 1, j, next);
      PrefixTransitive(st.out.enums, next.out.enums, last.out.enums);
      PrefixTransitive(st.out.introspectors, next.out.introspectors, last.out.introspectors);
    }
  }

  /** A scan whose first step succeeds continues from that step's state. */
  lemma RunAdvance(cfg: Config, path: string, lines: seq<string>, i: nat, j: nat, st: State)
    requires i < j <= |lines|
    requires Run(cfg, path, lines, i, j, st).Success?
    ensures Step(cfg, path, i, lines[i], st).Success?
    ensures Run(cfg, path, lines, i, j, st) == Run(cfg, path, lines, i + 1, j, Step(cfg, path, i, lines[i], st).value)
  {
  }

  /** Being a prefix is transitive. */
  lemma PrefixTransitive<T>(a: seq<T>, b: seq<T>, c: seq<T>)
    requires a <= b && b <= c
    ensures a <= c
  {
    assert c[..|a|] == b[..|a|];
  }

  /** The field text of lines `i` up to `j` of an open block. */
  function BlockFields(cfg: Config, h: Header, lines: seq<string>, i: nat, j: nat): string
    requires i <= j <= |lines|
    decreases j - i
  {
    if i == j then ""
    else
      FieldFragment(cfg.formats, h, ClassifyLine(lines[i], IsEnumKind(h.kind), cfg.markers), lines[i])
      + BlockFields(cfg, h, lines, i + 1, j)
  }

  function BlockArgs(cfg: Config, h: Header, lines: seq<string>, i: nat, j: nat): string
    requires i <= j <= |lines|
    decreases j - i
  {
    if i == j then ""
    else
      ArgFragment(cfg.formats, h, ClassifyLine(lines[i], IsEnumKind(h.kind), cfg.markers), lines[i])
      + BlockArgs(cfg, h, lines, i + 1, j)
  }

  /** A line the block keeps reading past. */
  predicate Continues(cfg: Config, h: Header, line: string) {
    ClassifyLine(line, IsEnumKind(h.kind), cfg.markers) !in {EndOfBlock, Malformed, OutOfRange}
  }

  /** Lines `i` up to `j` all continue the block. */
  predicate BodyLines(cfg: Config, h: Header, lines: seq<string>, i: nat, j: nat)
    requires i <= j <= |lines|
    decreases j - i
  {
    i == j || (Continues(cfg, h, lines[i]) && BodyLines(cfg, h, lines, i + 1, j))
  }

  /** One line that continues a block adds its two fragments. */
  lemma StepContinues(cfg: Config, path: string, i: nat, line: string, b: Block, out: Output)
    requires Continues(cfg, b.header, line)
    ensures var c := ClassifyLine(line, IsEnumKind(b.header.kind), cfg.markers);
            Step(cfg, path, i, line, State(InBlock(b), out))
            == Success(State(InBlock(Block(b.header,
                                           b.fields + FieldFragment(cfg.formats, b.header, c, line),
                                           b.enumArgs + ArgFragment(cfg.formats, b.header, c, line))),
                             out))
  {
  }

  /** Inside a block, lines that neither end it nor fail add their
      fragments in source order, and nothing else changes. */
  lemma {:induction false} RunInBlock(cfg: Config, path: string, lines: seq<string>, i: nat, j: nat, b: Block, out: Output)
    requires i <= j <= |lines|
    requires BodyLines(cfg, b.header, lines, i, j)
    ensures Run(cfg, path, lines, i, j, State(InBlock(b), out))
            == Success(State(InBlock(Block(b.header,
                                           b.fields + BlockFields(cfg, b.header, lines, i, j),
                                           b.enumArgs + BlockArgs(cfg, b.header, lines, i, j))),
                             out))
    decreases j - i
  {
    if i < j {
      var h := b.header;
      var c := ClassifyLine(lines[i], IsEnumKind(h.kind), cfg.markers);
      var ff := FieldFragment(cfg.formats, h, c, lines[i]);
      var af := ArgFragment(cfg.formats, h, c, lines[i]);
      var b1 := Block(h, b.fields + ff, b.enumArgs + af);
      StepContinues(cfg, path, i, lines[i], b, out);
      RunInBlock(cfg, path, lines, i + 1, j, b1, out);
      Assoc(b.fields, ff, BlockFields(cfg, h, lines, i + 1, j));
      Assoc(b.enumArgs, af, BlockArgs(cfg, h, lines, i + 1, j));
      assert BlockFields(cfg, h, lines, i, j) == ff + BlockFields(cfg, h, lines, i + 1, j);
      assert BlockArgs(cfg, h, lines, i, j) == af + BlockArgs(cfg, h, lines, i + 1, j);
    } else {
      assert b.fields + "" == b.fields && b.enumArgs + "" == b.enumArgs;
    }
  }

  lemma Assoc(a: string, b: string, c: string)
    ensures (a + b) + c == a + (b + c)
  {
  }

  /** Running `i` up to `k` is running `i` up to `j` and then `j` up to
      `k`. */
  lemma {:induction false} RunSplit(cfg: Config, path: string, lines: seq<string>, i: nat, j: nat, k: nat, st: State)
    requires i <= j <= k <= |lines|
    ensures Run(cfg, path, lines, i, k, st)
            == match Run(cfg, path, lines, i, j, st)
               case Failure(e) => Failure(e)
               case Success(s) => Run(cfg, path, lines, j, k, s)
    decreases j - i
  {
    if i < j {
      match Step(cfg, path, i, lines[i], st)
      case Failure(e) =>
      case Success(next) => RunSplit(cfg, path, lines, i + 1, j, k, next);
    }
  }

  /** The content lines `i` to `j - 1` of an open block with header `h`
      and the ending marker on line `j`: the body is rendered from the
      content lines' fragments in source order. */
  lemma BlockThenClose(cfg: Config, path: string, lines: seq<string>, i: nat, j: nat, h: Header, out: Output)
    requires i <= j < |lines|
    requires BodyLines(cfg, h, lines, i, j)
    requires Contains(lines[j], cfg.markers.ending)
    ensures Run(cfg, path, lines, i, j + 1, State(InBlock(Block(h, "", "")), out))
            == AfterClose(cfg, path, j, Block(h, BlockFields(cfg, h, lines, i, j), BlockArgs(cfg, h, lines, i, j)), out)
  {
    var b := Block(h, BlockFields(cfg, h, lines, i, j), BlockArgs(cfg, h, lines, i, j));
    RunBlockBody(cfg, path, lines, i, j, h, out);
    RunOne(cfg, path, lines, j, State(InBlock(b), out));
    StepCloses(cfg, path, j, lines[j], b, out);
  }

  /** The line opens a block with header `h`. */
  predicate Opens(cfg: Config, line: string, h: Header) {
    && Find(line, cfg.markers.beginning, 0).Some?
    && ParseHeader(line[Find(line, cfg.markers.beginning, 0).value + |cfg.markers.beginning|..]) == Some(h)
  }

  /** The result of the step that closes block `b` on line `j`. */
  function AfterClose(cfg: Config, path: string, j: nat, b: Block, out: Output): Result<State, ScanError> {
    match CloseBlock(cfg.formats, b, out)
    case None => Failure(MissingEnumComma(j, path))
    case Some(o) => Success(State(Seeking, o))
  }

  /** A marker line with header `h` adds the forward declaration to the
      namespace buckets and opens an empty block. */
  lemma RunOpens(cfg: Config, path: string, lines: seq<string>, i: nat, k: nat, out: Output, h: Header, declared: Output)
    requires i < k <= |lines| && Opens(cfg, lines[i], h)
    requires declared == out.(namespaces := Declare(out.namespaces, h))
    ensures Run(cfg, path, lines, i, k, State(Seeking, out))
            == Run(cfg, path, lines, i + 1, k, State(InBlock(Block(h, "", "")), declared))
  {
    StepOpens(cfg, path, i, lines[i], out, h);
  }

  lemma RunBlockBody(cfg: Config, path: string, lines: seq<string>, i: nat, j: nat, h: Header, out: Output)
    requires i <= j < |lines|
    requires BodyLines(cfg, h, lines, i, j)
    ensures Run(cfg, path, lines, i, j + 1, State(InBlock(Block(h, "", "")), out))
            == Run(cfg, path, lines, j, j + 1,
                   State(InBlock(Block(h, BlockFields(cfg, h, lines, i, j), BlockArgs(cfg, h, lines, i, j))), out))
  {
    var b0 := Block(h, "", "");
    RunSplit(cfg, path, lines, i, j, j + 1, State(InBlock(b0), out));
    RunInBlock(cfg, path, lines, i, j, b0, out);
    assert "" + BlockFields(cfg, h, lines, i, j) == BlockFields(cfg, h, lines, i, j);
    assert "" + BlockArgs(cfg, h, lines, i, j) == BlockArgs(cfg, h, lines, i, j);
  }

  lemma RunOne(cfg: Config, path: string, lines: seq<string>, j: nat, st: State)
    requires j < |lines|
    ensures Run(cfg, path, lines, j, j + 1, st) == Step(cfg, path, j, lines[j], st)
  {
  }

  lemma StepOpens(cfg: Config, path: string, i: nat, line: string, out: Output, h: Header)
    requires Opens(cfg, line, h)
    ensures Step(cfg, path, i, line, State(Seeking, out))
            == Success(State(InBlock(Block(h, "", "")), out.(namespaces := Declare(out.namespaces, h))))
  {
  }

  lemma StepCloses(cfg: Config, path: string, j: nat, line: string, b: Block, out: Output)
    requires Contains(line, cfg.markers.ending)
    ensures Step(cfg, path, j, line, State(InBlock(b), out)) == AfterClose(cfg, path, j, b, out)
  {
  }

  /** For an enum whose argument text ends with the last constant's
      `name,` (and whatever follows holds no comma), closing removes exactly
      that comma. */
  lemma CloseEnumArgs(f: Formats, b: Block, out: Output, a: string, rest: string)
    requires IsEnumKind(b.header.kind)
    requires b.enumArgs == a + "," + rest
    requires forall k :: 0 <= k < |rest| ==> rest[k] != ','
    ensures CloseBlock(f, b, out)
            == Some(out.(enums := out.enums + Sprintf(f.enumBody, [TypeName(b.header), b.fields])
                                  + Sprintf(f.enumToArgs, [TypeName(b.header), a + rest])))
  {
    RemoveLastCommaOfAppend(a, rest);
  }

  /** A struct or class body gets the template parameters (with their
      leading separator, or nothing), the pointer type and the fields. */
  lemma CloseRecord(f: Formats, b: Block, out: Output)
    requires !IsEnumKind(b.header.kind)
    ensures CloseBlock(f, b, out)
            == Some(out.(introspectors := out.introspectors
                           + Sprintf(f.body, [TemplateParams(b.header.params),
                                              "const " + TypeName(b.header) + "* const",
                                              b.fields])))
  {
    ConstPointerText(TypeName(b.header));
  }
}
