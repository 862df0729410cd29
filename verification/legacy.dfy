/** The first generation of the generator: one kind of declaration (no
    `struct`/`class`/`enum` keyword, no namespaces, no enums), lenient field
    lines that print a diagnostic and carry on, a `pad` filter, and an
    optional one-file-per-type output with an include-all header. */
module Legacy {
  import opened Results
  import opened Text
  import opened Spellbook
  import opened Header
  import opened Classify
  import opened Scan

  /** What the old generator reads from its configuration files. */
  datatype LegacyConfig = LegacyConfig(
    beginning: string,
    ending: string,
    bodyFormat: string,
    fieldFormat: string,
    fileFormat: string,
    outputPath: string)

  /** Where the introspectors go: all into the output file, or (when the
      output path names a directory by ending in `.`) one file per type plus
      a header that includes them all. */
  datatype Target = SingleFile | PerType

  /** The marker line's words after the marker: the type name and then
      kind/name pairs. */
  datatype LegacyHeader = LegacyHeader(name: string, params: seq<Param>)

  /** Reading the header never fails: an empty stream leaves the name empty,
      and a dangling last word forms no parameter. */
  function ParseLegacyHeader(after: string): LegacyHeader {
    var toks := Words(after);
    LegacyHeader(TokenOr(toks, 0, ""), Pairs(Drop(toks, 1)))
  }

  /** Round trip: a name and parameters written as words separated by single
      spaces are read back. */
  lemma ParseLegacyHeaderOfText(name: string, ps: seq<Param>)
    requires IsWord(name)
    requires forall i :: 0 <= i < |ps| ==> IsWord(ps[i].kind) && IsWord(ps[i].name)
    ensures ParseLegacyHeader(Join([name] + Flatten(ps), " ")) == LegacyHeader(name, ps)
  {
    var ws := [name] + Flatten(ps);
    FlattenWords(ps);
    forall k | 0 <= k < |ws| ensures IsWord(ws[k]) {
      if k > 0 {
        assert ws[k] == Flatten(ps)[k - 1];
      }
    }
    WordsOfJoin(ws);
    assert Drop(ws, 1) == Flatten(ps);
    PairsOfFlatten(ps);
  }

  function ParamNames(ps: seq<Param>): seq<string> {
    seq(|ps|, i requires 0 <= i < |ps| => ps[i].name)
  }

  /** `<a, b>`: the parameter names only, without the pack expansion the
      later generator adds. */
  function LegacyArgumentList(ps: seq<Param>): string {
    if |ps| == 0 then "" else "<" + Join(ParamNames(ps), ", ") + ">"
  }

  /** Without parameter packs the two generators write the same argument
      list. */
  lemma LegacyArgumentListAgrees(ps: seq<Param>)
    requires forall i :: 0 <= i < |ps| ==> !Contains(ps[i].kind, "...")
    ensures LegacyArgumentList(ps) == ArgumentList(ps)
  {
    assert ArgNames(ps) == ParamNames(ps);
  }

  function LegacyTypeName(h: LegacyHeader): string {
    h.name + LegacyArgumentList(h.params)
  }

  // ---------------------------------------------------------------------
  // Field lines

  /** The field name with the later generator's bounds; a missing end
      (`npos`) runs the name to the end of the line. */
  function FieldName(line: string): string {
    NameAt(line, PosOrNpos(NameEnd(line)))
  }

  /** What a content line adds to the fields: a blank line is copied, a
      field called `pad` is dropped, any other name fills the field format. */
  function LineFields(fieldFormat: string, line: string): string {
    if AllSpace(line) then line + "\n"
    else if FieldName(line) == "pad" then ""
    else Sprintf(fieldFormat, [FieldName(line)])
  }

  /** The diagnostics a content line prints (line `k` of `path`): one when
      the name's end is missing, one when the name holds a bracket. Neither
      stops the run. */
  function LineDiagnostics(k: nat, path: string, line: string): seq<string> {
    if AllSpace(line) then []
    else
      (if NameEnd(line).None? then [ErrorText(k, path, line)] else [])
      + (if FindFirstOf(FieldName(line), "[]", 0).Some? then [ErrorText(k, path, line)] else [])
  }

  /** A usual declaration `type name;` with a name free of spaces and
      brackets adds its name through the format (nothing for `pad`) and
      prints nothing. */
  lemma LegacyDeclaration(fieldFormat: string, k: nat, path: string,
                          ind: string, ty: string, name: string, rest: string)
    requires Addressable(ind + ty + " " + name + ";" + rest)
    requires |ty| > 0 && !IsSpace(ty[0])
    requires forall i :: 0 <= i < |name| ==> name[i] != ' ' && name[i] !in "[]"
    requires forall i :: 0 <= i < |ty| ==> ty[i] != ';'
    requires forall i :: 0 <= i < |name| ==> name[i] != ';'
    requires forall i :: 0 <= i < |ind| ==> ind[i] != ';'
    requires !HasEq(ind + ty + " " + name + ";" + rest)
    ensures LineFields(fieldFormat, ind + ty + " " + name + ";" + rest)
            == (if name == "pad" then "" else Sprintf(fieldFormat, [name]))
    ensures LineDiagnostics(k, path, ind + ty + " " + name + ";" + rest) == []
  {
    var line := ind + ty + " " + name + ";" + rest;
    assert line[|ind|] == ty[0];
    assert !AllSpace(line);
    DeclarationFieldName(ind, ty, name, rest);
    FindFirstOfIsFirst(name, "[]", 0);
  }

  lemma DeclarationFieldName(ind: string, ty: string, name: string, rest: string)
    requires Addressable(ind + ty + " " + name + ";" + rest)
    requires forall i :: 0 <= i < |name| ==> name[i] != ' ' && name[i] != ';'
    requires forall i :: 0 <= i < |ty| ==> ty[i] != ';'
    requires forall i :: 0 <= i < |ind| ==> ind[i] != ';'
    requires !HasEq(ind + ty + " " + name + ";" + rest)
    ensures NameEnd(ind + ty + " " + name + ";" + rest).Some?
    ensures FieldName(ind + ty + " " + name + ";" + rest) == name
  {
    DeclarationEnd(ind, ty, name, rest);
    DeclarationName(ind, ty, name, rest);
  }

  /** A declaration with an initialiser, `type name = value;`, whose name is
      free of spaces and brackets adds its name through the format (nothing
      for `pad`) and prints nothing. */
  lemma LegacyInitialiser(fieldFormat: string, k: nat, path: string,
                          ind: string, ty: string, name: string, rest: string)
    requires Addressable(ind + ty + " " + name + " =" + rest)
    requires |ty| > 0 && !IsSpace(ty[0])
    requires forall i :: 0 <= i < |name| ==> name[i] != ' ' && name[i] !in "[]"
    requires !Contains(ind + ty + " " + name, " =")
    ensures LineFields(fieldFormat, ind + ty + " " + name + " =" + rest)
            == (if name == "pad" then "" else Sprintf(fieldFormat, [name]))
    ensures LineDiagnostics(k, path, ind + ty + " " + name + " =" + rest) == []
  {
    var line := ind + ty + " " + name + " =" + rest;
    assert line[|ind|] == ty[0];
    assert !AllSpace(line);
    InitialiserFieldName(ind, ty, name, rest);
    FindFirstOfIsFirst(name, "[]", 0);
  }

  lemma InitialiserFieldName(ind: string, ty: string, name: string, rest: string)
    requires Addressable(ind + ty + " " + name + " =" + rest)
    requires forall i :: 0 <= i < |name| ==> name[i] != ' '
    requires !Contains(ind + ty + " " + name, " =")
    ensures NameEnd(ind + ty + " " + name + " =" + rest).Some?
    ensures FieldName(ind + ty + " " + name + " =" + rest) == name
  {
    InitialiserEnd(ind, ty, name, rest);
    InitialiserName(ind, ty, name, rest);
  }

  /** With neither `" ="` (on a line holding `=`) nor `;`, the name is the
      text after the last space of the line (the whole line when it has no
      space), and a diagnostic is printed. */
  lemma NameWithoutEnd(k: nat, path: string, line: string)
    requires Addressable(line) && NameEnd(line).None? && !AllSpace(line)
    ensures var name := FieldName(line);
            && |name| <= |line|
            && name == line[|line| - |name|..]
            && (forall i :: 0 <= i < |name| ==> name[i] != ' ')
            && (|name| == |line| || line[|line| - |name| - 1] == ' ')
    ensures |LineDiagnostics(k, path, line)| > 0
  {
    var e := PosOrNpos(NameEnd(line));
    var p := if HasEq(line) then SizeDiff(e, 1) else e;
    var b := NameBegin(line, e);
    var name := FieldName(line);
    assert |line| <= p;
    assert SizeDiff(e, b) == e - b;
    assert name == line[b..];
    NameHasNoSpace(line, e);
  }

  /** Both generators read the same name from a field line. */
  lemma SameFieldName(line: string)
    requires ClassifyFieldLine(line).Field?
    ensures ClassifyFieldLine(line).name == FieldName(line)
  {
  }

  // ---------------------------------------------------------------------
  // Block bodies

  /** A block's content: the ending line's index, the fields text and the
      printed diagnostics. */
  datatype BodyScan = BodyScan(end: nat, fields: string, diagnostics: seq<string>)

  /** The file ends inside a block: the generator reads past its last line. */
  datatype LegacyError = RunsOffEnd(path: string)

  /** The content lines from `k` up to the first line holding the ending
      marker. */
  function ScanBody(cfg: LegacyConfig, path: string, lines: seq<string>, k: nat): (r: Result<BodyScan, LegacyError>)
    ensures r.Success? ==> k <= r.value.end < |lines|
    decreases |lines| - k
  {
    if k >= |lines| then Failure(RunsOffEnd(path))
    else if Contains(lines[k], cfg.ending) then Success(BodyScan(k, "", []))
    else
      match ScanBody(cfg, path, lines, k + 1)
      case Failure(e) => Failure(e)
      case Success(b) =>
        Success(BodyScan(b.end, LineFields(cfg.fieldFormat, lines[k]) + b.fields,
                         LineDiagnostics(k, path, lines[k]) + b.diagnostics))
  }

  /** Each line's contribution, in source order. */
  function FieldsOf(fieldFormat: string, ls: seq<string>): seq<string> {
    seq(|ls|, t requires 0 <= t < |ls| => LineFields(fieldFormat, ls[t]))
  }

  /** The body fails exactly when no line from `k` on holds the ending
      marker (the generator would read past the last line). */
  lemma {:induction false} ScanBodyEnd(cfg: LegacyConfig, path: string, lines: seq<string>, k: nat)
    ensures ScanBody(cfg, path, lines, k).Success?
            <==> exists e :: k <= e < |lines| && Contains(lines[e], cfg.ending)
    decreases |lines| - k
  {
    if k < |lines| && !Contains(lines[k], cfg.ending) {
      ScanBodySkip(cfg, path, lines, k);
      ScanBodyEnd(cfg, path, lines, k + 1);
      if exists e :: k <= e < |lines| && Contains(lines[e], cfg.ending) {
        var e :| k <= e < |lines| && Contains(lines[e], cfg.ending);
        assert k + 1 <= e;
      }
    }
  }

  /** A successful body ends at the first line holding the ending marker. */
  lemma {:induction false} ScanBodyFirstEnd(cfg: LegacyConfig, path: string, lines: seq<string>, k: nat)
    requires ScanBody(cfg, path, lines, k).Success?
    ensures var e := ScanBody(cfg, path, lines, k).value.end;
            && Contains(lines[e], cfg.ending)
            && forall t :: k <= t < e ==> !Contains(lines[t], cfg.ending)
    decreases |lines| - k
  {
    var e := ScanBody(cfg, path, lines, k).value.end;
    if !Contains(lines[k], cfg.ending) {
      ScanBodySkip(cfg, path, lines, k);
      ScanBodyFirstEnd(cfg, path, lines, k + 1);
      assert e == ScanBody(cfg, path, lines, k + 1).value.end;
      forall t | k <= t < e ensures !Contains(lines[t], cfg.ending) {
        if t != k {
          assert k + 1 <= t < e;
        }
      }
    } else {
      assert e == k;
    }
  }

  /** A content line passes the body's end on to the next line. */
  lemma ScanBodySkip(cfg: LegacyConfig, path: string, lines: seq<string>, k: nat)
    requires k < |lines| && !Contains(lines[k], cfg.ending)
    ensures ScanBody(cfg, path, lines, k).Success? == ScanBody(cfg, path, lines, k + 1).Success?
    ensures ScanBody(cfg, path, lines, k).Success? ==>
              ScanBody(cfg, path, lines, k).value.end == ScanBody(cfg, path, lines, k + 1).value.end
  {
  }

  /** The fields are the content lines' contributions concatenated in
      source order. */
  lemma {:induction false} ScanBodyFields(cfg: LegacyConfig, path: string, lines: seq<string>, k: nat)
    requires ScanBody(cfg, path, lines, k).Success?
    ensures var b := ScanBody(cfg, path, lines, k).value;
            b.fields == Concat(FieldsOf(cfg.fieldFormat, lines[k..b.end]))
    decreases |lines| - k
  {
    var b := ScanBody(cfg, path, lines, k).value;
    if Contains(lines[k], cfg.ending) {
      assert FieldsOf(cfg.fieldFormat, lines[k..b.end]) == [];
    } else {
      ScanBodyFields(cfg, path, lines, k + 1);
      var fs := FieldsOf(cfg.fieldFormat, lines[k..b.end]);
      assert fs[0] == LineFields(cfg.fieldFormat, lines[k]);
      assert fs[1..] == FieldsOf(cfg.fieldFormat, lines[k + 1..b.end]);
    }
  }

  // ---------------------------------------------------------------------
  // The scan

  /** A generated file: its path and contents. */
  datatype Generated = Generated(path: string, contents: string)

  /** The introspectors not yet written, the per-type files written so far
      and the diagnostics printed so far. */
  datatype LegacyState = LegacyState(intros: string, generated: seq<Generated>, diagnostics: seq<string>)

  const START: LegacyState := LegacyState("", [], [])

  function Introspector(cfg: LegacyConfig, h: LegacyHeader, fields: string): string {
    Sprintf(cfg.bodyFormat, [TemplateParams(h.params), LegacyTypeName(h), fields])
  }

  /** The per-type file of a type: `::` becomes `_`. */
  function PerTypeFileName(typeName: string): string {
    "introspect_" + ReplaceAll(typeName, "::", "_") + ".h"
  }

  /** A per-type file name is a valid file name: no `::` survives anywhere
      in it, neither inside the type's text nor across the fixed prefix and
      suffix around it. */
  lemma PerTypeFileNameClean(typeName: string)
    ensures !Contains(PerTypeFileName(typeName), "::")
  {
    var x := ReplaceAll(typeName, "::", "_");
    ReplaceAllRemovesAll(typeName, "::", "_");
    ContainsIff(PerTypeFileName(typeName), "::");
    forall j: nat ensures !MatchAt(PerTypeFileName(typeName), "::", j) {
      NoColonsAt(x, j);
    }
  }

  /** No `::` starts at `j` of `"introspect_" + x + ".h"` when `x` holds
      none: the prefix ends in `_` and the suffix starts with `.`. */
  lemma NoColonsAt(x: string, j: nat)
    requires !Contains(x, "::")
    ensures !MatchAt("introspect_" + x + ".h", "::", j)
  {
    var n := "introspect_" + x + ".h";
    var p := |"introspect_"|;
    ContainsIff(x, "::");
    if j + 1 < p {
      assert n[j] == "introspect_"[j] != "::"[0];
    } else if j + 1 == p {
      assert n[j] == '_' != "::"[0];
    } else if j + 2 <= p + |x| {
      assert !MatchAt(x, "::", j - p);
      assert x[j - p] == n[j] && x[j - p + 1] == n[j + 1];
    } else if j + 1 == p + |x| {
      assert n[j + 1] == '.' != "::"[1];
    } else if j == p + |x| {
      assert n[j] == '.' != "::"[0];
    }
  }

  /** A finished block: its introspector is appended; in per-type mode the
      accumulated text is written to the type's file and cleared. */
  function AddIntrospector(cfg: LegacyConfig, target: Target, st: LegacyState, h: LegacyHeader, b: BodyScan): LegacyState {
    var intros := st.intros + Introspector(cfg, h, b.fields);
    var diagnostics := st.diagnostics + b.diagnostics;
    match target
    case SingleFile => LegacyState(intros, st.generated, diagnostics)
    case PerType =>
      var name := PerTypeFileName(LegacyTypeName(h));
      LegacyState("", st.generated + [Generated(cfg.outputPath + name, Sprintf(cfg.fileFormat, [intros]))], diagnostics)
  }

  /** Where the scan goes on and with what state. */
  datatype Progress = Progress(next: nat, st: LegacyState)

  /** Line `i`: without the beginning marker the scan moves to the next
      line; with it, the block's header and body are read and the scan
      resumes after the block's ending line. */
  function Advance(cfg: LegacyConfig, target: Target, path: string, lines: seq<string>, i: nat, st: LegacyState): (r: Result<Progress, LegacyError>)
    requires i < |lines|
    ensures r.Success? ==> i < r.value.next <= |lines|
  {
    match Find(lines[i], cfg.beginning, 0)
    case None => Success(Progress(i + 1, st))
    case Some(p) =>
      var h := ParseLegacyHeader(lines[i][p + |cfg.beginning|..]);
      match ScanBody(cfg, path, lines, i + 1)
      case Failure(e) => Failure(e)
      case Success(b) => Success(Progress(b.end + 1, AddIntrospector(cfg, target, st, h, b)))
  }

  /** Lines `i` onwards of one file. */
  function Walk(cfg: LegacyConfig, target: Target, path: string, lines: seq<string>, i: nat, st: LegacyState): Result<LegacyState, LegacyError>
    decreases |lines| - i
  {
    if i >= |lines| then Success(st)
    else
      match Advance(cfg, target, path, lines, i, st)
      case Failure(e) => Failure(e)
      case Success(pr) => Walk(cfg, target, path, lines, pr.next, pr.st)
  }

  function WalkFiles(cfg: LegacyConfig, target: Target, files: seq<SourceFile>, st: LegacyState): Result<LegacyState, LegacyError>
    decreases |files|
  {
    if |files| == 0 then Success(st)
    else
      match Walk(cfg, target, files[0].path, files[0].lines, 0, st)
      case Failure(e) => Failure(e)
      case Success(next) => WalkFiles(cfg, target, files[1..], next)
  }

  const INCLUDE_LINE_FORMAT: string := "#include \"%x\"\n"

  /** The include-all header: one include line per generated file name. */
  function IncludeAll(names: seq<string>): string
    decreases |names|
  {
    if |names| == 0 then "" else Sprintf(INCLUDE_LINE_FORMAT, [names[0]]) + IncludeAll(names[1..])
  }

  /** Each include line quotes its file name as it is, whatever it holds. */
  lemma {:induction false} IncludeAllText(names: seq<string>)
    ensures IncludeAll(names)
            == Concat(seq(|names|, i requires 0 <= i < |names| => "#include \"" + names[i] + "\"\n"))
    decreases |names|
  {
    var lines := seq(|names|, i requires 0 <= i < |names| => "#include \"" + names[i] + "\"\n");
    if |names| > 0 {
      SprintfSingle("#include \"", 'x', "\"\n", names[0]);
      assert INCLUDE_LINE_FORMAT == "#include \"" + ['%', 'x'] + "\"\n";
      IncludeAllText(names[1..]);
      assert lines[1..] == seq(|names[1..]|, i requires 0 <= i < |names[1..]| => "#include \"" + names[1..][i] + "\"\n");
    }
  }

  /** The generated files' names without the output directory. */
  function FileNames(cfg: LegacyConfig, gs: seq<Generated>): seq<string> {
    seq(|gs|, i requires 0 <= i < |gs| =>
      var p := gs[i].path;
      if |cfg.outputPath| <= |p| then p[|cfg.outputPath|..] else p)
  }

  /** The files written and the diagnostics printed by a whole run. */
  datatype LegacyOutput = LegacyOutput(files: seq<Generated>, diagnostics: seq<string>)

  function LegacyGenerate(cfg: LegacyConfig, target: Target, files: seq<SourceFile>): Result<LegacyOutput, LegacyError> {
    match WalkFiles(cfg, target, files, START)
    case Failure(e) => Failure(e)
    case Success(st) =>
      match target
      case SingleFile =>
        Success(LegacyOutput([Generated(cfg.outputPath, Sprintf(cfg.fileFormat, [st.intros]))], st.diagnostics))
      case PerType =>
        var includeAll := Generated(cfg.outputPath + "include_all_introspectors.h", IncludeAll(FileNames(cfg, st.generated)));
        Success(LegacyOutput(st.generated + [includeAll], st.diagnostics))
  }

  // ---------------------------------------------------------------------
  // Properties of the scan

  /** In per-type mode the accumulator is empty after every block, so each
      type's file holds that type's introspector alone. */
  lemma AddIntrospectorPerType(cfg: LegacyConfig, st: LegacyState, h: LegacyHeader, b: BodyScan)
    requires st.intros == ""
    ensures var next := AddIntrospector(cfg, PerType, st, h, b);
            && next.intros == ""
            && next.generated == st.generated
               + [Generated(cfg.outputPath + PerTypeFileName(LegacyTypeName(h)),
                            Sprintf(cfg.fileFormat, [Introspector(cfg, h, b.fields)]))]
  {
    assert "" + Introspector(cfg, h, b.fields) == Introspector(cfg, h, b.fields);
  }

  /** One step in per-type mode keeps the accumulator empty and only
      appends files and diagnostics. */
  lemma AdvancePerType(cfg: LegacyConfig, path: string, lines: seq<string>, i: nat, st: LegacyState)
    requires i < |lines| && st.intros == ""
    requires Advance(cfg, PerType, path, lines, i, st).Success?
    ensures var next := Advance(cfg, PerType, path, lines, i, st).value.st;
            && next.intros == ""
            && st.generated <= next.generated
            && st.diagnostics <= next.diagnostics
  {
    match Find(lines[i], cfg.beginning, 0)
    case None =>
    case Some(p) =>
      var h := ParseLegacyHeader(lines[i][p + |cfg.beginning|..]);
      var b := ScanBody(cfg, path, lines, i + 1).value;
      AddIntrospectorPerType(cfg, st, h, b);
  }

  /** Per-type mode: the accumulator stays empty through a file, files are
      only added, and diagnostics only appended. */
  lemma {:induction false} WalkPerType(cfg: LegacyConfig, path: string, lines: seq<string>, i: nat, st: LegacyState)
    requires st.intros == ""
    requires Walk(cfg, PerType, path, lines, i, st).Success?
    ensures var last := Walk(cfg, PerType, path, lines, i, st).value;
            && last.intros == ""
            && st.generated <= last.generated
            && st.diagnostics <= last.diagnostics
    decreases |lines| - i
  {
    if i < |lines| {
      var pr := Advance(cfg, PerType, path, lines, i, st).value;
      AdvancePerType(cfg, path, lines, i, st);
      WalkPerType(cfg, path, lines, pr.next, pr.st);
      var last := Walk(cfg, PerType, path, lines, pr.next, pr.st).value;
      PrefixTransitive(st.generated, pr.st.generated, last.generated);
      PrefixTransitive(st.diagnostics, pr.st.diagnostics, last.diagnostics);
    }
  }

  /** One step in single-file mode writes nothing and only appends. */
  lemma AdvanceSingleFile(cfg: LegacyConfig, path: string, lines: seq<string>, i: nat, st: LegacyState)
    requires i < |lines|
    requires Advance(cfg, SingleFile, path, lines, i, st).Success?
    ensures var next := Advance(cfg, SingleFile, path, lines, i, st).value.st;
            && next.generated == st.generated
            && st.intros <= next.intros
            && st.diagnostics <= next.diagnostics
  {
  }

  /** Single-file mode: nothing is written during the scan, and the
      introspectors and diagnostics are only appended to. */
  lemma {:induction false} WalkSingleFile(cfg: LegacyConfig, path: string, lines: seq<string>, i: nat, st: LegacyState)
    requires Walk(cfg, SingleFile, path, lines, i, st).Success?
    ensures var last := Walk(cfg, SingleFile, path, lines, i, st).value;
            && last.generated == st.generated
            && st.intros <= last.intros
            && st.diagnostics <= last.diagnostics
    decreases |lines| - i
  {
    if i < |lines| {
      var pr := Advance(cfg, SingleFile, path, lines, i, st).value;
      AdvanceSingleFile(cfg, path, lines, i, st);
      WalkSingleFile(cfg, path, lines, pr.next, pr.st);
      var last := Walk(cfg, SingleFile, path, lines, pr.next, pr.st).value;
      PrefixTransitive(st.intros, pr.st.intros, last.intros);
      PrefixTransitive(st.diagnostics, pr.st.diagnostics, last.diagnostics);
    }
  }

  /** A file without the beginning marker leaves the state as it was. */
  lemma {:induction false} WalkWithoutMarker(cfg: LegacyConfig, target: Target, path: string, lines: seq<string>, i: nat, st: LegacyState)
    requires forall k :: i <= k < |lines| ==> !Contains(lines[k], cfg.beginning)
    ensures Walk(cfg, target, path, lines, i, st) == Success(st)
    decreases |lines| - i
  {
    if i < |lines| {
      WalkWithoutMarker(cfg, target, path, lines, i + 1, st);
    }
  }

  /** Files without the beginning marker leave the state as it was. */
  lemma {:induction false} WalkFilesWithoutMarker(cfg: LegacyConfig, target: Target, files: seq<SourceFile>, st: LegacyState)
    requires forall f, k :: 0 <= f < |files| && 0 <= k < |files[f].lines| ==> !Contains(files[f].lines[k], cfg.beginning)
    ensures WalkFiles(cfg, target, files, st) == Success(st)
    decreases |files|
  {
    if |files| > 0 {
      WalkWithoutMarker(cfg, target, files[0].path, files[0].lines, 0, st);
      assert forall f, k :: 0 <= f < |files[1..]| && 0 <= k < |files[1..][f].lines| ==> !Contains(files[1..][f].lines[k], cfg.beginning) by {
        forall f, k | 0 <= f < |files[1..]| && 0 <= k < |files[1..][f].lines|
          ensures !Contains(files[1..][f].lines[k], cfg.beginning)
        {
          assert files[1..][f] == files[f + 1];
        }
      }
      WalkFilesWithoutMarker(cfg, target, files[1..], st);
    }
  }

  /** Without any block, single-file mode writes the file format filled with
      nothing, and per-type mode writes only an empty include-all header. */
  lemma GenerateWithoutBlocks(cfg: LegacyConfig, target: Target, files: seq<SourceFile>)
    requires forall f, k :: 0 <= f < |files| && 0 <= k < |files[f].lines| ==> !Contains(files[f].lines[k], cfg.beginning)
    ensures target == SingleFile ==>
              LegacyGenerate(cfg, target, files)
              == Success(LegacyOutput([Generated(cfg.outputPath, Sprintf(cfg.fileFormat, [""]))], []))
    ensures target == PerType ==>
              LegacyGenerate(cfg, target, files)
              == Success(LegacyOutput([Generated(cfg.outputPath + "include_all_introspectors.h", "")], []))
  {
    WalkFilesWithoutMarker(cfg, target, files, START);
    var includeAll := Generated(cfg.outputPath + "include_all_introspectors.h", "");
    assert FileNames(cfg, []) == [];
    assert IncludeAll([]) == "";
    assert [] + [includeAll] == [includeAll];
  }

  /** Per-type mode over many files: the accumulator stays empty, so the
      final state holds no unwritten introspector. */
  lemma {:induction false} WalkFilesPerType(cfg: LegacyConfig, files: seq<SourceFile>, st: LegacyState)
    requires st.intros == ""
    requires WalkFiles(cfg, PerType, files, st).Success?
    ensures var last := WalkFiles(cfg, PerType, files, st).value;
            && last.intros == ""
            && st.generated <= last.generated
    decreases |files|
  {
    if |files| > 0 {
      var next := Walk(cfg, PerType, files[0].path, files[0].lines, 0, st).value;
      WalkPerType(cfg, files[0].path, files[0].lines, 0, st);
      WalkFilesPerType(cfg, files[1..], next);
      PrefixTransitive(st.generated, next.generated, WalkFiles(cfg, PerType, files[1..], next).value.generated);
    }
  }

  /** Single-file mode over many files writes nothing before the end. */
  lemma {:induction false} WalkFilesSingleFile(cfg: LegacyConfig, files: seq<SourceFile>, st: LegacyState)
    requires WalkFiles(cfg, SingleFile, files, st).Success?
    ensures var last := WalkFiles(cfg, SingleFile, files, st).value;
            && last.generated == st.generated
            && st.intros <= last.intros
    decreases |files|
  {
    if |files| > 0 {
      var next := Walk(cfg, SingleFile, files[0].path, files[0].lines, 0, st).value;
      WalkSingleFile(cfg, files[0].path, files[0].lines, 0, st);
      WalkFilesSingleFile(cfg, files[1..], next);
      PrefixTransitive(st.intros, next.intros, WalkFiles(cfg, SingleFile, files[1..], next).value.intros);
    }
  }

  /** Single-file mode writes exactly one file, at the output path. */
  lemma GenerateSingleFile(cfg: LegacyConfig, files: seq<SourceFile>)
    requires LegacyGenerate(cfg, SingleFile, files).Success?
    ensures var o := LegacyGenerate(cfg, SingleFile, files).value;
            |o.files| == 1 && o.files[0].path == cfg.outputPath
  {
    WalkFilesSingleFile(cfg, files, START);
  }
}
