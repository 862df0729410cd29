/** What the generator makes of one line inside a marked block: the end of
    the block, a line copied through, an enum constant, a base-introspector
    reference, a skipped access specifier or declaration, a field with its
    name and type, or a line it rejects. The field-name bounds are shared
    with the older engine, which reads names the same way. */
module Classify {
  import opened Results
  import opened Text

  /** The marker lines a configuration provides. */
  datatype Markers = Markers(beginning: string, ending: string, base: string)

  datatype LineClass =
    | EndOfBlock
      /** A preprocessor or blank line, copied into the generated text. */
    | PassThrough
    | EnumConstant(name: string)
      /** A base-introspector marker and the type name that follows it. */
    | BaseRef(base: string)
    | Skipped
    | Field(name: string, fieldType: string)
      /** `errcheck` fails: the generator reports the line and stops. */
    | Malformed
      /** `substr` is asked for a start past the end of the line and throws
          `std::out_of_range`. */
    | OutOfRange

  /** The characters `find_first_not_of(" \t\r")` skips. */
  const BLANKS: string := " \t\r"

  /** The characters that end an enum constant's name. */
  const ENUM_NAME_END: string := "=, \t\r"

  /** A line that contains one of these is not a field. */
  const SKIP_KEYWORDS: seq<string> :=
    ["private:", "protected:", "public:", "friend ", "using ", "typedef "]

  predicate HasSkipKeyword(line: string) {
    exists k :: 0 <= k < |SKIP_KEYWORDS| && Contains(line, SKIP_KEYWORDS[k])
  }

  /** `line[0] == '#'` (the terminating character of an empty line is not
      `#`) or every character is whitespace. */
  predicate IsPassThrough(line: string) {
    (|line| > 0 && line[0] == '#') || AllSpace(line)
  }

  // ---------------------------------------------------------------------
  // Field-name bounds

  predicate HasEq(line: string) {
    FindChar(line, '=', 0).Some?
  }

  /** Where the field name ends: at `" ="` when the line holds an `=`, at
      the first `;` otherwise. */
  function NameEnd(line: string): Option<nat> {
    if HasEq(line) then Find(line, " =", 0) else FindChar(line, ';', 0)
  }

  /** Where the field name begins, one past the last space before its end
      `e` (a `size_t`, possibly `npos`); `rfind` returning `npos` makes it 0,
      and `e - 1` wraps when `e` is 0. */
  function NameBegin(line: string, e: nat): (b: nat)
    ensures b <= |line|
  {
    StartAfter(RFindChar(line, ' ', if HasEq(line) then SizeDiff(e, 1) else e))
  }

  /** `line.substr(b, e - b)` with the bounds above. */
  function NameAt(line: string, e: nat): string {
    var b := NameBegin(line, e);
    Substr(line, b, SizeDiff(e, b))
  }

  /** The name ends within the line, after the name begins: `" ="` is found
      past 0, or the `;` is found. */
  lemma NameEndAfterBegin(line: string, e: nat)
    requires NameEnd(line) == Some(e) && (HasEq(line) ==> e > 0)
    ensures NameBegin(line, e) <= e < |line|
    ensures line[e] == (if HasEq(line) then ' ' else ';')
  {
    if HasEq(line) {
      FindIsFirstMatch(line, " =", 0);
      assert line[e] == " ="[0];
    }
  }

  /** The field name never contains a space: it starts after the last space
      before its end, and when the end wraps or is missing it runs to the end
      of the line, past the last space of all. */
  lemma NameHasNoSpace(line: string, e: nat)
    requires Addressable(line) && e == PosOrNpos(NameEnd(line))
    ensures forall i :: 0 <= i < |NameAt(line, e)| ==> NameAt(line, e)[i] != ' '
  {
    var p := if HasEq(line) then SizeDiff(e, 1) else e;
    var r := RFindChar(line, ' ', p);
    var b := NameBegin(line, e);
    var name := NameAt(line, e);
    assert name == line[b..b + |name|];
    if NameEnd(line).Some? && (HasEq(line) ==> e > 0) {
      NameEndAfterBegin(line, e);
      assert b + |name| <= p + 1;
    } else {
      assert |line| <= p + 1;
    }
    forall i | 0 <= i < |name| ensures name[i] != ' ' {
      assert name[i] == line[b + i];
    }
  }

  // ---------------------------------------------------------------------
  // Enum lines

  /** An enum constant: from the first non-blank character up to the first
      of `=`, `,`, or blank after it (or the end of the line). */
  function ClassifyEnumLine(line: string): LineClass {
    match FindFirstNotOf(line, BLANKS, 0)
    case None => Malformed
    case Some(b) =>
      var e := match FindFirstOf(line, ENUM_NAME_END, b)
               case None => |line|
               case Some(e) => e;
      EnumConstant(line[b..e])
  }

  /** A line that is not all whitespace has a first non-blank character, so
      the check on it never fails. */
  lemma EnumLineHasStart(line: string)
    ensures !AllSpace(line) ==> FindFirstNotOf(line, BLANKS, 0).Some?
  {
    if FindFirstNotOf(line, BLANKS, 0).None? {
      forall i | 0 <= i < |line| ensures IsSpace(line[i]) {
        assert line[i] in BLANKS;
      }
    }
  }

  /** An enum constant holds none of the characters that end it. */
  lemma EnumConstantChars(line: string)
    requires ClassifyEnumLine(line).EnumConstant?
    ensures forall i :: 0 <= i < |ClassifyEnumLine(line).name| ==>
              ClassifyEnumLine(line).name[i] !in ENUM_NAME_END
  {
    var b := FindFirstNotOf(line, BLANKS, 0).value;
    FindFirstOfIsFirst(line, ENUM_NAME_END, b);
    var name := ClassifyEnumLine(line).name;
    forall i | 0 <= i < |name| ensures name[i] !in ENUM_NAME_END {
      assert name[i] == line[b + i];
    }
  }

  /** Round trip: blanks, a name free of its end characters, and anything
      starting with an end character (or nothing) give back the name. */
  lemma ClassifyEnumConstant(ind: string, name: string, tail: string)
    requires forall k :: 0 <= k < |ind| ==> ind[k] in BLANKS
    requires |name| > 0 && forall k :: 0 <= k < |name| ==> name[k] !in ENUM_NAME_END
    requires |tail| == 0 || tail[0] in ENUM_NAME_END
    ensures ClassifyEnumLine(ind + name + tail) == EnumConstant(name)
  {
    var line := ind + name + tail;
    var s := |ind|;
    var e := |ind| + |name|;
    assert line[s] == name[0];
    assert forall k :: 0 <= k < s ==> line[k] == ind[k];
    assert FindFirstNotOf(line, BLANKS, 0) == Some(s);
    FindFirstOfIsFirst(line, ENUM_NAME_END, s);
    assert forall k :: s <= k < e ==> line[k] == name[k - s];
    if |tail| == 0 {
      assert FindFirstOf(line, ENUM_NAME_END, s).None?;
    } else {
      assert line[e] == tail[0];
      assert FindFirstOf(line, ENUM_NAME_END, s) == Some(e);
    }
    assert line[s..e] == name;
  }

  // ---------------------------------------------------------------------
  // Field lines

  /** A field: the name by the bounds above, the type from the first
      non-blank character up to the space before the name (the count
      `b - t - 1` wraps when the name starts at or before the type). */
  function ClassifyFieldLine(line: string): LineClass {
    match NameEnd(line)
    case None => Malformed
    case Some(e) =>
      var b := NameBegin(line, e);
      var name := NameAt(line, e);
      match FindFirstNotOf(line, BLANKS, 0)
      case None => OutOfRange
      case Some(t) =>
        var fieldType := Substr(line, t, SizeDiff(SizeDiff(b, t), 1));
        if FindFirstOf(name, "[]", 0).Some? then Malformed else Field(name, fieldType)
  }

  /** A rejected field line is one whose name end is missing or whose name
      holds a bracket; the type is always found. */
  lemma FieldMalformedIff(line: string)
    ensures ClassifyFieldLine(line) != OutOfRange
    ensures ClassifyFieldLine(line) == Malformed <==>
              NameEnd(line).None?
              || exists i :: 0 <= i < |NameAt(line, NameEnd(line).value)|
                             && NameAt(line, NameEnd(line).value)[i] in "[]"
  {
    if NameEnd(line).Some? {
      var e := NameEnd(line).value;
      if HasEq(line) {
        FindIsFirstMatch(line, " =", 0);
        assert line[e + 1] == " ="[1];
        FieldTypeFound(line, e + 1);
      } else {
        FieldTypeFound(line, e);
      }
      var name := NameAt(line, e);
      FindFirstOfIsFirst(name, "[]", 0);
    }
  }

  lemma FieldTypeFound(line: string, k: nat)
    requires k < |line| && line[k] !in BLANKS
    ensures FindFirstNotOf(line, BLANKS, 0).Some?
  {
  }

  /** Round trip for the usual declaration `type name;`: indentation, a
      type, one space, a name without spaces or brackets, `;` and anything
      after it (with no `=` on the line) give back the name and the type. */
  lemma ClassifyDeclaration(ind: string, ty: string, name: string, rest: string)
    requires Addressable(ind + ty + " " + name + ";" + rest)
    requires forall k :: 0 <= k < |ind| ==> ind[k] in BLANKS
    requires |ty| > 0 && ty[0] !in BLANKS
    requires forall k :: 0 <= k < |name| ==> name[k] != ' ' && name[k] !in "[]"
    requires forall k :: 0 <= k < |ty| ==> ty[k] != ';'
    requires forall k :: 0 <= k < |name| ==> name[k] != ';'
    requires forall k :: 0 <= k < |ind| ==> ind[k] != ';'
    requires !HasEq(ind + ty + " " + name + ";" + rest)
    ensures ClassifyFieldLine(ind + ty + " " + name + ";" + rest) == Field(name, ty)
  {
    var line := ind + ty + " " + name + ";" + rest;
    var e := |ind| + |ty| + 1 + |name|;
    DeclarationEnd(ind, ty, name, rest);
    DeclarationName(ind, ty, name, rest);
    DeclarationType(ind, ty, name, rest);
    DeclarationTypeText(ind, ty, name, rest);
    FieldOfBounds(line, e, |ind|, name, ty);
  }

  lemma DeclarationName(ind: string, ty: string, name: string, rest: string)
    requires Addressable(ind + ty + " " + name + ";" + rest)
    requires forall k :: 0 <= k < |name| ==> name[k] != ' '
    requires !HasEq(ind + ty + " " + name + ";" + rest)
    ensures NameBegin(ind + ty + " " + name + ";" + rest, |ind| + |ty| + 1 + |name|) == |ind| + |ty| + 1
    ensures NameAt(ind + ty + " " + name + ";" + rest, |ind| + |ty| + 1 + |name|) == name
  {
    var line := ind + ty + " " + name + ";" + rest;
    var b := |ind| + |ty| + 1;
    var e := b + |name|;
    DeclarationSpace(ind, ty, name, rest);
    assert NameBegin(line, e) == b;
    assert SizeDiff(e, b) == |name|;
    assert line[b..e] == name;
  }

  lemma DeclarationTypeText(ind: string, ty: string, name: string, rest: string)
    requires Addressable(ind + ty + " " + name + ";" + rest)
    ensures Substr(ind + ty + " " + name + ";" + rest, |ind|,
                   SizeDiff(SizeDiff(|ind| + |ty| + 1, |ind|), 1)) == ty
  {
    var line := ind + ty + " " + name + ";" + rest;
    assert SizeDiff(SizeDiff(|ind| + |ty| + 1, |ind|), 1) == |ty|;
    assert line[|ind|..|ind| + |ty|] == ty;
  }

  lemma DeclarationEnd(ind: string, ty: string, name: string, rest: string)
    requires forall k :: 0 <= k < |ty| ==> ty[k] != ';'
    requires forall k :: 0 <= k < |name| ==> name[k] != ';'
    requires forall k :: 0 <= k < |ind| ==> ind[k] != ';'
    requires !HasEq(ind + ty + " " + name + ";" + rest)
    ensures NameEnd(ind + ty + " " + name + ";" + rest) == Some(|ind| + |ty| + 1 + |name|)
  {
    var line := ind + ty + " " + name + ";" + rest;
    var e := |ind| + |ty| + 1 + |name|;
    assert line[e] == ';';
    FindCharIsFirst(line, ';', 0);
    forall k | 0 <= k < e ensures line[k] != ';' {
      if k < |ind| {
        assert line[k] == ind[k];
      } else if k < |ind| + |ty| {
        assert line[k] == ty[k - |ind|];
      } else if k > |ind| + |ty| {
        assert line[k] == name[k - |ind| - |ty| - 1];
      }
    }
  }

  lemma DeclarationSpace(ind: string, ty: string, name: string, rest: string)
    requires forall k :: 0 <= k < |name| ==> name[k] != ' '
    ensures RFindChar(ind + ty + " " + name + ";" + rest, ' ', |ind| + |ty| + 1 + |name|)
            == Some(|ind| + |ty|)
  {
    var line := ind + ty + " " + name + ";" + rest;
    var sp := |ind| + |ty|;
    var e := sp + 1 + |name|;
    assert line[sp] == ' ';
    assert line[e] == ';';
    forall k | sp < k < e ensures line[k] != ' ' {
      assert line[k] == name[k - sp - 1];
    }
  }

  lemma DeclarationType(ind: string, ty: string, name: string, rest: string)
    requires forall k :: 0 <= k < |ind| ==> ind[k] in BLANKS
    requires |ty| > 0 && ty[0] !in BLANKS
    ensures FindFirstNotOf(ind + ty + " " + name + ";" + rest, BLANKS, 0) == Some(|ind|)
  {
    var line := ind + ty + " " + name + ";" + rest;
    assert line[|ind|] == ty[0];
    assert forall k :: 0 <= k < |ind| ==> line[k] == ind[k];
  }

  /** Round trip for a declaration with an initialiser, `type name = value;`:
      the name ends at the first `" ="` and begins after the last space
      before the character ahead of it. Indentation, a type, one space, a
      name without spaces or brackets, then `" ="` and anything after it give
      back the name and the type, provided `" ="` does not occur earlier. */
  lemma ClassifyInitialiser(ind: string, ty: string, name: string, rest: string)
    requires Addressable(ind + ty + " " + name + " =" + rest)
    requires forall k :: 0 <= k < |ind| ==> ind[k] in BLANKS
    requires |ty| > 0 && ty[0] !in BLANKS
    requires forall k :: 0 <= k < |name| ==> name[k] != ' ' && name[k] !in "[]"
    requires !Contains(ind + ty + " " + name, " =")
    ensures ClassifyFieldLine(ind + ty + " " + name + " =" + rest) == Field(name, ty)
  {
    var line := ind + ty + " " + name + " =" + rest;
    var e := |ind| + |ty| + 1 + |name|;
    InitialiserEnd(ind, ty, name, rest);
    InitialiserName(ind, ty, name, rest);
    InitialiserType(ind, ty, name, rest);
    FieldOfBounds(line, e, |ind|, name, ty);
  }

  /** A line whose name end, name, type start and type are known, and whose
      name holds no bracket, is that field. */
  lemma FieldOfBounds(line: string, e: nat, t: nat, name: string, ty: string)
    requires NameEnd(line) == Some(e) && NameAt(line, e) == name
    requires FindFirstNotOf(line, BLANKS, 0) == Some(t)
    requires Substr(line, t, SizeDiff(SizeDiff(NameBegin(line, e), t), 1)) == ty
    requires forall k :: 0 <= k < |name| ==> name[k] !in "[]"
    ensures ClassifyFieldLine(line) == Field(name, ty)
  {
  }

  /** The first `" ="` of an initialised declaration is the one after the
      name. */
  lemma InitialiserEnd(ind: string, ty: string, name: string, rest: string)
    requires !Contains(ind + ty + " " + name, " =")
    ensures HasEq(ind + ty + " " + name + " =" + rest)
    ensures NameEnd(ind + ty + " " + name + " =" + rest) == Some(|ind| + |ty| + 1 + |name|)
  {
    var pre := ind + ty + " " + name;
    var line := pre + " =" + rest;
    var e := |pre|;
    assert line[e + 1] == '=';
    FindCharIsFirst(line, '=', 0);
    assert HasEq(line);
    assert MatchAt(line, " =", e);
    ContainsIff(pre, " =");
    forall j | 0 <= j < e ensures !MatchAt(line, " =", j) {
      if j + 1 < e {
        if MatchAt(line, " =", j) {
          assert pre[j] == line[j] && pre[j + 1] == line[j + 1];
          assert MatchAt(pre, " =", j);
        }
      } else {
        assert line[j + 1] == ' ';
      }
    }
    FindIsFirstMatch(line, " =", 0);
    var f := Find(line, " =", 0);
    assert f.Some? && f.value == e;
  }

  /** The name of an initialised declaration begins after the space that
      follows the type. */
  lemma InitialiserName(ind: string, ty: string, name: string, rest: string)
    requires Addressable(ind + ty + " " + name + " =" + rest)
    requires HasEq(ind + ty + " " + name + " =" + rest)
    requires forall k :: 0 <= k < |name| ==> name[k] != ' '
    ensures NameBegin(ind + ty + " " + name + " =" + rest, |ind| + |ty| + 1 + |name|) == |ind| + |ty| + 1
    ensures NameAt(ind + ty + " " + name + " =" + rest, |ind| + |ty| + 1 + |name|) == name
  {
    var line := ind + ty + " " + name + " =" + rest;
    var sp := |ind| + |ty|;
    var e := sp + 1 + |name|;
    assert SizeDiff(e, 1) == e - 1;
    assert line[sp] == ' ';
    forall k | sp < k <= e - 1 ensures line[k] != ' ' {
      assert line[k] == name[k - sp - 1];
    }
    assert RFindChar(line, ' ', e - 1) == Some(sp);
    assert NameBegin(line, e) == sp + 1;
    assert SizeDiff(e, sp + 1) == |name|;
    assert line[sp + 1..e] == name;
  }

  /** The type of an initialised declaration is the text between the
      indentation and the space before the name. */
  lemma InitialiserType(ind: string, ty: string, name: string, rest: string)
    requires Addressable(ind + ty + " " + name + " =" + rest)
    requires forall k :: 0 <= k < |ind| ==> ind[k] in BLANKS
    requires |ty| > 0 && ty[0] !in BLANKS
    ensures FindFirstNotOf(ind + ty + " " + name + " =" + rest, BLANKS, 0) == Some(|ind|)
    ensures Substr(ind + ty + " " + name + " =" + rest, |ind|,
                   SizeDiff(SizeDiff(|ind| + |ty| + 1, |ind|), 1)) == ty
  {
    var line := ind + ty + " " + name + " =" + rest;
    assert line[|ind|] == ty[0];
    assert forall k :: 0 <= k < |ind| ==> line[k] == ind[k];
    assert SizeDiff(SizeDiff(|ind| + |ty| + 1, |ind|), 1) == |ty|;
    assert line[|ind|..|ind| + |ty|] == ty;
  }

  // ---------------------------------------------------------------------
  // Whole lines

  /** One line of a block, in the order the generator tests it: the ending
      marker, pass-through lines, then enum constants for enums and, for
      structs and classes, base markers, skip keywords and fields. */
  function ClassifyLine(line: string, isEnum: bool, m: Markers): LineClass {
    if Contains(line, m.ending) then EndOfBlock
    else if IsPassThrough(line) then PassThrough
    else if isEnum then ClassifyEnumLine(line)
    else ClassifyMemberLine(line, m.base)
  }

  /** A line of a struct or class block past the first two tests. */
  function ClassifyMemberLine(line: string, base: string): LineClass {
    match Find(line, base, 0)
    case Some(k) =>
      if k + |base| + 1 <= |line| then BaseRef(line[k + |base| + 1..]) else OutOfRange
    case None =>
      if HasSkipKeyword(line) then Skipped else ClassifyFieldLine(line)
  }

  /** Enum blocks hold only constants and pass-through lines: no check on an
      enum line fails and nothing is thrown. */
  lemma EnumLinesNeverFail(line: string, m: Markers)
    ensures ClassifyLine(line, true, m) in {EndOfBlock, PassThrough}
            || ClassifyLine(line, true, m).EnumConstant?
  {
    EnumLineHasStart(line);
  }

  /** The base type name is what follows the marker and one separating
      character; the lookup throws exactly when the marker ends the line. */
  lemma BaseRefText(line: string, m: Markers)
    requires !Contains(line, m.ending) && !IsPassThrough(line) && Contains(line, m.base)
    ensures var k := Find(line, m.base, 0).value;
            && MatchAt(line, m.base, k)
            && (forall j :: 0 <= j < k ==> !MatchAt(line, m.base, j))
            && ClassifyLine(line, false, m)
               == if k + |m.base| == |line| then OutOfRange else BaseRef(line[k + |m.base| + 1..])
  {
    var k := Find(line, m.base, 0).value;
    FindIsFirstMatch(line, m.base, 0);
    MemberLine(line, m);
    MemberBase(line, m.base, k);
  }

  /** Struct and class lines past the first two tests. */
  lemma MemberLine(line: string, m: Markers)
    requires !Contains(line, m.ending) && !IsPassThrough(line)
    ensures ClassifyLine(line, false, m) == ClassifyMemberLine(line, m.base)
  {
  }

  lemma MemberBase(line: string, base: string, k: nat)
    requires Find(line, base, 0) == Some(k)
    ensures k + |base| <= |line|
    ensures ClassifyMemberLine(line, base)
            == if k + |base| + 1 <= |line| then BaseRef(line[k + |base| + 1..]) else OutOfRange
  {
  }

  /** A field's name has no space and no bracket. */
  lemma FieldNameClean(line: string, m: Markers)
    requires Addressable(line) && ClassifyLine(line, false, m).Field?
    ensures forall i :: 0 <= i < |ClassifyLine(line, false, m).name| ==>
              ClassifyLine(line, false, m).name[i] != ' '
              && ClassifyLine(line, false, m).name[i] !in "[]"
  {
    var e := NameEnd(line).value;
    NameHasNoSpace(line, e);
    FindFirstOfIsFirst(NameAt(line, e), "[]", 0);
  }

  /** The declaration round trip at the level of whole lines. */
  lemma ClassifyDeclarationLine(ind: string, ty: string, name: string, rest: string, m: Markers)
    requires Addressable(ind + ty + " " + name + ";" + rest)
    requires forall k :: 0 <= k < |ind| ==> ind[k] in BLANKS
    requires |ty| > 0 && !IsSpace(ty[0]) && ty[0] != '#'
    requires forall k :: 0 <= k < |name| ==> name[k] != ' ' && name[k] !in "[]"
    requires forall k :: 0 <= k < |ty| ==> ty[k] != ';'
    requires forall k :: 0 <= k < |name| ==> name[k] != ';'
    requires forall k :: 0 <= k < |ind| ==> ind[k] != ';'
    requires var line := ind + ty + " " + name + ";" + rest;
             !HasEq(line) && !Contains(line, m.ending) && !Contains(line, m.base) && !HasSkipKeyword(line)
    ensures ClassifyLine(ind + ty + " " + name + ";" + rest, false, m) == Field(name, ty)
  {
    var line := ind + ty + " " + name + ";" + rest;
    assert line[|ind|] == ty[0];
    if |ind| == 0 {
      assert line[0] != '#';
    }
    assert !AllSpace(line);
    MemberLine(line, m);
    ClassifyDeclaration(ind, ty, name, rest);
  }

  /** The initialiser round trip at the level of whole lines. */
  lemma ClassifyInitialiserLine(ind: string, ty: string, name: string, rest: string, m: Markers)
    requires Addressable(ind + ty + " " + name + " =" + rest)
    requires forall k :: 0 <= k < |ind| ==> ind[k] in BLANKS
    requires |ty| > 0 && !IsSpace(ty[0]) && ty[0] != '#'
    requires forall k :: 0 <= k < |name| ==> name[k] != ' ' && name[k] !in "[]"
    requires !Contains(ind + ty + " " + name, " =")
    requires var line := ind + ty + " " + name + " =" + rest;
             !Contains(line, m.ending) && !Contains(line, m.base) && !HasSkipKeyword(line)
    ensures ClassifyLine(ind + ty + " " + name + " =" + rest, false, m) == Field(name, ty)
  {
    var line := ind + ty + " " + name + " =" + rest;
    assert line[|ind|] == ty[0];
    if |ind| == 0 {
      assert line[0] != '#';
    }
    assert !AllSpace(line);
    MemberLine(line, m);
    ClassifyInitialiser(ind, ty, name, rest);
  }
}
