/** The header of a marked block: the words after the beginning marker that
    name the kind of declaration, the type and its template parameters, and
    what the generator derives from them (the instantiation argument list,
    the template parameter list, the namespace split and the forward
    declaration lines). */
module Header {
  import opened Results
  import opened Text
  import opened Spellbook
  import opened Buckets

  /** The declaration kinds a block may introduce. */
  datatype DeclKind = Struct | Class | Enum | EnumClass

  /** The keyword text of a kind, as written into forward declarations. */
  function KindText(k: DeclKind): string {
    match k
    case Struct => "struct"
    case Class => "class"
    case Enum => "enum"
    case EnumClass => "enum class"
  }

  predicate IsEnumKind(k: DeclKind) {
    k == Enum || k == EnumClass
  }

  /** One template parameter: its kind (`class`, `typename...`, `int`, ...)
      and its name. */
  datatype Param = Param(kind: string, name: string)

  datatype Header = Header(kind: DeclKind, name: string, params: seq<Param>)

  /** The `i`-th word, or `default` when the stream has run dry: a failed
      `operator>>` leaves its target string as it was. */
  function TokenOr(toks: seq<string>, i: nat, default: string): string {
    if i < |toks| then toks[i] else default
  }

  /** The words from position `n` on (none when there are fewer). */
  function Drop(toks: seq<string>, n: nat): seq<string> {
    if n <= |toks| then toks[n..] else []
  }

  /** `while (in >> type && in >> name)`: consecutive pairs of words; a
      dangling last word is read but forms no pair. */
  function Pairs(toks: seq<string>): seq<Param>
    decreases |toks|
  {
    if |toks| < 2 then [] else [Param(toks[0], toks[1])] + Pairs(toks[2..])
  }

  /** The words a list of parameters is written as. */
  function Flatten(ps: seq<Param>): seq<string> {
    if |ps| == 0 then [] else [ps[0].kind, ps[0].name] + Flatten(ps[1..])
  }

  /** `Pairs` reads back what `Flatten` writes. */
  lemma {:induction false} PairsOfFlatten(ps: seq<Param>)
    ensures Pairs(Flatten(ps)) == ps
    decreases |ps|
  {
    if |ps| > 0 {
      var f := Flatten(ps);
      assert f[0] == ps[0].kind && f[1] == ps[0].name;
      assert f[2..] == Flatten(ps[1..]);
      PairsOfFlatten(ps[1..]);
      assert ps == [ps[0]] + ps[1..];
    }
  }

  /** Pair `i` holds words `2i` and `2i+1`, and the pairs use every word but
      a dangling last one. */
  lemma {:induction false} PairsIndex(toks: seq<string>)
    ensures |Pairs(toks)| == |toks| / 2
    ensures forall i :: 0 <= i < |Pairs(toks)| ==>
              Pairs(toks)[i] == Param(toks[2 * i], toks[2 * i + 1])
    decreases |toks|
  {
    if |toks| >= 2 {
      PairsIndex(toks[2..]);
      var ps := Pairs(toks);
      forall i | 0 <= i < |ps| ensures ps[i] == Param(toks[2 * i], toks[2 * i + 1]) {
        if i > 0 {
          assert ps[i] == Pairs(toks[2..])[i - 1];
          assert toks[2..][2 * (i - 1)] == toks[2 * i];
          assert toks[2..][2 * (i - 1) + 1] == toks[2 * i + 1];
        }
      }
    }
  }

  /** Reads the header from the text after the beginning marker. `None` is
      the case the generator rejects: the first word is not `struct`,
      `class` or `enum` (or there is no word at all). */
  function ParseHeader(after: string): Option<Header> {
    var toks := Words(after);
    if |toks| == 0 then None
    else if toks[0] == "enum" then
      if TokenOr(toks, 1, "") == "class" then
        Some(Header(EnumClass, TokenOr(toks, 2, "class"), Pairs(Drop(toks, 3))))
      else
        Some(Header(Enum, TokenOr(toks, 1, ""), Pairs(Drop(toks, 2))))
    else if toks[0] == "struct" then
      Some(Header(Struct, TokenOr(toks, 1, ""), Pairs(Drop(toks, 2))))
    else if toks[0] == "class" then
      Some(Header(Class, TokenOr(toks, 1, ""), Pairs(Drop(toks, 2))))
    else None
  }

  /** The words a header is written as. */
  function KindWords(k: DeclKind): seq<string> {
    match k
    case Struct => ["struct"]
    case Class => ["class"]
    case Enum => ["enum"]
    case EnumClass => ["enum", "class"]
  }

  function HeaderWords(h: Header): seq<string> {
    KindWords(h.kind) + [h.name] + Flatten(h.params)
  }

  /** A header can be written down and read back: its name and parameter
      words are words, and a plain enum is not named `class` (that would be
      read as `enum class`). */
  predicate WellFormed(h: Header) {
    && IsWord(h.name)
    && (h.kind == Enum ==> h.name != "class")
    && forall i :: 0 <= i < |h.params| ==> IsWord(h.params[i].kind) && IsWord(h.params[i].name)
  }

  lemma {:induction false} FlattenWords(ps: seq<Param>)
    requires forall i :: 0 <= i < |ps| ==> IsWord(ps[i].kind) && IsWord(ps[i].name)
    ensures forall k :: 0 <= k < |Flatten(ps)| ==> IsWord(Flatten(ps)[k])
    decreases |ps|
  {
    if |ps| > 0 {
      FlattenWords(ps[1..]);
      var f := Flatten(ps);
      var t := Flatten(ps[1..]);
      forall k | 0 <= k < |f| ensures IsWord(f[k]) {
        if k >= 2 {
          assert f[k] == t[k - 2];
        }
      }
    }
  }

  lemma HeaderWordsAreWords(h: Header)
    requires WellFormed(h)
    ensures forall k :: 0 <= k < |HeaderWords(h)| ==> IsWord(HeaderWords(h)[k])
  {
    FlattenWords(h.params);
    var kw := KindWords(h.kind);
    var f := Flatten(h.params);
    var ws := HeaderWords(h);
    assert IsWord("struct") && IsWord("class") && IsWord("enum");
    forall k | 0 <= k < |ws| ensures IsWord(ws[k]) {
      if k < |kw| {
        assert ws[k] == kw[k];
      } else if k == |kw| {
        assert ws[k] == h.name;
      } else {
        assert ws[k] == f[k - |kw| - 1];
      }
    }
  }

  /** The parse of a header's words, once the words are known. */
  lemma ParseHeaderWords(h: Header, after: string)
    requires WellFormed(h) && Words(after) == HeaderWords(h)
    ensures ParseHeader(after) == Some(h)
  {
    var toks := Words(after);
    var n := |KindWords(h.kind)|;
    assert toks[n] == h.name;
    assert Drop(toks, n + 1) == Flatten(h.params);
    PairsOfFlatten(h.params);
  }

  /** Round trip: writing a well-formed header as words separated by single
      spaces and parsing it gives the header back. */
  lemma ParseHeaderOfText(h: Header)
    requires WellFormed(h)
    ensures ParseHeader(Join(HeaderWords(h), " ")) == Some(h)
  {
    HeaderWordsAreWords(h);
    WordsOfJoin(HeaderWords(h));
    ParseHeaderWords(h, Join(HeaderWords(h), " "));
  }

  /** The generator stops with an error exactly when the first word is not
      one of the three kind keywords; otherwise the kind follows that word. */
  lemma ParseHeaderKind(after: string)
    ensures ParseHeader(after).None? <==>
              |Words(after)| == 0 || (Words(after)[0] != "struct" && Words(after)[0] != "class" && Words(after)[0] != "enum")
    ensures ParseHeader(after).Some? ==> Words(after)[0] == KindWords(ParseHeader(after).value.kind)[0]
  {
  }

  // ---------------------------------------------------------------------
  // Argument and parameter lists

  /** A parameter as it appears in the instantiation argument list: its
      name, followed by `...` when it is a pack. */
  function ArgName(p: Param): string {
    if Contains(p.kind, "...") then p.name + "..." else p.name
  }

  function ArgNames(ps: seq<Param>): seq<string> {
    seq(|ps|, i requires 0 <= i < |ps| => ArgName(ps[i]))
  }

  /** A parameter as it appears in a template parameter list. */
  function ParamDecl(p: Param): string {
    p.kind + " " + p.name
  }

  function ParamDecls(ps: seq<Param>): seq<string> {
    seq(|ps|, i requires 0 <= i < |ps| => ParamDecl(ps[i]))
  }

  /** `<a, b...>`, or nothing when there are no parameters. */
  function ArgumentList(ps: seq<Param>): string {
    if |ps| == 0 then "" else "<" + Join(ArgNames(ps), ", ") + ">"
  }

  /** `, class A, int b`, or nothing when there are no parameters; the
      leading separator lets the list follow the introspected type in the
      introspector's own parameter list. */
  function TemplateParams(ps: seq<Param>): string {
    if |ps| == 0 then "" else ", " + Join(ParamDecls(ps), ", ")
  }

  /** The type as the generated code names it: with its argument list. */
  function TypeName(h: Header): string {
    h.name + ArgumentList(h.params)
  }

  /** The separator the loop has written after `a` of `n` parameters. */
  function SepAfter(a: nat, n: nat): string {
    if 0 < a < n then ", " else ""
  }

  /** The generator's loop building both lists in one pass; it produces the
      two lists defined above. */
  method BuildTemplateArgs(ps: seq<Param>) returns (args: string, templ: string)
    ensures args == ArgumentList(ps)
    ensures templ == TemplateParams(ps)
  {
    args, templ := "", "";
    if |ps| > 0 {
      args := "<";
      templ := ", ";
      var a := 0;
      while a < |ps|
        invariant 0 <= a <= |ps|
        invariant args == "<" + Join(ArgNames(ps[..a]), ", ") + SepAfter(a, |ps|)
        invariant templ == ", " + Join(ParamDecls(ps[..a]), ", ") + SepAfter(a, |ps|)
      {
        ArgsStep(ps, a);
        DeclsStep(ps, a);
        args := args + ArgName(ps[a]);
        templ := templ + ParamDecl(ps[a]);
        if a != |ps| - 1 {
          args := args + ", ";
          templ := templ + ", ";
        }
        a := a + 1;
      }
      assert ps[..a] == ps;
      args := args + ">";
    }
  }

  /** One more parameter extends the argument list. */
  lemma ArgsStep(ps: seq<Param>, a: nat)
    requires a < |ps|
    ensures "<" + Join(ArgNames(ps[..a]), ", ") + SepAfter(a, |ps|) + ArgName(ps[a])
              + (if a != |ps| - 1 then ", " else "")
            == "<" + Join(ArgNames(ps[..a + 1]), ", ") + SepAfter(a + 1, |ps|)
  {
    var x := ArgName(ps[a]);
    var j := Join(ArgNames(ps[..a]), ", ");
    assert ArgNames(ps[..a + 1]) == ArgNames(ps[..a]) + [x];
    if a > 0 {
      JoinSnoc(ArgNames(ps[..a]), x, ", ");
    } else {
      assert ArgNames(ps[..1]) == [x];
    }
    StepAlgebra("<", j, SepAfter(a, |ps|), x, SepAfter(a + 1, |ps|));
  }

  /** One more parameter extends the template parameter list. */
  lemma DeclsStep(ps: seq<Param>, a: nat)
    requires a < |ps|
    ensures ", " + Join(ParamDecls(ps[..a]), ", ") + SepAfter(a, |ps|) + ParamDecl(ps[a])
              + (if a != |ps| - 1 then ", " else "")
            == ", " + Join(ParamDecls(ps[..a + 1]), ", ") + SepAfter(a + 1, |ps|)
  {
    var x := ParamDecl(ps[a]);
    var j := Join(ParamDecls(ps[..a]), ", ");
    assert ParamDecls(ps[..a + 1]) == ParamDecls(ps[..a]) + [x];
    if a > 0 {
      JoinSnoc(ParamDecls(ps[..a]), x, ", ");
    } else {
      assert ParamDecls(ps[..1]) == [x];
    }
    StepAlgebra(", ", j, SepAfter(a, |ps|), x, SepAfter(a + 1, |ps|));
  }

  lemma StepAlgebra(p: string, j: string, sep: string, x: string, sep2: string)
    ensures p + j + sep + x + sep2 == p + (j + sep + x) + sep2
  {
  }

  // ---------------------------------------------------------------------
  // Namespace split

  /** A type name split at its first `::` into the namespace and the rest;
      a name without `::` belongs to the unnamed bucket. */
  datatype Qualified = Qualified(ns: string, bare: string)

  function SplitNamespace(name: string): Qualified {
    match Find(name, "::", 0)
    case None => Qualified(UNNAMED, name)
    case Some(i) => Qualified(name[..i], name[i + 2..])
  }

  /** A name without `::` goes to the unnamed bucket unchanged. */
  lemma SplitNamespaceUnqualified(name: string)
    requires !Contains(name, "::")
    ensures SplitNamespace(name) == Qualified(UNNAMED, name)
  {
  }

  /** A name with `::` is the namespace, `::` and the rest, and the
      namespace holds no `::` of its own. */
  lemma SplitNamespaceRejoin(name: string)
    requires Contains(name, "::")
    ensures SplitNamespace(name).ns + "::" + SplitNamespace(name).bare == name
    ensures !Contains(SplitNamespace(name).ns, "::")
  {
    FindIsFirstMatch(name, "::", 0);
    var i := Find(name, "::", 0).value;
    var ns := name[..i];
    assert name == ns + "::" + name[i + 2..];
    forall j: nat ensures !MatchAt(ns, "::", j) {
      if MatchAt(ns, "::", j) {
        MatchAtPrefix(name, "::", i, j);
      }
    }
    ContainsIff(ns, "::");
  }

  /** Round trip: a namespace free of `:` joined to any rest splits back
      into the two. */
  lemma SplitNamespaceOfQualified(ns: string, bare: string)
    requires forall k :: 0 <= k < |ns| ==> ns[k] != ':'
    ensures SplitNamespace(ns + "::" + bare) == Qualified(ns, bare)
  {
    var name := ns + "::" + bare;
    FindIsFirstMatch(name, "::", 0);
    NoColonBefore(ns, bare);
    assert MatchAt(name, "::", |ns|);
    assert Find(name, "::", 0) == Some(|ns|);
    assert name[..|ns|] == ns;
    assert name[|ns| + 2..] == bare;
  }

  lemma NoColonBefore(ns: string, bare: string)
    requires forall k :: 0 <= k < |ns| ==> ns[k] != ':'
    ensures forall j: nat :: j < |ns| ==> !MatchAt(ns + "::" + bare, "::", j)
  {
    var name := ns + "::" + bare;
    forall j: nat | j < |ns| ensures !MatchAt(name, "::", j) {
      assert name[j] == ns[j];
      assert name[j] != "::"[0];
    }
  }

  // ---------------------------------------------------------------------
  // Forward declarations

  /** `typesafe_sprintf("template %x\n", ...)`. */
  function TemplateLine(ps: seq<Param>): string
    requires |ps| > 0
  {
    Sprintf("template %x\n", ["<" + TemplateParams(ps)[2..] + ">"])
  }

  /** `typesafe_sprintf("%x %x;\n", kind, bare)`. */
  function DeclLine(k: DeclKind, bare: string): string {
    Sprintf("%x %x;\n", [KindText(k), bare])
  }

  /** The forward declaration lines of a block, indented by a tab when the
      type lives in a namespace. */
  function ForwardLines(h: Header): seq<string> {
    var q := SplitNamespace(h.name);
    var tab := if q.ns == UNNAMED then "" else "\t";
    var decl := tab + DeclLine(h.kind, q.bare);
    if |h.params| == 0 then [decl] else [tab + TemplateLine(h.params), decl]
  }

  /** The template line spells out the parameter list in angle brackets;
      a `%` inside the list survives since it is the last value. */
  lemma TemplateLineText(ps: seq<Param>)
    requires |ps| > 0
    ensures TemplateLine(ps) == "template <" + Join(ParamDecls(ps), ", ") + ">\n"
  {
    TemplateParamsTail(ps);
    var v := "<" + Join(ParamDecls(ps), ", ") + ">";
    SprintfTemplate(v);
    assert "template " + v + "\n" == "template <" + Join(ParamDecls(ps), ", ") + ">\n";
  }

  lemma SprintfTemplate(v: string)
    ensures Sprintf("template %x\n", [v]) == "template " + v + "\n"
  {
    assert "template %x\n" == "template " + ['%', 'x'] + "\n";
    SprintfSingle("template ", 'x', "\n", v);
  }

  lemma TemplateParamsTail(ps: seq<Param>)
    requires |ps| > 0
    ensures TemplateParams(ps)[2..] == Join(ParamDecls(ps), ", ")
  {
    var j := Join(ParamDecls(ps), ", ");
    assert (", " + j)[2..] == j;
  }

  /** The declaration line is the kind, a space, the bare name and `;`,
      whatever the name holds. */
  lemma DeclLineText(k: DeclKind, bare: string)
    ensures DeclLine(k, bare) == KindText(k) + " " + bare + ";\n"
  {
    var kt := KindText(k);
    assert "%x %x;\n" == "" + "%" + "x %x;\n";
    assert [kt, bare] == [kt] + [bare];
    SprintfFirst("", "x %x;\n", kt, [bare]);
    assert "x %x;\n"[1..] == " " + ['%', 'x'] + ";\n";
    SprintfSingle(" ", 'x', ";\n", bare);
    assert "" + kt + (" " + bare + ";\n") == kt + " " + bare + ";\n";
  }

  /** Declaring the forward lines in the namespace map: the bucket of the
      type's namespace grows by the lines, in order, and no other bucket
      changes. */
  function Declare(bs: seq<Bucket>, h: Header): seq<Bucket> {
    AppendAll(bs, SplitNamespace(h.name).ns, ForwardLines(h))
  }

  lemma DeclareView(bs: seq<Bucket>, h: Header)
    requires Sorted(bs)
    ensures Sorted(Declare(bs, h))
    ensures View(Declare(bs, h)) == View(bs)[SplitNamespace(h.name).ns :=
              (if SplitNamespace(h.name).ns in View(bs) then View(bs)[SplitNamespace(h.name).ns] else "")
              + Concat(ForwardLines(h))]
  {
    AppendAllView(bs, SplitNamespace(h.name).ns, ForwardLines(h));
  }
}
