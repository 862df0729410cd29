/** Two readings of field lines that follow from how the generator bounds a
    name: the name is whatever lies between the last space before its end
    and that end, so it may be empty, and tabs do not separate it from the
    type. */
module FieldQuirks {
  import opened Results
  import opened Text
  import opened Classify

  /** An empty field name is accepted: in `int ;` the name runs from the
      space to the `;`, so it is empty and the line is still a field. */
  lemma EmptyNameAccepted()
    ensures ClassifyFieldLine("int ;") == Field("", "int")
  {
    ClassifyDeclaration("", "int", "", "");
    assert "" + "int" + " " + "" + ";" + "" == "int ;";
  }

  /** The name begins after the last space, not after the last blank: with
      tabs as separators, `\tint\tx;` has no space, so the name is everything
      before the `;` and the type count wraps to take the rest of the line. */
  lemma NameSplitsOnSpaceOnly()
    ensures ClassifyFieldLine("\tint\tx;") == Field("\tint\tx", "int\tx;")
  {
    var line := "\tint\tx;";
    assert !HasEq(line) by {
      FindCharIsFirst(line, '=', 0);
    }
    FindCharIsFirst(line, ';', 0);
    assert NameEnd(line) == Some(6);
    assert RFindChar(line, ' ', 6).None?;
    assert NameBegin(line, 6) == 0;
    assert NameAt(line, 6) == "\tint\tx";
    assert FindFirstNotOf(line, BLANKS, 0) == Some(1);
    assert Substr(line, 1, SizeDiff(SizeDiff(0, 1), 1)) == "int\tx;";
    FindFirstOfIsFirst("\tint\tx", "[]", 0);
  }
}
