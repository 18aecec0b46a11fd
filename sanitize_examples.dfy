/** Worked cases of removeFileNameInvalidCharacters. */
module SanitizeExamples {
  import opened Sanitize

  /** A reserved character between two letters becomes a space. */
  lemma ReservedBecomesSpace()
    ensures RemoveFileNameInvalidCharacters("a<b") == "a b"
  {
    assert "a<b" == "a" + "<" + "b";
    assert "a b" == "a" + " " + "b";
    ReservedRunBetweenCleanNames("a", "<", "b");
  }

  /** Leading, inner and trailing whitespace: the inner run becomes one space, the ends go. */
  lemma WhitespaceCollapsedAndTrimmed()
    ensures RemoveFileNameInvalidCharacters("  x \t y ") == "x y"
  {
    assert "  x \t y " == "  " + "x" + " \t " + "y" + " ";
    assert "x y" == "x" + " " + "y";
    assert AllWs(" \t "[1..][1..]) && AllWs("  "[1..]);
    SpacedWordsJoined("  ", "x", " \t ", "y", " ");
  }

  /** A name made only of reserved characters comes out as "_". */
  lemma OnlyReservedBecomesUnderscore()
    ensures RemoveFileNameInvalidCharacters("<>") == "_"
  {
    assert AllReserved("<>"[1..]);
    AllReservedBecomesUnderscore("<>");
  }
}
