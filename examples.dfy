/** Worked cases of the next-name step and of the resolvers in a directory with known contents. */
module ResolverExamples {
  import opened Wrappers
  import opened Fs
  import opened Names
  import opened Resolver

  /** A name without trailing digits gets " 2". */
  lemma DemoGetsTwo()
    ensures NextName("demo") == "demo 2"
  {
    NextNameAppendsTwo("demo");
  }

  /** A single trailing digit is incremented. */
  lemma DemoTwoGetsThree()
    ensures NextName("demo2") == "demo3"
  {
    NextNameCountsUp("demo", 2);
    assert DecimalText(2) == "2" && DecimalText(3) == "3";
    assert "demo" + "2" == "demo2";
  }

  /** Four nines carry into a fifth digit. */
  lemma DemoCarries()
    ensures NextName("demo9999") == "demo10000"
  {
    NextNameCountsUp("demo", 9999);
    TextOfFourNines();
    TextOfTenThousand();
    assert "demo" + "9999" == "demo9999";
    assert "demo" + "10000" == "demo10000";
  }

  lemma TextOfFourNines()
    ensures DecimalText(9999) == "9999"
  {
    var d := "9999";
    DecimalTextOfParse(d);
    assert d[..3] == "999";
    assert "999"[..2] == "99";
    assert "99"[..1] == "9";
  }

  /** Leading zeros of the matched digits are not kept. */
  lemma LeadingZerosDropped()
    ensures NextName("a007") == "a8"
  {
    var name := "a007";
    TrailingDigitsOfAppend("a", "007");
    assert "a" + "007" == name;
    assert name[..1] == "a" && name[1..] == "007";
    ValueOfDoubleOhSeven();
    assert DecimalText(8) == "8";
  }

  lemma ValueOfDoubleOhSeven()
    ensures AllDigits("007") && ParseDecimal("007") == 7
  {
    var d := "007";
    assert d[..2] == "00";
    assert "00"[..1] == "0";
    ParseOfZeros("00");
  }

  /** The file step on "a.txt". */
  lemma FileStepOnATxt()
    ensures NextFileName("a.txt") == "a 2.txt"
  {
    SpellATxt();
    FileStepAppendsTwo("a", "txt");
  }

  lemma SpellATxt()
    ensures "a.txt" == "a" + ['.'] + "txt"
    ensures "a 2.txt" == "a" + " 2" + ['.'] + "txt"
  {
  }

  /** The file step on "a 2.txt". */
  lemma FileStepOnATwoTxt()
    ensures NextFileName("a 2.txt") == "a 3.txt"
  {
    SpellATwoTxt();
    FileStepCountsUp("a ", 2, "txt");
  }

  lemma SpellATwoTxt()
    ensures "a 2.txt" == "a " + DecimalText(2) + ['.'] + "txt"
    ensures "a 3.txt" == "a " + DecimalText(3) + ['.'] + "txt"
  {
    assert DecimalText(2) == "2" && DecimalText(3) == "3";
  }

  /** The digit before the extension counts up; the extension is untouched. */
  lemma FileStepOnNumberedBackup()
    ensures NextFileName("backup-name-1.bak") == "backup-name-2.bak"
  {
    SpellNumberedBackups();
    FileStepCountsUp("backup-name-", 1, "bak");
  }

  lemma SpellNumberedBackups()
    ensures "backup-name-1.bak" == "backup-name-" + DecimalText(1) + ['.'] + "bak"
    ensures "backup-name-2.bak" == "backup-name-" + DecimalText(2) + ['.'] + "bak"
  {
    assert DecimalText(1) == "1" && DecimalText(2) == "2";
  }

  /** In a directory holding "a.txt" but not "a 2.txt", "a.txt" resolves to "a 2.txt". */
  lemma ResolveTakenFile(access: string -> Outcome<FsError>)
    requires access("a.txt").Pass? && access("a 2.txt").Fail?
    ensures FirstFree(NextFileName, access, "", "a.txt", 2) == Some("a 2.txt")
  {
    FileStepOnATxt();
    assert "a.txt" + "" == "a.txt" && "a 2.txt" + "" == "a 2.txt";
  }

  /** With "a.txt" and "a 2.txt" taken and "a 3.txt" free, the answer is "a 3.txt". */
  lemma ResolveTwiceTakenFile(access: string -> Outcome<FsError>)
    requires access("a.txt").Pass? && access("a 2.txt").Pass? && access("a 3.txt").Fail?
    ensures FirstFree(NextFileName, access, "", "a.txt", 3) == Some("a 3.txt")
  {
    FileStepOnATxt();
    assert "a.txt" + "" == "a.txt";
    assert FirstFree(NextFileName, access, "", "a.txt", 3) == FirstFree(NextFileName, access, "", "a 2.txt", 2);
    ResolveFromSecondName(access);
  }

  lemma ResolveFromSecondName(access: string -> Outcome<FsError>)
    requires access("a 2.txt").Pass? && access("a 3.txt").Fail?
    ensures FirstFree(NextFileName, access, "", "a 2.txt", 2) == Some("a 3.txt")
  {
    FileStepOnATwoTxt();
    assert "a 2.txt" + "" == "a 2.txt" && "a 3.txt" + "" == "a 3.txt";
  }

  /** A taken folder "archive.tar" resolves to "archive.tar 2", not "archive 2.tar". */
  lemma ResolveTakenFolder(access: string -> Outcome<FsError>)
    requires access("archive.tar").Pass? && access("archive.tar 2").Fail?
    ensures FirstFree(NextName, access, "", "archive.tar", 2) == Some("archive.tar 2")
  {
    NextNameAppendsTwo("archive.tar");
    assert "archive.tar" + " 2" == "archive.tar 2";
    assert "archive.tar" + "" == "archive.tar" && "archive.tar 2" + "" == "archive.tar 2";
  }
}
