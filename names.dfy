/**
 * The name arithmetic behind the three collision-avoiding resolvers of
 * src/fileutils.js: the next-candidate step (a trailing number of at most
 * four digits is incremented, otherwise " 2" is appended) and the split of
 * a file name into base name and extension that `path.parse` performs.
 */
module Names {
  import opened Seqs

  predicate IsDigit(c: char) {
    '0' <= c <= '9'
  }

  predicate AllDigits(s: string) {
    forall i :: 0 <= i < |s| ==> IsDigit(s[i])
  }

  /** Length of the run of ASCII digits at the very end of `s`. */
  function TrailingDigitCount(s: string): (n: nat)
    ensures n <= |s|
    ensures forall i :: |s| - n <= i < |s| ==> IsDigit(s[i])
    ensures n < |s| ==> !IsDigit(s[|s| - n - 1])
  {
    if s == [] || !IsDigit(s[|s| - 1]) then 0
    else TrailingDigitCount(s[..|s| - 1]) + 1
  }

  /** Whether the regular expression /\d{1,4}$/ matches `s` from index `start`. */
  predicate MatchesAt(s: string, start: int) {
    0 <= start <= |s| && 1 <= |s| - start <= 4 && AllDigits(s[start..])
  }

  /** Width of the text /\d{1,4}$/.exec(s) matches: 0 when there is no match. */
  function MatchWidth(s: string): (w: nat)
    ensures w <= 4 && w <= |s|
    ensures w == 0 <==> s == [] || !IsDigit(s[|s| - 1])
  {
    var t := TrailingDigitCount(s);
    if t < 4 then t else 4
  }

  /**
   * MatchWidth is the regular expression's answer: the search starts at the
   * leftmost index from which the pattern matches, so the match is the
   * longest digit suffix of at most four characters, and there is none
   * exactly when the name does not end in a digit.
   */
  lemma MatchWidthIsLeftmostMatch(s: string)
    ensures MatchWidth(s) > 0 ==> MatchesAt(s, |s| - MatchWidth(s))
    ensures forall start :: MatchesAt(s, start) ==> |s| - MatchWidth(s) <= start
    ensures MatchWidth(s) == 0 <==> (s == [] || !IsDigit(s[|s| - 1]))
  {
    var t := TrailingDigitCount(s);
    var k := MatchWidth(s);
    if k > 0 {
      assert s[|s| - k..] == s[|s| - t..][t - k..];
    }
    forall start | MatchesAt(s, start)
      ensures |s| - k <= start
    {
      // were start < |s| - k, then k < 4, so k == t, and s[|s| - t - 1] would be
      // a non-digit inside the match
    }
    if s != [] && IsDigit(s[|s| - 1]) {
      assert MatchesAt(s, |s| - 1);
    }
  }

  function DigitValue(c: char): nat
    requires IsDigit(c)
  {
    (c as int) - ('0' as int)
  }

  function DigitChar(d: nat): (c: char)
    requires d < 10
    ensures IsDigit(c) && DigitValue(c) == d
  {
    (('0' as int) + d) as char
  }

  /** parseInt(digits, 10) on a string of decimal digits. */
  function ParseDecimal(ds: string): (v: nat)
    requires AllDigits(ds)
  {
    if ds == [] then 0 else 10 * ParseDecimal(ds[..|ds| - 1]) + DigitValue(ds[|ds| - 1])
  }

  /**
   * The text JavaScript's number-to-string conversion gives a non-negative
   * integer: decimal digits without leading zeros, which parse back to `n`.
   */
  function DecimalText(n: nat): (s: string)
    ensures |s| > 0 && AllDigits(s)
    ensures |s| > 1 ==> s[0] != '0'
    ensures s[0] == '0' <==> n == 0
    ensures ParseDecimal(s) == n
  {
    if n < 10 then [DigitChar(n)]
    else
      var s := DecimalText(n / 10) + [DigitChar(n % 10)];
      assert s[..|s| - 1] == DecimalText(n / 10);
      s
  }

  /** A digit string without leading zeros is the decimal text of its value. */
  lemma {:induction false} DecimalTextOfParse(ds: string)
    requires |ds| > 0 && AllDigits(ds)
    requires |ds| > 1 ==> ds[0] != '0'
    ensures DecimalText(ParseDecimal(ds)) == ds
  {
    var init, last := ds[..|ds| - 1], ds[|ds| - 1];
    if init == [] {
      assert ds == [last];
    } else {
      assert init[0] == ds[0];
      DecimalTextOfParse(init);
      ParseOfLeadingDigit(init);
      var p, d := ParseDecimal(init), DigitValue(last);
      assert ParseDecimal(ds) == 10 * p + d;
      SplitLastDigit(p, d);
      assert DigitChar(d) == last;
      assert DecimalText(10 * p + d) == DecimalText(p) + [DigitChar(d)];
      assert ds == init + [last];
    }
  }

  /** 10 * p + d, for a digit d, has quotient p and remainder d on division by 10. */
  lemma SplitLastDigit(p: nat, d: nat)
    requires d < 10
    ensures (10 * p + d) / 10 == p && (10 * p + d) % 10 == d
  {
  }

  /** A digit string of length at least two whose first digit is not 0 is worth at least 1. */
  lemma {:induction false} ParseOfLeadingDigit(ds: string)
    requires |ds| > 0 && AllDigits(ds) && ds[0] != '0'
    ensures ParseDecimal(ds) >= 1
  {
    if |ds| > 1 {
      assert ds[..|ds| - 1][0] == ds[0];
      ParseOfLeadingDigit(ds[..|ds| - 1]);
    }
  }

  /** Decimal text of a number below 10^w has at most w digits. */
  lemma {:induction false} DecimalTextWidth(n: nat, w: nat)
    requires 1 <= w && n < Pow10(w)
    ensures |DecimalText(n)| <= w
  {
    if n >= 10 {
      DecimalTextWidth(n / 10, w - 1);
    }
  }

  /** A string of `w` digits is worth less than 10^w: four digits give at most 9999. */
  lemma {:induction false} ParseDecimalBound(ds: string)
    requires AllDigits(ds)
    ensures ParseDecimal(ds) < Pow10(|ds|)
  {
    if ds != [] {
      var init := ds[..|ds| - 1];
      assert AllDigits(init);
      ParseDecimalBound(init);
      assert DigitValue(ds[|ds| - 1]) <= 9;
    }
  }

  function Pow10(w: nat): (p: nat)
    ensures p >= 1
  {
    if w == 0 then 1 else 10 * Pow10(w - 1)
  }

  /**
   * The next candidate name after `name` was found taken: the last one to
   * four digits of `name`, if any, are replaced by the decimal text of their
   * value plus one; otherwise " 2" is appended.
   */
  function NextName(name: string): (next: string)
    ensures |next| > 0 && IsDigit(next[|next| - 1])
    ensures name[..|name| - MatchWidth(name)] <= next
  {
    var k := MatchWidth(name);
    if k == 0 then name + " 2"
    else name[..|name| - k] + DecimalText(ParseDecimal(name[|name| - k..]) + 1)
  }

  /** With no trailing digit, the step appends a space and the digit 2. */
  lemma NextNameAppendsTwo(name: string)
    requires name == [] || !IsDigit(name[|name| - 1])
    ensures NextName(name) == name + " 2"
  {
    MatchWidthIsLeftmostMatch(name);
  }

  /**
   * With a trailing digit, the step keeps everything before the matched
   * digits and replaces them by a number one larger, written without
   * leading zeros.
   */
  lemma NextNameIncrements(name: string)
    requires name != [] && IsDigit(name[|name| - 1])
    ensures var p := |name| - MatchWidth(name);
      p < |name| && p < |NextName(name)|
      && NextName(name)[..p] == name[..p]
      && AllDigits(name[p..]) && AllDigits(NextName(name)[p..])
      && NextName(name)[p] != '0'
      && ParseDecimal(NextName(name)[p..]) == ParseDecimal(name[p..]) + 1
  {
    MatchWidthIsLeftmostMatch(name);
    var p := |name| - MatchWidth(name);
    var next := NextName(name);
    assert next[p..] == DecimalText(ParseDecimal(name[p..]) + 1);
  }

  /**
   * Below 10000 the step counts up: the name `prefix + text(n)` becomes
   * `prefix + text(n + 1)` when `prefix` does not end in a digit.
   */
  lemma NextNameCountsUp(prefix: string, n: nat)
    requires prefix == [] || !IsDigit(prefix[|prefix| - 1])
    requires n < 10000
    ensures NextName(prefix + DecimalText(n)) == prefix + DecimalText(n + 1)
  {
    var d := DecimalText(n);
    var name := prefix + d;
    DecimalTextWidth(n, 4);
    TrailingDigitsOfAppend(prefix, d);
    assert MatchWidth(name) == |d|;
    assert name[|name| - |d|..] == d;
    assert name[..|name| - |d|] == prefix;
    assert ParseDecimal(d) == n;
  }

  /** Appending digits to a name that does not end in a digit makes exactly them the trailing run. */
  lemma {:induction false} TrailingDigitsOfAppend(prefix: string, d: string)
    requires prefix == [] || !IsDigit(prefix[|prefix| - 1])
    requires AllDigits(d)
    ensures TrailingDigitCount(prefix + d) == |d|
  {
    if d == [] {
      assert prefix + d == prefix;
    } else {
      var init := d[..|d| - 1];
      TrailingDigitsOfAppend(prefix, init);
      assert (prefix + d)[..|prefix + d| - 1] == prefix + init;
    }
  }

  /**
   * Past four digits only the last four are rescanned, so the step is not
   * monotonic: `prefix + "10000"` is followed by `prefix + "11"`.
   */
  lemma NextNameWrapsPastFourDigits(prefix: string)
    requires prefix == [] || !IsDigit(prefix[|prefix| - 1])
    ensures NextName(prefix + "10000") == prefix + "11"
  {
    WrapMatch(prefix);
    NextNameOfMatch(prefix + "10000", prefix + "1", "0000");
    ParseOfZeros("0000");
    assert DecimalText(1) == "1";
    Regroup(prefix, "1", "1");
  }

  /** The regular expression matches the last four characters of `prefix + "10000"`. */
  lemma WrapMatch(prefix: string)
    requires prefix == [] || !IsDigit(prefix[|prefix| - 1])
    ensures var name := prefix + "10000";
      MatchWidth(name) == 4 && name[..|name| - 4] == prefix + "1" && name[|name| - 4..] == "0000"
  {
    var name := prefix + "10000";
    assert AllDigits("10000");
    TrailingDigitsOfAppend(prefix, "10000");
    assert name[|name| - 4..] == "0000";
    assert name[..|name| - 4] == prefix + "1";
  }

  /** The step keeps what precedes the matched digits and writes their value plus one after it. */
  lemma NextNameOfMatch(name: string, head: string, digits: string)
    requires MatchWidth(name) > 0
    requires name[..|name| - MatchWidth(name)] == head && name[|name| - MatchWidth(name)..] == digits
    ensures AllDigits(digits) && NextName(name) == head + DecimalText(ParseDecimal(digits) + 1)
  {
  }

  /** 11 is written "11". */
  lemma TextOfEleven()
    ensures DecimalText(11) == "11"
  {
    assert DecimalText(1) == "1";
  }

  /** 10000 is written "10000". */
  lemma TextOfTenThousand()
    ensures DecimalText(10000) == "10000"
  {
    var d := "10000";
    DecimalTextOfParse(d);
    assert d[..4] == "1000";
    assert "1000"[..3] == "100";
    assert "100"[..2] == "10";
    assert "10"[..1] == "1";
  }

  /** A string of zeros is worth 0. */
  lemma {:induction false} ParseOfZeros(ds: string)
    requires forall i :: 0 <= i < |ds| ==> ds[i] == '0'
    ensures AllDigits(ds) && ParseDecimal(ds) == 0
  {
    if ds != [] {
      ParseOfZeros(ds[..|ds| - 1]);
    }
  }

  /** Index of the last '.' in `s`, or -1 when there is none. */
  function LastDot(s: string): (i: int)
    ensures -1 <= i < |s|
    ensures i >= 0 ==> s[i] == '.'
    ensures forall j :: i < j < |s| ==> s[j] != '.'
  {
    if s == [] then -1
    else if s[|s| - 1] == '.' then |s| - 1
    else LastDot(s[..|s| - 1])
  }

  /**
   * `path.parse(fileName)` on a single path component, as (name, ext): the
   * split is at the last '.', except that there is no extension when the
   * last dot is the first character (".bashrc") or the name is "..".
   */
  function SplitExtension(fileName: string): (parts: (string, string))
    ensures parts.0 + parts.1 == fileName
    ensures parts.1 != [] ==> parts.0 != [] && parts.1[0] == '.' && '.' !in parts.1[1..]
    ensures parts.1 == [] <==>
      ('.' !in fileName || (fileName[0] == '.' && '.' !in fileName[1..]) || fileName == "..")
  {
    var i := LastDot(fileName);
    if i <= 0 || fileName == ".." then
      assert i < 0 ==> '.' !in fileName;
      assert i == 0 ==> '.' !in fileName[1..];
      (fileName, "")
    else
      assert fileName[i..][0] == '.';
      assert '.' !in fileName[i..][1..];
      (fileName[..i], fileName[i..])
  }

  /** A name with a dot after a non-empty base splits at that dot when no later dot follows. */
  lemma SplitAtLastDot(base: string, rest: string)
    requires base != [] && '.' !in rest
    requires base + ['.'] + rest != ".."
    ensures SplitExtension(base + ['.'] + rest) == (base, ['.'] + rest)
  {
    var s := base + ['.'] + rest;
    assert s[|base|] == '.';
    assert forall j :: |base| < j < |s| ==> s[j] == rest[j - |base| - 1];
    assert LastDot(s) == |base|;
    assert s[..|base|] == base && s[|base|..] == ['.'] + rest;
  }

  /** A name without a dot has no extension. */
  lemma SplitWithoutDot(s: string)
    requires '.' !in s
    ensures SplitExtension(s) == (s, "")
  {
  }

  /**
   * The step of `findNewFileName`: the next-name step is applied to the base
   * name and the extension is attached again, so the character just before
   * the extension of every candidate is a digit.
   */
  function NextFileName(fileName: string): (r: string)
    ensures var ext := SplitExtension(fileName).1;
      |r| > |ext| && IsDigit(r[|r| - |ext| - 1])
  {
    var (base, ext) := SplitExtension(fileName);
    var next := NextName(base);
    assert (next + ext)[|next| - 1] == next[|next| - 1];
    next + ext
  }

  /** A file name whose base does not end in a digit gets " 2" before its extension. */
  lemma FileStepAppendsTwo(base: string, ext: string)
    requires base != [] && !IsDigit(base[|base| - 1])
    requires '.' !in ext && base + ['.'] + ext != ".."
    ensures NextFileName(base + ['.'] + ext) == base + " 2" + ['.'] + ext
  {
    SplitAtLastDot(base, ext);
    NextNameAppendsTwo(base);
    Regroup(base + " 2", ['.'], ext);
  }

  /** A file name whose base ends in a number below 10000 gets the next number before its extension. */
  lemma FileStepCountsUp(prefix: string, n: nat, ext: string)
    requires prefix == [] || !IsDigit(prefix[|prefix| - 1])
    requires n < 10000 && '.' !in ext
    ensures NextFileName(prefix + DecimalText(n) + ['.'] + ext) == prefix + DecimalText(n + 1) + ['.'] + ext
  {
    var base := prefix + DecimalText(n);
    assert base[|base| - 1] == DecimalText(n)[|DecimalText(n)| - 1];
    assert (base + ['.'] + ext)[|base| - 1] == base[|base| - 1];
    SplitAtLastDot(base, ext);
    NextNameCountsUp(prefix, n);
    Regroup(prefix + DecimalText(n + 1), ['.'], ext);
  }

  /**
   * The extension survives the step: every candidate `findNewFileName`
   * produces has the extension of the name it started from. The one
   * exception is "..", whose successor ".. 2" splits as "." and ". 2".
   */
  lemma ExtensionKept(fileName: string)
    requires fileName != ".."
    ensures NextFileName(fileName) != ".."
    ensures SplitExtension(NextFileName(fileName)).1 == SplitExtension(fileName).1
  {
    var (base, ext) := SplitExtension(fileName);
    var base' := NextName(base);
    assert (base' + ext)[|base'| - 1] == base'[|base'| - 1];
    if ext != [] {
      assert ext == ['.'] + ext[1..];
      assert (base' + ['.'] + ext[1..])[|base'| - 1] == base'[|base'| - 1];
      SplitAtLastDot(base', ext[1..]);
    } else {
      NextNameKeepsLoneLeadingDot(base);
      assert base' + ext == base';
    }
  }

  /**
   * A name whose only dot, if any, is its first character keeps that shape
   * under the next-name step, so it still has no extension.
   */
  lemma NextNameKeepsLoneLeadingDot(base: string)
    requires '.' !in base || (base[0] == '.' && '.' !in base[1..])
    ensures '.' !in NextName(base) || (NextName(base)[0] == '.' && '.' !in NextName(base)[1..])
  {
    var base' := NextName(base);
    var p := |base| - MatchWidth(base);
    var tail := base'[p..];
    assert base' == base[..p] + tail;
    assert '.' !in tail by {
      if MatchWidth(base) == 0 {
        assert tail == " 2";
      } else {
        NextNameIncrements(base);
        assert forall j :: 0 <= j < |tail| ==> IsDigit(tail[j]);
      }
    }
    forall j | 0 < j < |base'|
      ensures base'[j] != '.'
    {
      if j < p {
        assert base'[j] == base[j] && base[1..][j - 1] == base[j];
      } else {
        assert base'[j] == tail[j - p];
      }
    }
  }

  /** `findNewFileName` and `findNewFolderName` disagree on dotted names. */
  lemma FileAndFolderStepsDiffer()
    ensures NextFileName("foo.bar") == "foo 2.bar"
    ensures NextName("foo.bar") == "foo.bar 2"
  {
    SplitAtLastDot("foo", "bar");
    assert "foo" + ['.'] + "bar" == "foo.bar";
    NextNameAppendsTwo("foo");
    NextNameAppendsTwo("foo.bar");
  }
}
