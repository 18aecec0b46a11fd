/**
 * removeFileNameInvalidCharacters of src/fileutils.js: runs of the
 * characters Windows reserves in file names become one space, runs of two
 * or more whitespace characters become one space, the ends are trimmed, and
 * an empty outcome becomes "_".
 */
module Sanitize {
  import opened Seqs

  /**
   * ECMA-262 WhiteSpace and LineTerminator code points: the characters the
   * regular-expression class \s matches and String.prototype.trim removes.
   * None of them is reserved, and none is the "_" of an empty outcome.
   */
  predicate IsWs(c: char)
    ensures IsWs(c) ==> !IsReserved(c) && c != '_'
  {
    c == '\t' || c == '\n' || c == '\U{000B}' || c == '\U{000C}' || c == '\r' || c == ' '
    || c == '\U{00A0}' || c == '\U{1680}' || ('\U{2000}' <= c <= '\U{200A}')
    || c == '\U{2028}' || c == '\U{2029}' || c == '\U{202F}' || c == '\U{205F}'
    || c == '\U{3000}' || c == '\U{FEFF}'
  }

  /** The characters Windows reserves in file names: < > : " / \ | ? * */
  predicate IsReserved(c: char)
    ensures IsReserved(c) ==> c != ' ' && c != '_'
  {
    c == '<' || c == '>' || c == ':' || c == '"' || c == '/' || c == '\\' || c == '|' || c == '?' || c == '*'
  }

  predicate NoReserved(s: string) {
    forall i :: 0 <= i < |s| ==> !IsReserved(s[i])
  }

  /** Every character of `s` is reserved. */
  predicate AllReserved(s: string) {
    s == [] || (IsReserved(s[0]) && AllReserved(s[1..]))
  }

  /** Every character of `s` is whitespace. */
  predicate AllWs(s: string) {
    s == [] || (IsWs(s[0]) && AllWs(s[1..]))
  }

  /** No two whitespace characters stand next to each other. */
  predicate NoWsPair(s: string) {
    forall i :: 0 < i < |s| ==> !(IsWs(s[i - 1]) && IsWs(s[i]))
  }

  /** Neither end is whitespace. */
  predicate Trimmed(s: string) {
    s != [] ==> !IsWs(s[0]) && !IsWs(s[|s| - 1])
  }

  /** `s` without its leading run of reserved characters. */
  function DropReserved(s: string): (r: string)
    ensures |r| <= |s|
    ensures r == [] || !IsReserved(r[0])
    ensures r != [] ==> r[|r| - 1] == s[|s| - 1]
  {
    if s != [] && IsReserved(s[0]) then DropReserved(s[1..]) else s
  }

  /** What DropReserved strips is reserved characters only. */
  lemma {:induction false} DropReservedStripsRun(s: string)
    ensures forall i :: 0 <= i < |s| - |DropReserved(s)| ==> IsReserved(s[i])
    decreases |s|
  {
    if s != [] && IsReserved(s[0]) {
      DropReservedStripsRun(s[1..]);
      assert forall i :: 1 <= i < |s| ==> s[i] == s[1..][i - 1];
    }
  }

  /** fileName.replace(/[<>:"\/\\|?*]+/g, ' '): each maximal run of reserved characters becomes one space. */
  function ReplaceReserved(s: string): (r: string)
    ensures NoReserved(r)
    decreases |s|
  {
    if s == [] then []
    else if IsReserved(s[0]) then [' '] + ReplaceReserved(DropReserved(s[1..]))
    else [s[0]] + ReplaceReserved(s[1..])
  }

  /** `s` without its leading run of whitespace. */
  function DropWs(s: string): (r: string)
    ensures |r| <= |s|
    ensures r == [] || !IsWs(r[0])
    ensures r != [] ==> r[|r| - 1] == s[|s| - 1]
  {
    if s != [] && IsWs(s[0]) then DropWs(s[1..]) else s
  }

  /** What DropWs strips is whitespace only. */
  lemma {:induction false} DropWsStripsRun(s: string)
    ensures forall i :: 0 <= i < |s| - |DropWs(s)| ==> IsWs(s[i])
    decreases |s|
  {
    if s != [] && IsWs(s[0]) {
      DropWsStripsRun(s[1..]);
      assert forall i :: 1 <= i < |s| ==> s[i] == s[1..][i - 1];
    }
  }

  /**
   * fileName.replace(/\s{2,}/g, ' '): each maximal run of two or more
   * whitespace characters becomes one space; a lone whitespace character
   * stays as it is.
   */
  function CollapseWs(s: string): (r: string)
    ensures s == [] <==> r == []
    ensures s != [] ==> IsWs(r[0]) == IsWs(s[0])
    ensures NoReserved(s) ==> NoReserved(r)
    ensures NoWsPair(r)
    decreases |s|
  {
    if s == [] then []
    else if |s| > 1 && IsWs(s[0]) && IsWs(s[1]) then
      var rest := DropWs(s);
      DropWsKeeps(s);
      [' '] + CollapseWs(rest)
    else
      assert NoReserved(s) ==> NoReserved(s[1..]);
      [s[0]] + CollapseWs(s[1..])
  }

  /** `s` without its trailing run of whitespace. */
  function DropWsEnd(s: string): (r: string)
    ensures |r| <= |s|
    ensures r == [] || !IsWs(r[|r| - 1])
    ensures r != [] ==> r[0] == s[0]
  {
    if s != [] && IsWs(s[|s| - 1]) then DropWsEnd(s[..|s| - 1]) else s
  }

  /** What DropWsEnd strips is whitespace only. */
  lemma {:induction false} DropWsEndStripsRun(s: string)
    ensures forall i :: |DropWsEnd(s)| <= i < |s| ==> IsWs(s[i])
    decreases |s|
  {
    if s != [] && IsWs(s[|s| - 1]) {
      DropWsEndStripsRun(s[..|s| - 1]);
    }
  }

  /** String.prototype.trim: `s` without whitespace at either end. */
  function Trim(s: string): (r: string)
    ensures Trimmed(r)
  {
    DropWsEnd(DropWs(s))
  }

  /** Trimming keeps what holds of every character or neighbouring pair. */
  lemma TrimKeeps(s: string)
    ensures NoReserved(s) ==> NoReserved(Trim(s))
    ensures NoWsPair(s) ==> NoWsPair(Trim(s))
  {
    DropWsKeeps(s);
    DropWsEndKeeps(DropWs(s));
  }

  /** Dropping leading whitespace keeps what holds of every character or neighbouring pair. */
  lemma {:induction false} DropWsKeeps(s: string)
    ensures NoReserved(s) ==> NoReserved(DropWs(s))
    ensures NoWsPair(s) ==> NoWsPair(DropWs(s))
    decreases |s|
  {
    if s != [] && IsWs(s[0]) {
      SliceKeeps(s, 1, |s|);
      DropWsKeeps(s[1..]);
    }
  }

  /** Dropping trailing whitespace keeps what holds of every character or neighbouring pair. */
  lemma {:induction false} DropWsEndKeeps(s: string)
    ensures NoReserved(s) ==> NoReserved(DropWsEnd(s))
    ensures NoWsPair(s) ==> NoWsPair(DropWsEnd(s))
    decreases |s|
  {
    if s != [] && IsWs(s[|s| - 1]) {
      SliceKeeps(s, 0, |s| - 1);
      DropWsEndKeeps(s[..|s| - 1]);
    }
  }

  /** A slice keeps the two properties that hold pointwise. */
  lemma SliceKeeps(s: string, a: int, b: int)
    requires 0 <= a <= b <= |s|
    ensures NoReserved(s) ==> NoReserved(s[a..b])
    ensures NoWsPair(s) ==> NoWsPair(s[a..b])
  {
    if NoWsPair(s) {
      forall i | 0 < i < b - a
        ensures !(IsWs(s[a..b][i - 1]) && IsWs(s[a..b][i]))
      {
        assert s[a..b][i - 1] == s[a + i - 1] && s[a..b][i] == s[a + i];
      }
    }
  }

  /**
   * removeFileNameInvalidCharacters: the result holds none of the reserved
   * characters, neither begins nor ends with whitespace, has no two
   * whitespace characters in a row, and is never empty.
   */
  function RemoveFileNameInvalidCharacters(fileName: string): (r: string)
    ensures r != []
    ensures NoReserved(r)
    ensures Trimmed(r)
    ensures NoWsPair(r)
  {
    var replaced := ReplaceReserved(fileName);
    var collapsed := CollapseWs(replaced);
    var trimmed := Trim(collapsed);
    TrimKeeps(collapsed);
    if trimmed == [] then "_" else trimmed
  }

  /** Leaves a name that already has every property of the result unchanged. */
  lemma CleanNameUnchanged(fileName: string)
    requires fileName != [] && NoReserved(fileName) && Trimmed(fileName) && NoWsPair(fileName)
    ensures RemoveFileNameInvalidCharacters(fileName) == fileName
  {
    ReplaceReservedWithout(fileName);
    CollapseWsWithoutPairs(fileName);
    TrimTrimmed(fileName);
  }

  /** Sanitising twice is sanitising once. */
  lemma SanitizeIdempotent(fileName: string)
    ensures RemoveFileNameInvalidCharacters(RemoveFileNameInvalidCharacters(fileName))
         == RemoveFileNameInvalidCharacters(fileName)
  {
    CleanNameUnchanged(RemoveFileNameInvalidCharacters(fileName));
  }

  lemma {:induction false} ReplaceReservedWithout(s: string)
    requires NoReserved(s)
    ensures ReplaceReserved(s) == s
    decreases |s|
  {
    if s != [] {
      ReplaceReservedWithout(s[1..]);
      assert s == [s[0]] + s[1..];
    }
  }

  lemma {:induction false} CollapseWsWithoutPairs(s: string)
    requires NoWsPair(s)
    ensures CollapseWs(s) == s
    decreases |s|
  {
    if s != [] {
      assert !(|s| > 1 && IsWs(s[0]) && IsWs(s[1])) by {
        if |s| > 1 {
          assert !(IsWs(s[1 - 1]) && IsWs(s[1]));
        }
      }
      assert NoWsPair(s[1..]) by {
        forall i | 0 < i < |s[1..]|
          ensures !(IsWs(s[1..][i - 1]) && IsWs(s[1..][i]))
        {
          assert s[1..][i - 1] == s[i] && s[1..][i] == s[i + 1];
        }
      }
      CollapseWsWithoutPairs(s[1..]);
      assert s == [s[0]] + s[1..];
    }
  }

  lemma TrimTrimmed(s: string)
    requires Trimmed(s)
    ensures Trim(s) == s
  {
  }

  /** The characters of `s` that are not whitespace, in order. */
  function NonWs(s: string): string {
    if s == [] then [] else (if IsWs(s[0]) then [] else [s[0]]) + NonWs(s[1..])
  }

  /** The characters of `s` that are neither whitespace nor reserved, in order. */
  function Kept(s: string): string {
    if s == [] then [] else (if IsWs(s[0]) || IsReserved(s[0]) then [] else [s[0]]) + Kept(s[1..])
  }

  /**
   * The sanitiser only removes: the non-whitespace characters of the result
   * are exactly the characters of the input that are neither reserved nor
   * whitespace, in their order, unless there are none and the result is "_".
   */
  lemma SanitizeKeepsOtherCharacters(fileName: string)
    ensures var r := RemoveFileNameInvalidCharacters(fileName);
      NonWs(r) == Kept(fileName) || (Kept(fileName) == [] && r == "_")
  {
    var replaced := ReplaceReserved(fileName);
    var collapsed := CollapseWs(replaced);
    NonWsOfReplaceReserved(fileName);
    NonWsOfCollapseWs(replaced);
    NonWsOfTrim(collapsed);
    var trimmed := Trim(collapsed);
    if trimmed == [] {
      assert NonWs(trimmed) == [];
    }
  }

  lemma {:induction false} NonWsAppend(a: string, b: string)
    ensures NonWs(a + b) == NonWs(a) + NonWs(b)
    decreases |a|
  {
    if a != [] {
      NonWsAppend(a[1..], b);
      assert (a + b)[1..] == a[1..] + b;
    } else {
      assert a + b == b;
    }
  }

  lemma {:induction false} NonWsOfReplaceReserved(s: string)
    ensures NonWs(ReplaceReserved(s)) == Kept(s)
    decreases |s|
  {
    if s != [] {
      if IsReserved(s[0]) {
        var rest := DropReserved(s[1..]);
        NonWsOfReplaceReserved(rest);
        KeptOfDropReserved(s[1..]);
        NonWsAppend([' '], ReplaceReserved(rest));
      } else {
        NonWsOfReplaceReserved(s[1..]);
        NonWsAppend([s[0]], ReplaceReserved(s[1..]));
      }
    }
  }

  lemma {:induction false} NonWsOfCollapseWs(s: string)
    ensures NonWs(CollapseWs(s)) == NonWs(s)
    decreases |s|
  {
    if s != [] {
      if |s| > 1 && IsWs(s[0]) && IsWs(s[1]) {
        var rest := DropWs(s);
        NonWsOfCollapseWs(rest);
        NonWsOfDropWs(s);
        NonWsAppend([' '], CollapseWs(rest));
      } else {
        NonWsOfCollapseWs(s[1..]);
        NonWsAppend([s[0]], CollapseWs(s[1..]));
      }
    }
  }

  lemma NonWsOfTrim(s: string)
    ensures NonWs(Trim(s)) == NonWs(s)
  {
    NonWsOfDropWs(s);
    NonWsOfDropWsEnd(DropWs(s));
  }

  lemma {:induction false} NonWsOfDropWs(s: string)
    ensures NonWs(DropWs(s)) == NonWs(s)
    decreases |s|
  {
    if s != [] && IsWs(s[0]) {
      NonWsOfDropWs(s[1..]);
    }
  }

  lemma {:induction false} NonWsOfDropWsEnd(s: string)
    ensures NonWs(DropWsEnd(s)) == NonWs(s)
    decreases |s|
  {
    if s != [] && IsWs(s[|s| - 1]) {
      var init := s[..|s| - 1];
      NonWsOfDropWsEnd(init);
      assert s == init + [s[|s| - 1]];
      NonWsAppend(init, [s[|s| - 1]]);
    }
  }

  lemma {:induction false} KeptOfDropReserved(s: string)
    ensures Kept(DropReserved(s)) == Kept(s)
    decreases |s|
  {
    if s != [] && IsReserved(s[0]) {
      KeptOfDropReserved(s[1..]);
    }
  }

  /**
   * Where a name splits between a character that is not reserved and
   * whatever follows, the replacement works on the two parts separately.
   */
  lemma {:induction false} ReplaceReservedAppend(x: string, y: string)
    requires x == [] || !IsReserved(x[|x| - 1])
    ensures ReplaceReserved(x + y) == ReplaceReserved(x) + ReplaceReserved(y)
    decreases |x|
  {
    if x == [] {
      assert x + y == y;
    } else if IsReserved(x[0]) {
      var rest := DropReserved(x[1..]);
      ReplaceReservedStepOverRun(x, y);
      ReplaceReservedAppend(rest, y);
      Regroup([' '], ReplaceReserved(rest), ReplaceReserved(y));
    } else {
      ReplaceReservedStepOverOther(x, y);
      ReplaceReservedAppend(x[1..], y);
      Regroup([x[0]], ReplaceReserved(x[1..]), ReplaceReserved(y));
    }
  }

  /** One step of the replacement on `x + y` at a reserved first character of `x`. */
  lemma ReplaceReservedStepOverRun(x: string, y: string)
    requires x != [] && IsReserved(x[0]) && !IsReserved(x[|x| - 1])
    ensures var rest := DropReserved(x[1..]);
      |rest| < |x| && (rest == [] || !IsReserved(rest[|rest| - 1]))
      && ReplaceReserved(x + y) == [' '] + ReplaceReserved(rest + y)
      && ReplaceReserved(x) == [' '] + ReplaceReserved(rest)
  {
    var tail := x[1..];
    assert tail != [] && tail[|tail| - 1] == x[|x| - 1];
    var rest := DropReserved(tail);
    assert rest != [] ==> rest[|rest| - 1] == tail[|tail| - 1];
    assert (x + y)[0] == x[0] && (x + y)[1..] == tail + y;
    DropReservedAppend(tail, y);
    assert ReplaceReserved(x + y) == [' '] + ReplaceReserved(DropReserved((x + y)[1..]));
  }

  /** One step of the replacement on `x + y` at a first character of `x` that is not reserved. */
  lemma ReplaceReservedStepOverOther(x: string, y: string)
    requires x != [] && !IsReserved(x[0]) && !IsReserved(x[|x| - 1])
    ensures x[1..] == [] || !IsReserved(x[1..][|x[1..]| - 1])
    ensures ReplaceReserved(x + y) == [x[0]] + ReplaceReserved(x[1..] + y)
    ensures ReplaceReserved(x) == [x[0]] + ReplaceReserved(x[1..])
  {
    assert (x + y)[0] == x[0] && (x + y)[1..] == x[1..] + y;
  }

  /** Dropping the leading reserved run of `x + y` stays inside `x` when `x` ends in a non-reserved character. */
  lemma {:induction false} DropReservedAppend(x: string, y: string)
    requires x != [] && !IsReserved(x[|x| - 1])
    ensures DropReserved(x + y) == DropReserved(x) + y
    decreases |x|
  {
    assert (x + y)[0] == x[0];
    if IsReserved(x[0]) {
      assert x[1..] != [] && x[1..][|x[1..]| - 1] == x[|x| - 1];
      assert (x + y)[1..] == x[1..] + y;
      DropReservedAppend(x[1..], y);
    }
  }

  /** A run of reserved characters followed by something else is dropped whole. */
  lemma {:induction false} DropReservedRun(run: string, b: string)
    requires AllReserved(run)
    requires b == [] || !IsReserved(b[0])
    ensures DropReserved(run + b) == b
    decreases |run|
  {
    if run == [] {
      assert run + b == b;
    } else {
      assert (run + b)[1..] == run[1..] + b;
      DropReservedRun(run[1..], b);
    }
  }

  /**
   * A maximal run of reserved characters, however long, becomes exactly
   * one space, and the text on either side is treated on its own.
   */
  lemma ReplaceReservedRun(a: string, run: string, b: string)
    requires a == [] || !IsReserved(a[|a| - 1])
    requires run != [] && AllReserved(run)
    requires b == [] || !IsReserved(b[0])
    ensures ReplaceReserved(a + run + b) == ReplaceReserved(a) + " " + ReplaceReserved(b)
  {
    Regroup(a, run, b);
    ReplaceReservedAppend(a, run + b);
    ReplaceReservedLeadingRun(run, b);
    Regroup(ReplaceReserved(a), " ", ReplaceReserved(b));
  }

  lemma ReplaceReservedLeadingRun(run: string, b: string)
    requires run != [] && AllReserved(run)
    requires b == [] || !IsReserved(b[0])
    ensures ReplaceReserved(run + b) == " " + ReplaceReserved(b)
  {
    var s := run + b;
    assert s[0] == run[0];
    assert s[1..] == run[1..] + b;
    DropReservedRun(run[1..], b);
    assert ReplaceReserved(s) == [' '] + ReplaceReserved(DropReserved(s[1..]));
  }

  /**
   * Where a name splits between a character that is not whitespace and
   * whatever follows, the collapse works on the two parts separately.
   */
  lemma {:induction false} CollapseWsAppend(x: string, y: string)
    requires x == [] || !IsWs(x[|x| - 1])
    ensures CollapseWs(x + y) == CollapseWs(x) + CollapseWs(y)
    decreases |x|
  {
    if x == [] {
      assert x + y == y;
    } else if |x| > 1 && IsWs(x[0]) && IsWs(x[1]) {
      var rest := DropWs(x);
      CollapseWsStepOverRun(x, y);
      CollapseWsAppend(rest, y);
      Regroup([' '], CollapseWs(rest), CollapseWs(y));
    } else {
      CollapseWsStepOverOther(x, y);
      CollapseWsAppend(x[1..], y);
      Regroup([x[0]], CollapseWs(x[1..]), CollapseWs(y));
    }
  }

  /** One step of the collapse on `x + y` at a whitespace pair opening `x`. */
  lemma CollapseWsStepOverRun(x: string, y: string)
    requires |x| > 1 && IsWs(x[0]) && IsWs(x[1]) && !IsWs(x[|x| - 1])
    ensures var rest := DropWs(x);
      |rest| < |x| && (rest == [] || !IsWs(rest[|rest| - 1]))
      && CollapseWs(x + y) == [' '] + CollapseWs(rest + y)
      && CollapseWs(x) == [' '] + CollapseWs(rest)
  {
    var rest := DropWs(x);
    assert rest != [] ==> rest[|rest| - 1] == x[|x| - 1];
    assert (x + y)[0] == x[0] && (x + y)[1] == x[1];
    DropWsAppend(x, y);
    assert CollapseWs(x + y) == [' '] + CollapseWs(DropWs(x + y));
  }

  /** One step of the collapse on `x + y` where `x` does not open with a whitespace pair. */
  lemma CollapseWsStepOverOther(x: string, y: string)
    requires x != [] && !IsWs(x[|x| - 1]) && !(|x| > 1 && IsWs(x[0]) && IsWs(x[1]))
    ensures x[1..] == [] || !IsWs(x[1..][|x[1..]| - 1])
    ensures CollapseWs(x + y) == [x[0]] + CollapseWs(x[1..] + y)
    ensures CollapseWs(x) == [x[0]] + CollapseWs(x[1..])
  {
    assert (x + y)[0] == x[0] && (x + y)[1..] == x[1..] + y;
    assert |x| > 1 ==> (x + y)[1] == x[1];
  }

  /** Dropping the leading whitespace of `x + y` stays inside `x` when `x` ends in a non-whitespace character. */
  lemma {:induction false} DropWsAppend(x: string, y: string)
    requires x != [] && !IsWs(x[|x| - 1])
    ensures DropWs(x + y) == DropWs(x) + y
    decreases |x|
  {
    assert (x + y)[0] == x[0];
    if IsWs(x[0]) {
      assert x[1..] != [] && x[1..][|x[1..]| - 1] == x[|x| - 1];
      assert (x + y)[1..] == x[1..] + y;
      DropWsAppend(x[1..], y);
    }
  }

  /** A run of whitespace followed by something else is dropped whole. */
  lemma {:induction false} DropWsRun(run: string, b: string)
    requires AllWs(run)
    requires b == [] || !IsWs(b[0])
    ensures DropWs(run + b) == b
    decreases |run|
  {
    if run == [] {
      assert run + b == b;
    } else {
      assert (run + b)[1..] == run[1..] + b;
      DropWsRun(run[1..], b);
    }
  }

  /**
   * A maximal run of two or more whitespace characters becomes exactly one
   * space (U+0020, whatever the run held), and the text on either side is
   * treated on its own.
   */
  lemma CollapseWsRun(a: string, run: string, b: string)
    requires a == [] || !IsWs(a[|a| - 1])
    requires |run| >= 2 && AllWs(run)
    requires b == [] || !IsWs(b[0])
    ensures CollapseWs(a + run + b) == CollapseWs(a) + " " + CollapseWs(b)
  {
    Regroup(a, run, b);
    CollapseWsAppend(a, run + b);
    CollapseWsLeadingRun(run, b);
    Regroup(CollapseWs(a), " ", CollapseWs(b));
  }

  lemma CollapseWsLeadingRun(run: string, b: string)
    requires |run| >= 2 && AllWs(run)
    requires b == [] || !IsWs(b[0])
    ensures CollapseWs(run + b) == " " + CollapseWs(b)
  {
    var s := run + b;
    assert s[0] == run[0] && s[1] == run[1];
    DropWsRun(run, b);
    assert CollapseWs(s) == [' '] + CollapseWs(DropWs(s));
  }

  /** A lone whitespace character between two others is kept as it is. */
  lemma CollapseWsKeepsLoneWs(a: string, c: char, b: string)
    requires a == [] || !IsWs(a[|a| - 1])
    requires b == [] || !IsWs(b[0])
    ensures CollapseWs(a + [c] + b) == CollapseWs(a) + [c] + CollapseWs(b)
  {
    Regroup(a, [c], b);
    CollapseWsAppend(a, [c] + b);
    if IsWs(c) {
      assert ([c] + b)[1..] == b;
    } else {
      CollapseWsAppend([c], b);
    }
    Regroup(CollapseWs(a), [c], CollapseWs(b));
  }

  /** AllWs says that every character is whitespace. */
  lemma {:induction false} AllWsEvery(s: string)
    ensures AllWs(s) <==> forall i :: 0 <= i < |s| ==> IsWs(s[i])
    decreases |s|
  {
    if s != [] {
      AllWsEvery(s[1..]);
      assert forall i :: 1 <= i < |s| ==> s[i] == s[1..][i - 1];
    }
  }

  /** Whitespace after a character that is not whitespace is exactly what DropWsEnd strips. */
  lemma {:induction false} DropWsEndRun(a: string, run: string)
    requires a == [] || !IsWs(a[|a| - 1])
    requires forall i :: 0 <= i < |run| ==> IsWs(run[i])
    ensures DropWsEnd(a + run) == a
    decreases |run|
  {
    if run == [] {
      assert a + run == a;
    } else {
      var init := run[..|run| - 1];
      var s := a + run;
      assert s[|s| - 1] == run[|run| - 1];
      assert s[..|s| - 1] == a + init;
      DropWsEndRun(a, init);
    }
  }

  /** Trimming strips the whitespace runs on both sides of a trimmed middle. */
  lemma TrimWsAround(p: string, m: string, q: string)
    requires AllWs(p) && AllWs(q)
    requires m != [] && Trimmed(m)
    ensures Trim(p + m + q) == m
  {
    Regroup(p, m, q);
    assert (m + q)[0] == m[0];
    DropWsRun(p, m + q);
    AllWsEvery(q);
    DropWsEndRun(m, q);
  }

  /** Concatenation keeps NoReserved, and only concatenation of names without reserved characters has it. */
  lemma NoReservedAppend(a: string, b: string)
    ensures NoReserved(a + b) <==> NoReserved(a) && NoReserved(b)
  {
    assert forall i :: 0 <= i < |a| ==> (a + b)[i] == a[i];
    assert forall i :: 0 <= i < |b| ==> (a + b)[|a| + i] == b[i];
  }

  /** Whitespace is never reserved. */
  lemma WsNoReserved(s: string)
    requires AllWs(s)
    ensures NoReserved(s)
  {
    AllWsEvery(s);
  }

  /** A name that removeFileNameInvalidCharacters leaves as it is. */
  predicate Clean(s: string) {
    s != [] && NoReserved(s) && Trimmed(s) && NoWsPair(s)
  }

  /** Two clean names joined by one space make a clean name. */
  lemma JoinClean(a: string, b: string)
    requires Clean(a) && Clean(b)
    ensures Clean(a + " " + b)
  {
    var j := a + " " + b;
    assert forall i :: 0 <= i < |a| ==> j[i] == a[i];
    assert j[|a|] == ' ';
    assert forall i :: |a| < i < |j| ==> j[i] == b[i - |a| - 1];
  }

  /** A run of reserved characters between two clean names becomes one space. */
  lemma ReservedRunBetweenCleanNames(a: string, run: string, b: string)
    requires Clean(a) && Clean(b)
    requires run != [] && AllReserved(run)
    ensures RemoveFileNameInvalidCharacters(a + run + b) == a + " " + b
  {
    ReplaceReservedRun(a, run, b);
    ReplaceReservedWithout(a);
    ReplaceReservedWithout(b);
    var joined := a + " " + b;
    JoinClean(a, b);
    ReplaceReservedWithout(joined);
    SameReplacementSameResult(a + run + b, joined);
    CleanNameUnchanged(joined);
  }

  /** The result depends on the name only through the reserved-character replacement. */
  lemma SameReplacementSameResult(x: string, y: string)
    requires ReplaceReserved(x) == ReplaceReserved(y)
    ensures RemoveFileNameInvalidCharacters(x) == RemoveFileNameInvalidCharacters(y)
  {
  }

  /**
   * Two clean words, with whitespace runs of two or more before and between
   * them and any whitespace after them, come out joined by one space.
   */
  lemma SpacedWordsJoined(p: string, x: string, q: string, y: string, t: string)
    requires |p| >= 2 && AllWs(p) && |q| >= 2 && AllWs(q) && AllWs(t)
    requires Clean(x) && Clean(y)
    ensures RemoveFileNameInvalidCharacters(p + x + q + y + t) == x + " " + y
  {
    var s := p + x + q + y + t;
    WsNoReserved(p);
    WsNoReserved(q);
    WsNoReserved(t);
    NoReservedAppend(p, x);
    NoReservedAppend(p + x, q);
    NoReservedAppend(p + x + q, y);
    NoReservedAppend(p + x + q + y, t);
    ReplaceReservedWithout(s);
    var rest := CollapseSpacedWords(p, x, q, y, t);
    JoinClean(x, y);
    assert AllWs(" "[1..]);
    TrimWsAround(" ", x + " " + y, rest);
  }

  /** The collapse step of SpacedWordsJoined: what is left to trim. */
  lemma CollapseSpacedWords(p: string, x: string, q: string, y: string, t: string) returns (rest: string)
    requires |p| >= 2 && AllWs(p) && |q| >= 2 && AllWs(q) && AllWs(t)
    requires Clean(x) && Clean(y)
    ensures AllWs(rest)
    ensures CollapseWs(p + x + q + y + t) == " " + (x + " " + y) + rest
  {
    var tail := x + q + (y + t);
    assert p + x + q + y + t == [] + p + tail;
    CollapseWsRun([], p, tail);
    assert (y + t)[0] == y[0];
    CollapseWsRun(x, q, y + t);
    CollapseWsWithoutPairs(x);
    rest := CollapseWsAfterWord(y, t);
    Rejoin(x, y, rest);
  }

  lemma Rejoin(x: string, y: string, rest: string)
    ensures [] + " " + (x + " " + (y + rest)) == " " + (x + " " + y) + rest
  {
  }

  /** Whitespace after a clean word collapses to whitespace. */
  lemma CollapseWsAfterWord(y: string, t: string) returns (rest: string)
    requires Clean(y) && AllWs(t)
    ensures AllWs(rest)
    ensures CollapseWs(y + t) == y + rest
  {
    CollapseWsWithoutPairs(y);
    if t == [] {
      assert y + t == y;
      rest := [];
    } else if |t| == 1 {
      assert y + t == y + [t[0]] + [];
      CollapseWsKeepsLoneWs(y, t[0], []);
      rest := t;
    } else {
      assert y + t == y + t + [];
      CollapseWsRun(y, t, []);
      assert AllWs(" "[1..]);
      rest := " ";
    }
  }

  /** A name made only of reserved characters comes out as "_". */
  lemma AllReservedBecomesUnderscore(run: string)
    requires run != [] && AllReserved(run)
    ensures RemoveFileNameInvalidCharacters(run) == "_"
  {
    assert run == [] + run + [];
    ReplaceReservedRun([], run, []);
    CollapseWsWithoutPairs(" ");
    assert " "[1..] == [];
  }
}
