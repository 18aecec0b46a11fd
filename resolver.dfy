/**
 * The three collision-avoiding resolvers of src/fileutils.js
 * (findNewFileName, findNewFileNameWithSpecifiedExtensionName,
 * findNewFolderName). Each probes a candidate with fs.access and, while the
 * probe succeeds, moves to the next candidate. The directory's fs.access is
 * the parameter `access`; the JavaScript loop has no bound, so every
 * resolver here takes `maxAttempts` and answers None when that many
 * candidates were all taken.
 */
module Resolver {
  import opened Wrappers
  import opened Fs
  import opened Names
  import Existence

  /** The candidate after `k` taken names, starting from `start`. */
  function Candidate(step: string -> string, start: string, k: nat): (r: string)
    ensures k > 0 ==> exists previous :: r == step(previous)
    decreases k
  {
    if k == 0 then start else Candidate(step, step(start), k - 1)
  }

  /**
   * A candidate is free when fs.access on it, followed by `suffix`, fails:
   * the source treats every error as "the name does not exist", so a name is
   * free exactly when exists() does not answer true, including when exists()
   * passes an error other than ENOENT on.
   */
  predicate IsFree(access: string -> Outcome<FsError>, suffix: string, candidate: string)
    ensures IsFree(access, suffix, candidate) <==> Existence.Exists(access, candidate + suffix) != Success(true)
  {
    access(candidate + suffix).Fail?
  }

  /** The first free candidate among the first `fuel` ones, if there is one. */
  function FirstFree(step: string -> string, access: string -> Outcome<FsError>, suffix: string,
                     start: string, fuel: nat): (r: Option<string>)
    ensures r.Some? ==> IsFree(access, suffix, r.value)
    decreases fuel
  {
    if fuel == 0 then None
    else if IsFree(access, suffix, start) then Some(start)
    else FirstFree(step, access, suffix, step(start), fuel - 1)
  }

  /** One step into the sequence from `start` is the sequence from `step(start)`. */
  lemma CandidateShift(step: string -> string, start: string, k: nat)
    ensures Candidate(step, start, k + 1) == Candidate(step, step(start), k)
  {
  }

  /** Candidate `k` is free and every candidate before it is taken. */
  predicate IsFirstFreeAt(step: string -> string, access: string -> Outcome<FsError>, suffix: string,
                          start: string, k: nat)
  {
    IsFree(access, suffix, Candidate(step, start, k))
    && forall j :: 0 <= j < k ==> !IsFree(access, suffix, Candidate(step, start, j))
  }

  /**
   * When FirstFree answers a name, it is the first free element of start,
   * step(start), step(step(start)), ... within the first `fuel`.
   */
  lemma {:induction false} FirstFreeIsFirst(step: string -> string, access: string -> Outcome<FsError>,
                                            suffix: string, start: string, fuel: nat)
    requires FirstFree(step, access, suffix, start, fuel).Some?
    ensures exists k :: (0 <= k < fuel && IsFirstFreeAt(step, access, suffix, start, k)
                         && FirstFree(step, access, suffix, start, fuel).value == Candidate(step, start, k))
    decreases fuel
  {
    var r := FirstFree(step, access, suffix, start, fuel);
    if IsFree(access, suffix, start) {
      assert Candidate(step, start, 0) == start;
      assert IsFirstFreeAt(step, access, suffix, start, 0);
    } else {
      assert r == FirstFree(step, access, suffix, step(start), fuel - 1);
      FirstFreeIsFirst(step, access, suffix, step(start), fuel - 1);
      var k :| 0 <= k < fuel - 1 && IsFirstFreeAt(step, access, suffix, step(start), k)
        && r.value == Candidate(step, step(start), k);
      CandidateShift(step, start, k);
      forall j | 0 <= j < k + 1
        ensures !IsFree(access, suffix, Candidate(step, start, j))
      {
        if j > 0 {
          CandidateShift(step, start, j - 1);
        }
      }
      assert IsFirstFreeAt(step, access, suffix, start, k + 1);
    }
  }

  /** FirstFree finds nothing exactly when each of the first `fuel` candidates is taken. */
  lemma {:induction false} FirstFreeNoneIffAllTaken(step: string -> string, access: string -> Outcome<FsError>,
                                                    suffix: string, start: string, fuel: nat)
    ensures FirstFree(step, access, suffix, start, fuel).None? ==>
      forall k :: 0 <= k < fuel ==> !IsFree(access, suffix, Candidate(step, start, k))
    ensures (forall k :: 0 <= k < fuel ==> !IsFree(access, suffix, Candidate(step, start, k))) ==>
      FirstFree(step, access, suffix, start, fuel).None?
    decreases fuel
  {
    if fuel > 0 {
      assert Candidate(step, start, 0) == start;
      if !IsFree(access, suffix, start) {
        var rest := FirstFree(step, access, suffix, step(start), fuel - 1);
        assert FirstFree(step, access, suffix, start, fuel) == rest;
        FirstFreeNoneIffAllTaken(step, access, suffix, step(start), fuel - 1);
        if rest.None? {
          forall k | 0 <= k < fuel
            ensures !IsFree(access, suffix, Candidate(step, start, k))
          {
            if k > 0 {
              CandidateShift(step, start, k - 1);
            }
          }
        } else {
          var k :| 0 <= k < fuel - 1 && IsFree(access, suffix, Candidate(step, step(start), k));
          CandidateShift(step, start, k);
        }
      }
    }
  }

  /** A free starting name is returned unchanged, after one probe. */
  lemma FreeStartReturned(step: string -> string, access: string -> Outcome<FsError>,
                          suffix: string, start: string, fuel: nat)
    requires fuel > 0 && access(start + suffix).Fail?
    ensures FirstFree(step, access, suffix, start, fuel) == Some(start)
  {
  }

  /**
   * The attempt bound only cuts the search short: with more attempts a
   * name that was found is found again.
   */
  lemma {:induction false} MoreAttemptsSameAnswer(step: string -> string, access: string -> Outcome<FsError>,
                                                  suffix: string, start: string, fuel: nat, fuel': nat)
    requires fuel <= fuel'
    requires FirstFree(step, access, suffix, start, fuel).Some?
    ensures FirstFree(step, access, suffix, start, fuel') == FirstFree(step, access, suffix, start, fuel)
    decreases fuel
  {
    if !IsFree(access, suffix, start) {
      MoreAttemptsSameAnswer(step, access, suffix, step(start), fuel - 1, fuel' - 1);
    }
  }

  /** The probe-and-retry loop that the three resolvers share. */
  method ProbeCandidates(step: string -> string, access: string -> Outcome<FsError>, suffix: string,
                         start: string, maxAttempts: nat)
    returns (found: Option<string>)
    ensures found == FirstFree(step, access, suffix, start, maxAttempts)
  {
    var candidate := start;
    var attempts := 0;
    while attempts < maxAttempts
      invariant attempts <= maxAttempts
      invariant FirstFree(step, access, suffix, candidate, maxAttempts - attempts)
             == FirstFree(step, access, suffix, start, maxAttempts)
    {
      if access(candidate + suffix).Fail? {
        return Some(candidate);
      }
      candidate := step(candidate);
      attempts := attempts + 1;
    }
    return None;
  }

  /**
   * findNewFileName: a free name in the directory, obtained by applying the
   * next-name step to the base name of the candidate and re-attaching its
   * extension. Unless the name is "..", the answer keeps the extension.
   */
  method FindNewFileName(access: string -> Outcome<FsError>, fileName: string, maxAttempts: nat)
    returns (found: Option<string>)
    ensures found == FirstFree(NextFileName, access, "", fileName, maxAttempts)
    ensures found.Some? ==> access(found.value).Fail?
    ensures found.Some? && fileName != ".." ==> SplitExtension(found.value).1 == SplitExtension(fileName).1
  {
    found := ProbeCandidates(NextFileName, access, "", fileName, maxAttempts);
    if found.Some? {
      FirstFreeIsFirst(NextFileName, access, "", fileName, maxAttempts);
    }
    if found.Some? && fileName != ".." {
      var k :| 0 <= k < maxAttempts && found.value == Candidate(NextFileName, fileName, k);
      CandidatesKeepExtension(fileName, k);
    }
    assert found.Some? ==> found.value + "" == found.value;
  }

  /**
   * findNewFileNameWithSpecifiedExtensionName: the candidates are base
   * names; each probe is on the base name followed by `extensionName`, which
   * is never altered, and the answer is the base name alone.
   */
  method FindNewFileNameWithSpecifiedExtensionName(access: string -> Outcome<FsError>, baseName: string,
                                                   extensionName: string, maxAttempts: nat)
    returns (found: Option<string>)
    ensures found == FirstFree(NextName, access, extensionName, baseName, maxAttempts)
    ensures found.Some? ==> access(found.value + extensionName).Fail?
  {
    found := ProbeCandidates(NextName, access, extensionName, baseName, maxAttempts);
    if found.Some? {
      FirstFreeIsFirst(NextName, access, extensionName, baseName, maxAttempts);
    }
  }

  /**
   * findNewFolderName: the whole folder name is one token for the
   * next-name step, so "foo.bar" is followed by "foo.bar 2".
   */
  method FindNewFolderName(access: string -> Outcome<FsError>, folderName: string, maxAttempts: nat)
    returns (found: Option<string>)
    ensures found == FirstFree(NextName, access, "", folderName, maxAttempts)
    ensures found.Some? ==> access(found.value).Fail?
  {
    found := ProbeCandidates(NextName, access, "", folderName, maxAttempts);
    if found.Some? {
      FirstFreeIsFirst(NextName, access, "", folderName, maxAttempts);
    }
    assert found.Some? ==> found.value + "" == found.value;
  }

  /** A property of names that the step preserves holds of every candidate. */
  lemma {:induction false} CandidatesKeep(step: string -> string, inv: string -> bool, start: string, k: nat)
    requires inv(start)
    requires forall c :: inv(c) ==> inv(step(c))
    ensures inv(Candidate(step, start, k))
    decreases k
  {
    if k > 0 {
      CandidatesKeep(step, inv, step(start), k - 1);
    }
  }

  /** Every candidate findNewFileName probes has the extension of the name it started from. */
  lemma CandidatesKeepExtension(fileName: string, k: nat)
    requires fileName != ".."
    ensures SplitExtension(Candidate(NextFileName, fileName, k)).1 == SplitExtension(fileName).1
  {
    var ext := SplitExtension(fileName).1;
    var inv := c => c != ".." && SplitExtension(c).1 == ext;
    forall c | inv(c)
      ensures inv(NextFileName(c))
    {
      ExtensionKept(c);
    }
    CandidatesKeep(NextFileName, inv, fileName, k);
  }

  /** Taking `a` steps and then `b` more is taking `a + b` steps. */
  lemma {:induction false} CandidateAdd(step: string -> string, start: string, a: nat, b: nat)
    ensures Candidate(step, Candidate(step, start, a), b) == Candidate(step, start, a + b)
    decreases a
  {
    if a > 0 {
      CandidateAdd(step, step(start), a - 1, b);
    }
  }

  /**
   * Below 10000 the candidates count up: from `prefix + text(n)` they reach
   * `prefix + text(m)` after `m - n` steps, for n <= m <= 10000.
   */
  lemma CountUp(prefix: string, n: nat, m: nat)
    requires prefix == [] || !IsDigit(prefix[|prefix| - 1])
    requires n <= m <= 10000
    ensures Candidate(NextName, prefix + DecimalText(n), m - n) == prefix + DecimalText(m)
  {
    var numbered := (k: nat) => prefix + DecimalText(k);
    forall k | n <= k < m
      ensures NextName(numbered(k)) == numbered(k + 1)
    {
      NextNameCountsUp(prefix, k);
    }
    CandidatesFollow(NextName, numbered, n, m);
  }

  /** When each of `name(n)`, ..., `name(m - 1)` steps to the next, the candidates from `name(n)` run through them. */
  lemma {:induction false} CandidatesFollow(step: string -> string, name: nat -> string, n: nat, m: nat)
    requires n <= m
    requires forall k :: n <= k < m ==> step(name(k)) == name(k + 1)
    ensures Candidate(step, name(n), m - n) == name(m)
    decreases m - n
  {
    if n < m {
      CandidatesFollow(step, name, n + 1, m);
      CandidateStep(step, name(n), name(n + 1), m - n - 1, name(m));
    }
  }

  /** A start whose step is `next`, from which `k` steps reach `target`, reaches it in `k + 1`. */
  lemma CandidateStep(step: string -> string, start: string, next: string, k: nat, target: string)
    requires step(start) == next && Candidate(step, next, k) == target
    ensures Candidate(step, start, k + 1) == target
  {
  }

  /**
   * The candidate sequence can cycle: from `prefix + "11"` it returns to
   * `prefix + "11"` after 9990 steps (up to "10000", whose last four digits
   * "0000" then give "1" + "1"). A directory holding those 9990 names makes
   * the unbounded loop of the source run forever.
   */
  lemma CandidatesCycle(prefix: string)
    requires prefix == [] || !IsDigit(prefix[|prefix| - 1])
    ensures Candidate(NextName, prefix + "11", 9990) == prefix + "11"
  {
    CountUpFrom11(prefix);
    WrapAfter10000(prefix);
  }

  /** The 9989 steps from `prefix + "11"` up to `prefix + "10000"`. */
  lemma CountUpFrom11(prefix: string)
    requires prefix == [] || !IsDigit(prefix[|prefix| - 1])
    ensures Candidate(NextName, prefix + "11", 9989) == prefix + "10000"
  {
    TextOfEleven();
    TextOfTenThousand();
    CountUpSpelled(prefix, 11, 10000, "11", "10000");
  }

  /** CountUp, with the two numbers' decimal texts given as strings. */
  lemma CountUpSpelled(prefix: string, n: nat, m: nat, first: string, last: string)
    requires prefix == [] || !IsDigit(prefix[|prefix| - 1])
    requires n <= m <= 10000
    requires DecimalText(n) == first && DecimalText(m) == last
    ensures Candidate(NextName, prefix + first, m - n) == prefix + last
  {
    CountUp(prefix, n, m);
  }

  /** The step from `prefix + "10000"` back to `prefix + "11"` closes the cycle. */
  lemma WrapAfter10000(prefix: string)
    requires prefix == [] || !IsDigit(prefix[|prefix| - 1])
    requires Candidate(NextName, prefix + "11", 9989) == prefix + "10000"
    ensures Candidate(NextName, prefix + "11", 9990) == prefix + "11"
  {
    CandidateAdd(NextName, prefix + "11", 9989, 1);
    NextNameWrapsPastFourDigits(prefix);
  }

  /** When every candidate in the cycle is taken, no number of attempts finds a name. */
  lemma {:induction false} CycleNeverFree(access: string -> Outcome<FsError>, prefix: string, fuel: nat)
    requires prefix == [] || !IsDigit(prefix[|prefix| - 1])
    requires forall k :: 0 <= k < 9990 ==> !IsFree(access, "", Candidate(NextName, prefix + "11", k))
    ensures FirstFree(NextName, access, "", prefix + "11", fuel) == None
  {
    FirstFreeNoneIffAllTaken(NextName, access, "", prefix + "11", fuel);
    forall k | 0 <= k < fuel
      ensures !IsFree(access, "", Candidate(NextName, prefix + "11", k))
    {
      CycleTaken(access, prefix, k);
    }
  }

  /** Candidate `k` from `prefix + "11"` is candidate `k % 9990`, which is taken. */
  lemma CycleTaken(access: string -> Outcome<FsError>, prefix: string, k: nat)
    requires prefix == [] || !IsDigit(prefix[|prefix| - 1])
    requires forall k :: 0 <= k < 9990 ==> !IsFree(access, "", Candidate(NextName, prefix + "11", k))
    ensures !IsFree(access, "", Candidate(NextName, prefix + "11", k))
  {
    var q, r := k / 9990, k % 9990;
    assert k == q * 9990 + r;
    CandidatesCycle(prefix);
    CandidateRepeats(NextName, prefix + "11", 9990, q, r);
  }

  /** Once the sequence returns to its start after `period` steps, it repeats with that period. */
  lemma {:induction false} CandidateRepeats(step: string -> string, start: string, period: nat, q: nat, r: nat)
    requires Candidate(step, start, period) == start
    ensures Candidate(step, start, q * period + r) == Candidate(step, start, r)
    decreases q
  {
    if q > 0 {
      var rest := (q - 1) * period + r;
      assert q * period + r == period + rest;
      CandidateAdd(step, start, period, rest);
      CandidateRepeats(step, start, period, q - 1, r);
    }
  }
}
