/**
 * FileUtils.exists, existsAll and existsAny of src/fileutils.js. fs.access
 * is the parameter `access`: Pass when the path is accessible, Fail with
 * the system error otherwise.
 */
module Existence {
  import opened Wrappers
  import opened Fs

  /** exists(filePath): true when access succeeds, false on ENOENT, any other error is passed on. */
  function Exists(access: string -> Outcome<FsError>, filePath: string): (r: Result<bool, FsError>)
    ensures r == Success(true) <==> access(filePath).Pass?
    ensures r == Success(false) <==> access(filePath).Fail? && IsNotFound(access(filePath).error)
    ensures r.Failure? <==> access(filePath).Fail? && !IsNotFound(access(filePath).error)
    ensures r.Failure? ==> r.error == access(filePath).error
  {
    match access(filePath)
    case Pass => Success(true)
    case Fail(err) => if err.code == ENOENT then Success(false) else Failure(err)
  }

  /** Path `i` is passed over by a scan that continues while exists() answers `goOn`. */
  predicate PassedOver(access: string -> Outcome<FsError>, paths: seq<string>, goOn: bool, i: int)
    requires 0 <= i < |paths|
  {
    Exists(access, paths[i]) == Success(goOn)
  }

  /** Path `i` is where a scan from the end that continues while exists() answers `goOn` stops. */
  predicate StopsAt(access: string -> Outcome<FsError>, paths: seq<string>, goOn: bool, i: int)
    requires 0 <= i < |paths|
  {
    !PassedOver(access, paths, goOn, i) && forall j :: i < j < |paths| ==> PassedOver(access, paths, goOn, j)
  }

  /**
   * The loop shared by existsAll and existsAny: pop paths from the end
   * while exists() answers `goOn`. The result is the first path popped
   * whose answer is the other one, None when every path was passed over,
   * or the first error met.
   */
  function Scan(access: string -> Outcome<FsError>, paths: seq<string>, goOn: bool): (r: Result<Option<string>, FsError>)
    ensures r == Success(None) <==> forall i :: 0 <= i < |paths| ==> PassedOver(access, paths, goOn, i)
    ensures r.Success? && r.value.Some? ==>
              exists i :: 0 <= i < |paths| && StopsAt(access, paths, goOn, i)
                          && paths[i] == r.value.value && Exists(access, paths[i]) == Success(!goOn)
    ensures r.Failure? ==>
              exists i :: 0 <= i < |paths| && StopsAt(access, paths, goOn, i)
                          && Exists(access, paths[i]) == Failure(r.error)
    decreases |paths|
  {
    if paths == [] then Success(None)
    else
      var last := |paths| - 1;
      var rest := paths[..last];
      match Exists(access, paths[last])
      case Failure(err) =>
        assert StopsAt(access, paths, goOn, last);
        Failure(err)
      case Success(found) =>
        if found != goOn then
          assert StopsAt(access, paths, goOn, last);
          Success(Some(paths[last]))
        else
          var r := Scan(access, rest, goOn);
          StopsBeforeLast(access, paths, goOn);
          r
  }

  /** When the last path is passed over, the scan of the others stops where the scan of all of them does. */
  lemma StopsBeforeLast(access: string -> Outcome<FsError>, paths: seq<string>, goOn: bool)
    requires paths != [] && PassedOver(access, paths, goOn, |paths| - 1)
    ensures forall i :: 0 <= i < |paths| - 1 ==>
              paths[..|paths| - 1][i] == paths[i]
              && (PassedOver(access, paths[..|paths| - 1], goOn, i) <==> PassedOver(access, paths, goOn, i))
              && (StopsAt(access, paths[..|paths| - 1], goOn, i) <==> StopsAt(access, paths, goOn, i))
  {
    var rest := paths[..|paths| - 1];
    forall i | 0 <= i < |rest|
      ensures rest[i] == paths[i]
      ensures PassedOver(access, rest, goOn, i) <==> PassedOver(access, paths, goOn, i)
      ensures StopsAt(access, rest, goOn, i) <==> StopsAt(access, paths, goOn, i)
    {
      forall j | i < j < |rest|
        ensures PassedOver(access, rest, goOn, j) <==> PassedOver(access, paths, goOn, j)
      {
        assert rest[j] == paths[j];
      }
    }
  }

  /** The path where the scan stops decides its outcome: that path's error, or that path. */
  lemma {:induction false} ScanStopsAt(access: string -> Outcome<FsError>, paths: seq<string>, goOn: bool, i: int)
    requires 0 <= i < |paths| && StopsAt(access, paths, goOn, i)
    ensures Exists(access, paths[i]).Failure? ==> Scan(access, paths, goOn) == Failure(Exists(access, paths[i]).error)
    ensures Exists(access, paths[i]).Success? ==> Scan(access, paths, goOn) == Success(Some(paths[i]))
    decreases |paths|
  {
    if i < |paths| - 1 {
      StopsBeforeLast(access, paths, goOn);
      ScanStopsAt(access, paths[..|paths| - 1], goOn, i);
    }
  }

  /** ScanStopsAt for every path where the scan can stop. */
  lemma ScanDecided(access: string -> Outcome<FsError>, paths: seq<string>, goOn: bool)
    ensures forall i :: 0 <= i < |paths| && StopsAt(access, paths, goOn, i) ==>
              (Exists(access, paths[i]).Failure? ==> Scan(access, paths, goOn) == Failure(Exists(access, paths[i]).error))
              && (Exists(access, paths[i]).Success? ==> Scan(access, paths, goOn) == Success(Some(paths[i])))
  {
    forall i | 0 <= i < |paths| && StopsAt(access, paths, goOn, i)
      ensures Exists(access, paths[i]).Failure? ==> Scan(access, paths, goOn) == Failure(Exists(access, paths[i]).error)
      ensures Exists(access, paths[i]).Success? ==> Scan(access, paths, goOn) == Success(Some(paths[i]))
    {
      ScanStopsAt(access, paths, goOn, i);
    }
  }

  /**
   * existsAll's answer, callback(err, allExist, absentPath): true when
   * every path exists, otherwise false with the first absent path found
   * scanning from the end.
   */
  function AllAnswer(access: string -> Outcome<FsError>, paths: seq<string>): (r: Result<(bool, Option<string>), FsError>)
    ensures r.Success? && r.value.0 <==> forall i :: 0 <= i < |paths| ==> Exists(access, paths[i]) == Success(true)
    ensures r.Success? ==> (r.value.0 <==> r.value.1.None?)
    ensures r.Success? && !r.value.0 ==>
              exists i :: 0 <= i < |paths| && paths[i] == r.value.1.value && Exists(access, paths[i]) == Success(false)
                          && forall j :: i < j < |paths| ==> Exists(access, paths[j]) == Success(true)
    ensures r.Failure? ==>
              exists i :: 0 <= i < |paths| && StopsAt(access, paths, true, i) && Exists(access, paths[i]) == Failure(r.error)
    ensures forall i :: 0 <= i < |paths| && StopsAt(access, paths, true, i) ==>
              (Exists(access, paths[i]).Failure? ==> r == Failure(Exists(access, paths[i]).error))
              && (Exists(access, paths[i]) == Success(false) ==> r == Success((false, Some(paths[i]))))
  {
    assert forall i :: 0 <= i < |paths| ==>
      (PassedOver(access, paths, true, i) <==> Exists(access, paths[i]) == Success(true));
    ScanDecided(access, paths, true);
    match Scan(access, paths, true)
    case Success(absent) => Success((absent.None?, absent))
    case Failure(err) => Failure(err)
  }

  /**
   * existsAny's answer, callback(err, anyExists, existingPath): true with
   * the first existing path found scanning from the end, false when none
   * exists.
   */
  function AnyAnswer(access: string -> Outcome<FsError>, paths: seq<string>): (r: Result<(bool, Option<string>), FsError>)
    ensures r.Success? && !r.value.0 <==> forall i :: 0 <= i < |paths| ==> Exists(access, paths[i]) == Success(false)
    ensures r.Success? ==> (r.value.0 <==> r.value.1.Some?)
    ensures r.Success? && r.value.0 ==>
              exists i :: 0 <= i < |paths| && paths[i] == r.value.1.value && Exists(access, paths[i]) == Success(true)
                          && forall j :: i < j < |paths| ==> Exists(access, paths[j]) == Success(false)
    ensures r.Failure? ==>
              exists i :: 0 <= i < |paths| && StopsAt(access, paths, false, i) && Exists(access, paths[i]) == Failure(r.error)
    ensures forall i :: 0 <= i < |paths| && StopsAt(access, paths, false, i) ==>
              (Exists(access, paths[i]).Failure? ==> r == Failure(Exists(access, paths[i]).error))
              && (Exists(access, paths[i]) == Success(true) ==> r == Success((true, Some(paths[i]))))
  {
    assert forall i :: 0 <= i < |paths| ==>
      (PassedOver(access, paths, false, i) <==> Exists(access, paths[i]) == Success(false));
    ScanDecided(access, paths, false);
    match Scan(access, paths, false)
    case Success(present) => Success((present.Some?, present))
    case Failure(err) => Failure(err)
  }

  /** existsAll(filePaths, callback), scanning a copy of `filePaths` so the caller's array is left alone. */
  method ExistsAll(filePaths: array<string>, access: string -> Outcome<FsError>)
    returns (r: Result<(bool, Option<string>), FsError>)
    ensures r == AllAnswer(access, filePaths[..])
  {
    var found := ScanFromEnd(access, filePaths[..], true);
    match found
    case Success(absent) => r := Success((absent.None?, absent));
    case Failure(err) => r := Failure(err);
  }

  /** existsAny(filePaths, callback), scanning a copy of `filePaths` so the caller's array is left alone. */
  method ExistsAny(filePaths: array<string>, access: string -> Outcome<FsError>)
    returns (r: Result<(bool, Option<string>), FsError>)
    ensures r == AnyAnswer(access, filePaths[..])
  {
    var found := ScanFromEnd(access, filePaths[..], false);
    match found
    case Success(present) => r := Success((present.Some?, present));
    case Failure(err) => r := Failure(err);
  }

  /** processCheckNext: pops the copied paths one at a time until one decides the answer. */
  method ScanFromEnd(access: string -> Outcome<FsError>, paths: seq<string>, goOn: bool)
    returns (r: Result<Option<string>, FsError>)
    ensures r == Scan(access, paths, goOn)
  {
    var remaining := paths;
    while |remaining| > 0
      invariant Scan(access, remaining, goOn) == Scan(access, paths, goOn)
      decreases |remaining|
    {
      var filePath := remaining[|remaining| - 1];
      var answer := Exists(access, filePath);
      if answer.Failure? {
        return Failure(answer.error);
      }
      if answer.value != goOn {
        return Success(Some(filePath));
      }
      remaining := remaining[..|remaining| - 1];
    }
    return Success(None);
  }
}
