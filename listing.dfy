/**
 * FileUtils.list of src/fileutils.js: read a directory, stat each entry
 * and describe it as a file or a folder, stopping at the first error.
 */
module Listing {
  import opened Wrappers
  import opened Fs
  import opened FileInfo

  /** The record list() builds for one entry from its stat result. */
  function ToInfo(name: string, st: Stats): (info: BaseInfo)
    ensures info.name == name && info.creationTime == st.birthtime
    ensures info.BaseFolderInfo? <==> st.isDirectory
    ensures info.BaseFileInfo? ==> info.size == st.size && info.lastModified == st.mtime
  {
    if st.isDirectory then BaseFolderInfo(name, st.birthtime)
    else BaseFileInfo(name, st.birthtime, st.size, st.mtime)
  }

  /** Every entry of `names` can be stat'ed. */
  predicate AllStat(names: seq<string>, stat: string -> Result<Stats, FsError>) {
    forall i :: 0 <= i < |names| ==> stat(names[i]).Success?
  }

  /**
   * What list() reports for the entries `names`: the entries are popped
   * from the end, so the records come out in reverse order, and the first
   * stat error met on the way ends the listing.
   */
  function Listed(names: seq<string>, stat: string -> Result<Stats, FsError>): (r: Result<seq<BaseInfo>, FsError>)
    ensures r.Success? <==> AllStat(names, stat)
    ensures r.Success? ==> |r.value| == |names|
    ensures r.Success? ==> forall i :: 0 <= i < |names| ==>
              r.value[i] == ToInfo(names[|names| - 1 - i], stat(names[|names| - 1 - i]).value)
    ensures r.Failure? ==> exists i :: 0 <= i < |names| && StatFailsFirstFromEnd(names, stat, i)
                                       && r.error == stat(names[i]).error
    decreases |names|
  {
    if names == [] then Success([])
    else
      var last := names[|names| - 1];
      var rest := names[..|names| - 1];
      match stat(last)
      case Failure(e) =>
        assert StatFailsFirstFromEnd(names, stat, |names| - 1);
        Failure(e)
      case Success(st) =>
        StatFailsBeforeLast(names, stat);
        match Listed(rest, stat)
        case Failure(e) => Failure(e)
        case Success(items) => Success([ToInfo(last, st)] + items)
  }

  /** When the last entry's stat succeeds, the others' stat fails first where that of all of them does. */
  lemma StatFailsBeforeLast(names: seq<string>, stat: string -> Result<Stats, FsError>)
    requires names != [] && stat(names[|names| - 1]).Success?
    ensures forall i :: 0 <= i < |names| - 1 ==>
              names[..|names| - 1][i] == names[i]
              && (StatFailsFirstFromEnd(names[..|names| - 1], stat, i) <==> StatFailsFirstFromEnd(names, stat, i))
  {
  }

  /** Entry `i` is the one whose stat fails first when the entries are popped from the end. */
  predicate StatFailsFirstFromEnd(names: seq<string>, stat: string -> Result<Stats, FsError>, i: int)
    requires 0 <= i < |names|
  {
    stat(names[i]).Failure? && forall j :: i < j < |names| ==> stat(names[j]).Success?
  }

  /** Prepends the records already collected to the outcome of the rest of the listing. */
  function After(items: seq<BaseInfo>, r: Result<seq<BaseInfo>, FsError>): Result<seq<BaseInfo>, FsError> {
    match r
    case Success(more) => Success(items + more)
    case Failure(e) => Failure(e)
  }

  /**
   * list(directory, callback): `entries` is what fs.readdir reported for
   * the directory and `stat` is fs.stat on each entry's joined path.
   */
  method List(entries: Result<seq<string>, FsError>, stat: string -> Result<Stats, FsError>)
    returns (r: Result<seq<BaseInfo>, FsError>)
    ensures entries.Failure? ==> r == Failure(entries.error)
    ensures entries.Success? ==> r == Listed(entries.value, stat)
  {
    if entries.Failure? {
      return Failure(entries.error);
    }
    var fileNames := entries.value;
    var items: seq<BaseInfo> := [];
    AfterNothing(Listed(fileNames, stat));
    while |fileNames| > 0
      invariant After(items, Listed(fileNames, stat)) == Listed(entries.value, stat)
      decreases |fileNames|
    {
      var fileName := fileNames[|fileNames| - 1];
      ListedPop(fileNames, stat);
      fileNames := fileNames[..|fileNames| - 1];
      var st := stat(fileName);
      if st.Failure? {
        return Failure(st.error);
      }
      AfterAppend(items, ToInfo(fileName, st.value), Listed(fileNames, stat));
      items := items + [ToInfo(fileName, st.value)];
    }
    assert items + [] == items;
    return Success(items);
  }

  lemma AfterNothing(r: Result<seq<BaseInfo>, FsError>)
    ensures After([], r) == r
  {
    if r.Success? {
      assert [] + r.value == r.value;
    }
  }

  lemma AfterAppend(items: seq<BaseInfo>, info: BaseInfo, r: Result<seq<BaseInfo>, FsError>)
    ensures After(items, After([info], r)) == After(items + [info], r)
  {
    if r.Success? {
      assert items + ([info] + r.value) == (items + [info]) + r.value;
    }
  }

  /** One pop of list(): the last entry's stat decides, then the rest follows. */
  lemma ListedPop(names: seq<string>, stat: string -> Result<Stats, FsError>)
    requires names != []
    ensures var last := names[|names| - 1];
            Listed(names, stat) ==
              if stat(last).Failure? then Failure(stat(last).error)
              else After([ToInfo(last, stat(last).value)], Listed(names[..|names| - 1], stat))
  {
  }
}
