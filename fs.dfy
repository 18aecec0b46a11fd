/**
 * The filesystem as seen by the file utilities: error values, the stat
 * record and the codes the utilities test for. The calls themselves
 * (fs.access, fs.stat, fs.readdir) are parameters of the operations that
 * use them.
 */
module Fs {

  /** A timestamp taken from a stat record; the model never inspects it. */
  datatype Time = Time(millis: int)

  /** A Node.js system error; only its `code` is ever examined. */
  datatype FsError = FsError(code: string)

  /** The code Node.js reports for a path that does not exist. */
  const ENOENT: string := "ENOENT"

  predicate IsNotFound(e: FsError) {
    e.code == ENOENT
  }

  /** The fields of an fs.Stats object that the listing reads. */
  datatype Stats = Stats(isDirectory: bool, birthtime: Time, size: nat, mtime: Time)
}
