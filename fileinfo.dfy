/**
 * The records a listing produces. In the JavaScript both classes extend
 * AbstractBaseFileInfo(name, creationTime); here they are the two
 * constructors of one datatype, whose shared fields are `name` and
 * `creationTime`.
 */
module FileInfo {
  import opened Fs

  datatype BaseInfo =
    | BaseFileInfo(name: string, creationTime: Time, size: nat, lastModified: Time)
    | BaseFolderInfo(name: string, creationTime: Time)
}
