/**
 * The records the ingest pipeline stores (Inode, Title, JavFile), what the
 * filesystem reports about a file, what the filename matcher returns, and the
 * messages put on the bus.
 */
module Entities {

  /** A filesystem inode: the de-duplication key shared by hard links. */
  datatype Inode = Inode(id: nat, filesize: nat, checked: bool)

  /** A title, keyed by its catalog number (e.g. "ABC-123"). */
  datatype Title = Title(catalognumber: string)

  /**
   * A video file record. `inode` refers to an Inode by id and `title` to a
   * Title by catalog number; `checked`/`consistent` are the verdict of the
   * health check.
   */
  datatype JavFile = JavFile(
    id: nat,
    filename: string,
    path: string,
    part: nat,
    inode: nat,
    title: string,
    checked: bool,
    consistent: bool)

  /** What SplFileInfo reports about a file on disk. */
  datatype FileInfo = FileInfo(pathname: string, filename: string, inode: nat, size: nat)

  /**
   * The filename matcher's answer: a new Title whose first file is the
   * extracted JavFile, or the failure it throws, carrying the file name and
   * the matchers it tried.
   */
  datatype Extraction =
    | Matched(title: Title, file: JavFile)
    | NoMatch(filename: string, matchers: seq<string>)

  datatype HashAlgorithm = XxHash | Md5

  /** The messages dispatched on the bus. `FooMessage` is the keepalive message. */
  datatype Message =
    | ProcessFileMessage(fileId: nat)
    | CheckVideoMessage(fileId: nat, hasCallback: bool)
    | GenerateThumbnailMessage(fileId: nat)
    | CalculateFileHashesMessage(fileId: nat, algorithm: HashAlgorithm)
    | FooMessage
}
