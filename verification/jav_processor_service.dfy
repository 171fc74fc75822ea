/**
 * The ingest service: which files qualify for processing, how a file seen on
 * disk is de-duplicated against the stored inodes, files and titles, and
 * which messages the service puts on the bus.
 */
module JavProcessorService {
  import opened Wrappers
  import opened PhpStrings
  import opened Entities
  import opened Persistence

  /** Strings whose presence anywhere in a file name, in any case, disqualifies it. */
  const BLACKLIST_NAMES: seq<string> := ["hentaikuindo"]
  /** The generic name a browser gives a downloaded video. */
  const PLACEHOLDER_STEM: string := "videoplayback"

  const LOG_BLACKLIST_NAME: string := "Filename contains blacklisted string"
  const LOG_UNKNOWN_JAVJACK: string := "Unknown JAVJACK file detected"

  /** The name without directory and extension, trimmed. */
  function Stem(filename: string): string {
    Trim(PathinfoFilename(filename))
  }

  /** A download artifact: the stem is all hex digits (and non-empty) or the placeholder name. */
  predicate IsUnknownJavJack(filename: string) {
    CtypeXdigit(Stem(filename)) || Stem(filename) == PLACEHOLDER_STEM
  }

  /** Some blacklist entry occurs in the whole, untrimmed file name, ignoring case. */
  predicate ContainsBlacklisted(filename: string, blacklist: seq<string>) {
    exists k :: 0 <= k < |blacklist| && Stripos(filename, blacklist[k]).Some?
  }

  predicate Qualifies(filename: string, blacklist: seq<string>) {
    !IsUnknownJavJack(filename) && !ContainsBlacklisted(filename, blacklist)
  }

  /**
   * shouldProcessFile: the artifact test first, then a scan of the blacklist
   * that stops at the first hit. Each rejection yields exactly one warning.
   */
  method ShouldProcessFile(filename: string, blacklist: seq<string>) returns (ok: bool, warnings: seq<string>)
    ensures ok <==> Qualifies(filename, blacklist)
    ensures ok ==> warnings == []
    ensures !ok ==> warnings == [if IsUnknownJavJack(filename) then LOG_UNKNOWN_JAVJACK else LOG_BLACKLIST_NAME]
  {
    var fileName := Trim(PathinfoFilename(filename));
    if CtypeXdigit(fileName) || fileName == PLACEHOLDER_STEM {
      return false, [LOG_UNKNOWN_JAVJACK];
    }
    var i := 0;
    while i < |blacklist|
      invariant 0 <= i <= |blacklist|
      invariant forall k :: 0 <= k < i ==> Stripos(filename, blacklist[k]).None?
    {
      if Stripos(filename, blacklist[i]).Some? {
        return false, [LOG_BLACKLIST_NAME];
      }
      i := i + 1;
    }
    return true, [];
  }

  /** An occurrence of a blacklist entry, in any letter case, disqualifies the file. */
  lemma BlacklistedInAnyCase(filename: string, blacklist: seq<string>, k: nat, at: nat)
    requires k < |blacklist| && OccursAt(Lower(filename), Lower(blacklist[k]), at)
    ensures !Qualifies(filename, blacklist)
  {
    assert Stripos(filename, blacklist[k]).Some?;
  }

  /** The stem of "name.ext", with no directory, no other dot and no padding, is "name". */
  lemma StemOfSimpleName(name: string, ext: string)
    requires '/' !in name && '/' !in ext && '.' !in name && '.' !in ext
    requires name == [] || (!IsTrimChar(name[0]) && !IsTrimChar(name[|name| - 1]))
    ensures Stem(name + "." + ext) == name
  {
    PathinfoFilenameOfSimpleName(name, ext);
    TrimUntrimmed(name);
  }

  /** A hash-named download ("deadbeef.mp4") is an artifact, whatever the blacklist. */
  lemma HexNamedFileIsRejected(name: string, ext: string, blacklist: seq<string>)
    requires '/' !in name && '/' !in ext && '.' !in name && '.' !in ext
    requires CtypeXdigit(name)
    ensures !Qualifies(name + "." + ext, blacklist)
  {
    assert IsHexDigit(name[0]) && IsHexDigit(name[|name| - 1]);
    StemOfSimpleName(name, ext);
  }

  /** A file with nothing before its extension (".mkv") has an empty stem, which the hex test lets through. */
  lemma DotFileHasEmptyStem(ext: string)
    requires '/' !in ext && '.' !in ext
    ensures Stem("." + ext) == [] && !IsUnknownJavJack("." + ext)
  {
    assert [] + "." + ext == "." + ext;
    StemOfSimpleName([], ext);
  }

  /** The placeholder name is an artifact whatever its extension and the blacklist. */
  lemma PlaceholderIsRejected(ext: string, blacklist: seq<string>)
    requires '/' !in ext && '.' !in ext
    ensures !Qualifies(PLACEHOLDER_STEM + "." + ext, blacklist)
  {
    StemOfSimpleName(PLACEHOLDER_STEM, ext);
  }

  /** A name shorter than every blacklist entry cannot contain one. */
  lemma ShortNameIsNotBlacklisted(filename: string, blacklist: seq<string>)
    requires forall k :: 0 <= k < |blacklist| ==> |filename| < |blacklist[k]|
    ensures !ContainsBlacklisted(filename, blacklist)
  {
    forall k | 0 <= k < |blacklist|
      ensures Stripos(filename, blacklist[k]).None?
    {
      assert |Lower(filename)| < |Lower(blacklist[k])|;
    }
  }

  /**
   * A plain "name.ext" whose name is neither all hex nor the placeholder
   * qualifies when it is too short to hold any blacklist entry.
   */
  lemma SimpleNameQualifies(name: string, ext: string, blacklist: seq<string>)
    requires '/' !in name && '/' !in ext && '.' !in name && '.' !in ext
    requires name == [] || (!IsTrimChar(name[0]) && !IsTrimChar(name[|name| - 1]))
    requires !CtypeXdigit(name) && name != PLACEHOLDER_STEM
    requires forall k :: 0 <= k < |blacklist| ==> |name| + 1 + |ext| < |blacklist[k]|
    ensures Qualifies(name + "." + ext, blacklist)
  {
    StemOfSimpleName(name, ext);
    ShortNameIsNotBlacklisted(name + "." + ext, blacklist);
  }

  /** "ABC-123.mkv", the matcher's own example, qualifies under the shipped blacklist. */
  lemma CatalogNameQualifies()
    ensures Qualifies("ABC-123" + "." + "mkv", BLACKLIST_NAMES)
  {
    assert !IsHexDigit("ABC-123"[3]);
    SimpleNameQualifies("ABC-123", "mkv", BLACKLIST_NAMES);
  }

  /**
   * fileExists: the inode must be known and a file row must exist for the
   * path; when the inode is unknown the file repository is not consulted.
   */
  predicate FileExists(b: Backend, info: FileInfo): (r: bool)
    reads b
    ensures r <==> info.inode in b.inodes
                   && exists j :: 0 <= j < |b.files| && b.files[j].path == info.pathname
  {
    if info.inode in b.inodes then FirstWithPath(b.files, info.pathname).Some? else false
  }

  /** processFile: dispatch one ProcessFileMessage for the record. */
  method ProcessFile(b: Backend, f: JavFile)
    modifies b`sent
    ensures b.sent == old(b.sent) + [ProcessFileMessage(f.id)]
  {
    b.Dispatch(ProcessFileMessage(f.id));
  }

  /** checkVideoConsistency: dispatch one CheckVideoMessage (without callback) for the record. */
  method CheckVideoConsistency(b: Backend, f: JavFile)
    modifies b`sent
    ensures b.sent == old(b.sent) + [CheckVideoMessage(f.id, false)]
  {
    b.Dispatch(CheckVideoMessage(f.id, false));
  }

  datatype IngestOutcome =
    | AlreadyKnown(fileId: nat)
    | ExtractionFailed(filename: string, matchers: seq<string>)
    | Skipped(filename: string)
    | Stored(fileId: nat)

  /** The row stored for a new file: the extracted record with its path, inode and title set. */
  function NewRecord(extracted: JavFile, info: FileInfo, catalognumber: string, id: nat): JavFile {
    extracted.(id := id, path := info.pathname, inode := info.inode, title := catalognumber)
  }

  /**
   * preProcessFile. A known file is only re-announced. Otherwise the name is
   * matched (a failure propagates), a disqualified file is dropped, and a new
   * row is stored, attached to the stored Inode and Title when they exist and
   * to fresh ones otherwise, then announced with one ProcessFileMessage.
   */
  method PreProcessFile(b: Backend, info: FileInfo, extract: FileInfo -> Extraction)
    returns (outcome: IngestOutcome)
    requires b.Valid()
    modifies b`inodes, b`titles, b`files, b`sent, b`flushes
    ensures b.Valid()
    ensures outcome.AlreadyKnown? <==> old(FileExists(b, info))
    ensures outcome.AlreadyKnown? ==>
              && Some(outcome.fileId) == FirstWithPath(old(b.files), info.pathname)
              && b.inodes == old(b.inodes) && b.titles == old(b.titles) && b.files == old(b.files)
              && b.flushes == old(b.flushes)
              && b.sent == old(b.sent) + [ProcessFileMessage(outcome.fileId)]
    ensures !old(FileExists(b, info)) && extract(info).NoMatch? ==>
              && outcome == ExtractionFailed(extract(info).filename, extract(info).matchers)
              && unchanged(b)
    ensures !old(FileExists(b, info)) && extract(info).Matched?
            && !Qualifies(extract(info).file.filename, BLACKLIST_NAMES) ==>
              && outcome == Skipped(extract(info).file.filename)
              && unchanged(b)
    ensures !old(FileExists(b, info)) && extract(info).Matched?
            && Qualifies(extract(info).file.filename, BLACKLIST_NAMES) ==>
              var ex := extract(info);
              var c := ex.title.catalognumber;
              var id := |old(b.files)|;
              && outcome == Stored(id)
              && b.files == old(b.files) + [NewRecord(ex.file, info, c, id)]
              && b.inodes == (if info.inode in old(b.inodes) then old(b.inodes)
                              else old(b.inodes)[info.inode := Inode(info.inode, info.size, false)])
              && b.titles == (if c in old(b.titles) then old(b.titles) else old(b.titles)[c := ex.title])
              && b.flushes == old(b.flushes) + [|old(b.sent)|]
              && b.sent == old(b.sent) + [ProcessFileMessage(id)]
              && FileExists(b, info)
  {
    if FileExists(b, info) {
      var row := FirstWithPath(b.files, info.pathname).value;
      ProcessFile(b, b.files[row]);
      return AlreadyKnown(row);
    }
    var extraction := extract(info);
    if extraction.NoMatch? {
      return ExtractionFailed(extraction.filename, extraction.matchers);
    }
    var javFile := extraction.file;
    var ok, _ := ShouldProcessFile(javFile.filename, BLACKLIST_NAMES);
    if !ok {
      return Skipped(javFile.filename);
    }
    var id := StoreNewFile(b, info, extraction.title, javFile);
    return Stored(id);
  }

  /** The stored Inode for the file, or a new one carrying its inode number and observed size. */
  method FindOrCreateInode(b: Backend, info: FileInfo)
    requires b.Valid()
    modifies b`inodes
    ensures b.Valid() && info.inode in b.inodes
    ensures b.inodes == (if info.inode in old(b.inodes) then old(b.inodes)
                         else old(b.inodes)[info.inode := Inode(info.inode, info.size, false)])
  {
    if info.inode !in b.inodes {
      b.MergeInode(Inode(info.inode, info.size, false));
    }
  }

  /** The stored Title with the extracted catalog number, or the extracted Title, stored. */
  method FindOrAddTitle(b: Backend, extracted: Title)
    requires b.Valid()
    modifies b`titles
    ensures b.Valid() && extracted.catalognumber in b.titles
    ensures b.titles == (if extracted.catalognumber in old(b.titles) then old(b.titles)
                         else old(b.titles)[extracted.catalognumber := extracted])
  {
    if extracted.catalognumber !in b.titles {
      b.MergeTitle(extracted);
    }
  }

  /**
   * The store step of preProcessFile for a qualified, newly seen file: set
   * its path, attach the stored Inode or a new one carrying the observed
   * size, attach the stored Title with the same catalog number or the
   * extracted one, store the row, flush, and announce it.
   */
  method StoreNewFile(b: Backend, info: FileInfo, extracted: Title, javFile: JavFile) returns (id: nat)
    requires b.Valid()
    modifies b`inodes, b`titles, b`files, b`sent, b`flushes
    ensures b.Valid()
    ensures var c := extracted.catalognumber;
            && id == |old(b.files)|
            && b.files == old(b.files) + [NewRecord(javFile, info, c, id)]
            && b.inodes == (if info.inode in old(b.inodes) then old(b.inodes)
                            else old(b.inodes)[info.inode := Inode(info.inode, info.size, false)])
            && b.titles == (if c in old(b.titles) then old(b.titles) else old(b.titles)[c := extracted])
            && b.flushes == old(b.flushes) + [|old(b.sent)|]
            && b.sent == old(b.sent) + [ProcessFileMessage(id)]
    ensures FileExists(b, info)
  {
    var record := javFile.(path := info.pathname);
    FindOrCreateInode(b, info);
    record := record.(inode := info.inode);
    FindOrAddTitle(b, extracted);
    record := record.(title := extracted.catalognumber);
    id := b.InsertFile(record);
    b.Flush();
    ProcessFile(b, b.files[id]);
    assert b.files[id].path == info.pathname;
  }

  /**
   * Re-ingesting a file that was just stored or recognised is recognised:
   * the second pass changes no repository and only re-announces a row.
   */
  method ReingestIsRecognised(b: Backend, info: FileInfo, extract: FileInfo -> Extraction)
    returns (first: IngestOutcome, second: IngestOutcome)
    requires b.Valid()
    modifies b`inodes, b`titles, b`files, b`sent, b`flushes
    ensures b.Valid()
    ensures first.Stored? || first.AlreadyKnown? ==> second.AlreadyKnown?
  {
    first := PreProcessFile(b, info, extract);
    second := PreProcessFile(b, info, extract);
  }

  /**
   * The CheckVideoMessages checkJAVFilesConsistency dispatches for the title
   * `c`: one per file of the title whose inode is not checked yet, in the
   * order of the title's file collection (row order).
   */
  function ConsistencyChecks(rows: seq<JavFile>, inodes: map<nat, Inode>, c: string): seq<Message>
    requires forall j :: 0 <= j < |rows| ==> rows[j].inode in inodes
  {
    if rows == [] then []
    else
      var n := |rows| - 1;
      ConsistencyChecks(rows[..n], inodes, c)
      + (if rows[n].title == c && !inodes[rows[n].inode].checked then [CheckVideoMessage(rows[n].id, false)] else [])
  }

  /** Every message of `r` is a CheckVideoMessage without callback for one of the first `n` rows, in increasing row order. */
  predicate InRowOrder(r: seq<Message>, n: nat)
  {
    && (forall p :: 0 <= p < |r| ==> r[p].CheckVideoMessage? && !r[p].hasCallback && r[p].fileId < n)
    && (forall p, q :: 0 <= p < q < |r| ==> r[p].fileId < r[q].fileId)
  }

  /** The requested checks are CheckVideoMessages without callback, for rows of the table, in row order. */
  lemma {:induction false} ConsistencyChecksInRowOrder(rows: seq<JavFile>, inodes: map<nat, Inode>, c: string)
    requires forall j :: 0 <= j < |rows| ==> rows[j].id == j && rows[j].inode in inodes
    ensures InRowOrder(ConsistencyChecks(rows, inodes, c), |rows|)
  {
    if rows != [] {
      var n := |rows| - 1;
      ConsistencyChecksInRowOrder(rows[..n], inodes, c);
      var r' := ConsistencyChecks(rows[..n], inodes, c);
      assert InRowOrder(r', n);
      assert rows[n].id == n;
    }
  }

  /** Exactly the files of the title whose inode is unchecked are sent for checking. */
  lemma {:induction false} ConsistencyChecksSelectUnchecked(rows: seq<JavFile>, inodes: map<nat, Inode>, c: string)
    requires forall j :: 0 <= j < |rows| ==> rows[j].id == j && rows[j].inode in inodes
    ensures forall j :: 0 <= j < |rows| ==>
              (CheckVideoMessage(j, false) in ConsistencyChecks(rows, inodes, c)
               <==> rows[j].title == c && !inodes[rows[j].inode].checked)
  {
    if rows != [] {
      var n := |rows| - 1;
      ConsistencyChecksInRowOrder(rows[..n], inodes, c);
      ConsistencyChecksSelectUnchecked(rows[..n], inodes, c);
      var r := ConsistencyChecks(rows, inodes, c);
      var r' := ConsistencyChecks(rows[..n], inodes, c);
      forall j | 0 <= j < |rows|
        ensures CheckVideoMessage(j, false) in r <==> rows[j].title == c && !inodes[rows[j].inode].checked
      {
        if j < n {
          assert rows[..n][j] == rows[j];
          assert CheckVideoMessage(j, false) != CheckVideoMessage(n, false);
        } else {
          assert InRowOrder(r', n);
          assert CheckVideoMessage(n, false) !in r';
        }
      }
    }
  }

  /** checkJAVFilesConsistency: walk the title's files and request a check for each unchecked inode. */
  method CheckJavFilesConsistency(b: Backend, c: string)
    requires b.Valid()
    modifies b`sent
    ensures b.sent == old(b.sent) + ConsistencyChecks(b.files, b.inodes, c)
  {
    var i := 0;
    while i < |b.files|
      invariant 0 <= i <= |b.files|
      invariant b.sent == old(b.sent) + ConsistencyChecks(b.files[..i], b.inodes, c)
    {
      var javFile := b.files[i];
      assert b.files[..i + 1][..i] == b.files[..i];
      if javFile.title == c && !b.inodes[javFile.inode].checked {
        CheckVideoConsistency(b, javFile);
      }
      i := i + 1;
    }
    assert b.files[..i] == b.files;
  }
}
