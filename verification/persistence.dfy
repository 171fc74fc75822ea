/**
 * The collaborators the services share: the entity manager with its three
 * repositories and its connection, and the message bus. Repositories are
 * finite maps (inode id to Inode, catalog number to Title) and a table of
 * file rows whose position is the row's generated id; the bus is the
 * append-only sequence of dispatched messages.
 */
module Persistence {
  import opened Wrappers
  import opened Entities

  /** The first row stored for `path`: the file repository's lookup by file info. */
  function FirstWithPath(rows: seq<JavFile>, path: string): (r: Option<nat>)
    ensures r.Some? ==> r.value < |rows| && rows[r.value].path == path
                        && forall j :: 0 <= j < r.value ==> rows[j].path != path
    ensures r.None? ==> forall j :: 0 <= j < |rows| ==> rows[j].path != path
  {
    if rows == [] then None
    else if rows[0].path == path then Some(0)
    else match FirstWithPath(rows[1..], path)
      case Some(k) => Some(k + 1)
      case None => None
  }

  class Backend {
    var inodes: map<nat, Inode>
    var titles: map<string, Title>
    var files: seq<JavFile>
    /** Every message dispatched so far, in order. */
    var sent: seq<Message>
    /** For each flush, how many messages had been dispatched before it. */
    var flushes: seq<nat>
    /** How many times the connection was pinged. */
    var pings: nat

    /**
     * Keys agree with the records they index (so there is at most one Title
     * per catalog number and one Inode per inode id), every row's id is its
     * position, and every row refers to a stored Inode and Title.
     */
    ghost predicate Valid()
      reads this
    {
      && (forall n :: n in inodes ==> inodes[n].id == n)
      && (forall c :: c in titles ==> titles[c].catalognumber == c)
      && (forall i :: 0 <= i < |files| ==>
            files[i].id == i && files[i].inode in inodes && files[i].title in titles)
    }

    constructor ()
      ensures Valid()
      ensures inodes == map[] && titles == map[] && files == []
      ensures sent == [] && flushes == [] && pings == 0
    {
      inodes, titles, files := map[], map[], [];
      sent, flushes, pings := [], [], 0;
    }

    method Dispatch(m: Message)
      modifies this`sent
      ensures sent == old(sent) + [m]
    {
      sent := sent + [m];
    }

    method Flush()
      modifies this`flushes
      ensures flushes == old(flushes) + [|sent|]
    {
      flushes := flushes + [|sent|];
    }

    method Ping()
      modifies this`pings
      ensures pings == old(pings) + 1
    {
      pings := pings + 1;
    }

    method MergeInode(inode: Inode)
      requires Valid()
      modifies this`inodes
      ensures Valid()
      ensures inodes == old(inodes)[inode.id := inode]
    {
      inodes := inodes[inode.id := inode];
    }

    method MergeTitle(title: Title)
      requires Valid()
      modifies this`titles
      ensures Valid()
      ensures titles == old(titles)[title.catalognumber := title]
    {
      titles := titles[title.catalognumber := title];
    }

    /** Stores a new row; the database generates its id, the next free position. */
    method InsertFile(f: JavFile) returns (id: nat)
      requires Valid() && f.inode in inodes && f.title in titles
      modifies this`files
      ensures Valid()
      ensures id == |old(files)| && files == old(files) + [f.(id := id)]
    {
      id := |files|;
      files := files + [f.(id := id)];
    }

    /** Writes back an existing row. */
    method PersistFile(f: JavFile)
      requires Valid() && f.id < |files| && f.inode in inodes && f.title in titles
      modifies this`files
      ensures Valid()
      ensures files == old(files)[f.id := f]
    {
      files := files[f.id := f];
    }
  }
}
