/** An immutable snapshot of the file system, standing in for the `stat`,
    `readdir` and `readFile` calls the extension makes. A path missing from
    the snapshot is one whose `stat` fails. */
module Snapshot {
  import opened Outcomes
  import opened Paths

  /** The kind a directory listing reports for one entry. */
  datatype Kind = RegularFile | Directory | OtherKind

  datatype DirEntry = DirEntry(name: string, kind: Kind)

  /** What `stat` finds at a path. `None` contents or listing stand for a
      read or `readdir` failure at a path whose `stat` succeeded. */
  datatype Node =
    | File(contents: Option<string>)
    | Dir(listing: Option<seq<DirEntry>>)
    | Other

  type FileSystem = map<string, Node>

  /** `readdirSync`: the listing of a directory, in listing order. */
  function ReadDir(fs: FileSystem, p: string): (listing: Option<seq<DirEntry>>)
    ensures listing.Some? ==> p in fs && fs[p].Dir?
  {
    if p in fs && fs[p].Dir? then fs[p].listing else None
  }

  /** `readFileSync`: the text of a file; directories and other nodes fail. */
  function ReadFile(fs: FileSystem, p: string): (contents: Option<string>)
    ensures contents.Some? ==> p in fs && fs[p].File?
  {
    if p in fs && fs[p].File? then fs[p].contents else None
  }

  /** A real directory listing names each entry once, by a plain name. */
  predicate ListingWellFormed(listing: seq<DirEntry>) {
    && (forall i :: 0 <= i < |listing| ==> Sep !in listing[i].name)
    && (forall i, j :: 0 <= i < j < |listing| ==> listing[i].name != listing[j].name)
  }

  predicate WellFormed(fs: FileSystem) {
    forall p :: p in fs && fs[p].Dir? && fs[p].listing.Some? ==> ListingWellFormed(fs[p].listing.value)
  }
}
