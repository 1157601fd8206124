/**
 * The operating system as the file manager sees it: a filesystem that maps
 * paths to regular files and directories, the few calls the file manager
 * makes on it, each of which may be refused, and the gzip codec, which is
 * an abstract pair of functions.
 */
module Storage {
  import opened Paths

  newtype Byte = b: int | 0 <= b < 256
  type Bytes = seq<Byte>

  /** What sits at a path: a regular file with its contents and modification time, or a directory. */
  datatype Node = File(data: Bytes, mtime: real) | Directory

  type Entries = map<Path, Node>

  datatype Option<T> = None | Some(value: T)

  /** The compression codec: gzip's compressor and decompressor, left abstract. */
  datatype Codec = Codec(compress: Bytes -> Bytes, decompress: Bytes -> Bytes)

  /** The codec gives back every input it compressed. */
  ghost predicate Lossless(codec: Codec)
  {
    forall b :: codec.decompress(codec.compress(b)) == b
  }

  /** `st_size` of a node; only regular files' sizes are ever used. */
  function Size(n: Node): nat
  {
    if n.File? then |n.data| else 0
  }

  /** `Path.is_file()` */
  predicate IsRegularFile(fs: Entries, p: Path)
  {
    p in fs && fs[p].File?
  }

  /** `Path.is_dir()` */
  predicate IsDirectory(fs: Entries, p: Path)
  {
    p in fs && fs[p].Directory?
  }

  /** The two filesystems hold the same thing at `p`, or both nothing. */
  predicate SameAt(fs: Entries, fs': Entries, p: Path)
  {
    (p in fs <==> p in fs') && (p in fs ==> fs[p] == fs'[p])
  }

  /** `listing` is what a glob over `root` yields, each path once, in some order. */
  predicate IsListing(fs: Entries, root: Path, recursive: bool, listing: seq<Path>)
  {
    && Distinct(listing)
    && (forall q :: q in listing ==> q in fs && Matches(root, q, recursive))
    && (forall q :: q in fs && Matches(root, q, recursive) ==> q in listing)
  }

  /**
   * The filesystem, updated in place by the calls below. Each call that the
   * operating system may refuse takes `denied`, which says whether it does
   * (permission denied, disk full, ...); the other reasons a call fails
   * (a missing path, a directory where a file is expected) follow from the
   * entries themselves.
   */
  class FileSystem {
    var entries: Entries

    constructor (entries: Entries)
      ensures this.entries == entries
    {
      this.entries := entries;
    }

    /** `Path.exists()` */
    predicate Exists(p: Path)
      reads this
    {
      p in entries
    }

    /** `Path.is_file()` */
    predicate IsFile(p: Path)
      reads this
    {
      IsRegularFile(entries, p)
    }

    /** `Path.is_dir()` */
    predicate IsDir(p: Path)
      reads this
    {
      IsDirectory(entries, p)
    }

    /** `Path.stat()`: the node, or None when the path is missing or the call is refused. */
    method Stat(p: Path, denied: bool) returns (r: Option<Node>)
      ensures r.Some? <==> p in entries && !denied
      ensures r.Some? ==> r.value == entries[p]
    {
      if p in entries && !denied {
        r := Some(entries[p]);
      } else {
        r := None;
      }
    }

    /** `open(p, "rb")` and reading it to the end: only a regular file can be read. */
    method ReadAll(p: Path, denied: bool) returns (r: Option<Bytes>)
      ensures r.Some? <==> IsRegularFile(entries, p) && !denied
      ensures r.Some? ==> r.value == entries[p].data
    {
      if IsRegularFile(entries, p) && !denied {
        r := Some(entries[p].data);
      } else {
        r := None;
      }
    }

    /**
     * `open(p, "wb")`: creates `p`, or truncates the file already there, and
     * stamps it with the time of the write. A directory cannot be opened.
     */
    method OpenForWrite(p: Path, denied: bool, stamp: real) returns (ok: bool)
      modifies this
      ensures ok <==> !denied && !IsDirectory(old(entries), p)
      ensures entries == if ok then old(entries)[p := File([], stamp)] else old(entries)
    {
      ok := !denied && !IsDirectory(entries, p);
      if ok {
        entries := entries[p := File([], stamp)];
      }
    }

    /** Appends `data` to the regular file `p` (the bytes a write puts on disk). */
    method Append(p: Path, data: Bytes, stamp: real)
      requires IsRegularFile(entries, p)
      modifies this
      ensures entries == old(entries)[p := File(old(entries)[p].data + data, stamp)]
    {
      entries := entries[p := File(entries[p].data + data, stamp)];
    }

    /** `Path.unlink()`: removes a file; a missing path or a directory makes it fail. */
    method Unlink(p: Path, denied: bool) returns (ok: bool)
      modifies this
      ensures ok <==> IsRegularFile(old(entries), p) && !denied
      ensures entries == if ok then old(entries) - {p} else old(entries)
    {
      ok := IsRegularFile(entries, p) && !denied;
      if ok {
        entries := entries - {p};
      }
    }

    /**
     * `Path.glob` on `root`, with the non-recursive pattern (direct children)
     * or the recursive one (the whole subtree): every matching path exactly
     * once, in an order the caller cannot rely on.
     */
    method Glob(root: Path, recursive: bool) returns (listing: seq<Path>)
      ensures IsListing(entries, root, recursive, listing)
    {
      var pending := set q | q in entries && Matches(root, q, recursive);
      listing := [];
      while pending != {}
        invariant Distinct(listing)
        invariant forall q :: q in listing ==> q in entries && Matches(root, q, recursive) && q !in pending
        invariant forall q :: q in pending ==> q in entries && Matches(root, q, recursive)
        invariant forall q :: q in entries && Matches(root, q, recursive) ==> q in listing || q in pending
        decreases pending
      {
        var q :| q in pending;
        listing := listing + [q];
        pending := pending - {q};
      }
    }
  }
}
