/** Collection of the source files (transform-workers.js lines 29-41 and
    157-158): `getAllFiles` walks the source directory recursively and the
    transform keeps the paths that end in `.js`.

    A directory is modelled by what `fs.readdir(dir, { withFileTypes: true })`
    reports for it: its entries in order, or a failure. The concurrent
    `Promise.all` of the source becomes a walk in entry order; the result
    is the same list, and a failure anywhere fails the whole walk. */
module Collector {
  import opened Wrappers
  import opened Paths

  /** What an entry is: anything that is not a directory (a regular file,
      a symbolic link, ...) is collected as a file. */
  datatype Node = NotDirectory | Directory(listing: Listing)

  /** One entry of a directory: its name and what it is. */
  datatype Entry = Entry(name: Text, node: Node)

  /** Reading a directory: its entries in the order reported, or a failure. */
  datatype Listing = Readable(entries: seq<Entry>) | Unreadable

  /** `getAllFiles(dir)`: the paths of every non-directory entry below
      `dir`, in traversal order, or None when some directory cannot be
      read (the promise rejects). */
  function AllFiles(dir: Path, l: Listing): (r: Option<seq<Path>>)
    decreases l
  {
    match l
    case Unreadable => None
    case Readable(es) => FilesOf(dir, es)
  }

  /** The mapped entries of one directory, flattened (lines 31-40). */
  function FilesOf(dir: Path, es: seq<Entry>): (r: Option<seq<Path>>)
    decreases es
  {
    if es == [] then Some([])
    else
      var full := Join(dir, es[0].name);
      var first := match es[0].node
        case NotDirectory => Some([full])
        case Directory(sub) => AllFiles(full, sub);
      var rest := FilesOf(dir, es[1..]);
      if first.None? || rest.None? then None else Some(first.value + rest.value)
  }

  /** Every directory below (and including) this one can be read. */
  predicate Complete(l: Listing)
    decreases l
  {
    match l
    case Unreadable => false
    case Readable(es) => CompleteEntries(es)
  }

  predicate CompleteEntries(es: seq<Entry>)
    decreases es
  {
    es == [] ||
    ((match es[0].node
      case NotDirectory => true
      case Directory(sub) => Complete(sub))
     && CompleteEntries(es[1..]))
  }

  /** The reference definition: `p` is the path of a non-directory entry
      reached from `dir` through readable directories. */
  predicate FileIn(dir: Path, l: Listing, p: Path)
    decreases l
  {
    match l
    case Unreadable => false
    case Readable(es) => FileAmong(dir, es, p)
  }

  predicate FileAmong(dir: Path, es: seq<Entry>, p: Path)
    decreases es
  {
    es != [] &&
    ((match es[0].node
      case NotDirectory => p == Join(dir, es[0].name)
      case Directory(sub) => FileIn(Join(dir, es[0].name), sub, p))
     || FileAmong(dir, es[1..], p))
  }

  /** The walk fails exactly when some directory below cannot be read. */
  lemma {:induction false} AllFilesSucceeds(dir: Path, l: Listing)
    ensures AllFiles(dir, l).Some? <==> Complete(l)
    decreases l
  {
    match l
    case Unreadable =>
    case Readable(es) => FilesOfSucceeds(dir, es);
  }

  lemma {:induction false} FilesOfSucceeds(dir: Path, es: seq<Entry>)
    ensures FilesOf(dir, es).Some? <==> CompleteEntries(es)
    decreases es
  {
    if es != [] {
      if es[0].node.Directory? {
        AllFilesSucceeds(Join(dir, es[0].name), es[0].node.listing);
      }
      FilesOfSucceeds(dir, es[1..]);
    }
  }

  /** Only non-directory entries are collected, and each collected path is
      such an entry: the walk returns exactly the reference set of files. */
  lemma {:induction false} AllFilesExact(dir: Path, l: Listing, p: Path)
    requires AllFiles(dir, l).Some?
    ensures p in AllFiles(dir, l).value <==> FileIn(dir, l, p)
    decreases l
  {
    match l
    case Unreadable =>
    case Readable(es) => FilesOfExact(dir, es, p);
  }

  lemma {:induction false} FilesOfExact(dir: Path, es: seq<Entry>, p: Path)
    requires FilesOf(dir, es).Some?
    ensures p in FilesOf(dir, es).value <==> FileAmong(dir, es, p)
    decreases es
  {
    if es != [] {
      if es[0].node.Directory? {
        AllFilesExact(Join(dir, es[0].name), es[0].node.listing, p);
      }
      FilesOfExact(dir, es[1..], p);
    }
  }

  /** `allFiles.filter(f => f.endsWith('.js'))`, order kept. */
  function JsFiles(files: seq<Path>): (js: seq<Path>)
    ensures forall p :: p in js <==> p in files && EndsWith(p, ".js")
    ensures |js| <= |files|
  {
    if files == [] then []
    else (if EndsWith(files[0], ".js") then [files[0]] else []) + JsFiles(files[1..])
  }

  /** The filter keeps the list's order: filtering a concatenation
      concatenates the filtered parts. */
  lemma {:induction false} JsFilesAppend(a: seq<Path>, b: seq<Path>)
    ensures JsFiles(a + b) == JsFiles(a) + JsFiles(b)
  {
    if a != [] {
      assert (a + b)[0] == a[0] && (a + b)[1..] == a[1..] + b;
      JsFilesAppend(a[1..], b);
    } else {
      assert a + b == b;
    }
  }
}
