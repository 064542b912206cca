/** The staging directory as the file system lists it: a tree of directories and
    regular files, children in listing order. */
module FileTree {
  import opened Streams
  import opened Archives

  datatype Node = File(name: string, bytes: Bytes) | Dir(name: string, children: seq<Node>)

  /** `Paths.get(parent, name)` and `parent.resolve(name)`: empty components are
      dropped, the others are joined by the platform separator `sep`. */
  function Join(sep: char, parent: string, name: string): (path: string)
    ensures parent == "" ==> path == name
    ensures name == "" ==> path == parent
  {
    if parent == "" then name
    else if name == "" then parent
    else parent + [sep] + name
  }

  /** The joined path starts with `parent`, ends with `name`, and has one separator
      between them exactly when neither is empty; an empty component adds nothing. */
  lemma JoinParts(sep: char, parent: string, name: string)
    ensures var path := Join(sep, parent, name);
      && |path| == |parent| + |name| + (if parent != "" && name != "" then 1 else 0)
      && path[..|parent|] == parent && path[|path| - |name|..] == name
      && (parent != "" && name != "" ==> path[|parent|] == sep)
  {
  }

  /** Every regular file below `children`, paired with its path: the path of a child
      is its name joined onto `parent`. */
  function FilesOf(children: seq<Node>, parent: string, sep: char): set<Entry>
    decreases children
  {
    if children == [] then {}
    else
      var path := Join(sep, parent, children[0].name);
      (match children[0]
       case File(_, bytes) => {Entry(path, bytes)}
       case Dir(_, kids) => FilesOf(kids, path, sep))
      + FilesOf(children[1..], parent, sep)
  }

  /** The paths of `files`. */
  ghost function Paths(files: set<Entry>): set<string> {
    set e | e in files :: e.name
  }

  /** No two regular files below `children` share a path, as in a real directory
      tree: the path of each file differs from the paths of all files listed after
      it. */
  ghost predicate UniquePaths(children: seq<Node>, parent: string, sep: char)
    decreases children
  {
    children != [] ==>
      var path := Join(sep, parent, children[0].name);
      var own := match children[0]
        case File(_, bytes) => {Entry(path, bytes)}
        case Dir(_, kids) => FilesOf(kids, path, sep);
      && (match children[0]
          case File(_, _) => true
          case Dir(_, kids) => UniquePaths(kids, path, sep))
      && Paths(own) !! Paths(FilesOf(children[1..], parent, sep))
      && UniquePaths(children[1..], parent, sep)
  }

  /** The number of regular files below `children`; directories are not counted. */
  function FileCount(children: seq<Node>): nat
    decreases children
  {
    if children == [] then 0
    else
      (match children[0]
       case File(_, _) => 1
       case Dir(_, kids) => FileCount(kids))
      + FileCount(children[1..])
  }

  /** Every node below `children` has a non-empty name, as every name a directory
      listing returns has. */
  predicate Named(children: seq<Node>)
    decreases children
  {
    children != [] ==>
      && children[0].name != ""
      && (children[0].Dir? ==> Named(children[0].children))
      && Named(children[1..])
  }

  /** A listing of one regular file lists just that file. */
  lemma FilesOfFile(name: string, bytes: Bytes, parent: string, sep: char)
    ensures FilesOf([File(name, bytes)], parent, sep) == {Entry(Join(sep, parent, name), bytes)}
  {
    assert [File(name, bytes)][1..] == [];
  }

  /** Listing `a` then `b` lists the files of both. */
  lemma {:induction false} FilesOfAppend(a: seq<Node>, b: seq<Node>, parent: string, sep: char)
    ensures FilesOf(a + b, parent, sep) == FilesOf(a, parent, sep) + FilesOf(b, parent, sep)
    decreases a
  {
    if a != [] {
      assert (a + b)[0] == a[0];
      assert (a + b)[1..] == a[1..] + b;
      FilesOfAppend(a[1..], b, parent, sep);
    } else {
      assert a + b == b;
    }
  }
}
