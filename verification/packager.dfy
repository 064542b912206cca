/** `Main.zip`, `Main.zipDirectory` and `Main.zipFile`: the staging directory packed
    into the output archive, one entry per regular file. */
module Packager {
  import opened Streams
  import opened Archives
  import opened FileTree

  /** An `IOException` inside `zipFile` for the file at some path, which `zipFile`
      catches and logs before packaging goes on with the next file: `NoEntry` when
      `putNextEntry` itself failed, `Truncated(k)` when the entry was opened and the
      copy failed after `k` bytes. */
  datatype CopyFault = NoEntry | Truncated(copied: nat)

  /** The faults met while packaging, by entry path. */
  type Faults = map<string, CopyFault>

  /** `zipFile(file, zipPath, out)`: nothing for an empty path; otherwise one entry at
      the path holding the file's bytes, or what a caught fault left of them. */
  function ZipFile(path: string, bytes: Bytes, faults: Faults): (r: seq<Entry>)
    ensures |r| <= 1
    ensures path == "" ==> r == []
    ensures path != "" && path !in faults ==> r == [Entry(path, bytes)]
    ensures forall e :: e in r ==> e.name == path && e.name != "" && e.bytes <= bytes
  {
    if |path| == 0 then []
    else if path !in faults then [Entry(path, bytes)]
    else
      match faults[path]
      case NoEntry => []
      case Truncated(k) => [Entry(path, Truncate(bytes, k))]
  }

  /** `zipFile` with its copy loop: the entry receives the file's bytes chunk by
      chunk, as many per read as the file stream chooses to deliver. */
  method ZipFileStreamed(path: string, bytes: Bytes, faults: Faults, choice: nat -> nat)
    returns (r: seq<Entry>)
    ensures r == ZipFile(path, bytes, faults)
  {
    if |path| == 0 {
      return [];
    }
    if path in faults {
      match faults[path] {
        case NoEntry => r := [];
        case Truncated(k) => r := [Entry(path, Truncate(bytes, k))];
      }
      return;
    }
    var written, _ := Copy(bytes, choice);
    r := [Entry(path, written)];
  }

  /** Every entry is named after a file below `children` and holds a prefix of
      that file's bytes. */
  ghost predicate FromFiles(r: seq<Entry>, children: seq<Node>, zipPath: string, sep: char) {
    forall e :: e in r ==>
      && e.name != ""
      && exists f :: f in FilesOf(children, zipPath, sep) && f.name == e.name && e.bytes <= f.bytes
  }

  /** `zipDirectory` over the listing `children` of a directory whose entry path is
      `zipPath`: each child's path is its name joined onto `zipPath`; a
      subdirectory contributes its own entries in place, a file its one entry, and
      a directory as such contributes none. */
  function ZipDirectory(children: seq<Node>, zipPath: string, sep: char, faults: Faults): (r: seq<Entry>)
    ensures |r| <= FileCount(children)
    decreases children
  {
    if children == [] then []
    else
      var inZipPath := Join(sep, zipPath, children[0].name);
      var own := match children[0]
        case Dir(_, kids) => ZipDirectory(kids, inZipPath, sep, faults)
        case File(_, bytes) => ZipFile(inZipPath, bytes, faults);
      own + ZipDirectory(children[1..], zipPath, sep, faults)
  }

  /** Every entry `zipDirectory` writes is named after a file below the directory
      and holds a prefix of that file's bytes. */
  lemma {:induction false} ZipSources(children: seq<Node>, zipPath: string, sep: char, faults: Faults)
    ensures FromFiles(ZipDirectory(children, zipPath, sep, faults), children, zipPath, sep)
    decreases children
  {
    if children != [] {
      var inZipPath := Join(sep, zipPath, children[0].name);
      var rest := ZipDirectory(children[1..], zipPath, sep, faults);
      ZipSources(children[1..], zipPath, sep, faults);
      assert FilesOf(children, zipPath, sep) == FilesOf([children[0]], zipPath, sep) + FilesOf(children[1..], zipPath, sep) by {
        FilesOfAppend([children[0]], children[1..], zipPath, sep);
        assert [children[0]] + children[1..] == children;
      }
      match children[0] {
        case Dir(_, kids) =>
          ZipSources(kids, inZipPath, sep, faults);
          assert FilesOf([children[0]], zipPath, sep) == FilesOf(kids, inZipPath, sep);
          assert ZipDirectory(children, zipPath, sep, faults) == ZipDirectory(kids, inZipPath, sep, faults) + rest;
        case File(_, bytes) =>
          assert FilesOf([children[0]], zipPath, sep) == {Entry(inZipPath, bytes)};
          assert ZipDirectory(children, zipPath, sep, faults) == ZipFile(inZipPath, bytes, faults) + rest;
      }
    }
  }

  /** `zip(directory, zipPath)`: a root that cannot be listed gives no entries; the
      children of the root get their bare names as paths (joining onto the empty
      path gives the bare name), so the root's own name never appears. */
  function Zip(root: Node, sep: char, faults: Faults): (r: seq<Entry>)
    ensures root.File? ==> r == []
    ensures root.Dir? ==> |r| <= FileCount(root.children) && FromFiles(r, root.children, "", sep)
  {
    match root
    case File(_, _) => []
    case Dir(_, children) =>
      ZipSources(children, "", sep, faults);
      ZipDirectory(children, "", sep, faults)
  }

  /** Packing a listing in two parts gives the entries of the first part followed by
      those of the second: output order is listing order. */
  lemma {:induction false} ZipAppend(a: seq<Node>, b: seq<Node>, zipPath: string, sep: char, faults: Faults)
    ensures ZipDirectory(a + b, zipPath, sep, faults)
         == ZipDirectory(a, zipPath, sep, faults) + ZipDirectory(b, zipPath, sep, faults)
    decreases a
  {
    if a == [] {
      assert a + b == b;
    } else {
      assert (a + b)[0] == a[0];
      assert (a + b)[1..] == a[1..] + b;
      ZipAppend(a[1..], b, zipPath, sep, faults);
    }
  }

  /** A subdirectory's entries appear together, at the subdirectory's place in the
      listing, under paths extended by its name. */
  lemma SubdirectoryContiguous(before: seq<Node>, name: string, kids: seq<Node>, after: seq<Node>,
                               zipPath: string, sep: char, faults: Faults)
    ensures ZipDirectory(before + [Dir(name, kids)] + after, zipPath, sep, faults)
         == ZipDirectory(before, zipPath, sep, faults)
          + ZipDirectory(kids, Join(sep, zipPath, name), sep, faults)
          + ZipDirectory(after, zipPath, sep, faults)
  {
    var sub := [Dir(name, kids)];
    ZipAppend(before + sub, after, zipPath, sep, faults);
    ZipAppend(before, sub, zipPath, sep, faults);
    assert sub[1..] == [];
    assert ZipDirectory(sub, zipPath, sep, faults) == ZipDirectory(kids, Join(sep, zipPath, name), sep, faults);
  }

  /** Without faults, and with every name non-empty as listed names are, packing
      emits exactly one entry per regular file, holding exactly that file's path and
      bytes. */
  lemma {:induction false} ZipComplete(children: seq<Node>, zipPath: string, sep: char)
    requires Named(children)
    ensures |ZipDirectory(children, zipPath, sep, map[])| == FileCount(children)
    ensures forall e :: e in ZipDirectory(children, zipPath, sep, map[]) <==> e in FilesOf(children, zipPath, sep)
    decreases children
  {
    if children != [] {
      var path := Join(sep, zipPath, children[0].name);
      match children[0] {
        case File(_, bytes) =>
          assert ZipFile(path, bytes, map[]) == [Entry(path, bytes)];
        case Dir(_, kids) =>
          ZipComplete(kids, path, sep);
      }
      ZipComplete(children[1..], zipPath, sep);
    }
  }

  /** The same for a whole staging directory. */
  lemma ZipCompleteRoot(root: Node, sep: char)
    requires root.Dir? && Named(root.children)
    ensures |Zip(root, sep, map[])| == FileCount(root.children)
    ensures forall e :: e in Zip(root, sep, map[]) <==> e in FilesOf(root.children, "", sep)
  {
    ZipComplete(root.children, "", sep);
  }
}
