/** `Upscaler.resizeFile` and `Upscaler.run()`: every regular file under `tmp` whose
    path ends with ".png" is decoded, drawn `scaling` times larger with
    nearest-neighbour interpolation, and written back over itself. */
module Upscaler {
  import opened Options
  import opened Strings
  import opened Streams
  import opened Archives
  import opened FileTree
  import opened Images

  /** The path `Files.walk` starts from. */
  const StagingRoot: string := "tmp"

  /** The path filter of `run()`, applied to the whole path string. */
  predicate IsImagePath(path: string) {
    EndsWith(path, ".png")
  }

  /** What `ImageIO.read` does with a file: decode it, throw an `IOException`, or
      return null because no reader understands the content. */
  datatype ReadOutcome<P> = Decoded(image: Picture<P>) | ReadFailed | NoDecoder

  /** What `ImageIO.write` does: write the encoding, or throw an `IOException` after
      deleting the old file (`None`) or after writing part of the new one. */
  datatype WriteOutcome = Written(bytes: Bytes) | WriteFailed(leftover: Option<Bytes>)

  /** The image library, which is not part of this model: decoding and encoding as
      the file at `path` meets them. */
  datatype ImageIO<!P> = ImageIO(read: (string, Bytes) -> ReadOutcome<P>,
                                write: (string, Picture<P>) -> WriteOutcome)

  /** What one `resizeFile` call does to its file. */
  datatype Effect = Kept | Rewritten(bytes: Bytes) | Removed

  /** The effect of `resizeFile`, and whether an unchecked exception escaped it
      (a null image, or a canvas that cannot be created). */
  datatype Resize = Resize(effect: Effect, escaped: bool)

  /** `Integer.MAX_VALUE`: a raster of this many pixels or more cannot be allocated. */
  const MaxPixels: int := 0x7fff_ffff

  /** `new BufferedImage(width * scaling, height * scaling, TYPE_INT_ARGB)` succeeds:
      both sides are positive and the canvas has fewer than `MaxPixels` pixels.
      Otherwise the raster code throws an unchecked exception (a non-positive side,
      a negative array size, or dimensions too large). */
  predicate CanvasFits<P>(img: Picture<P>, scaling: int) {
    scaling >= 1 && img.width >= 1 && img.height >= 1 &&
    img.width * scaling * (img.height * scaling) < MaxPixels
  }

  /** `resizeFile(path, scaling)` on a file holding `bytes`. An `IOException` from
      reading or writing is caught inside; a null decode result and a canvas that
      cannot be created throw unchecked exceptions out of it. */
  function ResizeFile<P>(io: ImageIO<P>, path: string, bytes: Bytes, scaling: int): (r: Resize)
    ensures r.escaped ==> r.effect == Kept
    ensures r.escaped <==>
      io.read(path, bytes).NoDecoder? || (io.read(path, bytes).Decoded? && !CanvasFits(io.read(path, bytes).image, scaling))
    ensures io.read(path, bytes).ReadFailed? ==> r == Resize(Kept, false)
    ensures !r.effect.Kept? ==> io.read(path, bytes).Decoded? && CanvasFits(io.read(path, bytes).image, scaling)
    ensures io.read(path, bytes).Decoded? && CanvasFits(io.read(path, bytes).image, scaling) ==>
      match io.write(path, Scale(io.read(path, bytes).image, scaling))
      case Written(b) => r == Resize(Rewritten(b), false)
      case WriteFailed(None) => r == Resize(Removed, false)
      case WriteFailed(Some(b)) => r == Resize(Rewritten(b), false)
  {
    match io.read(path, bytes)
    case ReadFailed => Resize(Kept, false)
    case NoDecoder => Resize(Kept, true)
    case Decoded(original) =>
      if !CanvasFits(original, scaling) then Resize(Kept, true)
      else
        match io.write(path, Scale(original, scaling))
        case Written(b) => Resize(Rewritten(b), false)
        case WriteFailed(None) => Resize(Removed, false)
        case WriteFailed(Some(b)) => Resize(Rewritten(b), false)
  }

  /** What the path of a file that held `before` holds after a resize with effect `eff`;
      `None` when no file is left there. */
  function Content(eff: Effect, before: Bytes): Option<Bytes> {
    match eff
    case Kept => Some(before)
    case Rewritten(b) => Some(b)
    case Removed => None
  }

  /** What the path of the image file `e` holds once `resizeFile` has run on it. */
  function Fate<P>(io: ImageIO<P>, scaling: int, e: Entry): Option<Bytes> {
    Content(ResizeFile(io, e.name, e.bytes, scaling).effect, e.bytes)
  }

  /** Among `files`, the path `path` holds exactly `content`: a file with those bytes
      and no other file at that path, or, for `None`, no file at all. */
  ghost predicate HoldsAt(files: set<Entry>, path: string, content: Option<Bytes>) {
    match content
    case None => forall e :: e in files ==> e.name != path
    case Some(b) => Entry(path, b) in files && forall e :: e in files && e.name == path ==> e.bytes == b
  }

  /** The image file `e` is, among `files`, as its resize left it, or, only if the
      walk `crashed`, still as it was. */
  ghost predicate Settled<P>(io: ImageIO<P>, scaling: int, files: set<Entry>, e: Entry, crashed: bool) {
    HoldsAt(files, e.name, Fate(io, scaling, e)) || (crashed && HoldsAt(files, e.name, Some(e.bytes)))
  }

  /** Files at other paths, added on either side, do not unsettle `e`. */
  lemma SettledUnion<P>(io: ImageIO<P>, scaling: int, a: set<Entry>, b: set<Entry>, e: Entry,
                        crashed: bool, later: bool)
    requires Settled(io, scaling, a, e, crashed)
    requires crashed ==> later
    requires forall x :: x in b ==> x.name != e.name
    ensures Settled(io, scaling, a + b, e, later) && Settled(io, scaling, b + a, e, later)
  {
  }

  /** The file `e` is an image whose resize throws an unchecked exception. */
  predicate Escapes<P>(io: ImageIO<P>, scaling: int, e: Entry) {
    IsImagePath(e.name) && ResizeFile(io, e.name, e.bytes, scaling).escaped
  }

  /** The state of the walk: `completed`, and whether an unchecked exception has
      ended `run()`. */
  datatype Walk = Walk(completed: nat, crashed: bool)

  function AsSeq(n: Option<Node>): seq<Node> {
    match n
    case None => []
    case Some(x) => [x]
  }

  /** The file called `name` as `content` leaves it: a file, or nothing. */
  function Leave(name: string, content: Option<Bytes>): Option<Node> {
    match content
    case None => None
    case Some(b) => Some(File(name, b))
  }

  /** One regular file met by the walk at `path`: skipped unless it is an image and
      the walk is still running; otherwise resized, and counted once `resizeFile`
      returns, even when the resize failed with an `IOException`. An unchecked
      exception ends the walk before the count. */
  function VisitFile<P>(io: ImageIO<P>, scaling: int, path: string, name: string, bytes: Bytes, w: Walk)
    : (r: (Option<Node>, Walk))
    ensures w.crashed || !IsImagePath(path) ==> r == (Some(File(name, bytes)), w)
    ensures !w.crashed && IsImagePath(path) ==>
      var rz := ResizeFile(io, path, bytes, scaling);
      && r.1 == Walk(if rz.escaped then w.completed else w.completed + 1, rz.escaped)
      && (rz.effect.Kept? ==> r.0 == Some(File(name, bytes)))
      && (rz.effect.Rewritten? ==> r.0 == Some(File(name, rz.effect.bytes)))
      && (rz.effect.Removed? ==> r.0 == None)
  {
    if w.crashed || !IsImagePath(path) then (Some(File(name, bytes)), w)
    else
      var rz := ResizeFile(io, path, bytes, scaling);
      if rz.escaped then (Some(File(name, bytes)), Walk(w.completed, true))
      else (Leave(name, Content(rz.effect, bytes)), Walk(w.completed + 1, false))
  }

  /** One visit settles the image file it meets: its path holds what the resize
      left, or, once the walk has crashed, what it held before. */
  lemma VisitSettles<P>(io: ImageIO<P>, scaling: int, sep: char, parent: string, name: string, bytes: Bytes,
                        w: Walk)
    ensures var path := Join(sep, parent, name);
      var r := VisitFile(io, scaling, path, name, bytes, w);
      IsImagePath(path) ==> Settled(io, scaling, FilesOf(AsSeq(r.0), parent, sep), Entry(path, bytes), r.1.crashed)
  {
    var path := Join(sep, parent, name);
    var r := VisitFile(io, scaling, path, name, bytes, w);
    if r.0.Some? {
      FilesOfFile(name, r.0.value.bytes, parent, sep);
    }
    if IsImagePath(path) && !w.crashed {
      var rz := ResizeFile(io, path, bytes, scaling);
      assert Fate(io, scaling, Entry(path, bytes)) == Content(rz.effect, bytes);
    }
  }

  /** The number of regular files below `children` whose path is an image path. */
  function ImageCount(children: seq<Node>, parent: string, sep: char): nat
    decreases children
  {
    if children == [] then 0
    else
      var path := Join(sep, parent, children[0].name);
      (match children[0]
       case File(_, _) => if IsImagePath(path) then 1 else 0
       case Dir(_, kids) => ImageCount(kids, path, sep))
      + ImageCount(children[1..], parent, sep)
  }

  /** The walk over `children` of the directory at `parent`, depth first in listing
      order, starting in state `w`. Once crashed, nothing more changes; the counter
      rises by at most one per image file, and by exactly that many when the walk
      does not crash. */
  function UpscaleAll<P>(io: ImageIO<P>, scaling: int, sep: char, children: seq<Node>, parent: string, w: Walk)
    : (r: (seq<Node>, Walk))
    ensures w.crashed ==> r == (children, w)
    ensures w.completed <= r.1.completed <= w.completed + ImageCount(children, parent, sep)
    ensures !r.1.crashed ==> !w.crashed && r.1.completed == w.completed + ImageCount(children, parent, sep)
    decreases children
  {
    if children == [] then ([], w)
    else
      var path := Join(sep, parent, children[0].name);
      var (head, w1) := match children[0]
        case File(name, bytes) => VisitFile(io, scaling, path, name, bytes, w)
        case Dir(name, kids) =>
          var (kids', w2) := UpscaleAll(io, scaling, sep, kids, path, w);
          (Some(Dir(name, kids')), w2);
      var (rest, w3) := UpscaleAll(io, scaling, sep, children[1..], parent, w1);
      assert children == [children[0]] + children[1..];
      (AsSeq(head) + rest, w3)
  }

  /** A walk that starts running crashes exactly when one of the image files below
      `children` throws an unchecked exception out of its resize. */
  lemma {:induction false} CrashIffEscape<P>(io: ImageIO<P>, scaling: int, sep: char, children: seq<Node>,
                                             parent: string, w: Walk)
    requires !w.crashed
    ensures UpscaleAll(io, scaling, sep, children, parent, w).1.crashed
        <==> exists e :: e in FilesOf(children, parent, sep) && Escapes(io, scaling, e)
    decreases children
  {
    if children != [] {
      var path := Join(sep, parent, children[0].name);
      var rest := FilesOf(children[1..], parent, sep);
      var w1: Walk;
      var own: set<Entry>;
      match children[0] {
        case File(name, bytes) =>
          w1 := VisitFile(io, scaling, path, name, bytes, w).1;
          own := {Entry(path, bytes)};
        case Dir(name, kids) =>
          w1 := UpscaleAll(io, scaling, sep, kids, path, w).1;
          own := FilesOf(kids, path, sep);
          CrashIffEscape(io, scaling, sep, kids, path, w);
      }
      assert FilesOf(children, parent, sep) == own + rest;
      assert w1.crashed <==> exists e :: e in own && Escapes(io, scaling, e);
      var w3 := UpscaleAll(io, scaling, sep, children[1..], parent, w1).1;
      assert UpscaleAll(io, scaling, sep, children, parent, w).1 == w3;
      if w1.crashed {
      } else {
        CrashIffEscape(io, scaling, sep, children[1..], parent, w1);
      }
    }
  }

  /** `e` is what the resize of some image file of `files` at the same path wrote. */
  ghost predicate RewrittenFrom<P>(io: ImageIO<P>, scaling: int, files: set<Entry>, e: Entry) {
    IsImagePath(e.name) &&
    exists e0 :: e0 in files && e0.name == e.name && ResizeFile(io, e0.name, e0.bytes, scaling).effect == Rewritten(e.bytes)
  }

  /** The walk creates no file of its own: every file it leaves behind is a file that
      was there, or an image file overwritten at its own path by its own resize. */
  lemma {:induction false} FilesAccounted<P>(io: ImageIO<P>, scaling: int, sep: char, children: seq<Node>,
                                             parent: string, w: Walk)
    ensures forall e :: e in FilesOf(UpscaleAll(io, scaling, sep, children, parent, w).0, parent, sep) ==>
      e in FilesOf(children, parent, sep) || RewrittenFrom(io, scaling, FilesOf(children, parent, sep), e)
    decreases children
  {
    if children != [] {
      var path := Join(sep, parent, children[0].name);
      var before := FilesOf(children, parent, sep);
      var head: Option<Node>;
      var w1: Walk;
      match children[0] {
        case File(name, bytes) =>
          head := VisitFile(io, scaling, path, name, bytes, w).0;
          w1 := VisitFile(io, scaling, path, name, bytes, w).1;
          assert Entry(path, bytes) in before;
          assert forall e :: e in FilesOf(AsSeq(head), parent, sep) ==>
            e in before || RewrittenFrom(io, scaling, before, e);
        case Dir(name, kids) =>
          var inner := UpscaleAll(io, scaling, sep, kids, path, w);
          head := Some(Dir(name, inner.0));
          w1 := inner.1;
          FilesAccounted(io, scaling, sep, kids, path, w);
          assert FilesOf(AsSeq(head), parent, sep) == FilesOf(inner.0, path, sep);
          assert FilesOf(kids, path, sep) <= before;
      }
      var tail := UpscaleAll(io, scaling, sep, children[1..], parent, w1).0;
      assert UpscaleAll(io, scaling, sep, children, parent, w).0 == AsSeq(head) + tail;
      FilesOfAppend(AsSeq(head), tail, parent, sep);
      FilesAccounted(io, scaling, sep, children[1..], parent, w1);
      assert FilesOf(children[1..], parent, sep) <= before;
    }
  }

  /** The walk creates no file at a path where there was none. */
  lemma PathsKept<P>(io: ImageIO<P>, scaling: int, sep: char, children: seq<Node>, parent: string, w: Walk)
    ensures Paths(FilesOf(UpscaleAll(io, scaling, sep, children, parent, w).0, parent, sep))
         <= Paths(FilesOf(children, parent, sep))
  {
    var before := FilesOf(children, parent, sep);
    FilesAccounted(io, scaling, sep, children, parent, w);
    forall e | e in FilesOf(UpscaleAll(io, scaling, sep, children, parent, w).0, parent, sep)
      ensures e.name in Paths(before)
    {
      if e !in before {
        var e0 :| e0 in before && e0.name == e.name && ResizeFile(io, e0.name, e0.bytes, scaling).effect == Rewritten(e.bytes);
      }
    }
  }

  /** Two parts of a listing whose files have disjoint paths settle separately: what
      each part's walk settles stays settled in the union, on the later crash flag. */
  lemma SettledJoin<P>(io: ImageIO<P>, scaling: int, own: set<Entry>, rest: set<Entry>,
                       ownAfter: set<Entry>, restAfter: set<Entry>, c1: bool, c3: bool)
    requires c1 ==> c3
    requires Paths(own) !! Paths(rest)
    requires Paths(ownAfter) <= Paths(own) && Paths(restAfter) <= Paths(rest)
    requires forall e :: e in own && IsImagePath(e.name) ==> Settled(io, scaling, ownAfter, e, c1)
    requires forall e :: e in rest && IsImagePath(e.name) ==> Settled(io, scaling, restAfter, e, c3)
    ensures forall e :: e in own + rest && IsImagePath(e.name) ==> Settled(io, scaling, ownAfter + restAfter, e, c3)
  {
    forall e | e in own + rest && IsImagePath(e.name)
      ensures Settled(io, scaling, ownAfter + restAfter, e, c3)
    {
      if e in own {
        assert e.name in Paths(own);
        forall x | x in restAfter ensures x.name != e.name {
          assert x.name in Paths(rest);
        }
        SettledUnion(io, scaling, ownAfter, restAfter, e, c1, c3);
      } else {
        assert e.name in Paths(rest);
        forall x | x in ownAfter ensures x.name != e.name {
          assert x.name in Paths(own);
        }
        SettledUnion(io, scaling, restAfter, ownAfter, e, c3, c3);
      }
    }
  }

  /** Every image file met by the walk ends up as its resize left it: the bytes that
      were written, the old bytes after a read failure, or no file after a failed
      write that removed it; and in each case no other file shares its path. Only a
      crash can leave an image as it was instead, as it does for the crashing file
      and every file after it. */
  lemma {:induction false} ImagesReplaced<P>(io: ImageIO<P>, scaling: int, sep: char, children: seq<Node>,
                                             parent: string, w: Walk)
    requires UniquePaths(children, parent, sep)
    ensures var r := UpscaleAll(io, scaling, sep, children, parent, w);
      forall e :: e in FilesOf(children, parent, sep) && IsImagePath(e.name) ==>
        Settled(io, scaling, FilesOf(r.0, parent, sep), e, r.1.crashed)
    decreases children
  {
    if children != [] {
      var path := Join(sep, parent, children[0].name);
      var own: set<Entry>;
      var head: Option<Node>;
      var w1: Walk;
      match children[0] {
        case File(name, bytes) =>
          head := VisitFile(io, scaling, path, name, bytes, w).0;
          w1 := VisitFile(io, scaling, path, name, bytes, w).1;
          own := {Entry(path, bytes)};
          VisitSettles(io, scaling, sep, parent, name, bytes, w);
          if head.Some? {
            FilesOfFile(name, head.value.bytes, parent, sep);
          }
        case Dir(name, kids) =>
          var inner := UpscaleAll(io, scaling, sep, kids, path, w);
          head := Some(Dir(name, inner.0));
          w1 := inner.1;
          own := FilesOf(kids, path, sep);
          ImagesReplaced(io, scaling, sep, kids, path, w);
          PathsKept(io, scaling, sep, kids, path, w);
          assert FilesOf(AsSeq(head), parent, sep) == FilesOf(inner.0, path, sep);
      }
      var tail := UpscaleAll(io, scaling, sep, children[1..], parent, w1);
      assert UpscaleAll(io, scaling, sep, children, parent, w) == (AsSeq(head) + tail.0, tail.1);
      assert FilesOf(children, parent, sep) == own + FilesOf(children[1..], parent, sep);
      FilesOfAppend(AsSeq(head), tail.0, parent, sep);
      ImagesReplaced(io, scaling, sep, children[1..], parent, w1);
      PathsKept(io, scaling, sep, children[1..], parent, w1);
      SettledJoin(io, scaling, own, FilesOf(children[1..], parent, sep),
                  FilesOf(AsSeq(head), parent, sep), FilesOf(tail.0, parent, sep), w1.crashed, tail.1.crashed);
    }
  }

  /** Files whose path is not an image path come through the walk untouched. */
  lemma {:induction false} NonImagesKept<P>(io: ImageIO<P>, scaling: int, sep: char, children: seq<Node>,
                                            parent: string, w: Walk)
    ensures forall e :: e in FilesOf(children, parent, sep) && !IsImagePath(e.name) ==>
      e in FilesOf(UpscaleAll(io, scaling, sep, children, parent, w).0, parent, sep)
    decreases children
  {
    if children != [] {
      var path := Join(sep, parent, children[0].name);
      var head: Option<Node>;
      var w1: Walk;
      var own: set<Entry>;
      match children[0] {
        case File(name, bytes) =>
          head := VisitFile(io, scaling, path, name, bytes, w).0;
          w1 := VisitFile(io, scaling, path, name, bytes, w).1;
          own := {Entry(path, bytes)};
        case Dir(name, kids) =>
          var inner := UpscaleAll(io, scaling, sep, kids, path, w);
          head := Some(Dir(name, inner.0));
          w1 := inner.1;
          own := FilesOf(kids, path, sep);
          NonImagesKept(io, scaling, sep, kids, path, w);
          assert FilesOf(AsSeq(head), parent, sep) == FilesOf(inner.0, path, sep);
      }
      assert FilesOf(children, parent, sep) == own + FilesOf(children[1..], parent, sep);
      assert forall e :: e in own && !IsImagePath(e.name) ==> e in FilesOf(AsSeq(head), parent, sep);
      var tail := UpscaleAll(io, scaling, sep, children[1..], parent, w1).0;
      assert UpscaleAll(io, scaling, sep, children, parent, w).0 == AsSeq(head) + tail;
      FilesOfAppend(AsSeq(head), tail, parent, sep);
      NonImagesKept(io, scaling, sep, children[1..], parent, w1);
    }
  }

  /** The final state of `run()`: the staging directory (`None` when there is none),
      `completed` and `finished`. */
  datatype Outcome = Outcome(staging: Option<Node>, completed: nat, finished: bool)

  /** The regular files `Files.walk(Paths.get("tmp"))` meets, with their paths; the
      root itself has the path "tmp". */
  function Staged(staging: Option<Node>, sep: char): set<Entry> {
    match staging
    case None => {}
    case Some(File(_, bytes)) => {Entry(StagingRoot, bytes)}
    case Some(Dir(_, children)) => FilesOf(children, StagingRoot, sep)
  }

  /** No two files of the staging directory share a path. */
  ghost predicate UniqueStaged(staging: Option<Node>, sep: char) {
    staging.Some? && staging.value.Dir? ==> UniquePaths(staging.value.children, StagingRoot, sep)
  }

  /** How many of those files pass the image filter. */
  function StagedImages(staging: Option<Node>, sep: char): nat {
    match staging
    case None => 0
    case Some(File(_, _)) => if IsImagePath(StagingRoot) then 1 else 0
    case Some(Dir(_, children)) => ImageCount(children, StagingRoot, sep)
  }

  /** `run()` with factor `scaling` over the staging directory. A missing directory
      makes `Files.walk` throw an `IOException`, which is caught: nothing is visited
      and `finished` is set. Otherwise `finished` is set exactly when no image's
      resize throws an unchecked exception; then `completed` is the number of image
      files, including those whose resize failed with an `IOException`. */
  function Run<P>(io: ImageIO<P>, scaling: int, sep: char, staging: Option<Node>): (r: Outcome)
    ensures staging.None? ==> r == Outcome(None, 0, true)
    ensures r.completed <= StagedImages(staging, sep)
    ensures r.finished ==> r.completed == StagedImages(staging, sep)
    ensures r.finished <==> !exists e :: e in Staged(staging, sep) && Escapes(io, scaling, e)
    ensures forall e :: e in Staged(staging, sep) && !IsImagePath(e.name) ==> e in Staged(r.staging, sep)
    ensures forall e :: e in Staged(r.staging, sep) ==>
      e in Staged(staging, sep) || RewrittenFrom(io, scaling, Staged(staging, sep), e)
    ensures UniqueStaged(staging, sep) ==>
      forall e :: e in Staged(staging, sep) && IsImagePath(e.name) ==>
        Settled(io, scaling, Staged(r.staging, sep), e, !r.finished)
  {
    match staging
    case None => Outcome(None, 0, true)
    case Some(File(name, bytes)) =>
      var (after, w) := VisitFile(io, scaling, StagingRoot, name, bytes, Walk(0, false));
      Outcome(after, w.completed, !w.crashed)
    case Some(Dir(name, children)) =>
      CrashIffEscape(io, scaling, sep, children, StagingRoot, Walk(0, false));
      FilesAccounted(io, scaling, sep, children, StagingRoot, Walk(0, false));
      NonImagesKept(io, scaling, sep, children, StagingRoot, Walk(0, false));
      var r := UpscaleAll(io, scaling, sep, children, StagingRoot, Walk(0, false));
      assert UniquePaths(children, StagingRoot, sep) ==>
        forall e :: e in FilesOf(children, StagingRoot, sep) && IsImagePath(e.name) ==>
          Settled(io, scaling, FilesOf(r.0, StagingRoot, sep), e, r.1.crashed) by {
        if UniquePaths(children, StagingRoot, sep) {
          ImagesReplaced(io, scaling, sep, children, StagingRoot, Walk(0, false));
        }
      }
      var (after, w) := UpscaleAll(io, scaling, sep, children, StagingRoot, Walk(0, false));
      Outcome(Some(Dir(name, after)), w.completed, !w.crashed)
  }

  /** When every image either fails to read with an `IOException` or decodes to an
      image whose canvas can be created, `run()` always finishes. */
  lemma FinishesWhenDecodable<P>(io: ImageIO<P>, scaling: int, sep: char, staging: Option<Node>)
    requires forall e :: e in Staged(staging, sep) && IsImagePath(e.name) ==>
      match io.read(e.name, e.bytes)
      case ReadFailed => true
      case NoDecoder => false
      case Decoded(img) => CanvasFits(img, scaling)
    ensures Run(io, scaling, sep, staging).finished
  {
  }
}
