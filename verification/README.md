# AutoExtractor asset pipeline, modelled in Dafny

AutoExtractor turns the textures bundled in a Minecraft version jar into an
upscaled resource pack. It runs three stages one after the other:

1. **Extraction** (`TextureExtractor.run`). Every jar entry whose name ends with
   `.png` and does not contain `realms` is copied into the staging directory
   `tmp`, and `extractedCount` counts the files written.
2. **Upscaling** (`Upscaler.run`, `Upscaler.resizeFile`). Every regular file under
   `tmp` whose path ends with `.png` is decoded and drawn `scaling` times larger
   with nearest-neighbour interpolation. The result is written back over the
   file, and `completed` counts the files visited.
3. **Packaging** (`Main.zip`, `zipDirectory`, `zipFile`). The staging tree is
   written into `pack.zip` with one entry per regular file.

`Main.start` also counts the jar's textures with the same filter before
extraction starts. The display uses that count as the progress total.

The model keeps each stage as a pure function over immutable data:

- An archive is a sequence of named byte sequences (`Archives.Entry`).
- The extractor's view of `tmp` is a map from relative path to content.
- The upscaler and the packager see `tmp` as a tree of directories and files
  (`FileTree.Node`), with children in listing order.
- Pixels are an opaque type parameter.

Everything the program hands to library or system code is a parameter:

- `ImageIO` reading and writing are a pair of functions.
- The number of bytes a stream delivers per `read` is a chooser function.
- Each caught `IOException` is a fault value saying where it happens.
- The platform path separator is a `char`.

The chunked copy loop (`while ((len = in.read(buffer)) > 0) out.write(...)`) is
modelled once, as `Streams.Copy`. The extractor method and the packager's file
method both run it.

Modules: `Strings`, `Streams`, `Options`, `Archives`, `FileTree`,
`TextureExtractor`, `Images`, `Upscaler`, `Packager`, `Pipeline`.

Three facts about the code shape the model:

- **Upscaling.** `resizeFile` catches its own `IOException`, and `run()` counts
  the file and goes on with the next one. Only unchecked exceptions end the walk
  early, and then `finished` is never set. The model covers two of them: a null
  result from `ImageIO.read`, and a canvas that `new BufferedImage` cannot create.
  A canvas cannot be created when a side is not positive (`scaling <= 0`, or an
  empty image), or when it has 2^31 - 1 pixels or more. Other unchecked
  exceptions are listed under "Left out".
- **Packaging.** `zipFile` catches its own `IOException`, and packaging goes on
  with the next file.
- **Separators.** Entry paths are built with `Paths.get`, so they use the
  platform separator.

## Model

| member | source | states |
|---|---|---|
| Strings.ContainsIffOccurs | src/me/balintcsala/TextureExtractor.java:32 | the `contains` test used by the filter holds exactly when the text occurs at some index of the name |
| Strings.OccurrenceFound | src/me/balintcsala/Main.java:148 | an occurrence at any index, a nested directory or inside a file name alike, makes `contains` true |
| Streams.ReadCount | src/me/balintcsala/TextureExtractor.java:39 | `read(buffer)` returns a non-positive count exactly at the end of the data, otherwise 1 to 1024 bytes that are all still unread |
| Streams.Truncate | src/me/balintcsala/TextureExtractor.java:39-42 | an interrupted copy leaves a prefix of the source, of the length copied |
| Streams.Copy | src/me/balintcsala/TextureExtractor.java:38-41 | whatever counts the stream chooses, the output receives the whole source in order, the chunks are 1 to 1024 bytes each, and their concatenation is the source |
| TextureExtractor.Accepted | src/me/balintcsala/TextureExtractor.java:32-33 | an entry is kept exactly when it is in the archive, ends with ".png" and does not contain "realms" |
| TextureExtractor.ExtractAll | src/me/balintcsala/TextureExtractor.java:27-44 | the counter rises by exactly the number of accepted entries processed |
| TextureExtractor.StagingChanges | src/me/balintcsala/TextureExtractor.java:32-42 | a name is in the staging directory afterwards exactly when it was there before or is an accepted entry's name; every other file keeps its content |
| TextureExtractor.AcceptedOfPrefix | src/me/balintcsala/TextureExtractor.java:27-44 | the entries accepted from a prefix of the archive are a prefix of all accepted entries |
| TextureExtractor.CountMonotone | src/me/balintcsala/TextureExtractor.java:43 | `extractedCount` never decreases as the loop moves through the archive |
| TextureExtractor.RejectedIgnored | src/me/balintcsala/TextureExtractor.java:32-33 | rejected entries change neither the staging directory nor the counter: processing only the accepted entries gives the same state |
| TextureExtractor.LastWriteWins | src/me/balintcsala/TextureExtractor.java:35-42 | an accepted entry lands at its own name with its full content unless a later entry of that name overwrites it |
| TextureExtractor.Processed | src/me/balintcsala/TextureExtractor.java:27-30 | the loop handles every entry without a fault and stops at the faulting entry |
| TextureExtractor.Run | src/me/balintcsala/TextureExtractor.java:21-49 | `finished` is always set; the count is the number of accepted entries before the fault, or of all accepted entries without one; only accepted names are created and every other file is untouched |
| TextureExtractor.FaultStopsProcessing | src/me/balintcsala/TextureExtractor.java:22-47 | entries after the one whose `IOException` ends the loop have no influence on the outcome |
| TextureExtractor.EveryAcceptedEntryExtracted | src/me/balintcsala/TextureExtractor.java:35-43 | without a fault, every accepted entry not overwritten later is at `tmp/<name>` with exactly its bytes |
| TextureExtractor.ExtractEntry | src/me/balintcsala/TextureExtractor.java:32-43 | one loop pass without a fault: an accepted entry ends up at its name with its full content and is counted; a rejected one changes nothing |
| TextureExtractor.Extract | src/me/balintcsala/TextureExtractor.java:21-49 | the imperative loop, with the chunked copy of each accepted entry, ends in exactly the state `Run` describes |
| Images.StretchLaw | src/me/balintcsala/Upscaler.java:30-34 | stretching a row or column by the factor makes it `scaling` times as long, and position `i` holds original position `i / scaling` (with `Times` and `Quot`, the recursive forms of `*` and `/`) |
| Images.Scale | src/me/balintcsala/Upscaler.java:24-34 | the canvas is `Times(width, scaling)` by `Times(height, scaling)`, every canvas coordinate divides back into the source, and pixel (ox, oy) has the colour of source pixel (`Quot(ox, scaling)`, `Quot(oy, scaling)`) |
| Images.ScalePixel | src/me/balintcsala/Upscaler.java:24-34 | the same law with `*` and `/`: the canvas is `width * scaling` by `height * scaling`, and pixel (ox, oy) is source pixel (ox / scaling, oy / scaling) |
| Images.ScaleByOne | src/me/balintcsala/Upscaler.java:24-34 | with a factor of 1 the canvas equals the original image pixel for pixel |
| Images.ScaleThenDownsample | src/me/balintcsala/Upscaler.java:24-34 | the upscale loses nothing: taking every `scaling`-th pixel of every `scaling`-th row gives back the original |
| Upscaler.ResizeFile | src/me/balintcsala/Upscaler.java:21-39 | a read `IOException` leaves the file as it was and is swallowed. A null image escapes as an unchecked exception. So does a canvas that cannot be created: a non-positive side, or 2^31 - 1 pixels or more. Otherwise the file is replaced by what writing the scaled image produced |
| Upscaler.VisitFile | src/me/balintcsala/Upscaler.java:47-50 | a file that is not an image, or is met after a crash, is passed over. For an image, the file becomes what its resize left (old bytes, written bytes, or nothing) and `completed` rises by one. The exception is an escaping resize: it leaves the file and the count alone and marks the walk crashed |
| Upscaler.VisitSettles | src/me/balintcsala/Upscaler.java:35-38 | after one visit, the image's path holds exactly what its resize left; only a crashed walk may leave the old bytes instead |
| Upscaler.UpscaleAll | src/me/balintcsala/Upscaler.java:44-50 | once crashed, nothing changes; `completed` rises by at most one per image file, and by exactly one per image file, failed resizes included, when the walk does not crash |
| Upscaler.CrashIffEscape | src/me/balintcsala/Upscaler.java:44-50 | the walk stops exactly when some image file's resize throws an unchecked exception |
| Upscaler.FilesAccounted | src/me/balintcsala/Upscaler.java:35 | every file after the walk was there before, or is an image rewritten at its own path by its own resize; no other path is created |
| Upscaler.PathsKept | src/me/balintcsala/Upscaler.java:35 | the walk creates no file at a path where there was none |
| Upscaler.ImagesReplaced | src/me/balintcsala/Upscaler.java:35-38 | when no two files share a path, every image file ends up as its resize left it. A successful write leaves the new bytes and nothing else at the path. A read `IOException` leaves the old bytes. A failed write that removed the file leaves no file. Only a crash may leave an image as it was instead |
| Upscaler.NonImagesKept | src/me/balintcsala/Upscaler.java:44-46 | regular files whose path does not end with ".png" come through untouched |
| Upscaler.Run | src/me/balintcsala/Upscaler.java:41-55 | a missing staging directory gives nothing visited and `finished`. Otherwise `finished` holds exactly when no image's resize throws an unchecked exception, and then `completed` is the number of image files. Non-images are kept and no new path appears. When file paths are distinct, every image is replaced by its resize result, or, only when `finished` is not set, possibly left as it was |
| Upscaler.FinishesWhenDecodable | src/me/balintcsala/Upscaler.java:51-54 | when every image either fails with an `IOException` or decodes to an image whose canvas can be created, `finished` is always set |
| FileTree.Join | src/me/balintcsala/Main.java:81 | joining onto an empty parent gives the name, and joining an empty name gives the parent: empty components are dropped |
| FileTree.JoinParts | src/me/balintcsala/Upscaler.java:44 | the joined path starts with the parent and ends with the name. A separator sits between them exactly when both are non-empty |
| Packager.ZipFile | src/me/balintcsala/Main.java:57-73 | an empty path gives no entry; otherwise at most one entry, named by the path, holding the file's bytes, or a prefix of them after a caught fault |
| Packager.ZipFileStreamed | src/me/balintcsala/Main.java:57-73 | the method with the 1024-byte chunk loop produces exactly the entry `ZipFile` describes |
| Packager.ZipDirectory | src/me/balintcsala/Main.java:75-88 | at most one entry per regular file below the directory |
| Packager.ZipSources | src/me/balintcsala/Main.java:75-88 | every entry is named after a file below the directory, with a non-empty name, and holds a prefix of that file's bytes |
| Packager.Zip | src/me/balintcsala/Main.java:90-108 | a root that lists as null gives no entries; otherwise the entries come from the files below the root, with paths starting at the root's children |
| Packager.ZipAppend | src/me/balintcsala/Main.java:80-87 | the entries follow the listing order: packing two parts of a listing concatenates their entries |
| Packager.SubdirectoryContiguous | src/me/balintcsala/Main.java:80-87 | a subdirectory's entries appear together at its place in the listing, under paths extended by its name |
| Packager.ZipComplete | src/me/balintcsala/Main.java:75-88 | without faults, and with non-empty names, there is exactly one entry per regular file, and an entry is present exactly when it is some file's path and bytes |
| Packager.ZipCompleteRoot | src/me/balintcsala/Main.java:90-108 | the same for a whole staging directory: one entry per file, with paths relative to the root and without the root's own name |
| Pipeline.CountTextures | src/me/balintcsala/Main.java:142-153 | the counting loop gives the number of entries the extractor accepts, or 0 when the jar cannot be opened |
| Pipeline.TotalMatchesExtraction | src/me/balintcsala/TextureExtractor.java:27-44 | a fault-free extraction writes exactly as many files as the total counted in `start()` |
| Pipeline.FilterExamples | src/me/balintcsala/TextureExtractor.java:32 | "a.png" and "b.png" pass the filter; "realms/c.png", "gui/surrealms.png" and "a.PNG" do not |

## Left out

- Threads, the 20 ms polling loops, `join`, the progress bar (`printPercentage`, which uses floating point) and the forced 100% render. Each worker is modelled as a sequential function that returns its final counter and `finished` flag.
- OS detection, the Minecraft directory lookup, the stdin prompts (version, factor, pack format, description) and the `pack.mcmeta` text. These are configuration and I/O glue.
- PNG decoding and encoding, `Graphics2D` and colour-model conversion. The image library is the `ImageIO` parameter, and pixels are opaque.
- The zip container format and compression. Archives are entry sequences, and the staging directory is a tree. The model assumes that the jar's central directory, read by `ZipFile` in `start()`, lists the same entries as the stream `ZipInputStream` reads.
- Images.Scale: canvas dimensions are unbounded integers. In the source, the 32-bit product `width * scaling` can wrap around when it exceeds 2^31-1, and the model does not follow that.
- Upscaler.ResizeFile: a resize whose exact canvas has 2^31 - 1 pixels or more is modelled as escaping. If one side wraps around to a small positive value, the source may instead draw into a smaller canvas; the model does not follow that.
- Upscaler.ResizeFile: an `OutOfMemoryError` for a canvas that fits the pixel limit but not the heap is not modelled, because it depends on the heap size.
- Upscaler.ResizeFile: a decoded `Picture` may be empty (0 by 0), which `ImageIO.read` never returns. The model treats such an image like any canvas with a non-positive side: the resize escapes.
- Upscaler.Run: `completed` is unbounded. The source's 32-bit counter could only wrap after 2^31 files.
- Pipeline.CountTextures: `totalCount` is unbounded. The source's 32-bit counter could only wrap after 2^31 entries.
- TextureExtractor.Run: `extractedCount` is unbounded. The 32-bit counter of the source could only wrap after 2^31 files.
- TextureExtractor.Run: entry names are used as staging keys verbatim. `File` path normalisation of unusual names (repeated or trailing separators, `..`) is not modelled.
- Upscaler.Run: an unreadable subdirectory found during the walk makes `Files.walk` throw an unchecked `UncheckedIOException`, which also ends the walk without setting `finished`. The model's tree has no unreadable directories, so this case is not covered.
- Upscaler.Run: the replacement of images is stated only for staging trees in which no two files share a path, which a real directory guarantees. For a tree with duplicate paths the clause states nothing.
- Upscaler.Run: symbolic links and other non-regular files are not modelled. Every `File` node is a regular file.
- Packager.Zip: a directory inside the tree that lists as null (unreadable) is not modelled. The only null listing modelled is the root's, when the root is a file.
- Packager.Zip: failure to create or close `pack.zip` is not modelled. Neither is the `ZipException` for a duplicate entry name, which needs two files with the same path.
- Path names are assumed to contain no separator characters. The separator itself is abstract.
