/** Bytes and the bounded-buffer copy loop shared by the extractor and the packager:
    `while ((len = in.read(buffer)) > 0) out.write(buffer, 0, len)`. */
module Streams {

  newtype byte = x: int | 0 <= x < 256

  type Bytes = seq<byte>

  /** Size of the `byte[]` buffer both copy loops allocate. */
  const BufferSize: nat := 1024

  /** What `read(buffer)` returns on a stream over `source` whose next unread byte is
      at `pos`: -1 at the end of the data, otherwise a count between 1 and the buffer
      size. How many bytes the stream hands over is its own choice; `want` is that
      choice, clamped to what the buffer and the remaining data allow. */
  function ReadCount(source: Bytes, pos: nat, want: nat): (n: int)
    requires pos <= |source|
    ensures n <= 0 <==> pos == |source|
    ensures n > 0 ==> n <= BufferSize && pos + n <= |source|
  {
    if pos == |source| then -1
    else
      var room := if |source| - pos < BufferSize then |source| - pos else BufferSize;
      if want == 0 then 1 else if want > room then room else want
  }

  /** The bytes of a sequence of chunks, written one after the other. */
  function Concat(chunks: seq<Bytes>): Bytes {
    if |chunks| == 0 then [] else Concat(chunks[..|chunks| - 1]) + chunks[|chunks| - 1]
  }

  /** What a copy interrupted after `k` bytes leaves behind: a prefix of the source. */
  function Truncate(bytes: Bytes, k: nat): (r: Bytes)
    ensures r <= bytes
    ensures |r| == if k < |bytes| then k else |bytes|
  {
    if k < |bytes| then bytes[..k] else bytes
  }

  /** The copy loop. `choice(pos)` is how many bytes the stream chooses to deliver when
      asked at position `pos`. Whatever the stream chooses, the output receives every
      byte of the source, in order, in chunks of at most one buffer. */
  method Copy(source: Bytes, choice: nat -> nat) returns (written: Bytes, chunks: seq<Bytes>)
    ensures written == source
    ensures Concat(chunks) == source
    ensures forall i :: 0 <= i < |chunks| ==> 1 <= |chunks[i]| <= BufferSize
  {
    written := [];
    chunks := [];
    var pos: nat := 0;
    var len := ReadCount(source, pos, choice(pos));
    while len > 0
      invariant pos <= |source|
      invariant len == ReadCount(source, pos, choice(pos))
      invariant written == source[..pos]
      invariant Concat(chunks) == written
      invariant forall i :: 0 <= i < |chunks| ==> 1 <= |chunks[i]| <= BufferSize
      decreases |source| - pos
    {
      var chunk := source[pos..pos + len];
      written := written + chunk;
      chunks := chunks + [chunk];
      pos := pos + len;
      assert written == source[..pos];
      len := ReadCount(source, pos, choice(pos));
    }
    assert source[..pos] == source;
  }
}
