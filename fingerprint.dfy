/**
 The streaming fingerprint of `getFileHash`: the file is read in chunks into
 one reused 4096-byte buffer, and every read that returns at least one byte
 folds the WHOLE buffer into the running hash, seeded at 0. Bytes that the
 last, shorter read did not overwrite are still those of the previous chunk
 and take part in the hash.

 The stream is given as a value (what the successive `read` calls return and
 whether opening, reading or closing throws); `LongHashFunction.xx3` is a
 foreign library and is given as the function parameter `mix`.
 */
module Fingerprint {
  import opened Wrappers

  /** Java's signed `byte`. */
  newtype Byte = b: int | -128 <= b < 128

  /** Java's signed 64-bit `long`. */
  newtype Long = x: int | -0x8000_0000_0000_0000 <= x < 0x8000_0000_0000_0000

  const BufferSize: nat := 4096

  /** The bytes one `read(buffer)` call delivers: never more than the buffer holds. */
  type Chunk = c: seq<Byte> | |c| <= 4096

  /** `LongHashFunction.xx3(seed).hashBytes(bytes)`. */
  type Mix = (Long, seq<Byte>) -> Long

  /** How the read after the last chunk ends: `-1`, or an `IOException`. */
  datatype Ending = EndOfStream | ReadFails

  /**
   A file as `getFileHash` sees it: either `new FileInputStream` throws, or
   the successive reads deliver `chunks`, then the stream ends as `ending`
   says, and `close()` throws when `closeFails` holds.
   */
  datatype Stream = OpenFails | Opened(chunks: seq<Chunk>, ending: Ending, closeFails: bool)

  /** The buffer and the running hash after some reads. */
  datatype ReadState = ReadState(buffer: seq<Byte>, hash: Long)

  function Zeros(n: nat): (r: seq<Byte>)
    ensures |r| == n && forall i :: 0 <= i < n ==> r[i] == 0
  {
    seq(n, _ => 0)
  }

  /** The buffer after `read` stores `c` at its front; the rest keeps its old bytes. */
  function Overwrite(buffer: seq<Byte>, c: Chunk): (r: seq<Byte>)
    requires |buffer| == BufferSize
    ensures |r| == BufferSize
    ensures r[..|c|] == c && r[|c|..] == buffer[|c|..]
  {
    c + buffer[|c|..]
  }

  /**
   The state after the reads that deliver `chunks`, starting from a
   zero-filled buffer and hash 0. A read of zero bytes leaves the hash alone;
   any other read mixes in the full buffer.
   */
  function Fold(mix: Mix, chunks: seq<Chunk>): (st: ReadState)
    ensures |st.buffer| == BufferSize
  {
    if chunks == [] then ReadState(Zeros(BufferSize), 0)
    else
      var prev := Fold(mix, chunks[..|chunks| - 1]);
      var c := chunks[|chunks| - 1];
      var buffer := Overwrite(prev.buffer, c);
      ReadState(buffer, if |c| > 0 then mix(prev.hash, buffer) else prev.hash)
  }

  /**
   The hash `getFileHash` records for a stream, or `None` when an exception
   abandons it.
   */
  function FileHash(mix: Mix, s: Stream): (r: Option<Long>)
    ensures r.Some? <==> s.Opened? && s.ending.EndOfStream? && !s.closeFails
  {
    match s
    case OpenFails => None
    case Opened(chunks, ending, closeFails) =>
      if ending.ReadFails? || closeFails then None else Some(Fold(mix, chunks).hash)
  }

  /** The bytes a stream delivers, in order. */
  function Content(chunks: seq<Chunk>): (r: seq<Byte>)
  {
    if chunks == [] then [] else Content(chunks[..|chunks| - 1]) + chunks[|chunks| - 1]
  }

  /**
   Byte `j` of the buffer after the reads that deliver `chunks`: byte `j` of
   the last chunk longer than `j`, or 0 when no chunk is that long.
   */
  function StaleByte(chunks: seq<Chunk>, j: nat): Byte
  {
    if chunks == [] then 0
    else
      var c := chunks[|chunks| - 1];
      if j < |c| then c[j] else StaleByte(chunks[..|chunks| - 1], j)
  }

  /** The buffer after the reads that deliver `chunks`, byte by byte. */
  function BufferAfter(chunks: seq<Chunk>): (r: seq<Byte>)
    ensures |r| == BufferSize
  {
    seq(BufferSize, (j: nat) => StaleByte(chunks, j))
  }

  /** The reused buffer holds, at each position, the byte the last read long enough to reach it stored there. */
  lemma {:induction false} FoldBuffer(mix: Mix, chunks: seq<Chunk>)
    ensures Fold(mix, chunks).buffer == BufferAfter(chunks)
  {
    if chunks != [] {
      var prefix := chunks[..|chunks| - 1];
      var c := chunks[|chunks| - 1];
      FoldBuffer(mix, prefix);
      var buffer := Fold(mix, chunks).buffer;
      forall j | 0 <= j < BufferSize ensures buffer[j] == BufferAfter(chunks)[j] {
        if j < |c| {
          assert buffer[j] == Overwrite(Fold(mix, prefix).buffer, c)[..|c|][j];
        } else {
          assert buffer[j] == Overwrite(Fold(mix, prefix).buffer, c)[|c|..][j - |c|];
        }
      }
    } else {
      assert Zeros(BufferSize) == BufferAfter([]);
    }
  }

  /**
   Reference fold: the blocks handed to `mix`, one per read that returned at
   least one byte. Each is the whole buffer as it stands after that read.
   */
  function MixedBlocks(chunks: seq<Chunk>): (r: seq<seq<Byte>>)
  {
    if chunks == [] then []
    else
      MixedBlocks(chunks[..|chunks| - 1]) + if |chunks[|chunks| - 1]| > 0 then [BufferAfter(chunks)] else []
  }

  /** The plain left fold of `mix` over a list of blocks. */
  function MixAll(mix: Mix, seed: Long, blocks: seq<seq<Byte>>): Long
  {
    if blocks == [] then seed else mix(MixAll(mix, seed, blocks[..|blocks| - 1]), blocks[|blocks| - 1])
  }

  /**
   The fingerprint is `mix` folded over the blocks, seeded at 0, and every
   block is the full 4096-byte buffer, whatever the read returned.
   */
  lemma {:induction false} FoldMixesFullBuffers(mix: Mix, chunks: seq<Chunk>)
    ensures Fold(mix, chunks).hash == MixAll(mix, 0, MixedBlocks(chunks))
    ensures forall b :: b in MixedBlocks(chunks) ==> |b| == BufferSize
  {
    if chunks != [] {
      var prefix := chunks[..|chunks| - 1];
      var c := chunks[|chunks| - 1];
      FoldMixesFullBuffers(mix, prefix);
      FoldBuffer(mix, chunks);
      var blocks := MixedBlocks(prefix);
      var extra := if |c| > 0 then [BufferAfter(chunks)] else [];
      assert MixedBlocks(chunks) == blocks + extra;
      if |c| > 0 {
        assert (blocks + extra)[..|blocks + extra| - 1] == blocks;
        assert MixAll(mix, 0, blocks + extra) == mix(MixAll(mix, 0, blocks), extra[0]);
      } else {
        assert blocks + extra == blocks;
      }
    }
  }

  /** A file whose reads deliver no bytes at all hashes to 0, the seed. */
  lemma {:induction false} EmptyFileHashesToZero(mix: Mix, chunks: seq<Chunk>)
    requires forall k :: 0 <= k < |chunks| ==> |chunks[k]| == 0
    ensures Fold(mix, chunks) == ReadState(Zeros(BufferSize), 0)
    ensures FileHash(mix, Opened(chunks, EndOfStream, false)) == Some(0)
  {
    if chunks != [] {
      EmptyFileHashesToZero(mix, chunks[..|chunks| - 1]);
    }
  }

  /**
   The stale-buffer effect: when the last read is short, the fingerprint is
   the one of a longer stream whose last chunk is the whole buffer. The two
   streams deliver different bytes (their lengths differ) yet always get the
   same fingerprint, whatever `mix` is.
   */
  lemma StaleBytesCollide(mix: Mix, chunks: seq<Chunk>, c: Chunk)
    requires 0 < |c| < BufferSize
    ensures var full := Overwrite(Fold(mix, chunks).buffer, c);
            && |Content(chunks + [full])| > |Content(chunks + [c])|
            && FileHash(mix, Opened(chunks + [c], EndOfStream, false))
               == FileHash(mix, Opened(chunks + [full], EndOfStream, false))
  {
    var full: Chunk := Overwrite(Fold(mix, chunks).buffer, c);
    assert (chunks + [c])[..|chunks|] == chunks;
    assert (chunks + [full])[..|chunks|] == chunks;
    assert Overwrite(Fold(mix, chunks).buffer, full) == full;
  }

  /**
   `fis.read(buffer)`: copies `c` to the front of `buffer` and returns how
   many bytes it stored.
   */
  method ReadInto(buffer: array<Byte>, c: Chunk) returns (numRead: int)
    requires buffer.Length == BufferSize
    modifies buffer
    ensures buffer[..] == Overwrite(old(buffer[..]), c)
    ensures numRead == |c|
  {
    for i := 0 to |c|
      invariant buffer[..i] == c[..i]
      invariant buffer[i..] == old(buffer[i..])
    {
      buffer[i] := c[i];
    }
    numRead := |c|;
  }

  /**
   `getFileHash` up to the point where it records its result: the hash of
   the stream, or `None` when opening, a read or closing throws.
   */
  method HashStream(mix: Mix, s: Stream) returns (r: Option<Long>)
    ensures r == FileHash(mix, s)
  {
    if s.OpenFails? {
      return None;
    }
    var buffer := new Byte[BufferSize](_ => 0);
    var hash: Long := 0;
    var k := 0;
    while k < |s.chunks|
      invariant 0 <= k <= |s.chunks|
      invariant ReadState(buffer[..], hash) == Fold(mix, s.chunks[..k])
    {
      assert s.chunks[..k + 1][..k] == s.chunks[..k];
      var numRead := ReadInto(buffer, s.chunks[k]);
      if numRead > 0 {
        hash := mix(hash, buffer[..]);
      }
      k := k + 1;
    }
    assert s.chunks[..k] == s.chunks;
    // the read after the last chunk returns -1 or throws; then close() may throw
    if s.ending.ReadFails? || s.closeFails {
      return None;
    }
    return Some(hash);
  }
}
