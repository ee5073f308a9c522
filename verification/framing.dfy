/**
 Splitting a snapshot byte stream into bounded frames, as the restore command's
 read loop does: it repeatedly fills a fixed buffer with io.ReadFull and sends
 every non-empty fill as one chunk.
 */
module Framing {

  newtype byte = b: int | 0 <= b < 256

  /** Size of the fixed read buffer; it bounds every chunk payload. */
  const BufferSize: nat := 1024

  function Min(a: nat, b: nat): nat
  {
    if a <= b then a else b
  }

  /** io.ReadFull into a BufferSize buffer from a source whose first `pos` bytes
      are already consumed: the buffer is filled completely unless the source
      runs out first, and zero bytes come back only at the end of the source. */
  function ReadFull(src: seq<byte>, pos: nat): (r: seq<byte>)
    requires pos <= |src|
    ensures |r| <= BufferSize && pos + |r| <= |src|
    ensures r == src[pos .. pos + |r|]
    ensures |r| == 0 <==> pos == |src|
    ensures |r| < BufferSize ==> pos + |r| == |src|
  {
    src[pos .. pos + Min(BufferSize, |src| - pos)]
  }

  /** Concatenation of frames in order. */
  function Flatten(frames: seq<seq<byte>>): seq<byte>
  {
    if |frames| == 0 then [] else frames[0] + Flatten(frames[1..])
  }

  /** Shape of the chunks the read loop produces: none is empty, none exceeds the
      buffer, and every one but the last fills the buffer exactly. */
  ghost predicate WellFramed(frames: seq<seq<byte>>)
  {
    forall i :: 0 <= i < |frames| ==>
      && 1 <= |frames[i]| <= BufferSize
      && (i < |frames| - 1 ==> |frames[i]| == BufferSize)
  }

  /** Number of frames a source of `n` bytes needs: ceil(n / BufferSize). */
  function FrameCount(n: nat): nat
  {
    (n + BufferSize - 1) / BufferSize
  }

  /** The chunks the read loop sends once `pos` bytes of `src` are consumed: one
      ReadFull after another until a read returns zero bytes. */
  function FramesFrom(src: seq<byte>, pos: nat): seq<seq<byte>>
    requires pos <= |src|
    decreases |src| - pos
  {
    var chunk := ReadFull(src, pos);
    if |chunk| == 0 then [] else [chunk] + FramesFrom(src, pos + |chunk|)
  }

  /** The chunks the read loop sends for the whole of `src`. */
  function Frames(src: seq<byte>): seq<seq<byte>>
  {
    FramesFrom(src, 0)
  }

  /** The chunks still to come from `pos` concatenate to the rest of the source, are
      well framed, and number ceil((|src| - pos) / BufferSize). */
  lemma {:induction false} FramesFromSound(src: seq<byte>, pos: nat)
    requires pos <= |src|
    ensures Flatten(FramesFrom(src, pos)) == src[pos..]
    ensures WellFramed(FramesFrom(src, pos))
    ensures |FramesFrom(src, pos)| == FrameCount(|src| - pos)
    decreases |src| - pos
  {
    var chunk := ReadFull(src, pos);
    if |chunk| > 0 {
      var rest := FramesFrom(src, pos + |chunk|);
      FramesFromSound(src, pos + |chunk|);
      FlattenPrepend(chunk, rest);
      assert src[pos..] == chunk + src[pos + |chunk|..];
      assert FramesFrom(src, pos) == [chunk] + rest;
    }
  }

  /** The read loop's chunks concatenate back to the source, are well framed, and
      number ceil(|src| / BufferSize); an empty source yields no chunk. */
  lemma FramesSound(src: seq<byte>)
    ensures Flatten(Frames(src)) == src
    ensures WellFramed(Frames(src))
    ensures |Frames(src)| == FrameCount(|src|)
  {
    FramesFromSound(src, 0);
    assert src[0..] == src;
  }

  lemma {:induction false} FlattenPrepend(f: seq<byte>, rest: seq<seq<byte>>)
    ensures Flatten([f] + rest) == f + Flatten(rest)
  {
  }

  lemma {:induction false} FlattenAppend(frames: seq<seq<byte>>, f: seq<byte>)
    ensures Flatten(frames + [f]) == Flatten(frames) + f
    decreases |frames|
  {
    if |frames| == 0 {
      assert frames + [f] == [f];
      FlattenPrepend(f, []);
    } else {
      assert (frames + [f])[1..] == frames[1..] + [f];
      FlattenAppend(frames[1..], f);
    }
  }

  /** The first j frames concatenate to a prefix of the whole. */
  lemma {:induction false} FlattenSplit(frames: seq<seq<byte>>, j: nat)
    requires j <= |frames|
    ensures Flatten(frames) == Flatten(frames[..j]) + Flatten(frames[j..])
    decreases j
  {
    if j == 0 {
      assert frames[..0] == [];
      assert frames[0..] == frames;
    } else {
      FlattenSplit(frames, j - 1);
      assert frames[j - 1..] == [frames[j - 1]] + frames[j..];
      FlattenPrepend(frames[j - 1], frames[j..]);
      assert frames[..j] == frames[..j - 1] + [frames[j - 1]];
      FlattenAppend(frames[..j - 1], frames[j - 1]);
    }
  }

  /** From any position, the read loop's split of the remaining bytes is the only
      well-framed split of them. */
  lemma {:induction false} FramesFromUnique(src: seq<byte>, pos: nat, split: seq<seq<byte>>)
    requires pos <= |src|
    ensures WellFramed(split) && Flatten(split) == src[pos..] <==> split == FramesFrom(src, pos)
    decreases |src| - pos
  {
    FramesFromSound(src, pos);
    if WellFramed(split) && Flatten(split) == src[pos..] {
      if |split| == 0 {
        assert |src[pos..]| == 0;
      } else {
        var chunk := ReadFull(src, pos);
        var tail := split[1..];
        FlattenPrepend(split[0], tail);
        assert split == [split[0]] + tail;
        assert src[pos..] == split[0] + Flatten(tail);
        // The first chunk is a full buffer unless it is the only one.
        if |tail| > 0 {
          assert |split[0]| == BufferSize;
        } else {
          assert Flatten(tail) == [];
        }
        assert |chunk| == |split[0]|;
        assert chunk == split[0];
        assert src[pos + |chunk|..] == Flatten(tail);
        assert WellFramed(tail) by {
          forall i | 0 <= i < |tail|
            ensures 1 <= |tail[i]| <= BufferSize
            ensures i < |tail| - 1 ==> |tail[i]| == BufferSize
          {
            assert tail[i] == split[i + 1];
          }
        }
        FramesFromUnique(src, pos + |chunk|, tail);
      }
    }
  }

  /** Frames is the only well-framed split of a source: a sequence of chunks is well
      framed and concatenates to `src` exactly when it is Frames(src). */
  lemma FramesUnique(src: seq<byte>, split: seq<seq<byte>>)
    ensures WellFramed(split) && Flatten(split) == src <==> split == Frames(src)
  {
    FramesFromUnique(src, 0, split);
    assert src[0..] == src;
  }
}
