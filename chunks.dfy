/** What the transmitter's read-and-hash loop computes, as functions of the
    source text: the list of 4096-character reads (ending in the empty read),
    the bytes they encode to, and the cumulative SHA-1 digests taken after
    each read. SHA-1 itself is a parameter `sha1`. The source text is the
    file as a text-mode read delivers it: decoded, with "\r\n" and "\r"
    already turned into "\n". */
module Chunks {
  import opened Common

  const CHUNK_SIZE: nat := 4096

  predicate IsAscii(s: string)
  {
    forall i :: 0 <= i < |s| ==> s[i] as int < 128
  }

  predicate AllAscii(cs: seq<string>)
  {
    forall i :: 0 <= i < |cs| ==> IsAscii(cs[i])
  }

  /** `bytes(s, "ascii")`, defined where it does not raise. */
  function AsciiBytes(s: string): (b: seq<byte>)
    requires IsAscii(s)
    ensures |b| == |s| && forall i :: 0 <= i < |s| ==> b[i] as int == s[i] as int
  {
    seq(|s|, i requires 0 <= i < |s| => s[i] as int as byte)
  }

  lemma {:induction false} AsciiBytesConcat(a: string, b: string)
    requires IsAscii(a) && IsAscii(b)
    ensures IsAscii(a + b) && AsciiBytes(a + b) == AsciiBytes(a) + AsciiBytes(b)
  {
  }

  // ---------------------------------------------------------------------
  // The chunk list, as a function of the source text
  // ---------------------------------------------------------------------

  /** What `file.read(CHUNK_SIZE)` returns when `rest` is the unread text:
      the next CHUNK_SIZE characters, or all of them if fewer remain. */
  function ReadChunk(rest: string): (chunk: string)
    ensures |chunk| <= CHUNK_SIZE && |chunk| <= |rest| && chunk == rest[..|chunk|]
    ensures |chunk| == CHUNK_SIZE || chunk == rest
  {
    if |rest| <= CHUNK_SIZE then rest else rest[..CHUNK_SIZE]
  }

  /** `ascii_chunk_list` after the read loop: every read, the final empty one
      included. */
  function ChunkList(text: string): (chunks: seq<string>)
    ensures |chunks| >= 1 && chunks[|chunks| - 1] == ""
    ensures chunks == [""] <==> text == []
    decreases |text|
  {
    if text == [] then [""]
    else
      var chunk := ReadChunk(text);
      [chunk] + ChunkList(text[|chunk|..])
  }

  /** The chunks that are hashed: all but the empty terminator. */
  function HashedChunks(text: string): (cs: seq<string>)
  {
    var chunks := ChunkList(text);
    chunks[..|chunks| - 1]
  }

  /** Every read before the terminator returns 1..CHUNK_SIZE characters, and
      every one before the last non-empty read returns exactly CHUNK_SIZE. */
  lemma {:induction false} ChunkSizes(text: string)
    ensures forall i :: 0 <= i < |ChunkList(text)| - 1 ==> 0 < |ChunkList(text)[i]| <= CHUNK_SIZE
    ensures forall i :: 0 <= i < |ChunkList(text)| - 2 ==> |ChunkList(text)[i]| == CHUNK_SIZE
    decreases |text|
  {
    if text != [] {
      var chunk := ReadChunk(text);
      var rest := text[|chunk|..];
      var cs, tail := ChunkList(text), ChunkList(rest);
      ChunkSizes(rest);
      assert cs == [chunk] + tail;
      forall i | 0 <= i < |cs| - 1 ensures 0 < |cs[i]| <= CHUNK_SIZE {
        if i > 0 { assert cs[i] == tail[i - 1]; }
      }
      forall i | 0 <= i < |cs| - 2 ensures |cs[i]| == CHUNK_SIZE {
        if i > 0 {
          assert cs[i] == tail[i - 1];
        } else {
          assert rest != [];
        }
      }
    }
  }

  /** Concatenating the chunk list in order gives back the source. */
  lemma {:induction false} ChunkListReconstructs(text: string)
    ensures Flatten(ChunkList(text)) == text
    decreases |text|
  {
    if text != [] {
      var chunk := ReadChunk(text);
      var rest := text[|chunk|..];
      ChunkListReconstructs(rest);
      assert ChunkList(text)[1..] == ChunkList(rest);
      assert text == chunk + rest;
    }
  }

  /** One hash per non-empty read: ceil(|text| / CHUNK_SIZE) of them. */
  lemma {:induction false} ChunkCount(text: string)
    ensures |ChunkList(text)| - 1 == (|text| + CHUNK_SIZE - 1) / CHUNK_SIZE
    decreases |text|
  {
    if text != [] {
      var chunk := ReadChunk(text);
      var rest := text[|chunk|..];
      ChunkCount(rest);
      if |text| > CHUNK_SIZE {
        assert |rest| == |text| - CHUNK_SIZE;
      }
    }
  }

  /** Every chunk is ASCII exactly when the source is. */
  lemma {:induction false} ChunksAscii(text: string)
    ensures AllAscii(ChunkList(text)) <==> IsAscii(text)
    decreases |text|
  {
    if text != [] {
      var chunk := ReadChunk(text);
      var rest := text[|chunk|..];
      ChunksAscii(rest);
      var cs := ChunkList(text);
      assert cs[0] == chunk && cs[1..] == ChunkList(rest);
      assert text == chunk + rest;
      if IsAscii(text) {
        forall i | 0 <= i < |cs| ensures IsAscii(cs[i]) {
          if i > 0 { assert cs[i] == ChunkList(rest)[i - 1]; }
        }
      }
      if AllAscii(cs) {
        assert IsAscii(chunk);
        assert AllAscii(ChunkList(rest)) by {
          forall j | 0 <= j < |ChunkList(rest)| ensures IsAscii(ChunkList(rest)[j]) {
            assert ChunkList(rest)[j] == cs[j + 1];
          }
        }
        forall i | 0 <= i < |text| ensures text[i] as int < 128 {
          if i >= |chunk| { assert text[i] == rest[i - |chunk|]; }
        }
      }
    }
  }

  // ---------------------------------------------------------------------
  // Cumulative digests
  // ---------------------------------------------------------------------

  /** The bytes a context has absorbed after `update(bytes(c, "ascii"))` for
      each chunk c in order. */
  function EncodeChunks(cs: seq<string>): (bytes: seq<byte>)
    requires AllAscii(cs)
  {
    if cs == [] then [] else EncodeChunks(cs[..|cs| - 1]) + AsciiBytes(cs[|cs| - 1])
  }

  /** The digests pushed while absorbing `cs`: one after each chunk, taken
      over everything absorbed so far. */
  function CumulativeDigests(sha1: seq<byte> -> string, cs: seq<string>): (r: seq<string>)
    requires AllAscii(cs)
    ensures |r| == |cs|
  {
    if cs == [] then []
    else
      assert AllAscii(cs[..|cs| - 1]);
      CumulativeDigests(sha1, cs[..|cs| - 1]) + [sha1(EncodeChunks(cs))]
  }

  /** The hash manifest the transmitter pushes for an ASCII source. */
  function Manifest(sha1: seq<byte> -> string, text: string): (r: seq<string>)
    requires IsAscii(text)
  {
    ChunksAscii(text);
    CumulativeDigests(sha1, HashedChunks(text))
  }

  /** Absorbing one more ASCII chunk extends the encoding by that chunk's
      bytes and the digest list by the digest of everything so far. */
  lemma {:induction false} CumulativeSnoc(sha1: seq<byte> -> string, cs: seq<string>, c: string)
    requires AllAscii(cs) && IsAscii(c)
    ensures AllAscii(cs + [c])
    ensures EncodeChunks(cs + [c]) == EncodeChunks(cs) + AsciiBytes(c)
    ensures CumulativeDigests(sha1, cs + [c]) == CumulativeDigests(sha1, cs) + [sha1(EncodeChunks(cs + [c]))]
  {
    assert (cs + [c])[..|cs|] == cs;
  }

  /** Digest k is taken over chunks 0..k together, never over chunk k alone. */
  lemma {:induction false} CumulativeDigestAt(sha1: seq<byte> -> string, cs: seq<string>, k: nat)
    requires AllAscii(cs) && k < |cs|
    ensures AllAscii(cs[..k + 1])
    ensures CumulativeDigests(sha1, cs)[k] == sha1(EncodeChunks(cs[..k + 1]))
    decreases |cs|
  {
    assert AllAscii(cs[..k + 1]);
    if k == |cs| - 1 {
      assert cs[..k + 1] == cs;
    } else {
      var init := cs[..|cs| - 1];
      assert AllAscii(init);
      CumulativeDigestAt(sha1, init, k);
      assert init[..k + 1] == cs[..k + 1];
    }
  }

  /** Encoding chunk by chunk gives the encoding of their concatenation. */
  lemma {:induction false} EncodeChunksFlatten(cs: seq<string>)
    requires AllAscii(cs)
    ensures IsAscii(Flatten(cs)) && EncodeChunks(cs) == AsciiBytes(Flatten(cs))
    decreases |cs|
  {
    if cs != [] {
      var init := cs[..|cs| - 1];
      var last := cs[|cs| - 1];
      assert AllAscii(init);
      EncodeChunksFlatten(init);
      FlattenConcat(init, [last]);
      assert cs == init + [last];
      assert Flatten([last]) == last + Flatten([]);
      AsciiBytesConcat(Flatten(init), last);
    }
  }

  /** The text the first k + 1 chunks cover: a prefix of the source ending
      at character min((k + 1) * CHUNK_SIZE, |text|). */
  lemma {:induction false} ChunkPrefix(text: string, k: nat)
    requires k < |ChunkList(text)| - 1
    ensures Flatten(ChunkList(text)[..k + 1]) == text[..Min((k + 1) * CHUNK_SIZE, |text|)]
    decreases |text|
  {
    var chunk := ReadChunk(text);
    var rest := text[|chunk|..];
    var tail := ChunkList(rest);
    assert ChunkList(text) == [chunk] + tail;
    assert ChunkList(text)[..k + 1] == [chunk] + tail[..k];
    FlattenConcat([chunk], tail[..k]);
    assert Flatten([chunk]) == chunk;
    if k == 0 {
      assert tail[..0] == [];
    } else {
      assert |chunk| == CHUNK_SIZE;
      ChunkPrefix(rest, k - 1);
      var m := Min(k * CHUNK_SIZE, |rest|);
      assert Min((k + 1) * CHUNK_SIZE, |text|) == CHUNK_SIZE + m;
      assert text[..CHUNK_SIZE + m] == chunk + rest[..m];
    }
  }

  /** Digest k is SHA-1 of the first min((k + 1) * 4096, |text|) characters
      of the source. */
  lemma {:induction false} DigestCoversPrefix(sha1: seq<byte> -> string, text: string, k: nat)
    requires IsAscii(text) && k < |Manifest(sha1, text)|
    ensures Manifest(sha1, text)[k] == sha1(AsciiBytes(text[..Min((k + 1) * CHUNK_SIZE, |text|)]))
  {
    ChunksAscii(text);
    var data := HashedChunks(text);
    assert data[..k + 1] == ChunkList(text)[..k + 1];
    CumulativeDigestAt(sha1, data, k);
    EncodeChunksFlatten(data[..k + 1]);
    ChunkPrefix(text, k);
  }

  /** The last digest of a non-empty source is SHA-1 of the whole source. */
  lemma {:induction false} LastDigestCoversSource(sha1: seq<byte> -> string, text: string)
    requires IsAscii(text) && text != []
    ensures |Manifest(sha1, text)| == |ChunkList(text)| - 1 > 0
    ensures Manifest(sha1, text)[|Manifest(sha1, text)| - 1] == sha1(AsciiBytes(text))
  {
    ChunksAscii(text);
    var chunks := ChunkList(text);
    var data := chunks[..|chunks| - 1];
    assert data == HashedChunks(text);
    assert chunks == data + [""];
    assert AllAscii(data);
    assert CumulativeDigests(sha1, data) == Manifest(sha1, text);
    CumulativeDigestAt(sha1, data, |data| - 1);
    assert data[..|data|] == data;
    EncodeChunksFlatten(data);
    FlattenConcat(data, [""]);
    assert Flatten([""]) == "";
    ChunkListReconstructs(text);
    assert Flatten(data) == text;
    assert EncodeChunks(data) == AsciiBytes(text);
  }

  /** send.txt ends in a lone carriage return: the empty terminator chunk
      framed on its own. */
  lemma {:induction false} SendBlobEndsWithLoneReturn(text: string)
    ensures Frame(ChunkList(text)) == Frame(HashedChunks(text)) + "\r"
  {
    var chunks := ChunkList(text);
    assert chunks == HashedChunks(text) + [""];
    FrameConcat(HashedChunks(text), [""]);
    assert [""][..0] == [];
  }

  /** One non-empty read moves the first chunk of the unread rest over to
      the chunks read so far. */
  lemma {:induction false} ReadStep(text: string, done: seq<string>, rest: string, chunk: string)
    requires ChunkList(text) == done + ChunkList(rest)
    requires chunk == ReadChunk(rest) && chunk != ""
    ensures |rest[|chunk|..]| < |rest|
    ensures ChunkList(text) == (done + [chunk]) + ChunkList(rest[|chunk|..])
  {
    var tail := ChunkList(rest[|chunk|..]);
    assert ChunkList(rest) == [chunk] + tail;
  }

  /** The read loop ends at the empty read: the chunks read so far, and the
      terminator, are the whole chunk list, and they encode the source. */
  lemma {:induction false} ReadsEnd(text: string, done: seq<string>)
    requires ChunkList(text) == done + ChunkList([])
    requires AllAscii(done)
    ensures ChunkList(text) == done + [""] && AllAscii(done + [""])
    ensures IsAscii(text) && EncodeChunks(done) == AsciiBytes(text)
  {
    ChunkListReconstructs(text);
    FlattenConcat(done, [""]);
    assert Flatten([""]) == "";
    EncodeChunksFlatten(done);
  }

  /** A non-ASCII chunk among the reads means a non-ASCII source. */
  lemma {:induction false} ReadFailsOn(text: string, chunks: seq<string>, unread: seq<string>)
    requires ChunkList(text) == chunks + unread && chunks != []
    requires !IsAscii(chunks[|chunks| - 1])
    ensures |chunks| <= |ChunkList(text)| && chunks == ChunkList(text)[..|chunks|]
    ensures !IsAscii(text)
  {
    assert ChunkList(text)[|chunks| - 1] == chunks[|chunks| - 1];
    ChunksAscii(text);
  }
}
