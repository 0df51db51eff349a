/** One run of both scripts: the transmitter's hashes.txt and send.txt
    read back by the receiver, and what the receiver's comparison stage
    then does with them. The receiver's hashes.txt and receive.txt are
    taken to be exactly the transmitter's two files, delivered intact.
    SHA-1 is the parameter `sha1`; its hex digests hold no line
    terminators and no spaces. */
module Session {
  import opened Common
  import opened Chunks
  import opened Text
  import opened Receiver

  /** SHA-1 hex digests are single words. */
  ghost predicate HexWords(sha1: seq<byte> -> string)
  {
    forall b :: NoBreaks(sha1(b)) && ' ' !in sha1(b)
  }

  /** Every chunk of a source without some character is without it too. */
  lemma {:induction false} ChunksAvoid(text: string, c: char)
    requires c !in text
    ensures forall i :: 0 <= i < |ChunkList(text)| ==> c !in ChunkList(text)[i]
    decreases |text|
  {
    if text != [] {
      var chunk := ReadChunk(text);
      var rest := text[|chunk|..];
      ChunksAvoid(rest, c);
      var cs := ChunkList(text);
      assert cs == [chunk] + ChunkList(rest);
      forall i | 0 <= i < |cs| ensures c !in cs[i] {
        if i > 0 {
          assert cs[i] == ChunkList(rest)[i - 1];
        }
      }
    }
  }

  /** The hash manifest survives hashes.txt: the receiver's hash list is
      exactly the list of digests the transmitter pushed. */
  lemma {:induction false} ManifestRoundTrip(sha1: seq<byte> -> string, text: string)
    requires IsAscii(text) && HexWords(sha1)
    ensures ParseText(Frame(Manifest(sha1, text))) == Manifest(sha1, text)
  {
    var m := Manifest(sha1, text);
    forall i | 0 <= i < |m| ensures NoBreaks(m[i]) {
      ChunksAscii(text);
      CumulativeDigestAt(sha1, HashedChunks(text), i);
    }
    ParseFrameRoundTrip(m);
  }

  /** A source without line terminators survives send.txt chunk for chunk,
      the empty terminator included. */
  lemma {:induction false} ChunkBlobRoundTrip(text: string)
    requires NoBreaks(text)
    ensures ParseText(Frame(ChunkList(text))) == ChunkList(text)
  {
    ChunksAvoid(text, '\r');
    ChunksAvoid(text, '\n');
    ParseFrameRoundTrip(ChunkList(text));
  }

  /** Both files of a run survive the trip: the receiver's hash list is
      the manifest and its text list is the chunk list, one entry longer. */
  lemma {:induction false} RunRoundTrips(sha1: seq<byte> -> string, text: string)
    requires IsAscii(text) && NoBreaks(text) && HexWords(sha1)
    ensures ParseText(Frame(Manifest(sha1, text))) == Manifest(sha1, text)
    ensures ParseText(Frame(ChunkList(text))) == ChunkList(text)
    ensures |ChunkList(text)| == |Manifest(sha1, text)| + 1
  {
    ManifestRoundTrip(sha1, text);
    ChunkBlobRoundTrip(text);
    ChunksAscii(text);
  }

  /** The receiver's hash list for one run: hashes.txt read back. */
  function ReceivedHashes(sha1: seq<byte> -> string, text: string): (hashes: seq<string>)
    requires IsAscii(text)
  {
    ParseText(Frame(Manifest(sha1, text)))
  }

  /** The receiver's text list for one run: send.txt, saved as receive.txt,
      read back. */
  function ReceivedTexts(text: string): (texts: seq<string>)
  {
    ParseText(Frame(ChunkList(text)))
  }

  /** The positions the mapping loop records: those with both a hash and
      a text. */
  function Recorded(sha1: seq<byte> -> string, text: string): (b: nat)
    requires IsAscii(text)
  {
    Min(|ReceivedHashes(sha1, text)|, |ReceivedTexts(text)|)
  }

  /** The dictionary the mapping loop builds for one run. */
  function RunDict(sha1: seq<byte> -> string, text: string): (dict: map<string, string>)
    requires IsAscii(text)
  {
    var b := Recorded(sha1, text);
    Pairs(ReceivedHashes(sha1, text)[..b], ReceivedTexts(text)[..b])
  }

  /** The scratch files the mapping loop writes for one run. */
  function RunScratch(sha1: seq<byte> -> string, text: string): (files: map<string, string>)
    requires IsAscii(text)
  {
    ScratchFiles(ReceivedTexts(text)[..Recorded(sha1, text)])
  }

  /** The digest `sha1sum` prints for a scratch file: the file is written
      in text mode, so an ASCII content is stored as its ASCII bytes. */
  function Sha1sum(sha1: seq<byte> -> string, content: string): (digest: string)
    requires IsAscii(content)
  {
    sha1(AsciiBytes(content))
  }

  /** What `sha1sum` prints for a file: the digest, two spaces, the path. */
  function Sha1sumLine(digest: string, path: string): (line: string)
  {
    digest + "  " + path + "\n"
  }

  /** Reference line j carries `sha1sum`'s digest of scratch file k + 1. */
  predicate ListsScratchSum(sha1: seq<byte> -> string, files: map<string, string>, k: nat, refs: seq<string>, j: nat)
  {
    && j < |refs| && ScratchName(k) in files && IsAscii(files[ScratchName(k)])
    && Token(refs[j]) == Sha1sum(sha1, files[ScratchName(k)])
  }

  /** For a break-free source every digest is a key of the mapping loop's
      dictionary, and a digest that does not recur later maps to its own
      chunk. */
  lemma {:induction false} MappingPairsDigestWithChunk(sha1: seq<byte> -> string, text: string, i: nat)
    requires IsAscii(text) && NoBreaks(text) && HexWords(sha1)
    requires i < |Manifest(sha1, text)|
    requires forall j :: i < j < |Manifest(sha1, text)| ==> Manifest(sha1, text)[j] != Manifest(sha1, text)[i]
    ensures Recorded(sha1, text) == |Manifest(sha1, text)|
    ensures Manifest(sha1, text)[i] in RunDict(sha1, text)
    ensures RunDict(sha1, text)[Manifest(sha1, text)[i]] == ChunkList(text)[i]
  {
    RunRoundTrips(sha1, text);
    var hb := Manifest(sha1, text);
    var ab := ChunkList(text);
    assert hb[..|hb|] == hb;
    PairsLastWins(hb, ab[..|hb|], i);
  }

  /** For a break-free source scratch file k + 1 holds chunk k. */
  lemma {:induction false} ScratchHoldsChunk(sha1: seq<byte> -> string, text: string, k: nat)
    requires IsAscii(text) && NoBreaks(text) && HexWords(sha1)
    requires k < |Manifest(sha1, text)|
    ensures ScratchName(k) in RunScratch(sha1, text)
    ensures RunScratch(sha1, text)[ScratchName(k)] == ChunkList(text)[k]
  {
    RunRoundTrips(sha1, text);
    var n := |Manifest(sha1, text)|;
    var ab := ChunkList(text);
    ScratchFilesHold(ab[..n]);
    assert ab[..n][k] == ab[k];
  }

  /** A source holding "\n" in one read breaks the pairing: for the
      one-read source x + "\n" + y the receiver gets three texts, and the
      only scratch file holds x, not the chunk that was hashed. */
  lemma {:induction false} ScratchHoldsFirstLine(sha1: seq<byte> -> string, x: string, y: string)
    requires NoBreaks(x) && NoBreaks(y) && IsAscii(x + "\n" + y) && HexWords(sha1)
    requires |x| + |y| < CHUNK_SIZE
    ensures var text := x + "\n" + y;
      && ChunkList(text) == [text, ""]
      && ReceivedTexts(text) == [x, y, ""]
      && ReceivedHashes(sha1, text) == [sha1(AsciiBytes(text))]
      && RunScratch(sha1, text) == map[ScratchName(0) := x]
  {
    var text := x + "\n" + y;
    assert ChunkList(text) == [text] + ChunkList([]);
    assert ChunkList(text) == [text, ""];
    ChunkBlobDoesNotRoundTrip(x, y);
    LastDigestCoversSource(sha1, text);
    ManifestRoundTrip(sha1, text);
    var ab := ReceivedTexts(text);
    assert ab[..1] == [x];
    assert ScratchFiles([x]) == ScratchFiles([x][..0])[ScratchName(0) := x];
  }

  /** The degenerate run: an empty source sends an empty hashes.txt and a
      lone "\r" as send.txt. The receiver gets no hashes and the one text
      "", so the mapping loop records nothing; with no listed scratch files
      and no reference lines the comparison loop completes and the report
      is empty. */
  lemma {:induction false} EmptySourceRun(sha1: seq<byte> -> string)
    ensures Frame(Manifest(sha1, "")) == "" && Frame(ChunkList("")) == "\r"
    ensures ReceivedHashes(sha1, "") == [] && ReceivedTexts("") == [""]
    ensures RunDict(sha1, "") == map[] && RunScratch(sha1, "") == map[]
    ensures ReconcileOk([], {}, 0, []) && MatchedSlots([], {}, 0, []) == [] && LinuxSlots(0, []) == []
    ensures Report([], [], [], []) == []
  {
    assert ChunkList("") == [""];
    assert Manifest(sha1, "") == [];
    assert Frame([""]) == Frame([]) + "" + "\r" by {
      assert [""][..0] == [];
    }
    assert Translate("\r") == "\n";
    assert SplitOn("\n", '\n') == ["", ""] by {
      SplitAfter("", '\n', "");
    }
  }

  /** The token of a `sha1sum` line is the digest. */
  lemma {:induction false} TokenOfSha1sumLine(digest: string, path: string)
    requires ' ' !in digest
    ensures Token(Sha1sumLine(digest, path)) == digest
  {
    var rest := " " + path + "\n";
    assert Sha1sumLine(digest, path) == digest + [' '] + rest;
    SplitAfter(digest, ' ', rest);
  }

  /** A reference line whose token is the first hash marks slot 0. */
  lemma {:induction false} FirstHashMarked(hashes: seq<string>, keys: set<string>, n: nat, refs: seq<string>, j: nat)
    requires forall x :: x in keys ==> x in hashes
    requires hashes != [] && hashes[0] in keys && n > 0
    requires j < |refs| && Token(refs[j]) == hashes[0]
    ensures MatchedSlots(hashes, keys, n, refs)[0]
  {
    assert Marks(hashes, keys, refs, j, 0);
  }

  /** A break-free source of one read (1 to 4096 characters) goes through:
      the receiver gets its single digest and writes the source to the
      single scratch file, whose `sha1sum` matches that digest in the last
      slot, so the report says MATCHING. */
  lemma {:induction false} SingleChunkRunMatches(sha1: seq<byte> -> string, text: string, name: string, path: string)
    requires IsAscii(text) && NoBreaks(text) && HexWords(sha1)
    requires 0 < |text| <= CHUNK_SIZE
    ensures ReceivedHashes(sha1, text) == [sha1(AsciiBytes(text))]
    ensures RunScratch(sha1, text) == map[ScratchName(0) := text]
    ensures var d := sha1(AsciiBytes(text));
      var hb := ReceivedHashes(sha1, text);
      var keys := RunDict(sha1, text).Keys;
      var refs := [Sha1sumLine(Sha1sum(sha1, RunScratch(sha1, text)[ScratchName(0)]), path)];
      && ReconcileOk(hb, keys, 1, refs)
      && MatchedSlots(hb, keys, 1, refs) == [true]
      && LinuxSlots(1, refs) == [Some(d)]
      && ReportLine([name], hb, [true], [Some(d)], 0) == Ok(name + " hash has MATCHING value of " + d)
  {
    var d := sha1(AsciiBytes(text));
    var cs := ChunkList(text);
    assert cs == [text] + ChunkList([]);
    LastDigestCoversSource(sha1, text);
    RunRoundTrips(sha1, text);
    var hb := ReceivedHashes(sha1, text);
    assert hb == [d];
    assert cs[..1] == [text] && hb[..1] == hb;
    assert ScratchFiles([text]) == ScratchFiles([text][..0])[ScratchName(0) := text];
    PairsKeys(hb, cs[..1]);
    var keys := RunDict(sha1, text).Keys;
    assert keys == {d};
    var refs := [Sha1sumLine(Sha1sum(sha1, text), path)];
    TokenOfSha1sumLine(d, path);
    FirstHashMarked(hb, keys, 1, refs, 0);
  }

  /** A break-free source of two or more reads never gets through the
      comparison stage. Scratch file 1 holds chunk 0, and its `sha1sum`
      equals the first cumulative digest, the only one taken over a single
      chunk, so slot 0 is matched; the stale index leaves that slot at
      None, and the report line for it raises. With as many listed names
      as digests, the comparison loop always completes, since every first
      position is a slot, and then the report raises. */
  lemma {:induction false} MultiChunkRunRaises(sha1: seq<byte> -> string, text: string, names: seq<string>, refs: seq<string>, j: nat)
    requires IsAscii(text) && NoBreaks(text) && HexWords(sha1) && |text| > CHUNK_SIZE
    requires |names| == |ReceivedHashes(sha1, text)|
    requires ListsScratchSum(sha1, RunScratch(sha1, text), 0, refs, j)
    ensures RunScratch(sha1, text)[ScratchName(0)] == ChunkList(text)[0]
    ensures var hb := ReceivedHashes(sha1, text);
      var keys := RunDict(sha1, text).Keys;
      && |hb| >= 2
      && ReconcileOk(hb, keys, |names|, refs)
      && MatchedSlots(hb, keys, |names|, refs)[0]
      && ReportLine(names, hb, MatchedSlots(hb, keys, |names|, refs), LinuxSlots(|names|, refs), 0) == Raised(NoneConcat)
  {
    ChunksAscii(text);
    ChunkCount(text);
    RunRoundTrips(sha1, text);
    ScratchHoldsChunk(sha1, text, 0);
    var hb := Manifest(sha1, text);
    var cs := ChunkList(text);
    var data := HashedChunks(text);
    CumulativeDigestAt(sha1, data, 0);
    assert data[..1] == [cs[0]];
    assert EncodeChunks(data[..1]) == AsciiBytes(cs[0]);
    assert hb[..|hb|] == hb;
    PairsKeys(hb, cs[..|hb|]);
    var keys := RunDict(sha1, text).Keys;
    assert hb[0] in keys;
    assert forall x :: x in keys ==> x in hb;
    FirstHashMarked(hb, keys, |names|, refs, j);
    MatchedBeforeLastSlotRaises(names, hb, MatchedSlots(hb, keys, |names|, refs), refs, 0);
  }
}
