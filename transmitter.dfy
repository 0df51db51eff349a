/** The transmitter script, Code/SHA-1-Transmitter.py. It reads the source
    text in slices of 4096 characters, feeds every non-empty slice into one
    running SHA-1 context, pushes the context's hex digest after every
    update, then writes the digests to hashes.txt and the slices to send.txt.
    SHA-1 itself is a parameter `sha1` of the operations that need it. */
module Transmitter {
  import opened Common
  import opened Chunks

  // ---------------------------------------------------------------------
  // The running SHA-1 context and the script's global state
  // ---------------------------------------------------------------------

  /** A `hashlib.sha1()` object, seen as the bytes it has absorbed so far;
      `hash` is SHA-1 itself. */
  class Sha1Context {
    const hash: seq<byte> -> string
    var absorbed: seq<byte>

    constructor (hash: seq<byte> -> string)
      ensures this.hash == hash && absorbed == []
    {
      this.hash := hash;
      absorbed := [];
    }

    method Update(data: seq<byte>)
      modifies this
      ensures absorbed == old(absorbed) + data
    {
      absorbed := absorbed + data;
    }

    function HexDigest(): string
      reads this
    {
      hash(absorbed)
    }
  }

  /** The console loop after hashing: one line per pushed digest, numbered
      from 1, every one of them showing the same `digest` (the context's
      current value, not digest i). */
  method ConsoleHashLines(count: nat, digest: string) returns (lines: seq<string>)
    ensures |lines| == count
    ensures forall i :: 0 <= i < count ==> lines[i] == "Hashed value " + Decimal(i + 1) + ": 0x" + digest
  {
    lines := [];
    var i := 0;
    while i < count
      invariant 0 <= i <= count && |lines| == i
      invariant forall j :: 0 <= j < i ==> lines[j] == "Hashed value " + Decimal(j + 1) + ": 0x" + digest
    {
      lines := lines + ["Hashed value " + Decimal(i + 1) + ": 0x" + digest];
      i := i + 1;
    }
  }

  /** The transmitter's module-level lists and the three files it appends to
      (all assumed empty when the script starts). */
  class Script {
    var resultsLines: seq<string>   // text_to_push_list_results
    var hashLines: seq<string>      // text_to_push_list_hashes
    var resultsFile: string         // SHA-1-results-tx.txt
    var hashesFile: string          // hashes.txt
    var sendFile: string            // send.txt

    constructor ()
      ensures resultsLines == [] && hashLines == []
      ensures resultsFile == "" && hashesFile == "" && sendFile == ""
    {
      resultsLines, hashLines := [], [];
      resultsFile, hashesFile, sendFile := "", "", "";
    }

    method MakeResultsTxtHeader(hwName: string)
      modifies this`resultsLines
      ensures resultsLines == old(resultsLines) + [ResultsHeader(hwName)]
    {
      resultsLines := resultsLines + [ResultsHeader(hwName)];
    }

    /** push_text: "results" goes to the results list, "hashes" to the hash
        list, any other type is dropped. */
    method PushText(line: string, kind: string)
      modifies this`resultsLines, this`hashLines
      ensures kind == "results" ==> resultsLines == old(resultsLines) + [line] && hashLines == old(hashLines)
      ensures kind == "hashes" ==> hashLines == old(hashLines) + [line] && resultsLines == old(resultsLines)
      ensures kind != "results" && kind != "hashes" ==>
                resultsLines == old(resultsLines) && hashLines == old(hashLines)
    {
      if kind == "results" {
        resultsLines := resultsLines + [line];
      } else if kind == "hashes" {
        hashLines := hashLines + [line];
      }
    }

    /** write_txt_file: appends the framed list to the file the type names;
        "send" frames `buffer`; an unknown type raises before writing. */
    method WriteTxtFile(kind: string, buffer: seq<string>) returns (r: Outcome)
      modifies this`resultsFile, this`hashesFile, this`sendFile
      ensures r.Done? <==> kind == "results" || kind == "hashes" || kind == "send"
      ensures r.Failed? ==> r.error == FileType
      ensures resultsFile == old(resultsFile) + (if kind == "results" then Frame(resultsLines) else "")
      ensures hashesFile == old(hashesFile) + (if kind == "hashes" then Frame(hashLines) else "")
      ensures sendFile == old(sendFile) + (if kind == "send" then Frame(buffer) else "")
    {
      r := Done;
      if kind == "results" {
        resultsFile := AppendFramed(resultsFile, resultsLines);
      } else if kind == "hashes" {
        hashesFile := AppendFramed(hashesFile, hashLines);
      } else if kind == "send" {
        sendFile := AppendFramed(sendFile, buffer);
      } else {
        r := Failed(FileType);
      }
    }

    /** The loop body for an ASCII chunk: feed it to the context and push
        the context's new digest. */
    method HashChunk(ctx: Sha1Context, done: seq<string>, chunk: string)
      requires AllAscii(done) && IsAscii(chunk) && ctx.absorbed == EncodeChunks(done)
      modifies ctx, this`resultsLines, this`hashLines
      ensures AllAscii(done + [chunk])
      ensures ctx.absorbed == EncodeChunks(done + [chunk])
      ensures hashLines == old(hashLines) + [ctx.hash(EncodeChunks(done + [chunk]))]
      ensures resultsLines == old(resultsLines)
    {
      CumulativeSnoc(ctx.hash, done, chunk);
      ctx.Update(AsciiBytes(chunk));
      PushText(ctx.HexDigest(), "hashes");
    }

    /** The read-and-hash loop of main. On success the chunk list is
        ChunkList(text), the pushed digests are cumulative and the final
        digest covers the whole text as read. A non-ASCII chunk raises after it
        has been appended, with the digests of the chunks before it pushed. */
    method HashSource(text: string, sha1: seq<byte> -> string) returns (chunks: seq<string>, digest: string, r: Outcome)
      modifies this`resultsLines, this`hashLines
      ensures resultsLines == old(resultsLines)
      ensures r.Done? <==> IsAscii(text)
      ensures r.Failed? ==> r.error == UnicodeEncode
      ensures r.Done? ==> chunks == ChunkList(text) && AllAscii(chunks)
      ensures r.Done? ==> hashLines == old(hashLines) + CumulativeDigests(sha1, chunks[..|chunks| - 1])
      ensures r.Done? ==> digest == sha1(AsciiBytes(text))
      ensures r.Failed? ==>
                && 0 < |chunks| <= |ChunkList(text)|
                && chunks == ChunkList(text)[..|chunks|]
                && AllAscii(chunks[..|chunks| - 1])
                && !IsAscii(chunks[|chunks| - 1])
                && hashLines == old(hashLines) + CumulativeDigests(sha1, chunks[..|chunks| - 1])
    {
      var ctx := new Sha1Context(sha1);
      chunks := [];
      var rest := text;
      while true
        invariant ChunkList(text) == chunks + ChunkList(rest)
        invariant AllAscii(chunks)
        invariant ctx.hash == sha1 && ctx.absorbed == EncodeChunks(chunks)
        invariant hashLines == old(hashLines) + CumulativeDigests(sha1, chunks)
        invariant resultsLines == old(resultsLines)
        decreases |rest|
      {
        var chunk := ReadChunk(rest);
        var before := chunks;
        chunks := chunks + [chunk];
        if chunk == "" {
          assert rest == [];
          assert chunks[..|chunks| - 1] == before;
          ReadsEnd(text, before);
          break;
        }
        ReadStep(text, before, rest, chunk);
        rest := rest[|chunk|..];
        if !IsAscii(chunk) {
          assert chunks[..|chunks| - 1] == before;
          ReadFailsOn(text, chunks, ChunkList(rest));
          digest := ctx.HexDigest();
          r := Failed(UnicodeEncode);
          return;
        }
        CumulativeSnoc(sha1, before, chunk);
        HashChunk(ctx, before, chunk);
        AppendAssoc(old(hashLines), CumulativeDigests(sha1, before), [sha1(EncodeChunks(chunks))]);
      }
      digest := ctx.HexDigest();
      r := Done;
    }

    /** The hash-and-store stage of main: hash the source, print the digest
        lines, then append the digests to hashes.txt and the whole chunk
        list to send.txt. On UnicodeEncodeError the chunks read so far, the
        non-ASCII one last, are returned with the digests pushed before it,
        and neither file is written. */
    method HashAndStore(text: string, sha1: seq<byte> -> string) returns (chunks: seq<string>, console: seq<string>, r: Outcome)
      modifies this
      ensures r.Done? <==> IsAscii(text)
      ensures r.Failed? ==> r.error == UnicodeEncode
      ensures resultsLines == old(resultsLines) && resultsFile == old(resultsFile)
      ensures r.Done? ==> hashLines == old(hashLines) + Manifest(sha1, text)
      ensures r.Done? ==> hashesFile == old(hashesFile) + Frame(hashLines)
      ensures r.Done? ==> sendFile == old(sendFile) + Frame(ChunkList(text))
      ensures r.Done? ==> |console| == |hashLines|
      ensures r.Done? ==> forall i :: 0 <= i < |console| ==>
                console[i] == "Hashed value " + Decimal(i + 1) + ": 0x" + sha1(AsciiBytes(text))
      ensures r.Done? ==> chunks == ChunkList(text)
      ensures r.Failed? ==> hashesFile == old(hashesFile) && sendFile == old(sendFile) && console == []
      ensures r.Failed? ==>
                && 0 < |chunks| <= |ChunkList(text)|
                && chunks == ChunkList(text)[..|chunks|]
                && AllAscii(chunks[..|chunks| - 1])
                && !IsAscii(chunks[|chunks| - 1])
                && hashLines == old(hashLines) + CumulativeDigests(sha1, chunks[..|chunks| - 1])
    {
      var digest;
      chunks, digest, r := HashSource(text, sha1);
      if r.Failed? {
        console := [];
        return;
      }
      console := ConsoleHashLines(|hashLines|, digest);
      StoreFiles(chunks);
    }

    /** The two writes that end main: the digest list to hashes.txt, the
        chunk list to send.txt. */
    method StoreFiles(chunks: seq<string>)
      modifies this`resultsFile, this`hashesFile, this`sendFile
      ensures hashesFile == old(hashesFile) + Frame(hashLines)
      ensures sendFile == old(sendFile) + Frame(chunks)
      ensures resultsFile == old(resultsFile)
    {
      var w := WriteTxtFile("hashes", []);
      w := WriteTxtFile("send", chunks);
    }
  }
}
