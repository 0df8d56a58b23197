/** The page writer of the web server: small pieces of a page collect in a fixed buffer that is sent
    as one NUL-terminated chunk when the next piece would not fit. */
module ChunkWriter {

  import opened CStrings

  function Concat(pieces: seq<string>): string {
    if pieces == [] then [] else Concat(pieces[..|pieces| - 1]) + pieces[|pieces| - 1]
  }

  /** An empty chunk would end the response early. */
  predicate NoEmptyChunk(chunks: seq<string>) {
    forall i | 0 <= i < |chunks| :: chunks[i] != ""
  }

  class Writer {
    const contentBuffer: array<char>
    var bufferIndex: nat
    var chunked: bool
    /** What the HTTP server has been given, chunk by chunk. */
    var chunks: seq<string>

    ghost predicate Valid()
      reads this, contentBuffer
    {
      && 0 < contentBuffer.Length
      && bufferIndex < contentBuffer.Length
      && NulFree(contentBuffer[..bufferIndex])
      && (bufferIndex > 0 ==> contentBuffer[bufferIndex] == NUL)
    }

    /** Everything accepted so far: sent chunks, then the buffered bytes. */
    ghost function Output(): string
      requires Valid()
      reads this, contentBuffer
    {
      Concat(chunks) + contentBuffer[..bufferIndex]
    }

    constructor (maxBufferSize: nat)
      requires maxBufferSize > 0
      ensures Valid() && !chunked && Output() == "" && contentBuffer.Length == maxBufferSize && fresh(contentBuffer)
    {
      contentBuffer := new char[maxBufferSize];
      bufferIndex, chunked, chunks := 0, false, [];
    }

    method Send(content: string)
      modifies this`chunks
      ensures chunks == old(chunks) + [content]
      ensures Concat(chunks) == Concat(old(chunks)) + content
    {
      chunks := chunks + [content];
      assert chunks[..|chunks| - 1] == old(chunks);
    }

    /** The piece goes to `bufferIndex`, followed by NUL. */
    method CopyIn(content: string)
      requires Valid() && NulFree(content) && bufferIndex + |content| < contentBuffer.Length
      modifies contentBuffer
      ensures contentBuffer[..bufferIndex] == old(contentBuffer[..bufferIndex])
      ensures contentBuffer[bufferIndex..bufferIndex + |content|] == content
      ensures contentBuffer[bufferIndex + |content|] == NUL
    {
      for i := 0 to |content|
        invariant contentBuffer[..bufferIndex] == old(contentBuffer[..bufferIndex])
        invariant contentBuffer[bufferIndex..bufferIndex + i] == content[..i]
      {
        contentBuffer[bufferIndex + i] := content[i];
      }
      contentBuffer[bufferIndex + |content|] := NUL;
    }

    /** Sends what is buffered. */
    method SendContentBuffer()
      requires Valid()
      modifies this`chunks, this`bufferIndex, contentBuffer
      ensures Valid() && Output() == old(Output())
      ensures chunked ==> bufferIndex == 0 && Concat(chunks) == Output()
      ensures if chunked && old(bufferIndex) > 0 then chunks == old(chunks) + [old(contentBuffer[..bufferIndex])]
              else bufferIndex == old(bufferIndex) && chunks == old(chunks)
    {
      if chunked && bufferIndex > 0 {
        ghost var s := contentBuffer[..bufferIndex];
        assert contentBuffer[..] == s + [NUL] + contentBuffer[bufferIndex + 1..];
        CStringStops(s, contentBuffer[bufferIndex + 1..]);
        Send(CString(contentBuffer[..]));
        contentBuffer[0] := NUL;
        bufferIndex := 0;
      }
      assert contentBuffer[..0] == [];
    }

    /** A piece that fits is added to the buffer. */
    method Append(content: string)
      requires Valid() && NulFree(content) && bufferIndex + |content| < contentBuffer.Length
      modifies this`bufferIndex, contentBuffer
      ensures Valid() && Output() == old(Output()) + content
    {
      CopyIn(content);
      assert contentBuffer[..bufferIndex + |content|]
          == contentBuffer[..bufferIndex] + contentBuffer[bufferIndex..bufferIndex + |content|];
      bufferIndex := bufferIndex + |content|;
      assert Output() == Concat(chunks) + (old(contentBuffer[..bufferIndex]) + content);
    }

    /** A piece that does not fit goes out as its own chunk, after what is buffered. */
    method SendAlone(content: string)
      requires Valid() && chunked && content != ""
      modifies this`chunks, this`bufferIndex, contentBuffer
      ensures Valid() && Output() == old(Output()) + content && bufferIndex == 0
      ensures NoEmptyChunk(old(chunks)) ==> NoEmptyChunk(chunks)
    {
      SendContentBuffer();
      Send(content);
      assert contentBuffer[..0] == [];
    }

    /** Takes one piece of the page; outside a chunked response nothing is taken. */
    method SendContent(content: string)
      requires Valid() && NulFree(content)
      modifies this`chunks, this`bufferIndex, contentBuffer
      ensures Valid()
      ensures Output() == if chunked then old(Output()) + content else old(Output())
      ensures NoEmptyChunk(old(chunks)) ==> NoEmptyChunk(chunks)
      ensures chunked && content != "" && old(bufferIndex) + |content| < contentBuffer.Length ==> chunks == old(chunks)
      ensures chunked && |content| >= contentBuffer.Length ==> bufferIndex == 0
      ensures !chunked || content == "" ==> chunks == old(chunks) && bufferIndex == old(bufferIndex)
    {
      if chunked && content != "" {
        if |content| >= contentBuffer.Length {
          SendAlone(content);
        } else {
          if bufferIndex + |content| >= contentBuffer.Length {
            SendContentBuffer();
          }
          Append(content);
        }
      } else if chunked {
        assert Output() + content == Output();
      }
    }

    /** A whole page: opens the response, takes the pieces, flushes at the end. */
    method Page(pieces: seq<string>)
      requires Valid() && bufferIndex == 0 && chunks == [] && forall i | 0 <= i < |pieces| :: NulFree(pieces[i])
      modifies this, contentBuffer
      ensures Valid() && !chunked && bufferIndex == 0
      ensures Concat(chunks) == Concat(pieces) && NoEmptyChunk(chunks)
    {
      chunked := true;
      assert Output() == "" by { assert contentBuffer[..0] == []; }
      for i := 0 to |pieces|
        invariant Valid() && chunked && Output() == Concat(pieces[..i]) && NoEmptyChunk(chunks)
      {
        assert pieces[..i + 1][..i] == pieces[..i];
        SendContent(pieces[i]);
      }
      assert pieces[..|pieces|] == pieces;
      SendContentBuffer();
      chunked := false;
    }
  }
}
