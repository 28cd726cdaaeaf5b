/**
 * The MJPEG reader of `ESP32CamStream`: an HTTP multipart body, delivered
 * chunk by chunk, is accumulated in a byte buffer and cut into JPEG parts at
 * the literal boundary "\r\n--frame\r\n".
 *
 * The network response is a `Response` value; the chunk iterator is the
 * sequence of chunks it has still to deliver; `cv2.imdecode` is the
 * `decode` function passed to `Read`.
 */
module Esp32Stream {
  import opened Wrappers
  import opened Bytes

  /** "\r\n--frame\r\n", the separator the ESP32-CAM writes between parts. */
  const Boundary: Bytes := [13, 10, 45, 45, 102, 114, 97, 109, 101, 13, 10]

  /** "\r\n\r\n", the end of a part's header block. */
  const HeaderEnd: Bytes := [13, 10, 13, 10]

  /**
   * The response object `requests.get` returns. Only its status matters
   * here: Python's truth value of a response is `response.ok`.
   */
  datatype Response = Response(status: int)

  /** `bool(response)`: false exactly for the 4xx and 5xx statuses. */
  predicate Truthy(r: Response) {
    !(400 <= r.status < 600)
  }

  /** What `requests.get(url, stream=True, timeout=10)` did. */
  datatype ConnectOutcome =
    | Connected(response: Response, chunks: seq<Bytes>)  // the body, as `iter_content` will yield it
    | ConnectFailed                                      // the call raised

  /** The result of cutting the buffer once: the new buffer and the JPEG payload, if any. */
  datatype Cut = Cut(buffer: Bytes, jpeg: Option<Bytes>)

  /**
   * One boundary search over the buffer, as `read` does it after appending a
   * chunk. A part is cut out only when a boundary is found AND the bytes
   * before it contain a header terminator; otherwise the buffer is kept whole.
   */
  function CutPart(buf: Bytes): (c: Cut)
    ensures c.jpeg.None? ==> c.buffer == buf
    ensures c.jpeg.Some? ==> |c.buffer| + |Boundary| + |c.jpeg.value| + |HeaderEnd| <= |buf|
    ensures c.jpeg.Some? ==> buf[|buf| - |c.buffer|..] == c.buffer
  {
    var boundaryPos := Find(buf, Boundary);
    if boundaryPos == -1 then Cut(buf, None)
    else
      var frameData := buf[..boundaryPos];
      var headerEnd := Find(frameData, HeaderEnd);
      if headerEnd == -1 then Cut(buf, None)
      else Cut(buf[boundaryPos + |Boundary|..], Some(frameData[headerEnd + |HeaderEnd|..]))
  }

  /**
   * `buf` is one complete part `h + "\r\n\r\n" + j + boundary` followed by
   * `rest`, where the terminator after `h` is the first one in the part and
   * the boundary after `j` is the first one in the buffer. (Both conditions
   * are about overlaps too: an `h` ending in "\r\n" or a `j` ending in
   * "\r\n--frame" moves the first occurrence left.)
   */
  ghost predicate WellFormedPart(buf: Bytes, h: Bytes, j: Bytes, rest: Bytes) {
    && buf == h + HeaderEnd + j + Boundary + rest
    && !Contains(h + HeaderEnd[..3], HeaderEnd)
    && !Contains(h + HeaderEnd + j + Boundary[..10], Boundary)
  }

  /** A well-formed leading part is cut out: the payload is `j`, the new buffer is `rest`. */
  lemma CutWellFormed(buf: Bytes, h: Bytes, j: Bytes, rest: Bytes)
    requires WellFormedPart(buf, h, j, rest)
    ensures CutPart(buf) == Cut(rest, Some(j))
  {
    var p := |h| + 4 + |j|;
    var pre := h + HeaderEnd + j + Boundary[..10];
    assert buf[..|pre|] == pre;
    assert buf[p..p + |Boundary|] == Boundary;
    forall k: nat | k < p ensures !OccursAt(buf, Boundary, k) {
      OccursAtPrefix(buf, pre, Boundary, k);
      assert !OccursAt(pre, Boundary, k);
    }
    FindIsFirst(buf, Boundary, p);
    var frameData := buf[..p];
    assert frameData == h + HeaderEnd + j;
    var hpre := h + HeaderEnd[..3];
    assert frameData[..|hpre|] == hpre;
    assert frameData[|h|..|h| + 4] == HeaderEnd;
    forall k: nat | k < |h| ensures !OccursAt(frameData, HeaderEnd, k) {
      OccursAtPrefix(frameData, hpre, HeaderEnd, k);
      assert !OccursAt(hpre, HeaderEnd, k);
    }
    FindIsFirst(frameData, HeaderEnd, |h|);
    assert frameData[|h| + 4..] == j;
    assert buf[p + |Boundary|..] == rest;
  }

  /** Conversely, every part that is cut out was a well-formed leading part. */
  lemma CutIsWellFormed(buf: Bytes)
    requires CutPart(buf).jpeg.Some?
    ensures exists h :: WellFormedPart(buf, h, CutPart(buf).jpeg.value, CutPart(buf).buffer)
  {
    var p := Find(buf, Boundary);
    var e := Find(buf[..p], HeaderEnd);
    NothingBeforeFirst(buf[..p], HeaderEnd, e);
    NothingBeforeFirst(buf, Boundary, p);
    PartAt(buf, p, e);
  }

  /**
   * The sequence algebra behind `CutIsWellFormed`: a boundary at `p` and a
   * header terminator at `e` before it, with no earlier occurrence of
   * either, make a well-formed part.
   */
  lemma PartAt(buf: Bytes, p: nat, e: nat)
    requires OccursAt(buf, Boundary, p) && OccursAt(buf[..p], HeaderEnd, e)
    requires !Contains(buf[..p + 10], Boundary) && !Contains(buf[..p][..e + 3], HeaderEnd)
    ensures WellFormedPart(buf, buf[..p][..e], buf[..p][e + 4..], buf[p + |Boundary|..])
  {
    var frameData := buf[..p];
    var h, j, rest := frameData[..e], frameData[e + 4..], buf[p + |Boundary|..];
    assert h + HeaderEnd[..3] == frameData[..e + 3];
    assert frameData == h + HeaderEnd + j;
    assert h + HeaderEnd + j + Boundary[..10] == buf[..p + 10];
    assert buf == h + HeaderEnd + j + Boundary + rest;
  }

  /** What one call of `read` ends with: the frame, the buffer, the chunks still to come. */
  datatype ReadResult<F> = ReadResult(frame: Option<F>, buffer: Bytes, rest: seq<Bytes>)

  /**
   * The `while True` loop of `read`, run from buffer `buf` over the chunks the
   * iterator still holds: empty chunks are skipped; each other chunk is
   * appended and the buffer cut once; a non-empty payload that decodes ends
   * the call with that frame; running out of chunks ends it with none.
   */
  function ReadFrom<F>(buf: Bytes, chunks: seq<Bytes>, decode: Bytes -> Option<F>): (r: ReadResult<F>)
    ensures |r.rest| <= |chunks| && r.rest == chunks[|chunks| - |r.rest|..]
    ensures r.frame.None? ==> r.rest == []
    ensures r.frame.Some? ==> exists jpeg :: |jpeg| > 0 && decode(jpeg) == r.frame
    decreases |chunks|
  {
    if chunks == [] then ReadResult(None, buf, [])
    else if chunks[0] == [] then ReadFrom(buf, chunks[1..], decode)
    else
      var c := CutPart(buf + chunks[0]);
      if c.jpeg.Some? && |c.jpeg.value| > 0 && decode(c.jpeg.value).Some? then
        ReadResult(decode(c.jpeg.value), c.buffer, chunks[1..])
      else
        ReadFrom(c.buffer, chunks[1..], decode)
  }

  /** An empty chunk changes nothing: reading goes on as if it had not been delivered. */
  lemma EmptyChunkIgnored<F>(buf: Bytes, chunks: seq<Bytes>, decode: Bytes -> Option<F>)
    ensures ReadFrom(buf, [[]] + chunks, decode) == ReadFrom(buf, chunks, decode)
  {
    assert ([[]] + chunks)[1..] == chunks;
  }

  /**
   * A non-empty chunk is appended to the END of the buffer before the single
   * boundary search of that step; if the step yields no frame, reading goes
   * on from the cut buffer.
   */
  lemma ChunkAppended<F>(buf: Bytes, chunk: Bytes, chunks: seq<Bytes>, decode: Bytes -> Option<F>)
    requires chunk != []
    ensures var c := CutPart(buf + chunk);
            var r := ReadFrom(buf, [chunk] + chunks, decode);
            if c.jpeg.Some? && |c.jpeg.value| > 0 && decode(c.jpeg.value).Some?
            then r == ReadResult(decode(c.jpeg.value), c.buffer, chunks)
            else r == ReadFrom(c.buffer, chunks, decode)
  {
    assert ([chunk] + chunks)[1..] == chunks;
  }

  /**
   * A chunk that completes a well-formed part with a decodable, non-empty
   * payload `j` makes `read` return exactly the decoding of `j` and leave
   * exactly `rest` in the buffer.
   */
  lemma ReadWellFormedPart<F>(buf: Bytes, chunk: Bytes, chunks: seq<Bytes>, decode: Bytes -> Option<F>,
                              h: Bytes, j: Bytes, rest: Bytes)
    requires chunk != [] && WellFormedPart(buf + chunk, h, j, rest)
    requires |j| > 0 && decode(j).Some?
    ensures ReadFrom(buf, [chunk] + chunks, decode) == ReadResult(decode(j), rest, chunks)
  {
    CutWellFormed(buf + chunk, h, j, rest);
    ChunkAppended(buf, chunk, chunks, decode);
  }

  /**
   * A well-formed part whose payload is empty or does not decode is consumed
   * from the buffer all the same, and reading continues from `rest`.
   */
  lemma ReadSkipsUndecodablePart<F>(buf: Bytes, chunk: Bytes, chunks: seq<Bytes>, decode: Bytes -> Option<F>,
                                    h: Bytes, j: Bytes, rest: Bytes)
    requires chunk != [] && WellFormedPart(buf + chunk, h, j, rest)
    requires |j| == 0 || decode(j).None?
    ensures ReadFrom(buf, [chunk] + chunks, decode) == ReadFrom(rest, chunks, decode)
  {
    CutWellFormed(buf + chunk, h, j, rest);
    ChunkAppended(buf, chunk, chunks, decode);
  }

  /**
   * At most one boundary is handled per chunk received: when the first part
   * of the buffer yields no frame, a second complete part already behind it
   * stays in the buffer, and is returned only once another chunk arrives.
   */
  lemma SecondPartWaitsForNextChunk<F>(buf: Bytes, chunk: Bytes, next: Bytes, decode: Bytes -> Option<F>,
                                       h: Bytes, j: Bytes, second: Bytes, h2: Bytes, j2: Bytes, rest: Bytes)
    requires chunk != [] && next != []
    requires WellFormedPart(buf + chunk, h, j, second)
    requires WellFormedPart(second, h2, j2, rest)
    requires |j| == 0 || decode(j).None?
    requires |j2| > 0 && decode(j2).Some?
    ensures ReadFrom(buf, [chunk], decode) == ReadResult(None, second, [])
    ensures ReadFrom(second, [next], decode) == ReadResult(decode(j2), rest + next, [])
  {
    CutWellFormed(buf + chunk, h, j, second);
    WellFormedPartExtends(second, next, h2, j2, rest);
    CutWellFormed(second + next, h2, j2, rest + next);
    ReadCutsInTurn(buf, chunk, next, decode, j, second, j2, rest + next);
  }

  /** The two reads of `SecondPartWaitsForNextChunk`, given the cut each step makes. */
  lemma ReadCutsInTurn<F>(buf: Bytes, chunk: Bytes, next: Bytes, decode: Bytes -> Option<F>,
                          j: Bytes, second: Bytes, j2: Bytes, after: Bytes)
    requires chunk != [] && next != []
    requires CutPart(buf + chunk) == Cut(second, Some(j))
    requires CutPart(second + next) == Cut(after, Some(j2))
    requires |j| == 0 || decode(j).None?
    requires |j2| > 0 && decode(j2).Some?
    ensures ReadFrom(buf, [chunk], decode) == ReadResult(None, second, [])
    ensures ReadFrom(second, [next], decode) == ReadResult(decode(j2), after, [])
  {
    ChunkAppended(buf, chunk, [], decode);
    ChunkAppended(second, next, [], decode);
  }

  /** Bytes that arrive after a well-formed part only extend what follows it. */
  lemma WellFormedPartExtends(buf: Bytes, t: Bytes, h: Bytes, j: Bytes, rest: Bytes)
    requires WellFormedPart(buf, h, j, rest)
    ensures WellFormedPart(buf + t, h, j, rest + t)
  {
    assert buf + t == h + HeaderEnd + j + Boundary + (rest + t);
  }

  /** Every non-empty chunk a call consumes ends up in the buffer, at its end. */
  function Concat(chunks: seq<Bytes>): Bytes {
    if chunks == [] then [] else chunks[0] + Concat(chunks[1..])
  }

  /**
   * Once no appended bytes can make the cut trim the buffer, every later
   * chunk is only appended and no frame is ever returned.
   */
  lemma {:induction false} StalledBufferOnlyGrows<F>(buf: Bytes, chunks: seq<Bytes>, decode: Bytes -> Option<F>)
    requires forall t :: CutPart(buf + t) == Cut(buf + t, None)
    ensures ReadFrom(buf, chunks, decode) == ReadResult(None, buf + Concat(chunks), [])
    decreases |chunks|
  {
    if chunks == [] {
      assert buf + Concat(chunks) == buf;
    } else {
      var s := buf + chunks[0];
      forall t ensures CutPart(s + t) == Cut(s + t, None) {
        assert s + t == buf + (chunks[0] + t);
      }
      if chunks[0] != [] {
        assert CutPart(buf + chunks[0]) == Cut(s, None);
      } else {
        assert s == buf;
      }
      StalledBufferOnlyGrows(s, chunks[1..], decode);
      assert buf + Concat(chunks) == s + Concat(chunks[1..]);
    }
  }

  /**
   * When the bytes before the first boundary hold no header terminator, the
   * buffer is never trimmed again: later chunks only append, the same
   * boundary is found first every time, and no frame is ever returned.
   */
  lemma MalformedPartStallsForever<F>(buf: Bytes, chunks: seq<Bytes>, decode: Bytes -> Option<F>)
    requires Find(buf, Boundary) != -1
    requires Find(buf[..Find(buf, Boundary)], HeaderEnd) == -1
    ensures ReadFrom(buf, chunks, decode) == ReadResult(None, buf + Concat(chunks), [])
  {
    forall t ensures CutPart(buf + t) == Cut(buf + t, None) {
      MalformedPartKept(buf, t);
    }
    StalledBufferOnlyGrows(buf, chunks, decode);
  }

  /** Appending to a buffer whose first part is malformed keeps that first part, and the cut keeps the buffer. */
  lemma MalformedPartKept(buf: Bytes, chunk: Bytes)
    requires Find(buf, Boundary) != -1
    requires Find(buf[..Find(buf, Boundary)], HeaderEnd) == -1
    ensures Find(buf + chunk, Boundary) == Find(buf, Boundary)
    ensures Find((buf + chunk)[..Find(buf, Boundary)], HeaderEnd) == -1
    ensures CutPart(buf + chunk) == Cut(buf + chunk, None)
  {
    var p := Find(buf, Boundary);
    var s := buf + chunk;
    assert s[..|buf|] == buf;
    forall k: nat | k < p ensures !OccursAt(s, Boundary, k) {
      OccursAtPrefix(s, buf, Boundary, k);
    }
    OccursAtPrefix(s, buf, Boundary, p);
    FindIsFirst(s, Boundary, p);
    assert s[..p] == buf[..p];
  }

  /**
   * A body that begins with the separator itself, as a writer that puts the
   * separator before each part produces, makes the first part looked at
   * empty, with no header terminator: as written, such a stream never yields
   * a frame, whatever follows and however it is decoded.
   */
  lemma LeadingBoundaryNeverYields<F>(chunk: Bytes, chunks: seq<Bytes>, decode: Bytes -> Option<F>)
    ensures ReadFrom([], [Boundary + chunk] + chunks, decode).frame == None
  {
    var s := [] + (Boundary + chunk);
    assert s[..|Boundary|] == Boundary;
    FindIsFirst(s, Boundary, 0);
    assert s[..0] == [];
    assert Find(s[..0], HeaderEnd) == -1;
    assert CutPart(s) == Cut(s, None);
    ChunkAppended([], Boundary + chunk, chunks, decode);
    MalformedPartStallsForever(s, chunks, decode);
  }

  /**
   * The evidently intended cut: a part without a header terminator is
   * dropped (skip-and-continue) instead of being left in front of the buffer.
   */
  function CutPartSkipping(buf: Bytes): (c: Cut)
    ensures Find(buf, Boundary) == -1 ==> c == Cut(buf, None)
    ensures Find(buf, Boundary) != -1 ==> c.buffer == buf[Find(buf, Boundary) + |Boundary|..]
    ensures Find(buf, Boundary) != -1 ==> |c.buffer| < |buf|
    ensures c.jpeg.Some? ==> c == CutPart(buf)
  {
    var boundaryPos := Find(buf, Boundary);
    if boundaryPos == -1 then Cut(buf, None)
    else
      var frameData := buf[..boundaryPos];
      var headerEnd := Find(frameData, HeaderEnd);
      var rest := buf[boundaryPos + |Boundary|..];
      if headerEnd == -1 then Cut(rest, None)
      else Cut(rest, Some(frameData[headerEnd + |HeaderEnd|..]))
  }

  /**
   * With the intended cut, the stream that starts with a boundary yields its
   * first well-formed part: `Boundary + part` loses the leading boundary and
   * the next cut returns the part's payload.
   */
  lemma SkippingRecoversFromLeadingBoundary(part: Bytes, h: Bytes, j: Bytes, rest: Bytes)
    requires WellFormedPart(part, h, j, rest)
    ensures CutPartSkipping(Boundary + part) == Cut(part, None)
    ensures CutPartSkipping(part) == Cut(rest, Some(j))
  {
    var s := Boundary + part;
    assert s[..|Boundary|] == Boundary;
    FindIsFirst(s, Boundary, 0);
    assert s[..0] == [];
    assert Find(s[..0], HeaderEnd) == -1;
    assert s[|Boundary|..] == part;
    CutWellFormed(part, h, j, rest);
  }

  /**
   * The boundary search of one `read` step, as the loop body performs it:
   * find the first boundary, look for the header terminator before it, and
   * only then cut the part out of the buffer.
   */
  method FindPart(buffer: Bytes) returns (newBuffer: Bytes, jpgData: Option<Bytes>)
    ensures Cut(newBuffer, jpgData) == CutPart(buffer)
  {
    newBuffer, jpgData := buffer, None;
    var boundaryPos := Find(buffer, Boundary);
    if boundaryPos != -1 {
      var frameData := buffer[..boundaryPos];
      var headerEnd := Find(frameData, HeaderEnd);
      if headerEnd != -1 {
        jpgData := Some(frameData[headerEnd + |HeaderEnd|..]);
        newBuffer := buffer[boundaryPos + |Boundary|..];
      }
    }
  }

  /**
   * The stream reader. `streamIterator` is the part of the response body
   * that `iter_content` has not yet delivered (`None` before any successful
   * `connect`).
   */
  class ESP32CamStream {
    const url: string
    var stream: Option<Response>
    var bytesBuffer: Bytes
    var streamIterator: Option<seq<Bytes>>

    /** `isOpened()`: both the response and its chunk iterator are set. */
    predicate IsOpened()
      reads this
    {
      stream.Some? && streamIterator.Some?
    }

    constructor (url: string)
      ensures this.url == url
      ensures stream == None && bytesBuffer == [] && streamIterator == None
      ensures !IsOpened()
    {
      this.url := url;
      stream := None;
      bytesBuffer := [];
      streamIterator := None;
    }

    /**
     * `connect()`: on success the response and a fresh iterator over its body
     * replace the old ones (the buffer is kept); on failure nothing changes.
     */
    method Connect(outcome: ConnectOutcome) returns (ok: bool)
      modifies this
      ensures ok <==> outcome.Connected?
      ensures ok ==> stream == Some(outcome.response) && streamIterator == Some(outcome.chunks) && IsOpened()
      ensures !ok ==> stream == old(stream) && streamIterator == old(streamIterator)
      ensures bytesBuffer == old(bytesBuffer)
    {
      match outcome
      case ConnectFailed =>
        ok := false;
      case Connected(response, chunks) =>
        stream := Some(response);
        streamIterator := Some(chunks);
        ok := true;
    }

    /**
     * `read()`: `(false, None)` with nothing touched when there is no
     * iterator; otherwise the outcome of `ReadFrom` over the buffer and the
     * remaining chunks, which also gives the new buffer and what the iterator
     * still holds.
     */
    method Read<F>(decode: Bytes -> Option<F>) returns (success: bool, frame: Option<F>)
      modifies this
      ensures success <==> frame.Some?
      ensures stream == old(stream)
      ensures old(streamIterator).None? ==>
                frame.None? && bytesBuffer == old(bytesBuffer) && streamIterator == None
      ensures old(streamIterator).Some? ==>
                var r := ReadFrom(old(bytesBuffer), old(streamIterator).value, decode);
                frame == r.frame && bytesBuffer == r.buffer && streamIterator == Some(r.rest)
    {
      if streamIterator.None? {
        return false, None;
      }
      ghost var goal := ReadFrom(bytesBuffer, streamIterator.value, decode);
      while true
        invariant streamIterator.Some?
        invariant ReadFrom(bytesBuffer, streamIterator.value, decode) == goal
        invariant stream == old(stream)
        decreases |streamIterator.value|
      {
        var chunks := streamIterator.value;
        if chunks == [] {
          return false, None;
        }
        var chunk := chunks[0];
        streamIterator := Some(chunks[1..]);
        if chunk == [] {
          continue;
        }
        var jpgData;
        bytesBuffer, jpgData := FindPart(bytesBuffer + chunk);
        if jpgData.Some? && |jpgData.value| > 0 {
          var decoded := decode(jpgData.value);
          if decoded.Some? {
            return true, decoded;
          }
        }
      }
    }

    /**
     * `release()`: closes and forgets the response only when it is truthy;
     * the iterator and the buffer are left as they are.
     */
    method Release()
      modifies this
      ensures stream == (if old(stream).Some? && Truthy(old(stream).value) then None else old(stream))
      ensures streamIterator == old(streamIterator) && bytesBuffer == old(bytesBuffer)
      ensures old(stream).Some? && Truthy(old(stream).value) ==> !IsOpened()
    {
      if stream.Some? && Truthy(stream.value) {
        stream := None;
      }
    }
  }
}
