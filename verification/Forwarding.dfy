/** The server-sent-events path of the proxy: the tail ring and the search for the last
    JSON line (`sse_helpers.go`), the streaming unmasker as the loop it is, and the
    forwarding loop of `proxy.go` with its bounded capture buffers. */
module Forwarding {
  import opened ByteStrings
  import opened Masking
  import opened Streaming

  // ---------------------------------------------------------------------
  // appendRing
  // ---------------------------------------------------------------------

  /** The last `cap` bytes of `s`, or all of it. */
  function LastBytes(s: Bytes, cap: int): Bytes {
    if cap <= 0 then [] else if |s| <= cap then s else s[|s| - cap..]
  }

  function FirstBytes(s: Bytes, cap: nat): Bytes {
    if |s| <= cap then s else s[..cap]
  }

  method AppendRing(existing: Bytes, next: Bytes, capLen: int) returns (out: Bytes)
    ensures out == LastBytes(existing + next, capLen)
  {
    if capLen <= 0 {
      return [];
    }
    if |next| >= capLen {
      return next[|next| - capLen..];
    }
    var combined := existing + next;
    if |combined| > capLen {
      combined := combined[|combined| - capLen..];
    }
    return combined;
  }

  /** The ring after appending a sequence of chunks to an empty one. */
  function RingOf(chunks: seq<Bytes>, cap: int): Bytes {
    if chunks == [] then []
    else LastBytes(RingOf(chunks[..|chunks| - 1], cap) + chunks[|chunks| - 1], cap)
  }

  lemma LastBytesAppend(s: Bytes, c: Bytes, cap: int)
    ensures LastBytes(LastBytes(s, cap) + c, cap) == LastBytes(s + c, cap)
  {
  }

  /** The ring holds exactly the last `cap` bytes of everything appended. */
  lemma {:induction false} RingIsTail(chunks: seq<Bytes>, cap: int)
    ensures RingOf(chunks, cap) == LastBytes(Concat(chunks), cap)
    decreases |chunks|
  {
    if chunks == [] {
    } else {
      var n := |chunks| - 1;
      RingIsTail(chunks[..n], cap);
      LastBytesAppend(Concat(chunks[..n]), chunks[n], cap);
    }
  }

  // ---------------------------------------------------------------------
  // lastJSONDataLineFromTail
  // ---------------------------------------------------------------------

  const NEWLINE: byte := 10

  const DATA: Bytes := [100, 97, 116, 97, 58, 32]            // "data: "
  const DATA_OBJECT: Bytes := [100, 97, 116, 97, 58, 32, 123] // "data: {"

  /** `bytes.Split(s, "\n")`. */
  function Lines(s: Bytes): (ls: seq<Bytes>)
    ensures ls != []
  {
    if s == [] then [[]]
    else
      var rest := Lines(s[1..]);
      if s[0] == NEWLINE then [[]] + rest else [[s[0]] + rest[0]] + rest[1..]
  }

  predicate IsData(line: Bytes) {
    DATA_OBJECT <= line
  }

  /** The payload of the last `data: {` line, or nothing. */
  function LastPayload(lines: seq<Bytes>): Bytes {
    if lines == [] then []
    else if IsData(lines[|lines| - 1]) then lines[|lines| - 1][|DATA|..]
    else LastPayload(lines[..|lines| - 1])
  }

  method LastJSONDataLine(tail: Bytes) returns (payload: Bytes)
    ensures payload == LastPayload(Lines(tail))
  {
    var lines := Lines(tail);
    var i := |lines|;
    assert lines[..i] == lines;
    while i > 0
      invariant 0 <= i <= |lines|
      invariant LastPayload(lines[..i]) == LastPayload(lines)
    {
      i := i - 1;
      assert lines[..i + 1][..i] == lines[..i];
      if IsData(lines[i]) {
        return lines[i][|DATA|..];
      }
    }
    return [];
  }

  /** A text that ends at a line boundary. */
  predicate EndsLine(x: Bytes) {
    x == [] || x[|x| - 1] == NEWLINE
  }

  /** At a line boundary the lines of a concatenation are the lines of both parts. */
  lemma {:induction false} LinesConcat(x: Bytes, d: Bytes)
    requires EndsLine(x)
    ensures exists before :: Lines(x + d) == before + Lines(d)
    decreases |x|
  {
    if x == [] {
      assert x + d == d;
      assert Lines(x + d) == [] + Lines(d);
    } else {
      var y := x[1..];
      assert (x + d)[1..] == y + d;
      if y == [] {
        assert y + d == d;
        assert Lines(x + d) == [[]] + Lines(d);
      } else {
        LinesConcat(y, d);
        var b :| Lines(y + d) == b + Lines(d);
        if x[0] == NEWLINE {
          assert Lines(x + d) == ([[]] + b) + Lines(d);
        } else {
          LinesStart(y, d);
          assert b != [] by {
            assert |Lines(y + d)| > |Lines(d)|;
          }
          assert Lines(x + d) == ([[x[0]] + b[0]] + b[1..]) + Lines(d);
        }
      }
    }
  }

  lemma {:induction false} LinesStart(y: Bytes, d: Bytes)
    requires y != [] && EndsLine(y)
    ensures |Lines(y + d)| > |Lines(d)|
    decreases |y|
  {
    assert (y + d)[1..] == y[1..] + d;
    if |y| == 1 {
      assert y[1..] + d == d;
    } else {
      LinesStart(y[1..], d);
    }
  }

  lemma {:induction false} LastPayloadOfSuffix(a: seq<Bytes>, b: seq<Bytes>)
    requires exists i :: 0 <= i < |b| && IsData(b[i])
    ensures LastPayload(a + b) == LastPayload(b)
    decreases |b|
  {
    var n := |b| - 1;
    assert (a + b)[..|a + b| - 1] == a + b[..n];
    if !IsData(b[n]) {
      var i :| 0 <= i < |b| && IsData(b[i]);
      assert b[..n][i] == b[i];
      LastPayloadOfSuffix(a, b[..n]);
    }
  }

  /** `s` splits at a line boundary into `a` and a rest `d` that starts with a data line. */
  ghost predicate DataLineAt(s: Bytes, p: int) {
    0 <= p <= |s| && EndsLine(s[..p]) && IsData(Lines(s[p..])[0])
  }

  /** Searching the ring gives the same line as searching the whole stream whenever some
      JSON line starts inside the last `cap` bytes; the last one is then the one found. */
  lemma {:induction false} TailFindsLastLine(s: Bytes, p: int, cap: int)
    requires DataLineAt(s, p) && |s| - p <= cap
    ensures LastPayload(Lines(LastBytes(s, cap))) == LastPayload(Lines(s))
  {
    hide Lines, LastPayload, IsData;
    var d, t := s[p..], LastBytes(s, cap);
    if t != s {
      var n := |s| - cap;
      var x := s[n..p];
      assert s == s[..p] + d && t == x + d;
      assert EndsLine(x);
      LinesConcat(s[..p], d);
      LinesConcat(x, d);
      var b1 :| Lines(s[..p] + d) == b1 + Lines(d);
      var b2 :| Lines(x + d) == b2 + Lines(d);
      LastPayloadOfSuffix(b1, Lines(d));
      LastPayloadOfSuffix(b2, Lines(d));
    }
  }

  /** A line of `s` that starts with `data: {` starts at `k`. */
  predicate DataStarts(s: Bytes, k: int) {
    0 <= k && k + 7 <= |s| && (k == 0 || s[k - 1] == 10) && s[k..k + 7] == [100, 97, 116, 97, 58, 32, 123]
  }

  function FirstNewline(s: Bytes): (n: nat)
    ensures n <= |s| && NEWLINE !in s[..n] && (n < |s| ==> s[n] == NEWLINE)
  {
    if s == [] || s[0] == NEWLINE then 0
    else
      var n := 1 + FirstNewline(s[1..]);
      assert s[..n] == [s[0]] + s[1..][..n - 1];
      n
  }

  lemma {:induction false} LinesSplit(s: Bytes)
    ensures var n := FirstNewline(s);
            Lines(s) == if n == |s| then [s] else [s[..n]] + Lines(s[n + 1..])
  {
    if s == [] || s[0] == NEWLINE {
      assert s[..0] == [];
    } else {
      LinesSplit(s[1..]);
      var n := FirstNewline(s);
      var rest := Lines(s[1..]);
      assert Lines(s) == [[s[0]] + rest[0]] + rest[1..];
      if n == |s| {
        assert [s[0]] + s[1..] == s;
      } else {
        assert s[..n] == [s[0]] + s[1..][..n - 1] && s[n + 1..] == s[1..][n..];
        assert rest[1..] == Lines(s[n + 1..]);
      }
    }
  }

  lemma {:induction false} LastPayloadCons(line: Bytes, lines: seq<Bytes>)
    ensures LastPayload([line] + lines)
            == if LastPayload(lines) != [] then LastPayload(lines) else if IsData(line) then line[6..] else []
    decreases |lines|
  {
    if lines == [] {
      assert [line] + lines == [line] && [line][..0] == [];
    } else {
      var n := |lines| - 1;
      assert ([line] + lines)[..n + 1] == [line] + lines[..n];
      LastPayloadCons(line, lines[..n]);
    }
  }

  /** Data lines start where lines start: the first line is one exactly when one starts at 0 ... */
  lemma FirstIsData(s: Bytes)
    ensures DataStarts(s, 0) <==> IsData(s[..FirstNewline(s)])
  {
    var n := FirstNewline(s);
    if DataStarts(s, 0) {
      assert forall i :: 0 <= i < 7 ==> s[i] == s[0..7][i];
      assert n < |s| ==> s[n] == NEWLINE;
      assert s[..n][..7] == s[0..7];
    }
    if IsData(s[..n]) { assert s[0..7] == s[..n][..7]; }
  }

  /** ... and the others start behind it. */
  lemma RestIsData(s: Bytes, k: int)
    requires FirstNewline(s) < k && FirstNewline(s) < |s|
    ensures DataStarts(s, k) <==> DataStarts(s[FirstNewline(s) + 1..], k - FirstNewline(s) - 1)
  {
    hide FirstNewline;
    var n := FirstNewline(s);
    var rest, j := s[n + 1..], k - n - 1;
    assert |rest| == |s| - n - 1;
    if k + 7 <= |s| {
      assert rest[j..j + 7] == s[k..k + 7];
      if j > 0 { assert rest[j - 1] == s[k - 1]; } else { assert s[k - 1] == NEWLINE; }
    }
  }

  lemma NoneWithin(s: Bytes, k: int)
    requires k < 0 || 0 < k <= FirstNewline(s) || |s| <= k
    ensures !DataStarts(s, k)
  {
    var n := FirstNewline(s);
    if 0 < k <= n { assert s[..n][k - 1] == s[k - 1]; }
  }

  /** What is found is the rest, behind `data: `, of the last line of the text that starts with
      `data: {`; nothing exactly when there is no such line. */
  lemma {:induction false} LastPayloadExactly(s: Bytes) returns (k: int, e: nat)
    ensures if LastPayload(Lines(s)) == [] then forall j :: !DataStarts(s, j)
            else
              && DataStarts(s, k) && (forall j :: k < j ==> !DataStarts(s, j))
              && k + 7 <= e <= |s| && NEWLINE !in s[k..e] && (e < |s| ==> s[e] == NEWLINE)
              && LastPayload(Lines(s)) == s[k + 6..e]
    decreases |s|
  {
    hide Lines, LastPayload, DataStarts, IsData;
    var n := FirstNewline(s);
    LinesSplit(s);
    FirstIsData(s);
    forall j
      ensures j < 0 || 0 < j <= n || |s| <= j ==> !DataStarts(s, j)
      ensures n < |s| && n < j ==> (DataStarts(s, j) <==> DataStarts(s[n + 1..], j - n - 1))
    {
      if n < |s| && n < j { RestIsData(s, j); }
      if j < 0 || 0 < j <= n || |s| <= j { NoneWithin(s, j); }
    }
    k, e := 0, n;
    if n == |s| {
      assert s[..n] == s && [s] + [] == [s];
      LastPayloadCons(s, []);
      NoLines();
      if IsData(s) { DataLength(s); }
    } else {
      LastPayloadCons(s[..n], Lines(s[n + 1..]));
      var k', e' := LastPayloadExactly(s[n + 1..]);
      if LastPayload(Lines(s[n + 1..])) != [] {
        k, e := n + 1 + k', n + 1 + e';
        assert DataStarts(s[n + 1..], k');
        assert k' >= 0 by { if k' < 0 { NoneWithin(s[n + 1..], k'); } }
        assert s[k..e] == s[n + 1..][k'..e'] && s[k + 6..e] == s[n + 1..][k' + 6..e'];
      } else if IsData(s[..n]) {
        DataLength(s[..n]);
        assert s[..n][6..] == s[6..n] && s[0..n] == s[..n];
      }
    }
  }

  lemma NoLines()
    ensures LastPayload([]) == []
  {
  }

  lemma DataLength(line: Bytes)
    requires IsData(line)
    ensures |line| >= 7
  {
  }

  // ---------------------------------------------------------------------
  // Writing
  // ---------------------------------------------------------------------

  /** A writer that accepts `capacity` bytes in all and fails once it is full. */
  class Sink {
    var written: Bytes
    const capacity: nat

    predicate Valid()
      reads this
    {
      |written| <= capacity
    }

    function Room(): nat
      reads this
      requires Valid()
    {
      capacity - |written|
    }

    constructor (capacity: nat)
      ensures Valid() && written == [] && this.capacity == capacity
    {
      this.capacity := capacity;
      written := [];
    }

    method Write(b: Bytes) returns (n: nat, ok: bool)
      requires Valid()
      modifies this
      ensures Valid()
      ensures written == old(written) + FirstBytes(b, old(Room()))
      ensures n == |FirstBytes(b, old(Room()))| && (ok <==> n == |b|)
    {
      if |b| <= capacity - |written| {
        written := written + b;
        return |b|, true;
      }
      n := capacity - |written|;
      written := written + b[..n];
      ok := false;
    }
  }

  // ---------------------------------------------------------------------
  // unmaskStreaming
  // ---------------------------------------------------------------------

  datatype StreamError = NoError | ReadFailed | WriteFailed

  /** The output after some reads is the beginning of the whole output. */
  lemma {:induction false} OutputGrows(chunks: seq<Bytes>, i: nat, eof: bool, entries: seq<MaskEntry>)
    requires i <= |chunks|
    ensures FeedAll(chunks[..i], entries).out <= StreamOutput(chunks, eof, entries)
    decreases |chunks| - i
  {
    hide Unmasked, SafeCutoff;
    if i == |chunks| {
      assert chunks[..i] == chunks;
    } else {
      OutputGrows(chunks, i + 1, eof, entries);
      assert chunks[..i + 1][..i] == chunks[..i];
    }
  }

  lemma FeedStep(chunks: seq<Bytes>, i: nat, entries: seq<MaskEntry>)
    requires i < |chunks|
    ensures var st := FeedAll(chunks[..i], entries);
            FeedAll(chunks[..i + 1], entries) == if chunks[i] == [] then st else Flushed(st, chunks[i], entries)
  {
    hide Flush, SafeCutoff;
    assert chunks[..i + 1][..i] == chunks[..i];
  }

  /** The state after a read that delivered something. */
  ghost function Flushed(st: Stream, chunk: Bytes, entries: seq<MaskEntry>): Stream {
    var pending := st.pending + chunk;
    Flush(Stream(pending, st.out), SafeCutoff(pending, entries), entries)
  }

  /** What the writer has taken after `total` bytes were offered to it. */
  ghost predicate Wrote(dst: Sink, before: Bytes, room: nat, total: Bytes)
    reads dst
  {
    dst.Valid() && dst.capacity == |before| + room && dst.written == before + FirstBytes(total, room)
  }

  lemma OfferMore(before: Bytes, room: nat, out: Bytes, more: Bytes)
    requires |out| <= room
    ensures before + FirstBytes(out, room) + FirstBytes(more, room - |out|) == before + FirstBytes(out + more, room)
    ensures |FirstBytes(more, room - |out|)| == |FirstBytes(out + more, room)| - |out|
    ensures |before + FirstBytes(out, room)| == |before| + |out|
  {
  }

  lemma FirstBytesOfPrefix(a: Bytes, b: Bytes, room: nat)
    requires a <= b && |a| > room
    ensures FirstBytes(b, room) == FirstBytes(a, room) && |b| > room
  {
  }

  /** `flush`: unmask up to the cutoff and write the bytes past those already written. */
  method FlushTo(dst: Sink, pending: Bytes, emittedPostLen: nat, maxLen: nat, eof: bool, entries: seq<MaskEntry>,
                 ghost before: Bytes, ghost room: nat, ghost out: Bytes)
    returns (emittedPostLen': nat, n: nat, ok: bool)
    requires Wrote(dst, before, room, out) && emittedPostLen == |out| <= room && maxLen == MaxMaskLen(entries)
    modifies dst
    ensures var cut := if eof then |pending| else SafeCutoff(pending, entries);
            var after := Flush(Stream(pending, out), cut, entries).out;
            && Wrote(dst, before, room, after) && n == |FirstBytes(after, room)| - |out|
            && (ok <==> |after| <= room) && (ok ==> emittedPostLen' == |after|)
  {
    hide SafeCutoff, MaxMaskLen, FirstBytes;
    var safeUpTo := FindSafeCutoff(pending, entries, maxLen, eof);
    var full := UnmaskContent(pending[..safeUpTo], entries);
    if |full| <= emittedPostLen {
      AllFits(out, room);
      return emittedPostLen, 0, true;
    }
    var toWrite := full[emittedPostLen..];
    OfferMore(before, room, out, toWrite);
    n, ok := dst.Write(toWrite);
    AllFits(toWrite, room - |out|);
    emittedPostLen' := |full|;
  }

  lemma AllFits(s: Bytes, room: nat)
    ensures |FirstBytes(s, room)| == |s| <==> |s| <= room
  {
  }

  /** The writer receives the streaming output, cut off where it fails; the error says why
      the loop stopped. */
  method UnmaskStreaming(dst: Sink, src: seq<Bytes>, eof: bool, entries: seq<MaskEntry>)
    returns (emitted: nat, err: StreamError)
    requires dst.Valid()
    modifies dst
    ensures var total, room := StreamOutput(src, eof, entries), old(dst.Room());
            && Wrote(dst, old(dst.written), room, total)
            && emitted == |FirstBytes(total, room)|
            && err == if |total| > room then WriteFailed else if eof then NoError else ReadFailed
  {
    hide SafeCutoff, MaxMaskLen, FeedAll, Flush, FirstBytes;
    var maxLen := LongestMask(entries);
    var pending: Bytes, emittedPostLen: nat := [], 0;
    emitted := 0;
    ghost var before, room := dst.written, dst.Room();
    ghost var st := Stream([], []);
    FeedNothing(entries);
    AllFits([], room);
    assert before + FirstBytes([], room) == before;
    assert src[..0] == [];
    for i := 0 to |src|
      invariant st == FeedAll(src[..i], entries) && pending == st.pending
      invariant emittedPostLen == emitted == |st.out| <= room
      invariant Wrote(dst, before, room, st.out)
    {
      FeedStep(src, i, entries);
      if |src[i]| > 0 {
        pending := pending + src[i];
        var n, ok;
        emittedPostLen, n, ok := FlushTo(dst, pending, emittedPostLen, maxLen, false, entries, before, room, st.out);
        FlushKeepsPending(Stream(pending, st.out), SafeCutoff(pending, entries), entries);
        st := Flushed(st, src[i], entries);
        AllFits(st.out, room);
        emitted := emitted + n;
        if !ok {
          OutputGrows(src, i + 1, eof, entries);
          FirstBytesOfPrefix(st.out, StreamOutput(src, eof, entries), room);
          return emitted, WriteFailed;
        }
      }
    }
    assert src[..|src|] == src;
    if eof {
      var n, ok;
      emittedPostLen, n, ok := FlushTo(dst, pending, emittedPostLen, maxLen, true, entries, before, room, st.out);
      emitted := emitted + n;
      return emitted, if ok then NoError else WriteFailed;
    }
    AllFits(st.out, room);
    return emitted, ReadFailed;
  }

  lemma FeedNothing(entries: seq<MaskEntry>)
    ensures FeedAll([], entries) == Stream([], [])
  {
  }

  // ---------------------------------------------------------------------
  // The forwarding loop of the proxy
  // ---------------------------------------------------------------------

  const TAIL_CAP := 65536

  /** One response being forwarded. `delivered` is what complete writes have passed on. */
  class SseForwarder {
    const client: Sink
    const masking: bool
    const entries: seq<MaskEntry>
    const maxOutputCapture: nat
    var outputBuf: Bytes
    var outputCaptureFull: bool
    var tail: Bytes
    var pending: Bytes
    var emittedPostLen: nat
    var clientDisconnected: bool
    ghost var delivered: Bytes
    ghost var before: Bytes

    /** The capture buffer and the ring are what the bounds allow of the delivered bytes. */
    ghost predicate Captured()
      reads this
    {
      && outputBuf == FirstBytes(delivered, maxOutputCapture)
      && (outputCaptureFull <==> |delivered| > maxOutputCapture)
      && tail == LastBytes(delivered, TAIL_CAP)
    }

    ghost predicate Valid()
      reads this, client
    {
      && client.Valid() && Captured() && |before| <= client.capacity
      && emittedPostLen <= |delivered|
      && (!clientDisconnected ==> client.written == before + delivered)
    }

    constructor (client: Sink, masking: bool, entries: seq<MaskEntry>, maxOutputCapture: nat)
      requires client.Valid()
      ensures Valid() && this.client == client && this.masking == masking && this.entries == entries
      ensures this.maxOutputCapture == maxOutputCapture
      ensures before == client.written && delivered == [] && pending == [] && emittedPostLen == 0 && !clientDisconnected
    {
      this.client, this.masking, this.entries, this.maxOutputCapture := client, masking, entries, maxOutputCapture;
      outputBuf, outputCaptureFull, tail, pending := [], false, [], [];
      emittedPostLen, clientDisconnected := 0, false;
      delivered, before := [], client.written;
    }

    /** `appendOutput`: capture up to the limit, then stop for good. */
    method AppendOutput(chunk: Bytes)
      requires outputBuf == FirstBytes(delivered, maxOutputCapture)
      requires outputCaptureFull <==> |delivered| > maxOutputCapture
      modifies this`outputBuf, this`outputCaptureFull
      ensures outputBuf == FirstBytes(delivered + chunk, maxOutputCapture)
      ensures outputCaptureFull <==> |delivered + chunk| > maxOutputCapture
    {
      if outputCaptureFull {
        assert (delivered + chunk)[..maxOutputCapture] == delivered[..maxOutputCapture];
        return;
      }
      if |outputBuf| + |chunk| > maxOutputCapture {
        var remaining := maxOutputCapture - |outputBuf|;
        if remaining > 0 {
          outputBuf := outputBuf + chunk[..remaining];
        }
        outputCaptureFull := true;
        assert (delivered + chunk)[..maxOutputCapture] == outputBuf;
        return;
      }
      outputBuf := outputBuf + chunk;
    }

    ghost function Room(): nat
      reads this, client
      requires Valid()
    {
      client.capacity - |before|
    }

    /** Write one piece to the client; a failed write disconnects and captures nothing. */
    method Deliver(toWrite: Bytes)
      requires Valid() && !clientDisconnected
      modifies this`outputBuf, this`outputCaptureFull, this`tail, this`clientDisconnected, this`delivered, client
      ensures Valid() && Wrote(client, before, Room(), old(delivered) + toWrite)
      ensures clientDisconnected <==> |old(delivered) + toWrite| > Room()
      ensures delivered == if clientDisconnected then old(delivered) else old(delivered) + toWrite
    {
      ghost var room := Room();
      AllFits(delivered, room);
      OfferMore(before, room, delivered, toWrite);
      var n, ok := client.Write(toWrite);
      AllFits(toWrite, room - |delivered|);
      if !ok {
        clientDisconnected := true;
        return;
      }
      AppendOutput(toWrite);
      LastBytesAppend(delivered, toWrite, TAIL_CAP);
      tail := AppendRing(tail, toWrite, TAIL_CAP);
      delivered := delivered + toWrite;
    }

    /** `flushMasked`. */
    method FlushMasked(maxLen: nat, eof: bool)
      requires Valid() && !clientDisconnected && maxLen == MaxMaskLen(entries) && emittedPostLen == |delivered|
      modifies this`outputBuf, this`outputCaptureFull, this`tail, this`clientDisconnected, this`delivered,
               this`emittedPostLen, client
      ensures Valid()
      ensures var cut := if eof then |pending| else SafeCutoff(pending, entries);
              var after := Flush(Stream(pending, old(delivered)), cut, entries).out;
              && Wrote(client, before, Room(), after) && (clientDisconnected <==> |after| > Room())
              && (if clientDisconnected then delivered == old(delivered)
                  else delivered == after && emittedPostLen == |after|)
    {
      hide SafeCutoff, MaxMaskLen, FirstBytes;
      var safeUpTo := FindSafeCutoff(pending, entries, maxLen, eof);
      var full := UnmaskContent(pending[..safeUpTo], entries);
      if |full| <= emittedPostLen {
        WroteSoFar();
        return;
      }
      var toWrite := full[emittedPostLen..];
      Deliver(toWrite);
      if !clientDisconnected {
        emittedPostLen := |full|;
      }
    }

    lemma WroteSoFar()
      requires Valid() && !clientDisconnected
      ensures Wrote(client, before, Room(), delivered) && |delivered| <= Room()
    {
    }

    /** The body that reaches the client when nothing fails: unmasked when masking is active. */
    ghost function Body(src: seq<Bytes>): Bytes
      reads this
    {
      if masking then StreamOutput(src, true, entries) else Concat(src)
    }

    /** The loop over the upstream reads. A read error ends it like end of file does: what is
        pending is flushed all the same. The client receives the body, cut off where it
        disconnects; capture and ring describe the bytes delivered. */
    method Forward(src: seq<Bytes>) returns (lastDataLine: Bytes)
      requires Valid() && !clientDisconnected && delivered == [] && pending == [] && emittedPostLen == 0
      modifies this, client
      ensures Valid() && before == old(before)
      ensures Wrote(client, before, Room(), Body(src))
      ensures clientDisconnected <==> |Body(src)| > Room()
      ensures delivered <= Body(src) && (!clientDisconnected ==> delivered == Body(src))
      ensures lastDataLine == LastPayload(Lines(LastBytes(delivered, 65536)))
    {
      hide FeedAll, Concat, SafeCutoff, MaxMaskLen, Unmasked;
      if masking {
        ForwardMasked(src);
      } else {
        ForwardPlain(src);
      }
      lastDataLine := LastJSONDataLine(tail);
    }

    method ForwardMasked(src: seq<Bytes>)
      requires Valid() && !clientDisconnected && delivered == [] && pending == [] && emittedPostLen == 0
      modifies this, client
      ensures Valid() && before == old(before)
      ensures Wrote(client, before, Room(), StreamOutput(src, true, entries))
      ensures clientDisconnected <==> |StreamOutput(src, true, entries)| > Room()
      ensures delivered <= StreamOutput(src, true, entries)
      ensures !clientDisconnected ==> delivered == StreamOutput(src, true, entries)
    {
      hide FeedAll, SafeCutoff, MaxMaskLen, Flush, FirstBytes, LastBytes;
      var maxMaskedTokenLen := LongestMask(entries);
      FeedNothing(entries);
      assert src[..0] == [];
      for i := 0 to |src|
        invariant Valid() && before == old(before) && !clientDisconnected && emittedPostLen == |delivered|
        invariant Stream(pending, delivered) == FeedAll(src[..i], entries)
      {
        FeedStep(src, i, entries);
        OutputGrows(src, i + 1, true, entries);
        OutputGrows(src, i, true, entries);
        if |src[i]| > 0 {
          pending := pending + src[i];
          FlushKeepsPending(Stream(pending, delivered), SafeCutoff(pending, entries), entries);
          FlushMasked(maxMaskedTokenLen, false);
          if clientDisconnected {
            FirstBytesOfPrefix(FeedAll(src[..i + 1], entries).out, StreamOutput(src, true, entries), Room());
            return;
          }
        }
      }
      assert src[..|src|] == src;
      OutputGrows(src, |src|, true, entries);
      FlushMasked(maxMaskedTokenLen, true);
    }

    method ForwardPlain(src: seq<Bytes>)
      requires Valid() && !clientDisconnected && delivered == []
      modifies this, client
      ensures Valid() && before == old(before)
      ensures Wrote(client, before, Room(), Concat(src))
      ensures clientDisconnected <==> |Concat(src)| > Room()
      ensures delivered <= Concat(src) && (!clientDisconnected ==> delivered == Concat(src))
    {
      hide FirstBytes, LastBytes;
      for i := 0 to |src|
        invariant Valid() && before == old(before) && !clientDisconnected
        invariant emittedPostLen <= |delivered| && delivered == Concat(src[..i])
      {
        assert src[..i + 1][..i] == src[..i];
        ConcatGrows(src, i);
        ConcatGrows(src, i + 1);
        if |src[i]| > 0 {
          Deliver(src[i]);
          if clientDisconnected {
            FirstBytesOfPrefix(Concat(src[..i + 1]), Concat(src), Room());
            return;
          }
        } else {
          assert delivered + src[i] == delivered;
        }
      }
      assert src[..|src|] == src;
      WroteSoFar();
    }
  }

  lemma {:induction false} ConcatGrows(src: seq<Bytes>, i: nat)
    requires i <= |src|
    ensures Concat(src[..i]) <= Concat(src)
    decreases |src| - i
  {
    if i == |src| {
      assert src[..i] == src;
    } else {
      ConcatGrows(src, i + 1);
      assert src[..i + 1][..i] == src[..i];
    }
  }
}
