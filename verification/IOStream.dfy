/** A byte stream over messages: reads take bytes out of messages and keep what the caller's buffer had no room for,
    writes cut their input into messages of at most 64 KiB. */
module IOStream {
  import opened ByteText
  import opened Sequences

  const MAX_CHUNK_SIZE: nat := 64 * 1024

  // ---------- Messages ----------

  /** The messages that carry p. */
  function Chunks(p: Bytes): seq<Bytes> {
    if p == [] then []
    else if |p| <= MAX_CHUNK_SIZE then [p]
    else [p[..MAX_CHUNK_SIZE]] + Chunks(p[MAX_CHUNK_SIZE..])
  }

  /** Chunks lose nothing, none is empty, and all but the last are 64 KiB long. */
  lemma {:induction false} ChunksCarry(p: Bytes)
    ensures Flatten(Chunks(p)) == p
    ensures forall i :: 0 <= i < |Chunks(p)| ==> 0 < |Chunks(p)[i]| <= 65536
    ensures forall i :: 0 <= i < |Chunks(p)| - 1 ==> |Chunks(p)[i]| == 65536
  {
    if p != [] {
      FlattenFirst(Chunks(p));
    }
    if |p| > MAX_CHUNK_SIZE {
      var rest := p[MAX_CHUNK_SIZE..];
      ChunksCarry(rest);
      assert Chunks(p)[1..] == Chunks(rest);
      assert p == p[..MAX_CHUNK_SIZE] + rest;
    }
  }

  // ---------- Streams ----------

  /** The two directions of a message stream: the messages still to be received before it ends or fails, what was sent
      to the peer, and how many more sends the connection will take. */
  class Stream {
    var inbox: seq<Bytes>
    var sent: seq<Bytes>
    var sendsLeft: nat

    method Recv() returns (data: Bytes, ok: bool)
      modifies this`inbox
      ensures ok <==> old(inbox) != []
      ensures if ok then old(inbox) == [data] + inbox else data == [] && inbox == old(inbox)
    {
      if inbox == [] {
        return [], false;
      }
      data, ok := inbox[0], true;
      inbox := inbox[1..];
    }

    method Send(data: Bytes) returns (ok: bool)
      modifies this`sent, this`sendsLeft
      ensures ok <==> old(sendsLeft) > 0
      ensures if ok then sent == old(sent) + [data] && sendsLeft == old(sendsLeft) - 1
              else sent == old(sent) && sendsLeft == old(sendsLeft)
    {
      if sendsLeft == 0 {
        return false;
      }
      sent, sendsLeft := sent + [data], sendsLeft - 1;
      ok := true;
    }
  }

  function Min(a: nat, b: nat): nat {
    if a < b then a else b
  }

  /** What one read with a buffer of the given size takes, and what it leaves in the buffer and the inbox. */
  datatype Incoming = Incoming(dataBuf: Bytes, inbox: seq<Bytes>) {
    function Unread(): Bytes {
      dataBuf + Flatten(inbox)
    }

    predicate Ended() {
      dataBuf == [] && inbox == []
    }

    function Read(size: nat): (Bytes, Incoming) {
      if dataBuf != [] then
        (dataBuf[..Min(size, |dataBuf|)], Incoming(dataBuf[Min(size, |dataBuf|)..], inbox))
      else if inbox == [] then ([], this)
      else
        (inbox[0][..Min(size, |inbox[0]|)], Incoming(inbox[0][Min(size, |inbox[0]|)..], inbox[1..]))
    }
  }

  class IOStreamWrapper {
    const stream: Stream
    var dataBuf: Bytes
    var closed: bool

    ghost function State(): Incoming
      reads this, stream
    {
      Incoming(dataBuf, stream.inbox)
    }

    constructor (stream: Stream)
      ensures this.stream == stream && dataBuf == [] && !closed
    {
      this.stream, dataBuf, closed := stream, [], false;
    }

    /** Reading moves bytes from the front of what is unread into p; it fails only when there is nothing unread and the
        stream has ended or failed. */
    method Read(p: array<byte>) returns (n: nat, ok: bool)
      modifies this`dataBuf, stream`inbox, p
      ensures n <= p.Length && p[n..] == old(p[n..])
      ensures ok <==> !old(State()).Ended()
      ensures (p[..n], State()) == old(State()).Read(p.Length)
      ensures old(State().Unread()) == p[..n] + State().Unread()
    {
      ReadConserves(State(), p.Length);
      if |dataBuf| > 0 {
        n := Copy(p, dataBuf);
        dataBuf := dataBuf[n..];
        return n, true;
      }
      var data;
      data, ok := stream.Recv();
      if !ok {
        return 0, false;
      }
      n := Copy(p, data);
      if n < |data| {
        dataBuf := data[n..];
      }
    }

    /** Writing sends the chunks of p in order, up to the first send that fails; n counts the bytes sent. */
    method Write(p: Bytes) returns (n: nat, ok: bool)
      modifies stream`sent, stream`sendsLeft
      ensures ok <==> |Chunks(p)| <= old(stream.sendsLeft)
      ensures stream.sent == old(stream.sent) + Chunks(p)[..Min(|Chunks(p)|, old(stream.sendsLeft))]
      ensures n <= |p| && Flatten(stream.sent) == Flatten(old(stream.sent)) + p[..n]
      ensures ok ==> n == |p|
    {
      var written := 0;
      ghost var chunks, count := Chunks(p), 0;
      assert p[0..] == p;
      while written < |p|
        invariant written <= |p| && count <= |chunks| && count <= old(stream.sendsLeft)
        invariant stream.sendsLeft == old(stream.sendsLeft) - count
        invariant chunks[count..] == Chunks(p[written..])
        invariant stream.sent == old(stream.sent) + chunks[..count]
        invariant Flatten(chunks[..count]) == p[..written]
      {
        var end := written + MAX_CHUNK_SIZE;
        if end > |p| {
          end := |p|;
        }
        var chunk := p[written..end];
        NextChunk(chunks, p, written, end, count);
        var sent := stream.Send(chunk);
        if !sent {
          FlattenAppend(old(stream.sent), chunks[..count]);
          assert Min(|chunks|, old(stream.sendsLeft)) == count;
          return written, false;
        }
        written, count := written + |chunk|, count + 1;
      }
      AllChunks(chunks, count, p[written..]);
      FlattenAppend(old(stream.sent), chunks);
      assert Min(|chunks|, old(stream.sendsLeft)) == count;
      return |p|, true;
    }

    /** Closing drops what was kept for later reads. */
    method Close()
      modifies this`dataBuf, this`closed
      ensures closed && dataBuf == (if old(closed) then old(dataBuf) else [])
    {
      if !closed {
        closed, dataBuf := true, [];
      }
    }
  }

  method Copy(p: array<byte>, data: Bytes) returns (n: nat)
    modifies p
    ensures n == Min(p.Length, |data|)
    ensures p[..n] == data[..n] && p[n..] == old(p[n..])
  {
    n := Min(p.Length, |data|);
    forall i | 0 <= i < n {
      p[i] := data[i];
    }
  }

  lemma FirstChunk(p: Bytes)
    requires p != []
    ensures Chunks(p) == [p[..Min(MAX_CHUNK_SIZE, |p|)]] + Chunks(p[Min(MAX_CHUNK_SIZE, |p|)..])
  {
    assert p[..|p|] == p;
  }

  lemma SplitFirst<T>(s: seq<T>, i: nat, head: T, tail: seq<T>)
    requires i <= |s| && s[i..] == [head] + tail
    ensures i < |s| && s[i] == head && s[i + 1..] == tail && s[..i + 1] == s[..i] + [head]
  {
    assert s[i] == s[i..][0] && s[i + 1..] == s[i..][1..];
  }

  lemma AllChunks(chunks: seq<Bytes>, count: nat, rest: Bytes)
    requires count <= |chunks| && rest == [] && chunks[count..] == Chunks(rest)
    ensures count == |chunks| && chunks[..count] == chunks
  {
  }

  lemma NextChunk(chunks: seq<Bytes>, p: Bytes, written: nat, end: nat, count: nat)
    requires written < |p| && end == Min(written + MAX_CHUNK_SIZE, |p|) && count <= |chunks|
    requires chunks[count..] == Chunks(p[written..]) && Flatten(chunks[..count]) == p[..written]
    ensures count < |chunks| && chunks[count] == p[written..end]
    ensures chunks[count + 1..] == Chunks(p[end..])
    ensures Flatten(chunks[..count + 1]) == p[..end]
  {
    var rest := p[written..];
    FirstChunk(rest);
    assert rest[..end - written] == p[written..end] && rest[end - written..] == p[end..];
    SplitFirst(chunks, count, p[written..end], Chunks(p[end..]));
    FlattenOneMore(chunks[..count], p[written..end]);
    assert p[..end] == p[..written] + p[written..end];
  }

  // ---------- Many reads ----------

  /** A read takes as much as fits, of what was left over or else of one message, and leaves the rest of that. */
  lemma ReadTakes(s: Incoming, size: nat)
    ensures var (bytes, next) := s.Read(size);
            var source := if s.dataBuf != [] then s.dataBuf else if s.inbox != [] then s.inbox[0] else [];
            && bytes + next.dataBuf == source && |bytes| == (if |source| <= size then |source| else size)
            && next.inbox == if s.dataBuf == [] && s.inbox != [] then s.inbox[1..] else s.inbox
  {
  }

  lemma ReadConserves(s: Incoming, size: nat)
    ensures var (bytes, next) := s.Read(size); s.Unread() == bytes + next.Unread()
  {
    if s.dataBuf == [] && s.inbox != [] {
      FlattenFirst(s.inbox);
    }
  }

  /** The bytes of reads with the given buffer sizes, and what is left. */
  function Reads(s: Incoming, sizes: seq<nat>): (Bytes, Incoming)
    decreases sizes
  {
    if sizes == [] then ([], s)
    else
      var (first, next) := s.Read(sizes[0]);
      var (more, last) := Reads(next, sizes[1..]);
      (first + more, last)
  }

  /** Whatever the buffer sizes, the bytes read so far followed by the unread ones are the bytes received. */
  lemma {:induction false} ReadsConserve(s: Incoming, sizes: seq<nat>)
    ensures var (bytes, last) := Reads(s, sizes); s.Unread() == bytes + last.Unread()
    decreases sizes
  {
    if sizes != [] {
      ReadConserves(s, sizes[0]);
      ReadsConserve(s.Read(sizes[0]).1, sizes[1..]);
    }
  }

  ghost predicate NoEmptyMessages(s: Incoming) {
    forall i :: 0 <= i < |s.inbox| ==> s.inbox[i] != []
  }

  /** Buffers that are never empty drain a stream of non-empty messages, a byte at a time at the slowest. */
  lemma {:induction false} ReadsDrain(s: Incoming, sizes: seq<nat>)
    requires NoEmptyMessages(s) && (forall i :: 0 <= i < |sizes| ==> sizes[i] > 0)
    requires |sizes| >= |s.Unread()|
    ensures Reads(s, sizes).1.Ended()
    decreases sizes
  {
    if !s.Ended() {
      if s.inbox != [] {
        FlattenFirst(s.inbox);
      }
      ReadConserves(s, sizes[0]);
      ReadsDrain(s.Read(sizes[0]).1, sizes[1..]);
    } else if sizes != [] {
      ReadsDrain(s, sizes[1..]);
    }
  }

  lemma ReadsTakeAll(messages: seq<Bytes>, sizes: seq<nat>)
    requires NoEmptyMessages(Incoming([], messages)) && forall i :: 0 <= i < |sizes| ==> sizes[i] > 0
    requires |sizes| >= |Flatten(messages)|
    ensures Reads(Incoming([], messages), sizes).0 == Flatten(messages)
  {
    var s := Incoming([], messages);
    assert s.Unread() == Flatten(messages);
    ReadsConserve(s, sizes);
    ReadsDrain(s, sizes);
    var last := Reads(s, sizes).1;
    assert last.Unread() == [];
  }

  /** A write that succeeds, received by the peer and read with any non-empty buffers, is the identity. */
  lemma WriteThenRead(p: Bytes, sizes: seq<nat>)
    requires |sizes| >= |p| && forall i :: 0 <= i < |sizes| ==> sizes[i] > 0
    ensures Reads(Incoming([], Chunks(p)), sizes).0 == p
  {
    var messages := Chunks(p);
    ChunksCarry(p);
    assert NoEmptyMessages(Incoming([], messages));
    ReadsTakeAll(messages, sizes);
  }
}
