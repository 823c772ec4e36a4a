/** The growable byte stream: a first-in first-out queue of bytes in one buffer. */
module ByteStream {
  import opened Common

  function Min(a: nat, b: nat): (m: nat)
    ensures m <= a && m <= b && (m == a || m == b)
  {
    if a < b then a else b
  }

  method Copy(to: array<Byte>, at: nat, data: seq<Byte>)
    requires at + |data| <= to.Length
    modifies to
    ensures to[..at] == old(to[..at]) && to[at..at + |data|] == data && to[at + |data|..] == old(to[at + |data|..])
  {
    forall i | 0 <= i < |data| {
      to[at + i] := data[i];
    }
  }

  class Stream {
    var streamBuffer: array?<Byte>
    var bufferSize: nat
    var readPos: nat
    var writePos: nat

    // One byte more than bufferSize is allocated.
    ghost predicate Valid()
      reads this
    {
      && readPos <= writePos <= bufferSize
      && (if streamBuffer == null then bufferSize == 0 else bufferSize > 0 && streamBuffer.Length == bufferSize + 1)
    }

    // The bytes written and not yet read.
    ghost function Contents(): (q: seq<Byte>)
      requires Valid()
      reads this, streamBuffer
      ensures |q| == writePos - readPos
    {
      if streamBuffer == null then [] else streamBuffer[readPos..writePos]
    }

    constructor ()
      ensures Valid() && Contents() == [] && bufferSize == 0
    {
      streamBuffer, bufferSize, readPos, writePos := null, 0, 0, 0;
    }

    method Cleanup()
      modifies this
      ensures Valid() && Contents() == [] && streamBuffer == null
    {
      streamBuffer, bufferSize, readPos, writePos := null, 0, 0, 0;
    }

    predicate Allocated()
      reads this
    {
      streamBuffer != null && bufferSize > 0
    }

    function Length(): nat
      reads this
    {
      if writePos > readPos then writePos - readPos else 0
    }

    method Prepare(size: nat)
      modifies this
      ensures Valid() && Contents() == [] && bufferSize == size && readPos == writePos == 0
      ensures streamBuffer == null || fresh(streamBuffer)
    {
      Cleanup();
      if size > 0 {
        streamBuffer := new Byte[size + 1](_ => 0);
        bufferSize := size;
      }
    }

    // Moves the unread bytes to the front of a buffer of another size; what does not fit is cut off.
    method Resize(size: nat)
      requires Valid()
      modifies this
      ensures Valid()
      ensures Contents() ==
              if size == 0 || size == old(bufferSize) then old(Contents())
              else old(Contents())[..Min(old(Length()), size)]
      ensures size != 0 ==> bufferSize == size
      ensures size != 0 && size != old(bufferSize) ==> readPos == 0
      ensures streamBuffer == old(streamBuffer) || streamBuffer == null || fresh(streamBuffer)
    {
      if size == 0 || bufferSize == size {
        return;
      }
      if Allocated() {
        var newBuffer := new Byte[size + 1](_ => 0);
        var len, copyLen := Length(), 0;
        if len > 0 {
          copyLen := Min(len, size);
          forall i | 0 <= i < copyLen {
            newBuffer[i] := streamBuffer[readPos + i];
          }
        }
        assert newBuffer[..copyLen] == streamBuffer[readPos..readPos + copyLen];
        bufferSize, readPos, writePos := size, 0, copyLen;
        streamBuffer := newBuffer;
      } else {
        Prepare(size);
      }
    }

    // Whatever the positions were.
    method Clear()
      requires streamBuffer == null <==> bufferSize == 0
      requires streamBuffer != null ==> streamBuffer.Length == bufferSize + 1
      modifies this`readPos, this`writePos
      ensures Valid() && Contents() == [] && readPos == writePos == 0
    {
      readPos, writePos := 0, 0;
    }

    // Grows the buffer when the bytes do not fit behind the write position: nothing unread is lost.
    method Write(data: seq<Byte>) returns (n: nat)
      requires Valid()
      modifies this, streamBuffer
      ensures Valid() && n == |data|
      ensures Contents() == old(Contents()) + data
      ensures streamBuffer == old(streamBuffer) || streamBuffer == null || fresh(streamBuffer)
    {
      if writePos + |data| > bufferSize {
        Resize(writePos + |data| + 1);
      }
      n := |data|;
      CopyIn(data);
    }

    method CopyIn(data: seq<Byte>)
      requires Valid() && writePos + |data| <= bufferSize
      modifies this`writePos, streamBuffer
      ensures Valid() && Contents() == old(Contents()) + data
    {
      if streamBuffer != null {
        ghost var q, w := Contents(), writePos;
        Copy(streamBuffer, writePos, data);
        assert q == old(streamBuffer[..])[readPos..w];
        assert streamBuffer[readPos..w + |data|] == streamBuffer[..w][readPos..] + streamBuffer[w..w + |data|];
      }
      WriteCommit(|data|);
    }

    // A count past the end of the buffer is not refused, and leaves a stream that is not valid.
    method WriteCommit(n: nat)
      requires Valid()
      modifies this`writePos
      ensures writePos == old(writePos) + n
      ensures Valid() <==> old(writePos) + n <= bufferSize
      ensures Valid() && streamBuffer != null ==> Contents() == old(Contents()) + streamBuffer[old(writePos)..writePos]
    {
      writePos := writePos + n;
    }

    // Takes up to len bytes from the front of the queue.
    method Read(data: array<Byte>, len: nat) returns (n: nat)
      requires Valid() && len <= data.Length && data != streamBuffer
      modifies this`readPos, this`writePos, data
      ensures Valid() && n == if old(|Contents()|) <= len then old(|Contents()|) else len
      ensures data[..] == old(Contents())[..n] + old(data[n..])
      ensures Contents() == old(Contents())[n..]
    {
      if Length() == 0 {
        assert data[..] == [] + data[0..];
        return 0;
      }
      n := Min(Length(), len);
      ghost var q := Contents();
      forall i | 0 <= i < n {
        data[i] := streamBuffer[readPos + i];
      }
      assert data[..n] == q[..n];
      assert data[..] == data[..n] + data[n..];
      ReadCommit(n);
    }

    // Drops bytes that were read; the positions go back to the start only when nothing is left to read. A count above
    // the queued length is not refused: it empties the stream when it takes the read position past the middle of the
    // buffer, and leaves a stream that is not valid when it does not.
    method ReadCommit(n: nat)
      requires Valid()
      modifies this`readPos, this`writePos
      ensures n <= old(Length()) ==> Valid() && Contents() == old(Contents())[n..]
      ensures n > old(Length()) ==> (Valid() <==> (old(readPos) + n) * 2 > bufferSize)
      ensures n > old(Length()) && Valid() ==> Contents() == [] && readPos == writePos == 0
    {
      readPos := readPos + n;
      if readPos * 2 > bufferSize && Length() == 0 {
        Clear();
      }
    }
  }

  /* ---- runs of writes and reads against an abstract queue ---- */

  datatype Operation = Put(data: seq<Byte>) | Take(len: nat)

  datatype Run = Run(queue: seq<Byte>, outputs: seq<seq<Byte>>)

  function Apply(r: Run, op: Operation): Run {
    match op
    case Put(data) => Run(r.queue + data, r.outputs)
    case Take(len) => Run(r.queue[Min(|r.queue|, len)..], r.outputs + [r.queue[..Min(|r.queue|, len)]])
  }

  function ApplyAll(ops: seq<Operation>): Run {
    if |ops| == 0 then Run([], []) else Apply(ApplyAll(ops[..|ops| - 1]), ops[|ops| - 1])
  }

  function Written(ops: seq<Operation>): seq<Byte> {
    if |ops| == 0 then []
    else
      var last := ops[|ops| - 1];
      Written(ops[..|ops| - 1]) + (if last.Put? then last.data else [])
  }

  function Joined(outputs: seq<seq<Byte>>): seq<Byte> {
    if |outputs| == 0 then [] else Joined(outputs[..|outputs| - 1]) + outputs[|outputs| - 1]
  }

  lemma JoinedSnoc(outputs: seq<seq<Byte>>, last: seq<Byte>)
    ensures Joined(outputs + [last]) == Joined(outputs) + last
  {
    assert (outputs + [last])[..|outputs|] == outputs;
  }

  lemma ApplyConserves(r: Run, op: Operation)
    ensures var t := Apply(r, op);
            Joined(t.outputs) + t.queue == Joined(r.outputs) + r.queue + (if op.Put? then op.data else [])
  {
    hide Joined;
    match op
    case Put(data) =>
      assert Joined(r.outputs) + (r.queue + data) == Joined(r.outputs) + r.queue + data;
    case Take(len) =>
      var k := Min(|r.queue|, len);
      JoinedSnoc(r.outputs, r.queue[..k]);
      assert Joined(r.outputs) + r.queue[..k] + r.queue[k..] == Joined(r.outputs) + r.queue;
  }

  // First in, first out: what was read, followed by what is still queued, is what was written.
  lemma {:induction false} FirstInFirstOut(ops: seq<Operation>)
    ensures Joined(ApplyAll(ops).outputs) + ApplyAll(ops).queue == Written(ops)
    decreases |ops|
  {
    hide Joined, Apply;
    if |ops| > 0 {
      var k := |ops| - 1;
      FirstInFirstOut(ops[..k]);
      ApplyConserves(ApplyAll(ops[..k]), ops[k]);
    } else {
      JoinedNone();
    }
  }

  lemma JoinedNone()
    ensures Joined([]) == []
  {
  }

  lemma ApplySnoc(ops: seq<Operation>, i: nat)
    requires i < |ops|
    ensures ApplyAll(ops[..i + 1]) == Apply(ApplyAll(ops[..i]), ops[i])
  {
    hide Apply;
    assert ops[..i + 1][..i] == ops[..i];
  }

  // A stream that runs the operations behaves as the queue does.
  method Perform(ops: seq<Operation>) returns (outputs: seq<seq<Byte>>, stream: Stream)
    ensures stream.Valid() && outputs == ApplyAll(ops).outputs && stream.Contents() == ApplyAll(ops).queue
    ensures Joined(outputs) + stream.Contents() == Written(ops)
  {
    hide Joined, Written, Apply;
    stream := new Stream();
    outputs := [];
    var i := 0;
    while i < |ops|
      invariant i <= |ops| && fresh(stream) && stream.Valid()
      invariant stream.streamBuffer == null || fresh(stream.streamBuffer)
      invariant outputs == ApplyAll(ops[..i]).outputs && stream.Contents() == ApplyAll(ops[..i]).queue
    {
      ApplySnoc(ops, i);
      outputs := Step(stream, ops[i], outputs);
      i := i + 1;
    }
    assert ops[..i] == ops;
    FirstInFirstOut(ops);
  }

  method Step(stream: Stream, op: Operation, outputs: seq<seq<Byte>>) returns (outputs': seq<seq<Byte>>)
    requires stream.Valid()
    modifies stream, stream.streamBuffer
    ensures stream.Valid() && Run(stream.Contents(), outputs') == Apply(Run(old(stream.Contents()), outputs), op)
    ensures stream.streamBuffer == old(stream.streamBuffer) || stream.streamBuffer == null || fresh(stream.streamBuffer)
  {
    match op
    case Put(data) =>
      var _ := stream.Write(data);
      outputs' := outputs;
    case Take(len) =>
      var out := TakeBytes(stream, len);
      outputs' := outputs + [out];
  }

  method TakeBytes(stream: Stream, len: nat) returns (out: seq<Byte>)
    requires stream.Valid()
    modifies stream
    ensures stream.Valid() && stream.streamBuffer == old(stream.streamBuffer)
    ensures out == old(stream.Contents())[..Min(|old(stream.Contents())|, len)]
    ensures stream.Contents() == old(stream.Contents())[Min(|old(stream.Contents())|, len)..]
  {
    var data := new Byte[len](_ => 0);
    var n := stream.Read(data, len);
    out := data[..n];
  }
}
