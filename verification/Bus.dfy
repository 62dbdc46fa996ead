/**
 The message framing of src/common/nbus/nbus.c.

 A socket pair is a first-in first-out channel of byte strings. Losses are events of the
 environment and are added where the channel is shared (module Pipeline).
 */
module Bus {
  import opened Common
  import opened Text

  class Channel {
    var queue: seq<string>

    constructor ()
      ensures queue == []
    {
      queue := [];
    }
  }

  /** What a receive makes of the bytes of one message: the text before the first NUL,
      terminated, and a size that counts the terminator. */
  datatype Chunk = Chunk(data: string, size: nat)

  function Received(bytes: string): Chunk {
    Chunk(UpToNul(bytes) + [NUL], |UpToNul(bytes)| + 1)
  }

  /** How a non-blocking receive ends when it is asked of the library. */
  datatype Delivery = Normal | Fault

  /** `accepted` is whether the library takes the whole message; it never takes a part. */
  method NbusSend(channel: Channel?, msg: string, size: nat, accepted: bool) returns (ret: Errno)
    requires size <= |msg|
    modifies if channel == null then {} else {channel}
    ensures ret == (if channel == null then ENOENT else if accepted then EOK else EIO)
    ensures channel != null ==>
              channel.queue == old(channel.queue) + (if accepted then [msg[..size]] else [])
  {
    if channel == null {
      return ENOENT;
    }
    var bytes: int := -1;
    if accepted {
      channel.queue := channel.queue + [msg[..size]];
      bytes := size;
    }
    if bytes < 0 || bytes != size {
      return EIO;
    }
    return EOK;
  }

  /** Without a message the old chunk stays in place. */
  method NbusReceive(channel: Channel?, chunk: Chunk, delivery: Delivery) returns (ret: Errno, chunk': Chunk)
    modifies if channel == null then {} else {channel}
    ensures channel == null ==> ret == ENOENT && chunk' == chunk
    ensures channel != null && delivery.Fault? ==>
              ret == EIO && chunk' == chunk && channel.queue == old(channel.queue)
    ensures channel != null && delivery.Normal? && old(channel.queue) == [] ==>
              ret == EAGAIN && chunk' == chunk && channel.queue == []
    ensures channel != null && delivery.Normal? && old(channel.queue) != [] ==>
              && ret == EOK && chunk' == Received(old(channel.queue)[0])
              && channel.queue == old(channel.queue)[1..]
  {
    chunk' := chunk;
    if channel == null {
      return ENOENT, chunk;
    }
    if delivery.Fault? {
      return EIO, chunk;
    }
    if channel.queue == [] {
      return EAGAIN, chunk;
    }
    var bytes := channel.queue[0];
    channel.queue := channel.queue[1..];
    chunk' := Chunk(UpToNul(bytes) + [NUL], 0);
    chunk' := chunk'.(size := |chunk'.data|);
    ret := EOK;
  }

  // ----- what framing does to a text ----------------------------------------------------

  /** One hop: a buffer sent with a size, and received. */
  function Hop(buffer: string, size: nat): Chunk
    requires size <= |buffer|
  {
    Received(buffer[..size])
  }

  /** Relaying a received chunk `n` more times. */
  function Relay(chunk: Chunk, n: nat): Chunk
    requires chunk.size <= |chunk.data|
    decreases n
  {
    if n == 0 then chunk else Relay(Hop(chunk.data, chunk.size), n - 1)
  }

  /** A text survives a hop exactly when the size sent covers it. */
  lemma HopKeepsText(buffer: string, size: nat)
    requires size <= |buffer|
    ensures UpToNul(Hop(buffer, size).data) == UpToNul(buffer) <==> size >= |UpToNul(buffer)|
    ensures UpToNul(Hop(buffer, size).data) <= UpToNul(buffer)
  {
    var t := UpToNul(buffer);
    UpToNulExact(UpToNul(buffer[..size]), [NUL]);
    if size >= |t| {
      assert buffer[..size] == t + buffer[|t|..size];
      UpToNulExact(t, buffer[|t|..size]);
    } else {
      assert forall i :: 0 <= i < size ==> NotNul(t[i]) && t[i] == buffer[i];
      UpToNulExact(buffer[..size], "");
      assert buffer[..size] + "" == buffer[..size];
    }
  }

  /** Both sizes in use, with and without the terminator, deliver the whole text. */
  lemma BothSizesDeliver(text: CString)
    ensures Hop(text + [NUL], |text|) == Hop(text + [NUL], |text| + 1) == Chunk(text + [NUL], |text| + 1)
  {
    assert (text + [NUL])[..|text|] == text + "";
    assert (text + [NUL])[..|text| + 1] == text + [NUL];
    UpToNulExact(text, "");
    UpToNulExact(text, [NUL]);
  }

  /** After the first hop, relaying any number of times changes nothing. */
  lemma {:induction false} RelayIsFixed(buffer: string, size: nat, n: nat)
    requires size <= |buffer|
    decreases n
    ensures Relay(Hop(buffer, size), n) == Hop(buffer, size)
  {
    if n > 0 {
      BothSizesDeliver(UpToNul(buffer[..size]));
      RelayIsFixed(buffer, size, n - 1);
    }
  }
}
