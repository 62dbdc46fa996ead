/** The C objects of src/common/msg/msg.c and the two functions that fill them. */
module Msg {
  import opened Common
  import opened Text
  import opened Message

  /** `struct string_ctx`: a buffer and what its maker took for its size. */
  class StringCtx {
    var data: string
    var size: nat

    constructor (data: string, size: nat)
      ensures this.data == data && this.size == size
    {
      this.data := data;
      this.size := size;
    }
  }

  /** `struct msg_ctx`. */
  class MsgCtx {
    var sender: CString
    var recepient: CString
    var timestamp: TimeT
    var messageType: CInt
    var data: Option<CString>

    function Value(): Message
      reads this
    {
      Message(sender, recepient, timestamp, messageType, data)
    }

    /** `talloc_zero`. */
    constructor ()
      ensures Value() == Message("", "", 0, 0, None)
    {
      sender, recepient, timestamp, messageType, data := "", "", 0, 0, None;
    }
  }

  /** The message type is taken and never stored, so every message made has type 0. */
  method CreateMessage(sender: CString, recepient: CString, messageType: CInt, data: Option<CString>, now: TimeT)
      returns (ret: Errno, msg: MsgCtx)
    ensures ret == EOK && fresh(msg)
    ensures msg.Value() == Message(sender, recepient, now, 0, data)
  {
    msg := new MsgCtx();
    msg.sender := sender;
    msg.recepient := recepient;
    msg.timestamp := now;
    msg.data := data;
    ret := EOK;
  }

  method SerializeMessage(msg: MsgCtx?) returns (ret: Errno, serialized: StringCtx?)
    ensures msg == null <==> ret == ENOMEM
    ensures msg == null <==> serialized == null
    ensures msg != null ==>
              && ret == EOK && fresh(serialized)
              && UpToNul(serialized.data) == Serialize(msg.Value())
              && |serialized.data| == serialized.size + 1
              && serialized.size == |Serialize(msg.Value())|
  {
    if msg == null {
      return ENOMEM, null;
    }
    SerializeIsCString(msg.Value());
    UpToNulExact(Serialize(msg.Value()), [NUL]);
    serialized := new StringCtx("", 0);
    serialized.data := Serialize(msg.Value()) + [NUL];
    serialized.size := |UpToNul(serialized.data)|;
    ret := EOK;
  }

  /** A message of C strings prints as a C string. */
  lemma SerializeIsCString(m: Message)
    requires NUL !in m.sender && NUL !in m.recepient && (m.data.Some? ==> NUL !in m.data.value)
    ensures NUL !in Serialize(m)
  {
    NumbersHaveNoNul(ToUnsigned(m.timestamp));
    NumbersHaveNoNul(if m.kind < 0 then -(m.kind as int) else m.kind as int);
    var tail := SignedDecimal(m.kind) + (TO_DATA + (DataText(m) + "}"));
    assert NUL !in tail;
    assert NUL !in TO_KIND + tail;
  }

  lemma NumbersHaveNoNul(n: nat)
    ensures NUL !in Decimal(n)
  {
    assert forall i :: 0 <= i < |Decimal(n)| ==> IsDigit(Decimal(n)[i]);
  }
}
