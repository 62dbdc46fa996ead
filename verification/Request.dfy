/** The configuration request of a worker (src/module/common_daemon.c) up to the root daemon. */
module Request {
  import opened Common
  import opened Text
  import opened Json
  import opened Message
  import opened Msg
  import opened Bus

  datatype DaemonType = FLIP | FLIPD | CRAWLER | COLLECTOR

  /** `enum message_type`. */
  const CRAWLER_ASK_FOR_CONFIGURATION: CInt := 0
  const COLLECTOR_ASK_FOR_CONFIGURATION: CInt := 1

  /** The record the request carries: `create_message` leaves the type at 0. */
  function RequestMessage(identity: CString, now: TimeT): Message {
    Message(identity, "root", now, 0, None)
  }

  method GetConfigFromRootDaemon(
    channel: Channel?, identity: CString, daemonType: DaemonType, now: TimeT, accepted: bool)
      returns (ret: Errno)
    modifies if channel == null then {} else {channel}
    ensures ret == EOK <==> (daemonType == CRAWLER || daemonType == COLLECTOR) && channel != null && accepted
    ensures ret == EOK || ret == EINVAL
    ensures channel != null ==>
              channel.queue == old(channel.queue)
                               + (if ret == EOK then [Serialize(RequestMessage(identity, now))] else [])
  {
    var messageType: CInt;
    match daemonType {
      case CRAWLER => messageType := CRAWLER_ASK_FOR_CONFIGURATION;
      case COLLECTOR => messageType := COLLECTOR_ASK_FOR_CONFIGURATION;
      case _ => return EINVAL;
    }
    var msg: MsgCtx;
    ret, msg := CreateMessage(identity, "root", messageType, None, now);
    if ret != EOK {
      return EINVAL;
    }
    var serialized: StringCtx?;
    ret, serialized := SerializeMessage(msg);
    if ret != EOK {
      return EINVAL;
    }
    assert serialized.data[..serialized.size] == Serialize(RequestMessage(identity, now));
    ret := NbusSend(channel, serialized.data, serialized.size, accepted);
    if ret != EOK {
      return EINVAL;
    }
    return EOK;
  }

  /** What the root reads from the bytes of a request after `n` relays on the way. */
  function RootReads(bytes: string, n: nat): string {
    UpToNul(Relay(Received(bytes), n).data)
  }

  lemma RootReadsTheText(m: Message, n: nat)
    requires NUL !in Serialize(m)
    ensures RootReads(Serialize(m), n) == Serialize(m)
  {
    var s := Serialize(m);
    assert s[..|s|] == s;
    RelayIsFixed(s, |s|, n);
    UpToNulExact(s, "");
    assert s + "" == s;
    UpToNulExact(s, [NUL]);
  }

  /** Over any number of relays the root decodes the request that was made, exactly when the
      worker's name has no quote. */
  lemma RequestReachesRoot(identity: CString, now: TimeT, n: nat)
    ensures Decode(RootReads(Serialize(RequestMessage(identity, now)), n))
         == Some(Message(identity, "root", now, 0, Some("{}")))
       <==> '"' !in identity
  {
    var m := RequestMessage(identity, now);
    SerializeIsCString(m);
    RootDecodes(m, n);
    assert '"' !in m.recepient;
    assert Printed(m) == Message(identity, "root", now, 0, Some("{}"));
  }

  lemma RootDecodes(m: Message, n: nat)
    requires NUL !in Serialize(m)
    ensures Decode(RootReads(Serialize(m), n)) == Some(Printed(m)) <==> QuoteFree(m)
  {
    RootReadsTheText(m, n);
    DecodableExactly(m);
  }

  /** The root reads the JSON object of the schema exactly when the name is a JSON string body. */
  lemma RequestIsJson(identity: CString, now: TimeT, n: nat)
    ensures var m := RequestMessage(identity, now);
            RootReads(Serialize(m), n) == Serialize(m) && (ParsesAsSchema(m) <==> IsBody(identity))
  {
    var m := RequestMessage(identity, now);
    SerializeIsCString(m);
    RootReadsTheText(m, n);
    SchemaOfRequest(m);
  }

  lemma SchemaOfRequest(m: Message)
    requires m.recepient == "root" && m.data.None?
    ensures ParsesAsSchema(m) <==> IsBody(m.sender)
  {
    SchemaExactly(m);
    PlainIsBody(m.recepient);
  }

  /** The types are 0 for crawlers and 1 for collectors, and the root reads 0 from both: the
      type arrives exactly when the worker is a crawler. */
  lemma TypeArrivesOnlyFromCrawlers(d: DaemonType, identity: CString, now: TimeT, n: nat)
    requires (d == CRAWLER || d == COLLECTOR) && '"' !in identity
    ensures var s := RootReads(Serialize(RequestMessage(identity, now)), n);
            var asked := if d == CRAWLER then CRAWLER_ASK_FOR_CONFIGURATION else COLLECTOR_ASK_FOR_CONFIGURATION;
            Decode(s).Some? && Decode(s).value.kind == 0 && (Decode(s).value.kind == asked <==> d == CRAWLER)
    ensures CRAWLER_ASK_FOR_CONFIGURATION == 0 && COLLECTOR_ASK_FOR_CONFIGURATION == 1
  {
    RequestReachesRoot(identity, now, n);
  }
}
