/** The maintenance messages the gateway receives on the cache's publish /
    subscribe channel, decoded from the raw message payload. */
module KeyDb {
  import opened Wrappers
  import Utf8

  /** `MaintenanceMSG` */
  datatype MaintenanceMsg = Start | Stop | NoMsg

  /** The ASCII bytes of "start" and "stop". */
  const START: seq<Utf8.byte> := [0x73, 0x74, 0x61, 0x72, 0x74]
  const STOP: seq<Utf8.byte> := [0x73, 0x74, 0x6F, 0x70]

  /** `From<Msg> for MaintenanceMSG`. `payload` is `None` when the payload
      cannot be read as bytes, which counts as the empty payload. Only the
      exact lower-case words are recognised. */
  function FromPayload(payload: Option<seq<Utf8.byte>>): (m: MaintenanceMsg)
    ensures m == Start <==> payload == Some(START)
    ensures m == Stop <==> payload == Some(STOP)
    ensures payload.None? ==> m == NoMsg
  {
    var bytes := payload.GetOr([]);
    if bytes == START then Start
    else if bytes == STOP then Stop
    else NoMsg
  }

  /** A reference encoder with no function of its own in `keydb.rs`: the
      payload each match arm of `From<Msg>` recognises; `NoMsg` is given the
      empty one. */
  function Publish(m: MaintenanceMsg): (bytes: seq<Utf8.byte>)
    ensures m == NoMsg <==> bytes == []
  {
    match m
    case Start => START
    case Stop => STOP
    case NoMsg => []
  }

  /** Decoding what each message is published as gives the message back. */
  lemma FromPayloadRoundTrip(m: MaintenanceMsg)
    ensures FromPayload(Some(Publish(m))) == m
  {
  }

  /** The match is on exact bytes: "Start" is not a maintenance command. */
  lemma CapitalisedIgnored()
    ensures FromPayload(Some([0x53, 0x74, 0x61, 0x72, 0x74])) == NoMsg
  {
  }
}
