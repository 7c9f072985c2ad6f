/**
 * The two SDK event callbacks as total maps from an event to the requests
 * they make. Neither keeps any state of its own: what they do depends on
 * the event alone.
 */
module Events {
  import opened CStrings

  /** The topic subscribed to once the broker connection is up. */
  const MQTT_TOPIC: string := "esp32_data"

  /** The size of the `json_str` stack buffer the payload is copied into. */
  const JSON_STR_SIZE: nat := 256

  /**
   * An MQTT client event. A data event carries the `data_len` bytes at
   * `event->data`, which need not be NUL-terminated; every other event id
   * the client reports is `MqttOther`.
   */
  datatype MqttEvent =
    | MqttConnected
    | MqttDisconnected
    | MqttData(data: seq<Byte>)
    | MqttOther(eventId: int)

  /** What `mqtt_event_handler` does besides logging. */
  datatype MqttAction =
    | Subscribe(topic: string, qos: nat)
    | HandleJson(json: CString)

  /**
   * The string `snprintf(json_str, 256, "%.*s", data_len, data)` leaves in
   * `json_str`: at most `data_len` bytes of the payload, stopping at a NUL,
   * and at most 255 of them, since one byte is kept for the terminator.
   */
  function JsonString(data: seq<Byte>): (json: CString)
    ensures |json| < JSON_STR_SIZE
  {
    CopyBounded(data, if |data| < JSON_STR_SIZE - 1 then |data| else JSON_STR_SIZE - 1)
  }

  /**
   * The handler sees the first min(data_len, 255) payload bytes, cut at the
   * first NUL if one comes earlier; a payload of at most 255 NUL-free bytes
   * arrives whole.
   */
  lemma JsonStringIsCutPrefix(data: seq<Byte>)
    ensures var p := data[..if |data| < 255 then |data| else 255];
            JsonString(data) == p[..StrLen(p)]
    ensures |data| <= 255 && NUL !in data ==> JsonString(data) == data
  {
    CopyBoundedIsCutPrefix(data, if |data| < 255 then |data| else 255);
  }

  /**
   * The switch of `mqtt_event_handler`. A connect subscribes to the one
   * topic at QoS 0, a data event hands the truncated payload to the JSON
   * handler, and a disconnect or any other event only logs.
   */
  function MqttActions(e: MqttEvent): (acts: seq<MqttAction>)
    ensures |acts| <= 1
    ensures acts == [Subscribe(MQTT_TOPIC, 0)] <==> e.MqttConnected?
    ensures acts == [] <==> e.MqttDisconnected? || e.MqttOther?
    ensures e.MqttData? ==> acts == [HandleJson(JsonString(e.data))]
  {
    match e
    case MqttConnected => [Subscribe(MQTT_TOPIC, 0)]
    case MqttDisconnected => []
    case MqttData(data) => [HandleJson(JsonString(data))]
    case MqttOther(_) => []
  }

  /** The event bases the Wi-Fi callback is registered for. */
  datatype EventBase = WifiEventBase | IpEventBase

  /** The event ids the Wi-Fi callback compares against, and every other id. */
  datatype WifiEventId =
    | StaStart
    | StaDisconnected
    | StaGotIp
    | OtherWifiId(eventId: int)

  datatype WifiEvent = WifiEvent(base: EventBase, id: WifiEventId)

  /** What `wifi_event_handler` does besides logging. */
  datatype WifiAction = Connect | StartMqtt

  /**
   * The if-chain of `wifi_event_handler`: station start and disconnect each
   * ask for one connect, an acquired address starts the MQTT client, and any
   * other id does nothing. It never looks at the event base.
   */
  function WifiActions(e: WifiEvent): (acts: seq<WifiAction>)
    ensures |acts| <= 1
    ensures acts == [Connect] <==> e.id == StaStart || e.id == StaDisconnected
    ensures acts == [StartMqtt] <==> e.id == StaGotIp
  {
    if e.id == StaStart then [Connect]
    else if e.id == StaDisconnected then [Connect]
    else if e.id == StaGotIp then [StartMqtt]
    else []
  }

  /** The event base plays no part: two events with the same id act alike. */
  lemma WifiActionsIgnoreBase(e1: WifiEvent, e2: WifiEvent)
    requires e1.id == e2.id
    ensures WifiActions(e1) == WifiActions(e2)
  {
  }
}
