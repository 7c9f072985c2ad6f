/**
 * The firmware's global state and the handlers that change it: the
 * 128-byte `rs232_buffer` every frame is formatted into, the MQTT `client`
 * handle that `mqtt_app_start` overwrites, and the requests made of the
 * UART driver and of the Wi-Fi and MQTT stacks, which are recorded rather
 * than performed.
 */
module Bridge {
  import opened Wrappers
  import opened CStrings
  import opened Json
  import opened Telemetry
  import opened Events

  /** The size of `rs232_buffer`. */
  const RS232_BUFFER_SIZE: nat := 128

  /**
   * What `mqtt_data_handler` sends to the UART for the string `json`, as
   * the firmware is written: nothing when `cJSON_Parse` fails or when any
   * of the nine keys is missing or not a string, and otherwise the frame of
   * the nine values, 10 bytes longer than the values together.
   */
  function UartFrame<J>(lib: JsonLibrary<J>, json: CString): (frame: Option<CString>)
    ensures frame.Some? <==>
              lib.parse(json).Some? && AllFieldsAreStrings(lib.parse(json).value, lib.getObjectItem)
    ensures frame.Some? ==>
              var r := Validate(lib.parse(json).value, lib.getObjectItem).value;
              frame.value == Frame(r) && |frame.value| == 10 + ValuesLength(r)
  {
    match lib.parse(json)
    case None => None
    case Some(root) =>
      match Validate(root, lib.getObjectItem)
      case None => None
      case Some(r) => Some(Frame(r))
  }

  /**
   * The same with the missing bound check added: a frame that would not fit
   * in `rs232_buffer` with its NUL is dropped. Wherever the unchecked
   * version stays inside the buffer the two agree.
   */
  function UartFrameChecked<J>(lib: JsonLibrary<J>, json: CString): (frame: Option<CString>)
    ensures frame.Some? <==>
              UartFrame(lib, json).Some? && |UartFrame(lib, json).value| < RS232_BUFFER_SIZE
    ensures frame.Some? ==> frame == UartFrame(lib, json)
  {
    match UartFrame(lib, json)
    case None => None
    case Some(f) => if |f| < RS232_BUFFER_SIZE then Some(f) else None
  }

  /**
   * A frame fits in `rs232_buffer` together with the NUL that `sprintf`
   * appends exactly when the nine values take at most 117 bytes.
   */
  lemma FrameFitsBuffer(r: Record)
    ensures |Frame(r)| < RS232_BUFFER_SIZE <==> ValuesLength(r) <= 117
  {
  }

  /**
   * The bound the firmware never checks does not follow from the 256-byte
   * `json_str`: an accepted payload of at most 255 NUL-free bytes reaches
   * the handler whole, and if its nine values take 118 bytes or more the
   * unchecked frame plus its NUL runs past the end of `rs232_buffer`.
   */
  lemma UncheckedFrameOverflows<J>(lib: JsonLibrary<J>, data: seq<Byte>)
    requires |data| <= 255 && NUL !in data
    requires lib.parse(data).Some?
    requires AllFieldsAreStrings(lib.parse(data).value, lib.getObjectItem)
    requires ValuesLength(Validate(lib.parse(data).value, lib.getObjectItem).value) >= 118
    ensures JsonString(data) == data
    ensures UartFrame(lib, JsonString(data)).Some?
    ensures |UartFrame(lib, JsonString(data)).value| + 1 > RS232_BUFFER_SIZE
    ensures UartFrameChecked(lib, JsonString(data)).None?
  {
    JsonStringIsCutPrefix(data);
  }

  /** A call the handlers make into the Wi-Fi or MQTT stack. */
  datatype SdkCall =
    | EspWifiConnect
    | EspMqttClientInit(handle: nat)
    | EspMqttClientRegisterEvent(handle: nat)
    | EspMqttClientStart(handle: nat)
    | EspMqttClientSubscribe(client: Option<nat>, topic: string, qos: nat)

  class Bridge {
    /** `char rs232_buffer[128]`. */
    const rs232Buffer: array<Byte>
    /** `static esp_mqtt_client_handle_t client`; None while it is still NULL. */
    var client: Option<nat>
    /** The number of handles `esp_mqtt_client_init` has returned, each one new. */
    var clientsCreated: nat
    /** The bytes of each `uart_write_bytes` call, one entry per call. */
    ghost var uartWrites: seq<seq<Byte>>
    /** The calls made into the Wi-Fi and MQTT stacks, in order. */
    ghost var sdkCalls: seq<SdkCall>

    ghost predicate Valid() {
      rs232Buffer.Length == RS232_BUFFER_SIZE
    }

    /** The state `app_main` starts from: a zeroed buffer, a NULL client, nothing sent. */
    constructor ()
      ensures Valid() && fresh(rs232Buffer)
      ensures rs232Buffer[..] == seq(RS232_BUFFER_SIZE, _ => NUL)
      ensures client == None && clientsCreated == 0
      ensures uartWrites == [] && sdkCalls == []
    {
      rs232Buffer := new Byte[RS232_BUFFER_SIZE](_ => NUL);
      client := None;
      clientsCreated := 0;
      uartWrites := [];
      sdkCalls := [];
    }

    /**
     * The effect of one run of the JSON handler that sends `frame`: with
     * None the buffer and the UART are untouched; with a frame, exactly one
     * UART write of that frame, which sits at the start of the buffer
     * followed by its NUL, every later byte of the buffer unchanged.
     */
    twostate predicate WroteFrame(frame: Option<CString>)
      reads this, rs232Buffer
    {
      match frame
      case None =>
        uartWrites == old(uartWrites) && rs232Buffer[..] == old(rs232Buffer[..])
      case Some(f) =>
        && |f| < rs232Buffer.Length
        && uartWrites == old(uartWrites) + [f]
        && rs232Buffer[..|f| + 1] == f + [NUL]
        && rs232Buffer[|f| + 1..] == old(rs232Buffer[|f| + 1..])
    }

    /**
     * The `sprintf` of the frame into `rs232_buffer`: the frame and its NUL
     * at the start, the rest of the buffer as it was. `sprintf` does not
     * check the size, so the frame has to fit.
     */
    method FormatFrame(r: Record)
      requires Valid() && |Frame(r)| < rs232Buffer.Length
      modifies rs232Buffer
      ensures rs232Buffer[..|Frame(r)| + 1] == Frame(r) + [NUL]
      ensures rs232Buffer[|Frame(r)| + 1..] == old(rs232Buffer[|Frame(r)| + 1..])
    {
      var out := Frame(r) + [NUL];
      forall i | 0 <= i < |out| {
        rs232Buffer[i] := out[i];
      }
    }

    /**
     * `mqtt_data_handler` as written: parse, check the nine fields, format
     * the frame into the buffer, write `strlen` bytes of the buffer to the
     * UART. Its callers must keep the frame inside the buffer.
     */
    method MqttDataHandler<J>(json: CString, lib: JsonLibrary<J>)
      requires Valid()
      requires UartFrame(lib, json).Some? ==> |UartFrame(lib, json).value| < RS232_BUFFER_SIZE
      modifies this, rs232Buffer
      ensures client == old(client) && clientsCreated == old(clientsCreated)
      ensures sdkCalls == old(sdkCalls)
      ensures WroteFrame(UartFrame(lib, json))
    {
      var root := lib.parse(json);
      if root.None? {
        return;
      }
      var record := Validate(root.value, lib.getObjectItem);
      if record.None? {
        return;
      }
      assert UartFrame(lib, json) == Some(Frame(record.value));
      FormatFrame(record.value);
      WriteFormatted(Frame(record.value));
    }

    /**
     * `uart_write_bytes(UART_PORT, rs232_buffer, strlen(rs232_buffer))` once
     * `frame` has been formatted into the buffer: the write is the frame.
     */
    method WriteFormatted(ghost frame: CString)
      requires |frame| < rs232Buffer.Length && rs232Buffer[..|frame| + 1] == frame + [NUL]
      modifies this
      ensures uartWrites == old(uartWrites) + [frame]
      ensures client == old(client) && clientsCreated == old(clientsCreated)
      ensures sdkCalls == old(sdkCalls)
    {
      StrLenOfTerminated(rs232Buffer[..], frame);
      var n := StrLen(rs232Buffer[..]);
      assert rs232Buffer[..n] == (frame + [NUL])[..n];
      uartWrites := uartWrites + [rs232Buffer[..n]];
    }

    /**
     * `mqtt_data_handler` with the bound check added before the `sprintf`:
     * a frame that would not fit is dropped like a rejected message. It is
     * defined for every input, and wherever the firmware's version stays in
     * bounds it does exactly what that version does.
     */
    method MqttDataHandlerChecked<J>(json: CString, lib: JsonLibrary<J>)
      requires Valid()
      modifies this, rs232Buffer
      ensures client == old(client) && clientsCreated == old(clientsCreated)
      ensures sdkCalls == old(sdkCalls)
      ensures WroteFrame(UartFrameChecked(lib, json))
    {
      var root := lib.parse(json);
      if root.None? {
        return;
      }
      var record := Validate(root.value, lib.getObjectItem);
      if record.None? {
        return;
      }
      if |Frame(record.value)| >= rs232Buffer.Length {
        return;
      }
      assert UartFrameChecked(lib, json) == Some(Frame(record.value));
      FormatFrame(record.value);
      WriteFormatted(Frame(record.value));
    }

    /**
     * `mqtt_app_start`: a new client is created, registered for every MQTT
     * event and started, and the global `client` is overwritten with it.
     */
    method MqttAppStart()
      modifies this
      ensures client == Some(old(clientsCreated)) && clientsCreated == old(clientsCreated) + 1
      ensures sdkCalls == old(sdkCalls) + [EspMqttClientInit(old(clientsCreated)),
                                           EspMqttClientRegisterEvent(old(clientsCreated)),
                                           EspMqttClientStart(old(clientsCreated))]
      ensures uartWrites == old(uartWrites)
    {
      var handle := clientsCreated;
      clientsCreated := clientsCreated + 1;
      sdkCalls := sdkCalls + [EspMqttClientInit(handle)];
      client := Some(handle);
      sdkCalls := sdkCalls + [EspMqttClientRegisterEvent(handle), EspMqttClientStart(handle)];
    }

    /**
     * `mqtt_event_handler`, carrying out `MqttActions`: the subscribe goes
     * through the global `client`, and a data event runs the JSON handler
     * on the truncated payload.
     */
    method OnMqttEvent<J>(e: MqttEvent, lib: JsonLibrary<J>)
      requires Valid()
      modifies this, rs232Buffer
      ensures client == old(client) && clientsCreated == old(clientsCreated)
      ensures MqttActions(e) == [] ==>
                sdkCalls == old(sdkCalls) && uartWrites == old(uartWrites)
                && rs232Buffer[..] == old(rs232Buffer[..])
      ensures MqttActions(e) == [Subscribe(MQTT_TOPIC, 0)] ==>
                sdkCalls == old(sdkCalls) + [EspMqttClientSubscribe(client, MQTT_TOPIC, 0)]
                && uartWrites == old(uartWrites) && rs232Buffer[..] == old(rs232Buffer[..])
      ensures |MqttActions(e)| == 1 && MqttActions(e)[0].HandleJson? ==>
                sdkCalls == old(sdkCalls) && WroteFrame(UartFrameChecked(lib, MqttActions(e)[0].json))
    {
      match e
      case MqttConnected =>
        sdkCalls := sdkCalls + [EspMqttClientSubscribe(client, MQTT_TOPIC, 0)];
      case MqttDisconnected =>
      case MqttData(data) =>
        var json := JsonString(data);
        MqttDataHandlerChecked(json, lib);
      case MqttOther(_) =>
    }

    /**
     * `wifi_event_handler`, carrying out `WifiActions`: a connect request,
     * or a fresh MQTT client in place of the old one, or nothing.
     */
    method OnWifiEvent(e: WifiEvent)
      modifies this
      ensures WifiActions(e) == [] ==>
                client == old(client) && clientsCreated == old(clientsCreated)
                && sdkCalls == old(sdkCalls) && uartWrites == old(uartWrites)
      ensures WifiActions(e) == [Connect] ==>
                client == old(client) && clientsCreated == old(clientsCreated)
                && sdkCalls == old(sdkCalls) + [EspWifiConnect] && uartWrites == old(uartWrites)
      ensures WifiActions(e) == [StartMqtt] ==>
                client == Some(old(clientsCreated)) && clientsCreated == old(clientsCreated) + 1
                && sdkCalls == old(sdkCalls) + [EspMqttClientInit(old(clientsCreated)),
                                                EspMqttClientRegisterEvent(old(clientsCreated)),
                                                EspMqttClientStart(old(clientsCreated))]
                && uartWrites == old(uartWrites)
    {
      if e.id == StaStart {
        sdkCalls := sdkCalls + [EspWifiConnect];
      } else if e.id == StaDisconnected {
        sdkCalls := sdkCalls + [EspWifiConnect];
      } else if e.id == StaGotIp {
        MqttAppStart();
      }
    }
  }
}
