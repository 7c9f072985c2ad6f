# opcua_mqtt_uart: MQTT-to-RS-232 bridge, modelled in Dafny

The firmware (`main/main.c`, ESP-IDF) subscribes to one MQTT topic. For
every message it receives, it checks nine string fields and forwards them
over a UART as one RS-232 frame. The frame is `0x02`, then the nine values
separated by `'`, then `0x0D`. This project models the logic of that file
and proves properties of it:

- `CStrings` (`c_strings.dfy`): bytes, C strings, `strlen`, and the
  precision-bounded `%.*s` copy.
- `Json` (`json.dfy`): the cJSON calls the handler makes, kept abstract.
  `cJSON_Parse` and `cJSON_GetObjectItem` are function-valued parameters,
  and the parse tree is a type parameter.
- `Telemetry` (`telemetry.dfy`): the nine-field check of
  `mqtt_data_handler` and the frame built by the `sprintf` at line 76. It
  also has the receiver-side split and proves the round trip in both
  directions.
- `Events` (`events.dfy`): `mqtt_event_handler` and `wifi_event_handler`
  as total functions from an event to the requests they make, and the
  truncation of the MQTT payload into the 256-byte `json_str`.
- `Bridge` (`bridge.dfy`): the global state as a class. It holds the
  128-byte `rs232_buffer` (an array filled in place), the MQTT `client`
  handle that `mqtt_app_start` overwrites, and ghost records of every
  `uart_write_bytes` call and every SDK call. Its methods are proved
  against the functions of the other modules.

Neither handler keeps a link or session state variable, so the model has
none. Each DATA event is handled on its own, chunks of a fragmented
message included, as the code does.

The model follows the code in these points:

- Validation returns a single generic rejection. It does not report a
  missing or wrongly typed field by name.
- The serial field order is the one at line 76: deviceID, currentQty,
  status, deviceType, setQty, temp, bootTime, runningTime, errocode. This
  differs from the lookup order at lines 49-57.
- The frame length is never checked; see Findings.
- The JSON key `errocode` keeps the code's spelling.

## Model

| member | source | states |
|---|---|---|
| CStrings.StrLen | main/main.c:79 | `strlen` is the index of the first NUL: everything before it is NUL-free, and the byte there is NUL unless the end of the buffer is reached |
| CStrings.StrLenOfTerminated | main/main.c:76-79 | after a NUL-free string and its terminator are formatted into a buffer, `strlen` of the buffer is that string's length |
| CStrings.CopyBounded | main/main.c:102 | `%.*s` with a precision copies the longest NUL-free prefix of the source that is no longer than the precision |
| CStrings.CopyBoundedIsCutPrefix | main/main.c:102 | that copy equals the source cut to the precision and then at its first NUL |
| Events.JsonString | main/main.c:101-102 | the string left in `json_str` is a C string shorter than the 256-byte buffer |
| Events.JsonStringIsCutPrefix | main/main.c:99-103 | the handler receives the first min(data_len, 255) payload bytes, cut at the first NUL; a NUL-free payload of at most 255 bytes arrives whole |
| Events.MqttActions | main/main.c:87-109 | CONNECTED gives exactly one subscribe to "esp32_data" at QoS 0; DATA gives exactly one call of the JSON handler on the truncated payload; DISCONNECTED and every other id only log |
| Events.WifiActions | main/main.c:124-134 | STA_START and STA_DISCONNECTED each give one connect; GOT_IP gives one MQTT start; any other id does nothing |
| Events.WifiActionsIgnoreBase | main/main.c:124-133 | the event base is never examined: two events with the same id act alike |
| Telemetry.Validate | main/main.c:49-63 | accepts exactly when all nine keys are present and string-valued (both directions, no partial record, no distinction between missing and wrong type); each record field is the valuestring under its key |
| Telemetry.Frame | main/main.c:76 | the frame begins with STX, ends with CR, holds no NUL and is 10 bytes longer than the nine values together |
| Telemetry.FrameIsJoin | main/main.c:76 | the frame is STX, then the values in line-76 order joined by single quotes, then CR |
| Telemetry.FrameRoundTrip | main/main.c:76 | if no value contains `'`, removing STX and CR and splitting on `'` gives back exactly the framed record |
| Telemetry.FrameOfUnframe | main/main.c:76 | every byte string the receiver accepts is the frame of the record it yields, and that record's values are free of `'` |
| Telemetry.FrameEndsAreUnique | main/main.c:76 | if no value contains STX or CR, STX occurs only as the first byte and CR only as the last |
| Telemetry.SplitJoin | main/main.c:76 | splitting on the separator undoes joining when no part contains the separator |
| Telemetry.JoinSplit | main/main.c:76 | joining undoes splitting, for every byte string |
| Bridge.UartFrame | main/main.c:45-81 | as written: a frame is sent exactly when the payload parses and all nine fields are strings; it is the line-76 frame of those values, 10 bytes longer than the values |
| Bridge.UartFrameChecked | main/main.c:76 | corrected: the same frame, dropped when it would not fit in `rs232_buffer` with its NUL; equal to the unchecked result wherever that fits |
| Bridge.FrameFitsBuffer | main/main.c:21 | a frame and its NUL fit in the 128-byte buffer exactly when the nine values take at most 117 bytes |
| Bridge.UncheckedFrameOverflows | main/main.c:76 | an accepted NUL-free payload of at most 255 bytes whose values take 118 bytes or more reaches the handler whole, and its frame with NUL overruns `rs232_buffer` |
| Bridge.Bridge.constructor | main/main.c:21-26 | the initial state: a zeroed 128-byte buffer, a NULL client, nothing written |
| Bridge.Bridge.FormatFrame | main/main.c:76 | `sprintf` writes the frame and its NUL at the start of the buffer and leaves every later byte unchanged; the frame must fit |
| Bridge.Bridge.WriteFormatted | main/main.c:79 | the single `uart_write_bytes` of `strlen` bytes writes exactly the formatted frame |
| Bridge.Bridge.MqttDataHandler | main/main.c:45-81 | as written: on a parse failure or a failed field check, the buffer and the UART are untouched; otherwise exactly one UART write of the frame, with the buffer holding the frame, its NUL and its old tail |
| Bridge.Bridge.MqttDataHandlerChecked | main/main.c:45-81 | the same handler with the bound check added, defined for every input |
| Bridge.Bridge.MqttAppStart | main/main.c:112-121 | a new client is created, registered and started, and it overwrites the global `client` |
| Bridge.Bridge.OnMqttEvent | main/main.c:87-109 | carries out `MqttActions`: the subscribe uses the global `client`; a data event runs the JSON handler on the truncated payload; other events change nothing |
| Bridge.Bridge.OnWifiEvent | main/main.c:124-134 | carries out `WifiActions`: a connect request, a fresh MQTT client in place of the old one, or no change |

## Findings

| source | as written | input that shows it | evidently intended | confidence | as-written member | corrected member |
|---|---|---|---|---|---|---|
| main/main.c:76 | `sprintf` formats the frame into the 128-byte `rs232_buffer` with no length check, while `json_str` admits payloads of up to 255 bytes | the 245-byte payload `{"deviceType":"","deviceID":"AAA…A","currentQty":"","setQty":"","status":"","temp":"","bootTime":"","runningTime":"","errocode":""}` with 119 `A`s: its frame is 129 bytes, and `sprintf` writes 130 bytes into 128 | frames that do not fit the buffer are not formatted (or the buffer is large enough) | not executed; high for the arithmetic, assumes cJSON accepts the payload | Bridge.Bridge.MqttDataHandler with Bridge.UncheckedFrameOverflows | Bridge.Bridge.MqttDataHandlerChecked |

`Bridge.Bridge.OnMqttEvent` calls the corrected handler. On every payload
where the firmware's handler stays inside the buffer, the two handlers
behave identically (`Bridge.UartFrameChecked`). Elsewhere the firmware
writes past the end of the array, which has no defined result to model.

## Left out

- JSON parsing and key lookup (`cJSON_Parse`, `cJSON_GetObjectItem`) are parameters of the model. Their semantics are not fixed: cJSON's case-insensitive, first-match lookup is not modelled. `cJSON_Delete` and memory management are left out.
- The UART transmission is recorded as ghost state, one entry per `uart_write_bytes` call. The driver's behaviour and return value are not modelled; the code ignores the return value.
- Logging (`ESP_LOGI`, `ESP_LOGW`, `ESP_LOGE`) has no behavioural effect and is not modelled.
- `uart_init`, `wifi_init`, the NVS handling in `app_main`, the broker URI and the Wi-Fi credentials are SDK setup. Their only effect on the core is which events arrive.
- The Wi-Fi and MQTT calls are recorded as `SdkCall` values, not performed. A failed `esp_mqtt_client_init` returning NULL is not modelled; every call yields a new handle.
- Event ids are tags, not the SDK's numeric enum values, which are defined in headers outside this repository. Because `wifi_event_handler` compares only the id, an event from the Wi-Fi base could share its number with `IP_EVENT_STA_GOT_IP`. The model cannot express that coincidence.
- Concurrency between the Wi-Fi event loop and the MQTT task, which share `rs232_buffer` and `client`, is not modelled. Calls are treated as sequential.
- Bridge.Bridge.OnMqttEvent: uses the bounds-checked JSON handler, so it does not model the firmware's out-of-bounds write for oversized frames (see Findings).
