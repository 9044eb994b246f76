# Temperature probe and display controller (ESP8266) — Dafny model

The sketch samples a temperature sensor and publishes a reading to an MQTT broker once per interval.
It also drives a 4-digit display. Messages on the broker can set the display's brightness, choose which
topic the display watches, and supply the number to show.

This project models the three parts of the sketch that keep state or compute something:

- `callback`, the inbound-message router. Module `Router`. The class `DisplayController` holds the globals
  `displayNumber` and `display_topic_value` and the brightness last handed to the display. A ghost log
  records every `setBrightness` and `showNumberDec` call. Its method `Callback` is proved equal to the pure
  function `Dispatch`, and the lemmas state the behaviour of `Dispatch` clause by clause and over whole
  sequences of messages (`Run`).
- The append loop that turns the payload bytes into `message`. Module `Message`. `BuildMessage` is the loop,
  proved against the recursive reference `PayloadText`, and `TextBytes` is its inverse.
- The interval check in `loop` and the telemetry text it publishes. Module `Telemetry`. The class
  `Scheduler` holds `previousMillis` (an `unsigned long`, so values are kept modulo 2^32) and a ghost log of
  published messages. `TelemetryPayload` is the string built on line 181.

Library routines the model cannot see are passed in as parameters:

- `String::toFloat() * 100` truncated to `int` is a function parameter `toFloatTimes100: string -> int32`.
- `String(temperatureC)` is a parameter `tempText`, and `WiFi.macAddress()` is a parameter `mac`.
- `millis()` is a parameter `currentMillis`, and the clock value when the global initialiser of
  `previousMillis` ran is `bootMillis`.

`setBrightness` takes a `uint8_t`. The `int` value `payload[0] - '0'` (from -48 to 207) therefore reaches the
driver reduced modulo 256, and the log records that byte (`ToByte`). `LevelOf` states the range of the `int`
value, and that it lies in 0..9 exactly when the first byte is an ASCII digit.

## Model

| member | source | states |
|---|---|---|
| `Message.PayloadText` | src/main.cpp:47-51 | the message has exactly as many characters as the payload has bytes |
| `Message.PayloadTextAt` | src/main.cpp:47-51 | character i of the message is `(char)payload[i]` |
| `Message.BuildMessage` | src/main.cpp:47-51 | the append loop yields length `length` and character i equal to `(char)payload[i]`, i.e. `PayloadText(payload)` |
| `Message.TextBytes` | src/main.cpp:48-51 | the inverse of the conversion keeps the length |
| `Message.PayloadTextRoundTrip` | src/main.cpp:48-51 | every message built from bytes holds only one-byte characters, and converting it back gives the payload |
| `Message.TextBytesRoundTrip` | src/main.cpp:48-51 | every text of one-byte characters is the message of its own bytes |
| `Message.PayloadTextInjective` | src/main.cpp:47-51 | distinct payloads give distinct messages |
| `Message.MessageIsOff` | src/main.cpp:58 | `message == "off"` holds exactly when the payload is the bytes `o`, `f`, `f` |
| `Types.ToByte` | src/main.cpp:67 | the `int` to `uint8_t` conversion keeps values in 0..255 and otherwise gives the byte congruent to the value modulo 256 |
| `Types.WrapAdd` | src/main.cpp:24 | `unsigned long` addition: the plain sum when it is below 2^32, otherwise the sum minus 2^32 |
| `Router.BrightnessClause` | src/main.cpp:56-69 | the first clause never touches the number or the watched topic; off the brightness topic it does nothing, on it it makes exactly one `setBrightness` call and records its argument |
| `Router.Dispatch` | src/main.cpp:41-85 | `callback` as a function of the old state: its last display call is a render of the final number, and the watched topic changes only on the update topic, to the message |
| `Router.Run` | src/main.cpp:76-82 | successive `callback`s: the watched topic differs from the starting one only if some message came on the update topic |
| `Router.LevelOf` | src/main.cpp:64 | `payload[0] - '0'` lies in [-48, 207], and in 0..9 exactly when the first byte is an ASCII digit |
| `Router.DispatchOff` | src/main.cpp:56-61 | on the brightness topic, "off" gives `setBrightness(0, false)` and then one render; the watched topic is unchanged, and the number changes only if the brightness topic is also the watched one |
| `Router.DispatchLevel` | src/main.cpp:62-68 | on the brightness topic, any other payload gives `setBrightness(payload[0] - '0')` as a byte, with `on` true, then one render; the watched topic is unchanged |
| `Router.LevelExamples` | src/main.cpp:62-67 | in every state, "7xyz" sets brightness 7 and "Off" sets 31 |
| `Router.DispatchTopicUpdate` | src/main.cpp:76-82 | an update stores the message as the watched topic, sets the number to 0 and renders 0, even when the watched topic is the update topic itself |
| `Router.DispatchWatched` | src/main.cpp:71-74 | a message on the watched topic (other than the two control topics) shows `toFloat() * 100` of its text and changes nothing else |
| `Router.DispatchUnmatched` | src/main.cpp:56-84 | a message that no clause matches leaves the whole state unchanged and only re-renders the current number |
| `Router.DispatchRendersOnce` | src/main.cpp:84 | every dispatch renders exactly once, as its last call, with the final number, after at most one brightness call (present exactly on the brightness topic) |
| `Router.RunWatchesLastUpdate` | src/main.cpp:76-82 | after any sequence of messages, the watched topic is the text of the last topic-update message, or the starting topic if there was none |
| `Router.NothingShownUntilConfigured` | src/main.cpp:25-26 | from start-up, messages with non-empty topics and no topic update leave the number 0 and the watched topic empty |
| `Router.RunShowsOnlyWatchedValues` | src/main.cpp:71-82 | from start-up, the number shown is always 0 or the scaled value of a message received on the topic that is now watched |
| `Router.DisplayController.constructor` | src/main.cpp:25-26 | the state starts with number 0, an empty watched topic, no brightness call and an empty call log |
| `Router.DisplayController.UpdateDisplay` | src/main.cpp:36-39 | a render of the current `displayNumber` is logged |
| `Router.DisplayController.SetBrightness` | src/main.cpp:60-67 | the brightness argument is recorded and logged |
| `Router.DisplayController.Callback` | src/main.cpp:41-85 | the fields after the call and the display calls it makes are those of `Dispatch` on the old state |
| `Telemetry.TelemetryPayload` | src/main.cpp:181 | the payload has the fixed frame `{ "temp":` … `.esp8266"}`, and its length is the frame length plus the lengths of the two fields |
| `Telemetry.TelemetryFields` | src/main.cpp:181 | the temperature text and the MAC address can be read back from their positions in the payload |
| `Telemetry.TelemetryPayloadInjective` | src/main.cpp:181 | temperature texts of equal length give equal payloads only for equal fields |
| `Telemetry.TelemetryExample` | src/main.cpp:181 | 18.00 from AA:BB:CC:DD:EE:FF gives `{ "temp":18.00, "deviceId": "AA:BB:CC:DD:EE:FF.esp8266"}` |
| `Telemetry.Fires` | src/main.cpp:172 | the interval condition as written, on the wrapped sum; a clock reading of 0 never satisfies it |
| `Telemetry.FiresWithoutWrap` | src/main.cpp:172 | when `previousMillis + INTERVAL` does not wrap, the check fires exactly when more than 1000 ms have passed |
| `Telemetry.FiresWhenSumWraps` | src/main.cpp:172 | when the sum wraps, the check fires for every clock value above the wrapped sum |
| `Telemetry.NeverFiresAgain` | src/main.cpp:172-174 | with `previousMillis == 2^32 - 1001`, no clock value makes the check fire |
| `Telemetry.ElapsedFiresAfter` | src/main.cpp:172 | the wrap-safe check fires exactly when more than 1000 ms have elapsed since `previousMillis`, for every `previousMillis` |
| `Telemetry.ElapsedFiresAgrees` | src/main.cpp:172 | where neither the sum nor the clock wraps, the wrap-safe check and the check as written agree |
| `Telemetry.Scheduler.constructor` | src/main.cpp:24 | `previousMillis` starts at `millis() + INTERVAL`, modulo 2^32 |
| `Telemetry.Scheduler.Loop` | src/main.cpp:171-183 | the check fires exactly when `currentMillis > (previousMillis + 1000) mod 2^32`; on a fire `previousMillis` becomes `currentMillis` and exactly one message goes to `beer/temp/reading` with the telemetry payload; otherwise nothing changes |

## Findings

| source | as written | input that shows it | evidently intended | confidence | as-written member | corrected member |
|---|---|---|---|---|---|---|
| src/main.cpp:172 | `currentMillis > previousMillis + INTERVAL`, where the sum wraps modulo 2^32 | a fire at `millis() == 4294966295` sets `previousMillis` to that value; the sum is then 4294967295, no `unsigned long` exceeds it, and no reading is ever published again (for slightly smaller values, publishing pauses for about 49.7 days unless a loop pass lands in the last few milliseconds before the wrap) | fire once more than `INTERVAL` ms have elapsed, i.e. `currentMillis - previousMillis > INTERVAL` | high; not executed | `Telemetry.NeverFiresAgain` | `Telemetry.ElapsedFiresAfter` |

`Telemetry.Scheduler.Loop` keeps the check as written, because it models what the sketch does.
`ElapsedFires` is the corrected check. `ElapsedFiresAgrees` shows it behaves the same wherever no wrap-around occurs.

## Left out

- `averageTemperature` (src/main.cpp:122-135): a float sum divided by 10 over library readings. Float rounding is not modelled, and its text form enters only as `tempText`.
- `connectToNetwork`, `reconnect`, `preLoop` and `setup` (src/main.cpp:87-165): unbounded blocking retry loops that poll WiFi and broker status, with no termination measure. This includes the `client.subscribe("beer/display/#", 1)` on connect and the `setBrightness(4)` in `setup`.
- Topic wildcard matching for `beer/display/#` is done by the broker and the MQTT library. The model takes each delivered message's topic as given.
- `String::toFloat` and the float-to-`int` truncation: abstract, passed in as `toFloatTimes100`. Its type `int32` assumes the product fits in an `int`, where the C++ conversion would otherwise be undefined.
- TM1637 rendering (`showNumberDec`) and what `setBrightness` does with its arguments. For `setBrightness` both arguments are recorded. For `showNumberDec(displayNumber, false, 4, 0)` only the number is recorded, because the other three arguments are constants.
- `Serial` output, `delay`, `client.loop()`, `client.publish`'s own behaviour (the model records the message handed to it), and the EEPROM and Wire includes.
- Topics are C strings of raw bytes. The model takes a topic as text with one character per byte, as `PayloadText` does for payloads, so that topic comparisons match the byte comparisons of the sketch. A caller who gives a non-ASCII topic as Unicode characters rather than as its bytes is outside the model.
- Arduino `String` equality compares with `strcmp`, so a payload with an embedded NUL byte can compare equal to a shorter text. The model compares whole character sequences.
- `Router.DisplayController.Callback`: requires a non-empty payload on the brightness topic, because `payload[0]` is read even when `length == 0`. That read goes past the message, and its value is not determined by the message.
- The `Run` lemmas fold `Dispatch` over a sequence of messages. They describe the state only, not the display-call log of a whole sequence; the per-message call log is stated by `Router.DispatchRendersOnce` and `Router.DisplayController.Callback`.
