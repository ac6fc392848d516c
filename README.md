# parasite-scanner core, modelled in Dafny

parasite-scanner listens for the BLE advertisements of b-parasite soil and
environment sensors. It decodes each payload into a reading (`ParasiteData`)
and drops re-broadcasts, using the 4-bit wrap-around counter the firmware puts
into every advertisement. The readings go to subscribers such as the terminal
UI. The UI keeps the last readings of every device in a 1000-slot
`container/ring` and plots a window of them. The YAML configuration adds a
display name per device, which gives the MQTT state topics.

This project models that core:

| file | models |
|---|---|
| `wrappers.dfy` | `Option`, `Result` and `Outcome` |
| `ascii.dfy` | `strings.ToLower`, a one-character `strings.Replace` and `strings.HasPrefix`, on ASCII |
| `data.dfy` | `ParasiteData`, with its measurements kept as the payload's integers |
| `ble.dfy` | `decodeSign`, `getKey` (with the `%02x:…` MAC text and its parser) and `parseParasiteData` |
| `scanner.dfy` | the scan callback of `ParasiteScanner.Run`: address filter, parsing, counter deduplication |
| `history.dfy` | one device's ring (`Ring`), the collecting loop of `plotRecentData` and its window, and the `seenKeys` search |
| `tui.dfy` | the `TUI` state of `tui.go`: DB of rings, `seenKeys`, `selectedKeyIndex`; the data case, the `j`/`k` keys and `refreshData` without drawing |
| `ui.dfy` | the data case of `ui.go`, which skips a reading whose counter repeats the newest stored one, related to the scanner's deduplication |
| `config.dfy` | `NormalizedName`, the five topic builders, `ValidateMQTTParasiteConfig` and the registry loop of `ParseConfig` |

Each mutable entity of the source is a class whose methods change its fields.
These are the scanner with its `lastCounter` map, the ring, and the TUI with
its DB, key list and selection. Each class carries ghost state that says what
it holds: the readings parsed and emitted so far, every reading written into a
ring, and every reading stored per key. The methods are proved against
functions of that ghost state, and the lemmas state what those functions
promise.

Three facts about the code shape the model:

- `getKey` prints payload bytes 10..15 as six two-digit lower-case hex pairs.
  `MACAddressPrefix` is never read.
- `parseParasiteData` reads one fixed payload layout, without soil moisture:
  temperature at bytes 6–7 (signed tenths of a degree), humidity at 8, battery
  percentage at 9, battery millivolts at 10–11, counter in the low nibble of
  12.
- `BLEConfig` in `config.go` has no `VendorPrefix` field, yet the scan callback
  reads one. The model's `BleConfig` holds the two fields the scanner reads:
  `vendorPrefix` and `inferMacAddress`.

## Model

| member | source | states |
|---|---|---|
| Ascii.ToLower | ble.go:39 | the result has the same length, has no upper-case letter, and lowers each character in place |
| Ascii.ToLowerIdempotent | config.go:91 | lowering an already lowered key changes nothing |
| Ascii.HasPrefix | ble.go:101 | `strings.HasPrefix`: true exactly when the prefix is no longer than the string and agrees with it character by character |
| Ascii.ReplaceAll | config.go:20 | every occurrence of the character is replaced, nothing else changes, and the old character no longer occurs |
| Data.ParasiteData.BatteryVoltage | ble.go:85 | the voltage in volts times 1000 is the millivolt field |
| Data.ParasiteData.TempCelsius | ble.go:86 | the temperature in degrees times 10 is the tenths field |
| Ble.BigEndian16 | ble.go:85-86 | `binary.BigEndian.Uint16`: the value is in 0..65535, its high byte is the first byte and its low byte the second |
| Ble.DecodeSign | ble.go:61-67 | the result is in -32768..32767 and is congruent to the input modulo 65536 (two's complement) |
| Ble.DecodeSignRoundTrip | ble.go:61-67 | DecodeSign and the 16-bit two's-complement encoding are inverse in both directions |
| Ble.IsEnvironmentalSensing | ble.go:77 | the service UUID is the 16-bit UUID 0x181A (`Is16Bit() && Get16Bit() == 0x181a`) |
| Ble.HexByte | ble.go:57 | `%02x` of one byte is two characters; HexByteRoundTrip and HexByteCanonical fix which ones |
| Ble.HexByteRoundTrip | ble.go:57 | parsing the two hex digits of a byte gives the byte back |
| Ble.HexByteCanonical | ble.go:57 | every two-digit lower-case hex text is the `%02x` of the byte it parses to |
| Ble.FormatMac | ble.go:57 | the `%02x:%02x:…` text of six bytes is 17 characters long |
| Ble.MacRoundTrip | ble.go:57 | parsing the formatted MAC address gives back its six bytes |
| Ble.MacCanonical | ble.go:57 | every accepted MAC text is the formatted text of the bytes it parses to |
| Ble.FormatMacIsLower | ble.go:57 | a formatted MAC address has no upper-case letter |
| Ble.GetKey | ble.go:38-59 | without inference, or when the address is not 36 characters long, the key is the lower-cased address; with a 36-character address, the key is that address lower-cased when the payload is under 16 bytes, and otherwise the MAC text of payload bytes 10..15; the key is always lower case |
| Ble.GetKeyExample | ble.go:56-57 | payload bytes f0 ca f0 ca 0a 1e give the key "f0:ca:f0:ca:0a:1e" |
| Ble.DecodeFields | ble.go:81-90 | the decoded counter is byte 12's low nibble; humidity is byte 8 and battery percentage byte 9; millivolts are the big-endian bytes 10–11; the temperature is the signed big-endian bytes 6–7; the key and RSSI are passed through |
| Ble.DecodeEncode | ble.go:81-90 | decoding the payload of any reading in the payload's ranges gives the reading back |
| Ble.EncodeDecode | ble.go:83-87 | re-encoding a decoded payload reproduces bytes 6..11 and byte 12's low nibble |
| Ble.ParseParasiteData | ble.go:69-91 | any service-data count other than 1 is an error; so is a UUID other than the 16-bit 0x181A and a payload shorter than 13 bytes; otherwise the result is the decoded reading under GetKey's key, and success holds exactly then |
| Ble.GuardsAsWritten | ble.go:70-79 | the checks as written pass exactly when there is one service data with the 16-bit UUID 0x181A, whatever the payload length |
| Ble.ParseKeepsGuards | ble.go:70-79 | where the checks as written fail, the parser fails with the same error; where they pass on a payload of at least 13 bytes, it succeeds |
| Ble.ShortPayloadPassesGuards | ble.go:70-87 | a 12-byte Environmental Sensing payload passes both checks of the code; the corrected parser rejects it as too short |
| Ble.ParseExample | ble.go:69-91 | a worked payload decodes to 21.5 degrees, 56 % humidity, 87 % battery, 2900 mV and counter 7 |
| Scanner.IsDuplicate | ble.go:107 | the key has a recorded counter and it equals the reading's counter |
| Scanner.ReplayIsPreviousCounter | ble.go:107-111 | the counter map holds a key exactly when the key has had a reading, with the counter of that key's latest reading |
| Scanner.DedupAcceptsChangedCounters | ble.go:107-111 | a reading is let through exactly when its key's previous reading had another counter or there was none; other keys' readings in between do not matter |
| Scanner.SingleDeviceDedup | ble.go:107-111 | for one device, a reading is let through exactly when it is the first one or its counter differs from the one before |
| Scanner.EmittedLength | ble.go:107-112 | the emitted readings are no more than the parsed ones and are all among them |
| Scanner.NextModDiffers | ble.go:83 | consecutive counter values modulo 16 differ |
| Scanner.CyclingAccepted | ble.go:83 | a device counting 0..15 round and round has each new reading let through |
| Scanner.WrappingCounterNeverDropped | ble.go:107-111 | such a device has every broadcast emitted, in order |
| Scanner.ParasiteScanner.constructor | ble.go:22-28 | the counter map starts empty, with nothing parsed or emitted |
| Scanner.ParasiteScanner.OnScanResult | ble.go:100-115 | an address without the vendor prefix is filtered, and a parse failure is rejected with its error; both change nothing; a parsed reading is recorded, then dropped if it repeats its key's last counter, else sent while the counter map and the emitted sequence are updated; the counter map always equals the replay of the parsed readings |
| History.Recent | tui.go:236-240 | the window holds min(n, available) elements |
| History.RecentIsSuffix | tui.go:240 | the window is a suffix of the series: the newest points, in order |
| History.RecentOfRecent | tui.go:233-240 | cutting the collected series to the plot width is one window of min(999, width - 5) |
| History.LayoutAppend | tui.go:185-186 | writing at the cursor and stepping forward drops the oldest slot and appends the new reading |
| History.LayoutHoldsRecent | tui.go:13 | a ring holds the last 1000 readings, oldest first |
| History.LayoutTailHoldsRecent | tui.go:225-231 | skipping the cursor slot leaves the last 999 readings, oldest first |
| History.LayoutLast | tui.go:138 | the slot before the cursor holds the newest reading, or nothing for an unwritten ring |
| History.Next | tui.go:186 | `ring.Next` on slot indices: the following slot, wrapping from 999 to 0 |
| History.Prev | tui.go:138 | `Prev` is the inverse of `Next` on slot indices |
| History.Ring.constructor | tui.go:183 | a new ring has 1000 empty slots and no readings |
| History.Ring.Put | tui.go:185-186 | the reading is written at the cursor, which moves to the next slot; the ring stays the layout of its history plus the reading |
| History.Ring.Newest | tui.go:138 | `r.Prev().Value` is the newest reading written, nil for a fresh ring |
| History.Ring.Collect | tui.go:222-231 | the loop from `r.Next()` round to `r` collects the last 999 readings, oldest first |
| History.PlotRecentData | tui.go:221-242 | the plotted series is the last min(999, width - 5) readings, oldest first |
| History.SeenBefore | tui.go:190-195 | the loop finds the key exactly when the key list contains it |
| Tui.Tui.constructor | tui.go:40-53 | empty DB, no keys, selection -1 |
| Tui.Tui.Extend | tui.go:181-186 | a known key's ring gets the reading, and the other rings stay as they were |
| Tui.Tui.Adopt | tui.go:183-186 | a new ring is stored under an unknown key, and nothing else changes |
| Tui.Tui.Insert | tui.go:181-186 | an unknown key gets a fresh ring holding only this reading |
| Tui.Tui.OnData | tui.go:180-198 | the reading is appended to its key's history, which is created if absent; the key is listed once, on first sight; the selection moves from -1 to 0; the rings stay valid and distinct, and the keys stay listed once each |
| Tui.Tui.SelectNext | tui.go:167-172 | `j` moves the selection down unless it is on the last key |
| Tui.Tui.SelectPrevious | tui.go:173-178 | `k` moves the selection up unless it is on the first key |
| Tui.Tui.RefreshData | tui.go:126-156 | the selected device's plotted points are the last min(999, width - 5) of its history; each table row is the newest reading of the seen key at that position |
| Ui.Repeats | ui.go:183 | the key has a stored, non-empty history whose newest reading has the incoming counter |
| Ui.Step | ui.go:177-197 | a reading that repeats its key's newest counter leaves the DB unchanged; any other is appended to its key's history, and other keys keep theirs |
| Ui.StepKeepsNoRepeatedCounters | ui.go:181-186 | storing one reading keeps every history free of neighbouring equal counters |
| Ui.StoredFollowsScanner | ui.go:181-186 | after any run, the stored keys are the scanner's keys, and each history ends with the counter the scanner's map holds |
| Ui.SameDecisionAsScanner | ui.go:181-186 | ui.go skips a reading exactly when the scanner's deduplication (ble.go:107-110) would drop it |
| Ui.ReplayOfEmitted | ble.go:107-112 | replaying only the readings the scanner sends gives the same counter map as replaying every parsed reading |
| Ui.NeverFiresBehindScanner | ui.go:181-186 | fed the scanner's output, ui.go never skips a reading the scanner sends on |
| Ui.StoredHasNoRepeatedCounters | ui.go:181-186 | no stored history holds two neighbouring readings with the same counter |
| Ui.OnData | ui.go:177-200 | the reading is stored exactly when it does not repeat its key's newest counter; the stored state is Step of the old one; a skipped reading leaves the key list and the selection untouched |
| Config.NormalizedName | config.go:19-21 | same length, no space and no upper-case letter; each space becomes `_`, and every other character is lowered |
| Config.NormalizedNameIdempotent | config.go:19-21 | normalising a normalised name changes nothing |
| Config.StateTopic | config.go:17 | the `kBaseMQTTTopic` text: the fixed prefix, then `device_metric`, then `/state`, with the total length that gives |
| Config.TopicDevice | config.go:17 | a topic yields a device exactly when it has the fixed prefix and the `_<metric>/state` ending |
| Config.TopicDeviceOfStateTopic | config.go:17 | the device read back from a built topic is the device it was built for |
| Config.StateTopicOfTopicDevice | config.go:17 | a topic a device is read from is the state topic of that device |
| Config.SoilMoistureTopic | config.go:23-25 | the topic is the state topic of the normalised name for `soil_moisture` |
| Config.TemperatureTopic | config.go:27-29 | the topic is the state topic of the normalised name for `temperature` |
| Config.HumidityTopic | config.go:31-33 | the topic is the state topic of the normalised name for `humidity` |
| Config.BatteryVoltageTopic | config.go:35-37 | the topic is the state topic of the normalised name for `battery_voltage` |
| Config.RssiTopic | config.go:39-41 | the topic is the state topic of the normalised name for `rssi` |
| Config.TailChars | config.go:17 | if `_m1` ends `_m2`, the two end in the same character, are equal when equally long, and otherwise `m2` has `_` just before the shared tail |
| Config.MetricTails | config.go:23-41 | where an underscore in one metric name leaves room for a shorter metric, the two end in different characters |
| Config.MetricsSuffixFree | config.go:23-41 | no metric, with its `_`, is a proper ending of another |
| Config.StateTopicMiddle | config.go:17 | a state topic carries `device_metric` between the fixed prefix and `/state` |
| Config.JoinedNeverCollide | config.go:17 | `device_metric` determines both parts when neither metric ends the other |
| Config.TopicsNeverCollide | config.go:17-41 | two topics are equal only for the same device and metric: a device's five topics are distinct, and distinct names share no topic |
| Config.ValidateMqttParasiteConfig | config.go:64-69 | validation fails exactly when the name is empty, and the error is "missing name" |
| Config.LowerKeysGrow | config.go:91 | adding a key adds its lower-case form |
| Config.KeysMovedStep | config.go:89-92 | moving one entry keeps unvisited keys as decoded and puts visited ones under their lower-case form |
| Config.MovedNamedStep | config.go:86-92 | every moved entry has passed validation |
| Config.ValuesKeptStep | config.go:89-92 | without keys differing only in case, moving an entry overwrites no other entry |
| Config.AllMoved | config.go:85-94 | after the loop, the keys are the lower-cased registry keys and every entry is named |
| Config.NormalizeRegistry | config.go:85-94 | on success, the keys are the lower-cased registry keys and every entry has a name; a failure reads `<key>: missing name` for some registry key; with no keys differing only in case, success holds exactly when every entry is named, each config sits under its lower-cased key, and a failure names a key whose name is empty |

## Left out

- I/O: the BLE adapter, the channel send to subscribers, logging and the `panic`s on adapter errors. Readings reach the model as method arguments.
- Terminal drawing: widgets, `Render`, `Close`, event polling, quitting on `q`. Table formatting (`%5.1fC`, "s ago") is left out too; `RefreshData` returns the readings behind the table rows.
- The five plot getters of `refreshData`. The model returns the readings the plots are built from. The getters only project one float field each.
- Time: `ParasiteData.Time`, `time.Now()` and the "ago" column.
- Floating point: the measurements are kept as the payload's integers. `BatteryVoltage` and `TempCelsius` give the exact real scalings, not float64 rounding.
- ui.go's soil-moisture plot and column: `ParasiteData` in data.go has no soil-moisture field, so they have nothing to read.
- `DumpDB`: logging only.
- `Ingest` and the goroutine around `Run`: concurrency is not modelled. Each call models one step of the select loop.
- The exporter, mqtt.go, the metrics dispatcher and the main programs are not part of this model.
- YAML decoding and file opening in `ParseConfig`. A registry entry with a nil config (an empty YAML value) is not modelled. The model starts from the decoded registry map.
- Go's map iteration may visit a moved entry again. Doing so validates it again and moves it onto itself, which changes nothing, so such visits are not repeated in the loop.
- Strings are ASCII only. `strings.ToLower` is modelled on `A`..`Z`.
- Ring: the `container/ring` linked list is modelled as a sequence of 1000 slots plus a cursor index. `Next`/`Prev` on elements become index arithmetic. Pointer aliasing between ring elements is not modelled.
- Tui.Tui.OnData: the key list and selection are updated before the ring, whereas the source updates the ring first. These touch separate state, so the final state is the same.
- History.PlotRecentData and Tui.Tui.RefreshData require a plot width of at least 5. Below that, the source's slice bounds are reversed and it panics.
- Tui.Tui.RefreshData requires at least one seen key. Before any data, `tui.seenKeys[-1]` panics in the source.
- Ble.GetKey requires a service data entry when inference applies. `GetServiceDatas()[0]` panics otherwise, and `parseParasiteData` calls it only after checking for exactly one.

## Findings

| source | as written | input that shows it | evidently intended | confidence | as-written member | corrected member |
|---|---|---|---|---|---|---|
| ble.go:83-87 | `parseParasiteData` checks only the service-data count and the UUID, then reads bytes 6..12 of the payload | one Environmental Sensing service data with a 12-byte payload: both checks pass and `Data[12]` is out of range, so the scan callback panics | a payload shorter than 13 bytes is reported as a parse error, like the other malformed advertisements | not executed | Ble.GuardsAsWritten, Ble.ShortPayloadPassesGuards | Ble.ParseParasiteData |
