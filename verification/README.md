# pixel-poll in Dafny

A model of the pixel-poll voting firmware. The firmware has two sides:

- **The central**: a Raspberry Pi Pico with an LCD and a rotary encoder. It connects to
  up to `max_peers` voting controllers over Bluetooth LE, starts and ends vote rounds,
  tallies the votes and reflects each vote back to its controller.
- **The controller**: an ESP32 with two vote buttons and a row of LEDs. It advertises
  a GATT service, sends the pressed vote, and lights its LEDs according to the
  commands it receives.

Every component is an immutable record with pure step functions. A step returns the
new state together with the radio calls, deferred calls and redraws it issues, as
values. Python exceptions become `Result`/`Option` error outcomes. Python's floor
division, floor modulo, negative indexing and slice clamping are written out in
`Common`.

Modules (one per source component):

| module | models |
|---|---|
| `Common` | `Option`/`Result`, infix search (`in` on bytes), `list.remove`, Python `%`, `//`, indexing and slicing |
| `RingQueue` | `ThreadSafeQueue` (both identical copies): indices, `full`/`empty`/`qsize`, the non-blocking `get_sync`/`put_sync`, `get`/`put` as guarded steps |
| `Ble` | the abstract command, vote and UUID constants, scan modes, peer record, radio calls, `struct.pack("<h", 1)` |
| `CentralManager` | `BleVoteManager` in `ble_vote_manager.py`: the IRQ event handlers, `send`, `broadcast`, the book-keeping invariant, and the radio's scan state and pending connects around them |
| `LegacyManager` | the older `BleVoteManager` in `vote.py`: `_addr_to_conn`, connect status, `auto_connect`, `str` encoding, and MicroPython's `in` on array objects |
| `Advertising` | `_adv_payload`, the AD-structure encoder of section 11 of the Bluetooth Core Specification Vol 3 Part C, and a parser that inverts it for values shorter than 255 bytes |
| `Peripheral` | `BleVoteController`: advertising start with the `EALREADY` filter, connect/disconnect/write events, notify-with-eviction |
| `Rotary` | the quadrature decoder: transition tables, `_wrap`, `_bound`, `set`, `reset`, listeners, `_process_rotary_pins` |
| `FontBits` | `lit_bits` on 16-bit words |
| `Font` | `XglcdFont`: metrics, the text-file loader with its line cleanup, `get_letter` sizing and guard, `measure_text` |
| `Text` | decimal and zero-padded formatting, `str.strip`, `str.find`, `str.split` and its inverse `join`, UTF-8 encoding |
| `UiCore` | `Router` history, `Component.select`, `Page` focus and selection |
| `Widgets` | `get_page` tiling, `BackButton` geometry, `Card._get_as_portrait` and the `Card.display` layout arithmetic |
| `VoteSession` | `vote_session.py`: results and time strings, start/end/reset/spawn/tick with timers as booleans |
| `CentralApp` | `central/main.py`: the same round on globals, `consume_queue`, `on_rx`, encoder and button handlers |
| `ControllerApp` | `controller/main.py`: the command→LED dispatcher, button handlers, `_scheduled_send`, `on_rx` |
| `Debounce` | `get_db_button_irq` in `common/utils.py` |

Parameters stand in for what the model cannot see:

- **Radio outcomes**: which notifications fail, the error `gap_advertise` raises, and the order in which Python iterates a dict or set.
- **Time and pins**: millisecond tick values and pin levels.
- **Peer count**: the central's `num_peers()`.
- **Files**: the font file's lines.
- **Listener failures**: which listener raises.

## Model

| member | source | states |
|---|---|---|
| RingQueue.FromSize | src/common/threadsafe_queue.py:19-24 | an int `n` gives `n` zeroed slots with both indices 0; for `n > 0` the queue is well formed and holds nothing |
| RingQueue.FromList | src/common/threadsafe_queue.py:19-24 | a list is taken as the buffer as is, indices 0; a non-empty list gives an empty, well-formed queue |
| RingQueue.EmptyFullIffQSize | src/common/threadsafe_queue.py:36-46 | `empty()` iff `qsize() == 0` iff no item is held; `full()` iff `qsize() == size - 1` |
| RingQueue.QSizeIsDistance | src/common/threadsafe_queue.py:44-46 | `qsize()` is the forward distance from `ri` to `wi` around the ring |
| RingQueue.QSizeBounds | src/controller/threadsafe_queue.py:44-46 | `qsize()` always lies in `[0, size - 1]`: one slot stays free (the controller's copy is the same code as the common one) |
| RingQueue.PutSync | src/common/threadsafe_queue.py:59-67 | writes slot `wi` and no other slot; overflows iff the queue was full, then `wi` stays and the held items are unchanged; otherwise `wi` advances by one mod size and the item is appended at the back |
| RingQueue.GetSync | src/common/threadsafe_queue.py:48-57 | fails iff the queue is empty; otherwise returns the front item, advances `ri` by one mod size and leaves the rest in order |
| RingQueue.Get | src/common/threadsafe_queue.py:69-79 | the awaited `get` on a non-empty queue pops the front item |
| RingQueue.Put | src/common/threadsafe_queue.py:81-88 | the awaited `put` on a non-full queue never takes the overflow path and appends the item |
| RingQueue.PutAll | src/common/threadsafe_queue.py:59-67 | successive puts that fit append the items in order |
| RingQueue.GetAll | src/common/threadsafe_queue.py:48-57 | `n` successive gets return the first `n` held items and leave the rest |
| RingQueue.FifoOrder | src/common/threadsafe_queue.py:48-79 | items put into an empty queue come back out in insertion order, leaving it empty |
| RingQueue.OverflowAtCapacity | src/common/threadsafe_queue.py:59-64 | after `size - 1` puts into an empty queue it is full and the next `put_sync` overflows |
| Common.Contains | src/central/ble_vote_manager.py:124-135 | `needle in hay` on bytes is true iff the needle occurs contiguously in the hay |
| Common.RemoveFirst | src/central/ble_vote_manager.py:193-204 | `list.remove` drops exactly the first occurrence, and nothing when the value is absent |
| Common.FloorMod | src/central/encoder/rotary.py:62-69 | Python's `%`: `a == b * (a // b) + r`, with `r` taking the divisor's sign |
| Common.PyIndex | src/central/ui/core.py:91-97 | Python indexing: defined iff `-len <= i < len`, with negative indices counted from the end |
| Common.PyClamp | src/central/lcd/xglcd_font.py:110-112 | a slice bound is clamped into `[0, len]` after adding `len` to a negative bound |
| Ble.ScanArgs | src/central/ble_vote_manager.py:97-103 | a fast scan has a finite duration with a 50% window; a slow scan runs forever with a 5% window; a windowed scan has window equal to interval |
| Ble.PackI16LERoundTrip | src/central/vote.py:179-192 | `struct.pack("<h", v)` is inverted by reading it back, and packing 1 gives the notification-enable value `01 00` |
| Ble.NewPeer | src/central/ble_vote_manager.py:48-58 | a new peer has its address and connection handle and no resolved handles or service range |
| Ble.WriteEachOncePerTarget | src/central/ble_vote_manager.py:116-119 | a write to each handle of a duplicate-free key snapshot reaches every writable connection exactly once |
| CentralManager.Init | src/central/ble_vote_manager.py:69-92 | the manager starts with no peers, not connecting, satisfying the invariant, and starts a fast scan |
| CentralManager.OnScanResult | src/central/ble_vote_manager.py:124-135 | connects (stop scan, then `gap_connect`, then `connecting`) iff there is room, the service UUID occurs in the advertisement and the address is new; otherwise nothing changes |
| CentralManager.OnScanDone | src/central/ble_vote_manager.py:137-139 | starts a slow scan forever iff no connection is in progress, changing no state |
| CentralManager.OnPeripheralConnect | src/central/ble_vote_manager.py:141-149 | adds a fresh peer under its handle and appends its address, keeping other peers, and starts service discovery |
| CentralManager.OnServiceResult | src/central/ble_vote_manager.py:151-154 | records the handle range only for the vote service and only on that peer |
| CentralManager.OnServiceDone | src/central/ble_vote_manager.py:156-162 | starts characteristic discovery over the recorded range iff the peer exists, the status is 0 and a range was recorded |
| CentralManager.OnCharacteristicResult | src/central/ble_vote_manager.py:164-172 | the notify characteristic sets `rx_handle` and the write characteristic `tx_handle`, on known peers only |
| CentralManager.OnCharacteristicDone | src/central/ble_vote_manager.py:174-186 | with a resolved `rx_handle`, writes `01 00` to `rx_handle + 1`, clears `connecting`, and scans fast again iff there is room; otherwise nothing happens |
| CentralManager.OnNotify | src/central/ble_vote_manager.py:188-191 | a notification is passed to `on_rx` iff a callback is installed |
| CentralManager.OnPeripheralDisconnect | src/central/ble_vote_manager.py:193-204 | removes the peer and one occurrence of its address, leaves other peers unchanged, clears `connecting` and scans fast |
| CentralManager.Irq | src/central/ble_vote_manager.py:206-224 | dispatch keeps the configuration, only a connect can grow the peer map, and unknown events do nothing |
| CentralManager.WriteHandle | src/central/ble_vote_manager.py:108-114 | a peer is writable iff it is known and its `tx_handle` is resolved |
| CentralManager.Send | src/central/ble_vote_manager.py:108-114 | writes once via `tx_handle` to a writable peer, and is a no-op otherwise |
| CentralManager.BroadcastOncePerPeer | src/central/ble_vote_manager.py:116-119 | `broadcast` writes exactly once to each writable peer, with the right handle and message |
| CentralManager.IrqPreservesInv | src/central/ble_vote_manager.py:206-224 | under the admissible-event assumption, which includes a free slot, a fresh handle and a new address at connect time, every event keeps at most `max_peers` peers, each keyed by its own handle, with distinct addresses mirrored once each in the address list |
| CentralManager.RunPreservesInv | src/central/ble_vote_manager.py:124-204 | over any run of admissible events (each connect assumed to find a free slot) the invariant holds and `max_peers` is never exceeded |
| CentralManager.ConnectIgnoresMaxPeers | src/central/ble_vote_manager.py:141-149 | the connect handler itself does not check the limit: a connect with `max_peers == 0` still adds a peer |
| CentralManager.Deliver | src/central/ble_vote_manager.py:124-204 | the radio after a handler: an accepted scan result adds one outstanding connect for its address and stops the scan, a connect answers one, other events leave them; the manager moves as `_irq` moves it |
| CentralManager.ScanningAfter | src/central/ble_vote_manager.py:97-103 | the last `gap_scan` issued decides whether a scan runs; `gap_scan(None)` stops it |
| CentralManager.PendingConnectsExceedMax | src/central/ble_vote_manager.py:124-186 | as written, with `max_peers` 2 and four distinct advertisers, a run the radio can deliver (each connect answering an outstanding request) ends with three peers |
| CentralManager.OnScanResultCounted | src/central/ble_vote_manager.py:124-135 | the corrected filter: connects iff tracked peers plus outstanding connects leave room, the service UUID occurs and the address is neither tracked nor already requested |
| CentralManager.CountedKeepsRoom | src/central/ble_vote_manager.py:124-224 | with outstanding connects counted, every event the radio can deliver keeps the invariant, with peers plus outstanding connects within `max_peers`, without assuming room at connect time |
| CentralManager.CountedRunKeepsRoom | src/central/ble_vote_manager.py:124-224 | with outstanding connects counted, no run the radio can deliver exceeds `max_peers` peers |
| CentralManager.BootRoomInv | src/central/ble_vote_manager.py:69-92 | a fresh manager with a non-negative limit satisfies the counted invariant |
| CentralManager.CountedAgreesWhenIdle | src/central/ble_vote_manager.py:124-135 | with no connect outstanding the corrected filter behaves exactly as written |
| LegacyManager.Init | src/central/vote.py:76-97 | no peers, an empty address map, and the invariant holds |
| LegacyManager.AutoConnect | src/central/vote.py:102-111 | scans for the given duration with a 30 ms interval and window |
| LegacyManager.OnScanResult | src/central/ble_vote_manager.py:124-135 | the corrected filter (the UUID bytes searched in the advertisement as bytes): connects iff there is room, the service UUID occurs in the advertisement and the address is not mapped; the state never changes here |
| LegacyManager.ArrayContains | src/central/vote.py:134 | MicroPython's `in` on an array object with a buffer operand: true iff the container is a `bytearray` and the operand's bytes occur in it |
| LegacyManager.OnScanResultAsWritten | src/central/vote.py:130-140 | as written, the UUID tested against the memoryview of the advertisement never matches, so no scan result connects and nothing changes |
| LegacyManager.AsWrittenMissesEveryAdvertiser | src/central/vote.py:130-140 | every advertiser the corrected filter connects to is ignored as written |
| LegacyManager.ByteTestConnects | src/central/ble_vote_manager.py:128 | a fresh advertiser of the service is connected by the byte-level test and ignored as written |
| LegacyManager.OnPeripheralConnect | src/central/vote.py:142-154 | a non-zero status records nothing and resumes scanning; a success adds the peer and the address mapping and starts service discovery |
| LegacyManager.OnServiceResult | src/central/vote.py:156-159 | records the handle range only for the vote service |
| LegacyManager.OnServiceDone | src/central/vote.py:161-167 | starts characteristic discovery iff the peer exists, the status is 0 and a range was recorded |
| LegacyManager.OnCharacteristicResult | src/central/vote.py:169-177 | the notify characteristic sets `tx_handle` and the write characteristic `rx_handle`, the roles swapped relative to the newer manager |
| LegacyManager.OnCharacteristicDone | src/central/vote.py:179-192 | with a resolved `tx_handle`, writes little-endian 1 to `tx_handle + 1` and rescans iff there is room |
| LegacyManager.OnNotify | src/central/vote.py:194-197 | a notification is passed to `on_rx` iff a callback is installed |
| LegacyManager.OnPeripheralDisconnect | src/central/vote.py:199-205 | removes exactly the peer entry and the address mapping, then rescans |
| LegacyManager.Irq | src/central/vote.py:207-223 | dispatch keeps the configuration and ignores unknown events |
| LegacyManager.Encode | src/central/vote.py:113-120 | bytes are sent as they are; a `str` is sent as its UTF-8 encoding, one to four bytes per character, which decodes back to the text |
| LegacyManager.Send | src/central/vote.py:113-120 | writes the encoded message once via `rx_handle`, and is a no-op for an unknown peer or an unresolved `rx_handle` |
| LegacyManager.BroadcastOncePerPeer | src/central/vote.py:122-125 | `broadcast` writes exactly once to each peer with a resolved `rx_handle` |
| LegacyManager.IrqPreservesInv | src/central/vote.py:207-223 | under the admissible-event assumptions, which include a free slot, a fresh handle and an unmapped address at a successful connect, the address map stays the exact inverse of the peer map, within `max_peers` |
| Advertising.EncodeRecord | src/controller/ble_vote_controller.py:43-44 | every record encodes, as the type and the value behind a length byte that is `len(value) + 1` when that fits in a byte and otherwise its low eight bits (MicroPython's `struct.pack` does not raise), so a 255-byte value gets length byte 0 |
| Advertising.EncodeRecords | src/controller/ble_vote_controller.py:37-52 | every record list encodes, to two header bytes per record plus the values, starting with the first record's encoding |
| Advertising.EncodeReadsBackIffFits | src/controller/ble_vote_controller.py:37-52 | an encoded record list parses back to itself iff every value is shorter than 255 bytes |
| Advertising.ParseEncodeRoundTrip | src/controller/ble_vote_controller.py:37-52 | when every record fits, parsing the encoded list gives back exactly that list |
| Advertising.ServiceRecord | src/controller/ble_vote_controller.py:48-51 | a service UUID gets type 0x03 iff it is 2 bytes long, and 0x07 otherwise |
| Advertising.AdvRecords | src/controller/ble_vote_controller.py:46-51 | the records are Flags `01 06`, then the complete local name, then one record per service in order |
| Advertising.AdvPayload | src/controller/ble_vote_controller.py:37-52 | a payload is built for every name and service list; it starts with the Flags record `02 01 06`, and it parses back to exactly the Flags, name and service records iff the name and every UUID are shorter than 255 bytes |
| Advertising.AdvPayloadLength | src/controller/ble_vote_controller.py:37-52 | for every name and service list the payload length is `3 + (2 + len(name)) + Σ(2 + len(uuid))` |
| Peripheral.Init | src/controller/ble_vote_controller.py:59-80 | construction fails only with a start error other than `EALREADY`, re-raising it; otherwise the controller starts with no connections and advertises the payload for the UTF-8 encoded name and the vote service |
| Peripheral.Advertise | src/controller/ble_vote_controller.py:109-124 | the stop and the start request are both issued; only error −30 (`EALREADY`) is swallowed and every other start error propagates |
| Peripheral.Irq | src/controller/ble_vote_controller.py:126-147 | connect adds the handle; disconnect removes it and restarts advertising, and the handle stays removed when the restart raises; only a disconnect can raise, exactly with a start error other than `EALREADY`; only a write to the rx handle with a callback is forwarded; other events do nothing |
| Peripheral.Send | src/controller/ble_vote_controller.py:85-91 | one notify per connected handle, and exactly the handles whose notify fails are dropped |
| Peripheral.ConnsOnlyFromConnect | src/controller/ble_vote_controller.py:126-137 | only a connect event adds a handle, and after a disconnect the handle is gone, whether or not the handler raised |
| Rotary.Wrap | src/central/encoder/rotary.py:62-69 | the result is congruent to `value + incr` modulo the range size, lies in `[lower, upper]` when `lower <= upper`, and is `value + incr` when that is already in range; an empty range raises |
| Rotary.Bound | src/central/encoder/rotary.py:72-73 | the result is `value + incr` clamped to `[lower, upper]` |
| Rotary.Init | src/central/encoder/rotary.py:83-103 | the encoder starts at `min_val` in the START state with no listeners; `reverse` becomes −1 or 1 |
| Rotary.Set | src/central/encoder/rotary.py:105-134 | only the supplied fields change, and the state always returns to START |
| Rotary.Reset | src/central/encoder/rotary.py:140-142 | the value becomes 0 and nothing else changes |
| Rotary.AddListener | src/central/encoder/rotary.py:148-150 | the listener is appended and nothing else changes |
| Rotary.RemoveListener | src/central/encoder/rotary.py:152-156 | fails iff the listener is absent; otherwise exactly one occurrence is removed |
| Rotary.AddRemoveListener | src/central/encoder/rotary.py:148-156 | removing a freshly added listener restores the encoder |
| Rotary.Pins | src/central/encoder/rotary.py:161-164 | the pin word is `clk << 1 \| dt`, bitwise complemented in two bits when inverted |
| Rotary.StepIncrement | src/central/encoder/rotary.py:173-181 | a CW step gives `+incr`, CCW gives `-incr`, anything else 0, all times `reverse` |
| Rotary.Process | src/central/encoder/rotary.py:158-195 | the state follows the selected table; the value moves by wrap, bound or plain addition per range mode; listeners run only when the value changed, in order up to the first that raises |
| Rotary.MovedValue | src/central/encoder/rotary.py:183-188 | the value update per range mode, failing only for an empty wrap range |
| Rotary.Notified | src/central/encoder/rotary.py:190-195 | listeners are called iff the value changed and there are listeners; a raising listener stops the rest |
| Rotary.TablesWellFormed | src/central/encoder/rotary.py:33-56 | both tables are 8×4, never reach the illegal state and carry at most one direction bit; in the full-step table a direction comes only with a return to START, in the half-step table with START or the mid-detent state; the illegal row maps every input to START |
| Rotary.FullStepCountsAtDetent | src/central/encoder/rotary.py:33-45 | in full-step mode a direction is reported only on pins `11` (the detent) |
| Rotary.ClockwiseDetent | src/central/encoder/rotary.py:33-45 | from START, pins `10, 00, 01, 11` give exactly one CW step and return to START |
| Rotary.CounterClockwiseDetent | src/central/encoder/rotary.py:33-45 | from START, pins `01, 00, 10, 11` give exactly one CCW step and return to START |
| Rotary.WrapStaysInRange | src/central/encoder/rotary.py:183-184 | in wrap mode with a non-empty range the value stays in `[min_val, max_val]` |
| Rotary.BoundStaysInRange | src/central/encoder/rotary.py:185-186 | in bounded mode with a non-empty range the value stays in `[min_val, max_val]` |
| FontBits.LitBits | src/central/lcd/xglcd_font.py:82-87 | the lowest-set-bit loop yields `2 * i` for each set bit `i`, once each, in ascending order |
| FontBits.LitStep | src/central/lcd/xglcd_font.py:84-87 | `n & (~n + 1)` isolates the lowest set bit, and clearing it leaves the remaining positions |
| FontBits.LowestBitFrom | src/central/lcd/xglcd_font.py:84-85 | a non-zero word has a lowest set bit |
| Font.Height | src/central/lcd/xglcd_font.py:45-49 | the height is `max(height, 8)` |
| Font.ColumnBytes | src/central/lcd/xglcd_font.py:45-49 | `floor((h - 1) / 8) + 1` is the least number of bytes holding `h` bits |
| Font.BytesPerLetterPositive | src/central/lcd/xglcd_font.py:45-49 | every letter has at least its width byte |
| Font.CleanLine | src/central/lcd/xglcd_font.py:66-75 | a line is kept iff it starts with `0x` after stripping; the kept text is the stripped part before the first `//` of the stripped line (all of it when there is none), less one trailing comma; it comes from the line and holds no `//` |
| Font.DropComma | src/central/lcd/xglcd_font.py:74-75 | a line ending in a comma loses exactly that last character; any other line is returned unchanged |
| Font.CleanAll | src/central/lcd/xglcd_font.py:64-75 | the cleanup is applied line by line |
| Font.ParseParts | src/central/lcd/xglcd_font.py:77-79 | the comma-separated parts convert iff each is a hex literal of a byte, to those values in order |
| Font.StoreLine | src/central/lcd/xglcd_font.py:77-80 | a line's bytes fill exactly the next slot iff there is room and it has `bytes_per_letter` values; nothing else changes |
| Font.StoreRows | src/central/lcd/xglcd_font.py:58-80 | loading succeeds iff every data line parses to one letter's worth and they fit; each then sits in its own consecutive slot |
| Font.LoadLetters | src/central/lcd/xglcd_font.py:58-80 | the loader over raw file lines: a negative letter count fails, otherwise it succeeds iff the data lines are loadable |
| Font.New | src/central/lcd/xglcd_font.py:28-80 | construction keeps the metrics and holds the data lines slot by slot |
| Font.FormatLineClean | src/central/lcd/xglcd_font.py:66-75 | a glyph line as written in an X-GLCD file, with trailing comment, cleans to its values |
| Font.FormatValuesParse | src/central/lcd/xglcd_font.py:77-79 | formatted values parse back to the same bytes |
| Font.FormatFileLoads | src/central/lcd/xglcd_font.py:58-80 | a file of well-formed glyph lines loads back to exactly those glyphs |
| Font.HexByteRoundTrip | src/central/lcd/xglcd_font.py:78 | `int(s, 16)` reads back a `0xHH` literal |
| Font.GetLetter | src/central/lcd/xglcd_font.py:104-123 | an index at or past the letter count gives the empty glyph; any other glyph it returns has the font height (the slice, the errors and the fill are stated by `Font.GetLetterSpec`) |
| Font.GetLetterSpec | src/central/lcd/xglcd_font.py:104-123 | the guard, the slice taken (including negative indices), the width byte, and the buffer pre-filled with the big-endian background word or zeros |
| Font.GetLetterChecked | src/central/lcd/xglcd_font.py:104-112 | with a lower bound added to the guard, any letter outside the font gives the empty glyph |
| Font.CheckedNeverAliases | src/central/lcd/xglcd_font.py:104-112 | with both bounds checked, a drawn letter reads its own slot, two different drawn letters read different slots, and the glyph is the one the unchecked lookup finds there |
| Font.NewlineDrawsAsJ | src/central/lcd/xglcd_font.py:104-112 | as written, a newline in the default font resolves to slot 74, the slot of `j`, and draws its glyph; the checked lookup gives the empty glyph |
| Font.MeasureRef | src/central/lcd/xglcd_font.py:166-183 | measuring succeeds iff every character has a glyph slot |
| Font.MeasureText | src/central/lcd/xglcd_font.py:166-183 | the loop computes the reference sum of width byte plus spacing |
| Font.MeasureAppend | src/central/lcd/xglcd_font.py:166-183 | the width of a concatenation is the sum of the widths |
| Font.MeasureMatchesGlyph | src/central/lcd/xglcd_font.py:166-183 | a one-character width is the glyph's width byte plus spacing, as `get_letter` reports it |
| Text.DecRoundTrip | src/central/vote_session.py:23-27 | decimal formatting is read back to the same number |
| Text.Pad2 | src/central/main.py:143-147 | `:02d` gives two digits for 0..99, reading back to the number |
| Text.Strip | src/central/lcd/xglcd_font.py:66 | the result is the line with a whitespace-only prefix and suffix cut off, and it neither starts nor ends with whitespace, so exactly the leading and trailing whitespace is removed |
| Text.Find | src/central/lcd/xglcd_font.py:70 | the first occurrence of the needle, or −1 iff there is none |
| Text.Split | src/central/lcd/xglcd_font.py:78 | at least one part, none containing the separator, and the parts joined by the separator give back the line |
| Text.SplitJoin | src/central/lcd/xglcd_font.py:78 | splitting separator-free parts joined by the separator gives back the parts |
| Text.Utf8Char | src/central/vote.py:118-119 | one character's UTF-8 bytes: 1, 2, 3 or 4 by code-point range, with the lead byte pattern of its length and `10xxxxxx` continuation bytes (section 3 of RFC 3629) |
| Text.Utf8Encode | src/central/vote.py:113-120 | one to four bytes per character, ASCII unchanged |
| Text.Utf8CharDecodes | src/central/vote.py:118-119 | one encoded character decodes back off the front of whatever follows |
| Text.Utf8RoundTrip | src/central/vote.py:118-119 | decoding the UTF-8 bytes of a string gives back the string |
| Text.Utf8EncodeAppend | src/central/vote.py:118-119 | the encoding of a concatenation is the concatenation of the encodings |
| UiCore.NewHistory | src/central/ui/core.py:111-115 | a router starts on page 0 |
| UiCore.ShowPage | src/central/ui/core.py:123-129 | out-of-range pages raise with history unchanged; otherwise exactly one entry is pushed |
| UiCore.GoBack | src/central/ui/core.py:131-138 | pops only when more than one entry remains |
| UiCore.GoBackUndoesShow | src/central/ui/core.py:123-138 | going back undoes a successful `show_page` |
| UiCore.ShowPreservesHistoryOk | src/central/ui/core.py:123-129 | history stays non-empty and in range |
| UiCore.GoBackPreservesHistoryOk | src/central/ui/core.py:131-138 | history is never emptied |
| UiCore.CurrentPage | src/central/ui/core.py:140-143 | the page named by the last history entry |
| UiCore.CurrentPageExists | src/central/ui/core.py:140-143 | with a well-formed history there always is a current page |
| UiCore.PopWhile | src/central/ui/core.py:59-60 | the loop leaves a non-empty prefix that contains the target only if it is a single entry |
| UiCore.PopWhileStopsEarliest | src/central/ui/core.py:59-60 | the loop pops no further than needed |
| UiCore.PopWhileCutsAtFirstVisit | src/central/ui/core.py:59-60 | the loop cuts history just before the page's first visit |
| UiCore.PopWhileUnvisited | src/central/ui/core.py:59-60 | an unvisited page leaves history unchanged |
| UiCore.Select | src/central/ui/core.py:54-62 | without a router nothing happens; a back button goes back; otherwise history becomes that prefix plus `nextPage`, with `on_select` called iff `show_page` succeeded |
| UiCore.SelectShape | src/central/ui/core.py:54-62 | after a valid select the top is `nextPage` over a prefix of the old history |
| UiCore.SelectReturnsToVisit | src/central/ui/core.py:54-62 | selecting a page already visited returns to that visit |
| UiCore.SelectPreservesHistoryOk | src/central/ui/core.py:54-62 | selection keeps history well formed |
| UiCore.NewPage | src/central/ui/core.py:68-74 | focus 0; `selected` is 0 iff the page is selectable and −1 otherwise |
| UiCore.FocusNext | src/central/ui/core.py:99-101 | focus moves forward cyclically and stays in range; an empty page raises |
| UiCore.FocusPrevious | src/central/ui/core.py:103-105 | focus moves backward cyclically and stays in range; an empty page raises |
| UiCore.FocusMovesInverse | src/central/ui/core.py:99-105 | next and previous undo each other |
| UiCore.FocusMoveLandsInside | src/central/ui/core.py:99-105 | any focus, even out of range, lands in range after a move |
| UiCore.SelectFocused | src/central/ui/core.py:91-97 | selects the focused element, then records it as selected when both are selectable, or resets focus to 0 |
| UiCore.SelectFocusedKeepsFocus | src/central/ui/core.py:91-97 | focus stays valid, and `selected` changes only to the focused selectable element |
| Widgets.NewBackButton | src/central/ui/widgets.py:106-124 | back to page 0 at the bottom-left, 80 × 30 |
| Widgets.GetPage | src/central/ui/widgets.py:127-162 | no cards raise; otherwise one card per entry at `y = 0` with full height (less 30 with a back button), tiled left to right, with the back button last iff requested |
| Widgets.TilesAreContiguous | src/central/ui/widgets.py:145-157 | card `i` starts where card `i - 1` ends, and the last card ends at 320 |
| Widgets.TiledWidthIsEdge | src/central/ui/widgets.py:145-157 | the widths before card `k` add up to its start |
| Widgets.TilesFillScreen | src/central/ui/widgets.py:145-157 | the widths sum to the display width |
| Widgets.TilesNonEmpty | src/central/ui/widgets.py:145-157 | every card is at least one pixel wide iff there are at most 320 cards |
| Widgets.AsPortrait | src/central/ui/widgets.py:41-46 | `(-1, -1)` without a router; otherwise a rotation that the inverse mapping undoes |
| Widgets.PortraitOnScreen | src/central/ui/widgets.py:41-46 | on-screen landscape points map to on-screen portrait points |
| Widgets.LineWidth | src/central/ui/widgets.py:63-72 | a line's width is its measured width less one spacing |
| Widgets.LineWidths | src/central/ui/widgets.py:63-73 | every line is measured, failing iff some line fails |
| Widgets.Texts | src/central/ui/widgets.py:55-89 | each cleaned line is drawn at its centred start, one line height below the previous |
| Widgets.CardOutline | src/central/ui/widgets.py:92-103 | the outline spans the widest line plus padding by the text height plus padding, white iff focused |
| Widgets.CardDisplay | src/central/ui/widgets.py:48-103 | draws nothing without a router; otherwise it fails iff measuring fails, and draws the texts and the outline |
| Widgets.CentredHorizontally | src/central/ui/widgets.py:55-77 | the left and right margins differ by at most one pixel |
| Widgets.CentredVertically | src/central/ui/widgets.py:55-77 | the top and bottom margins differ by at most one pixel |
| Widgets.WiderSpansFurther | src/central/ui/widgets.py:55-77 | a wider line starts further left and ends further right |
| Widgets.OutlineEnclosesLines | src/central/ui/widgets.py:92-103 | every line lies inside the outline, padding included |
| VoteSession.VoteResults | src/central/vote_session.py:14-20 | `"No votes"` when empty; otherwise three lines that read back as the yes count, the no count and the total |
| VoteSession.YesNoWithinTotal | src/central/main.py:97-103 | yes plus no never exceeds the total (the main module's copy of the results text is the same code) |
| VoteSession.TimeString | src/central/vote_session.py:23-27 | for 0..5999 seconds, `MM:SS` reading back to the seconds with `SS < 60` |
| VoteSession.TimeStringMinusOne | src/central/vote_session.py:23-27 | −1 seconds reads `-1:59` under floor division |
| VoteSession.NextWaiting | src/central/vote_session.py:171-175 | appends a dot until the line ends with `...`, then resets to `Waiting` |
| VoteSession.WaitingCycle | src/central/vote_session.py:171-175 | the waiting line cycles through four states |
| VoteSession.SliceTestIsEndsWith | src/central/main.py:179 | the main module's `[-3:] == "..."` test agrees with the session's `endswith`, short lines included |
| VoteSession.NewSession | src/central/vote_session.py:36-57 | a session starts idle, public, infinite and empty |
| VoteSession.InitialTime | src/central/vote_session.py:141-147 | `minutes * 60 + seconds` when timed, 1 otherwise |
| VoteSession.Start | src/central/vote_session.py:95-116 | a no-op while the voting timer runs; otherwise voting opens with the timer running, the record, results and modes kept, the first line showing the initial time as `MM:SS` (or `Waiting` when untimed), and START broadcast |
| VoteSession.End | src/central/vote_session.py:118-128 | a no-op without the timer; otherwise voting closes with the record kept, the results lines reading back as the record's yes, no and total counts, and STOP broadcast |
| VoteSession.Reset | src/central/vote_session.py:130-136 | empties record and results, clears `voting`, broadcasts INDICATE_NONE and resumes scanning |
| VoteSession.Spawn | src/central/vote_session.py:80-93 | arms the tutorial timer and stops scanning |
| VoteSession.ButtonPress | src/central/vote_session.py:62-70 | outside the tutorial it only selects and redraws; during it the tutorial timer is disarmed and, unless a round already runs, voting opens with the first line showing the initial time and START is broadcast before the select and redraw |
| VoteSession.Tick | src/central/vote_session.py:153-178 | fails iff there is no line to refresh and the round is not over; time decreases only when timed; when the round is over only the button press is scheduled; otherwise the first line shows the remaining `MM:SS` (or the next waiting frame) and the other lines are unchanged |
| VoteSession.StepsKeepCoherent | src/central/vote_session.py:95-178 | every step keeps `voting` on only while the voting timer runs |
| VoteSession.StartIdempotent | src/central/vote_session.py:95-116 | a second start does nothing |
| VoteSession.StartThenEnd | src/central/vote_session.py:95-128 | start then end leaves voting off with the results of the record |
| VoteSession.TimedTickShowsTimeLeft | src/central/vote_session.py:153-178 | a tick that redraws shows the remaining time, which is never negative |
| CentralApp.StartTutorial | src/central/main.py:83-94 | with a manager, the same step as `spawn` |
| CentralApp.StartVote | src/central/main.py:186-216 | runs only with a manager during the tutorial: the tutorial timer is disarmed, voting opens with the first line showing the initial time (or `Waiting`), record and results are kept, and START is broadcast |
| CentralApp.StartVoteIsSessionStart | src/central/main.py:186-216 | equals `VoteSession.start` once the tutorial timer is disarmed |
| CentralApp.EndVote | src/central/main.py:109-126 | as written: stops the timer and broadcasts STOP; the results, reading back as the record's counts, go to a new list that the results card does not hold; `voting` stays as it was |
| CentralApp.EndVoteFixed | src/central/vote_session.py:118-128 | with the results written into the list in place and `voting` cleared, it is the session's `end`, and the card keeps showing what the global name holds |
| CentralApp.ResetVoteState | src/central/main.py:129-140 | with a manager, clears record, results and `voting`, broadcasts INDICATE_NONE and resumes scanning, nothing else; the card's list is emptied only while it is still the global list |
| CentralApp.ResultsNeverShown | src/central/main.py:106-136 | as written, the results card's list starts empty and stays empty across every end and reset, while the results `end_vote` publishes are never empty |
| CentralApp.FixedShowsTally | src/central/vote_session.py:127 | with the in-place write, after the round ends the results card shows the tally of the recorded votes |
| CentralApp.NextWaitingBySlice | src/central/main.py:178-182 | the slice test in the main module matches the session's waiting cycle |
| CentralApp.Tick | src/central/main.py:161-183 | as written: fails iff the screen has no line; when the round is over the button press is scheduled and the line is refreshed anyway; the first line shows the remaining `MM:SS` (or the next waiting frame) and the other lines are unchanged |
| CentralApp.TickShowsNegativeTime | src/central/main.py:161-183 | at time 0 the timed tick draws `-1:59` while scheduling the end |
| CentralApp.TickFixed | src/central/main.py:161-183 | returning after scheduling, it is exactly the session's tick |
| CentralApp.TickFixedNeverNegative | src/central/main.py:161-183 | the corrected tick never redraws a negative time |
| CentralApp.OnRx | src/central/main.py:334-338 | enqueues `(conn, payload)` only while voting; raises iff the queue is full |
| CentralApp.LateVoteQueued | src/central/main.py:109-126 | after `end_vote` as written, a vote is still queued |
| CentralApp.LateVoteDropped | src/central/main.py:334-338 | after the corrected end, votes are dropped |
| CentralApp.Reflection | src/central/main.py:284-292 | YES→INDICATE_YES, NO→INDICATE_NO, anything else→INDICATE_NONE, each iff |
| CentralApp.ConsumeOne | src/central/main.py:279-292 | pops the front pair, overwrites that connection's vote, and in public mode sends the reflection back to it |
| CentralApp.AnonymousSendsNothing | src/central/main.py:284-292 | anonymous mode sends nothing |
| CentralApp.RecordedUntouched | src/central/main.py:282-283 | a connection that did not vote keeps its earlier entry |
| CentralApp.LastVoteWins | src/central/main.py:282-283 | each connection's entry is its last vote |
| CentralApp.Drain | src/central/main.py:279-292 | consuming until empty records every queued vote in order |
| CentralApp.EncoderCallback | src/central/main.py:302-306 | the difference from the previous value, which is then updated |
| CentralApp.EncoderDifference | src/central/main.py:309-314 | ±1 moves focus on the current page, anything else changes no page |
| CentralApp.EncoderBackAndForth | src/central/main.py:309-314 | +1 then −1 restores the pages |
| CentralApp.ButtonPress | src/central/main.py:321-326 | outside the tutorial, or without a manager, it only selects and redraws; during it the tutorial timer is disarmed, voting opens with the first line showing the initial time and START is broadcast before the select and redraw |
| ControllerApp.Boot | src/controller/main.py:110-112 | left and right LEDs start dark; button LEDs keep their level |
| ControllerApp.Consume | src/controller/main.py:31-55 | START/STOP set both button LEDs; YES lights the middle right LED only; NO the first left only; NONE darkens all six; others change nothing |
| ControllerApp.ConsumeIdempotent | src/controller/main.py:31-55 | repeating a command changes nothing |
| ControllerApp.IndicationsCommute | src/controller/main.py:41-48 | YES and NO touch disjoint LEDs |
| ControllerApp.ButtonsOnlyFromStartStop | src/controller/main.py:35-40 | only START/STOP move the button LEDs, and they move nothing else |
| ControllerApp.AlwaysIndicating | src/controller/main.py:31-55 | from any dispatcher pattern every run of payloads stays in one |
| ControllerApp.ConsumeKeepsIndicating | src/controller/main.py:31-55 | one payload keeps a dispatcher pattern |
| ControllerApp.BootIndicating | src/controller/main.py:110-112 | start-up is a dispatcher pattern |
| ControllerApp.NoneClears | src/controller/main.py:49-55 | after INDICATE_NONE with no later indication all six are dark |
| ControllerApp.DarkStays | src/controller/main.py:49-55 | dark stays dark without indications |
| ControllerApp.ButtonIrq | src/controller/main.py:62-74 | an edge within 40 ms is ignored; otherwise it records `now` and schedules its vote once |
| ControllerApp.ButtonVote | src/controller/main.py:101-108 | green votes YES, red votes NO |
| ControllerApp.ScheduledSend | src/controller/main.py:77-84 | sends the vote via the controller if any; both button LEDs end off |
| ControllerApp.NewQueue | src/controller/main.py:93 | sixteen slots, empty |
| ControllerApp.OnRx | src/controller/main.py:97 | `put_sync` of the payload, raising iff full |
| ControllerApp.ReceivedInOrder | src/controller/main.py:93-97 | up to fifteen payloads queue in arrival order |
| ControllerApp.ReceiveAllAppends | src/controller/main.py:97 | while there is room, each payload is appended |
| Debounce.OnEdge | src/common/utils.py:16-22 | an edge is accepted iff `now - last >= debounce`; if so `last := now` and one call is scheduled, otherwise nothing changes |
| Debounce.Run | src/common/utils.py:10-24 | over a run of edges, the last accepted time is `last_time` |
| Debounce.RunSpacing | src/common/utils.py:18-22 | accepted edges are at least `debounce` apart |
| Debounce.RunDropsOnlyBounces | src/common/utils.py:18-20 | a dropped edge came within `debounce` of the last accepted one |
| Debounce.RunSnoc | src/common/utils.py:16-22 | a run extended by one edge is that edge's step after the run |

## Left out

- The Bluetooth stack itself: `gap_scan`, `gap_connect`, the `gattc_*`/`gatts_*` calls and `gap_advertise` are emitted as call values. Scan windows are tags.
- Concurrency: IRQ-versus-task interleaving, `ThreadSafeFlag` waits, and the busy-wait loops of the blocking `get_sync`/`put_sync` (src/common/threadsafe_queue.py:52-53, 65-66). Only the non-blocking paths are modelled; async `get`/`put` are guarded steps.
- `micropython.schedule` is a deferred-call value or an `Option`; hardware timers are booleans; pins are parameters.
- Debounce.OnEdge: `ticks_diff` is plain subtraction, so tick wrap-around is not modelled.
- LCD drawing (`draw_text`, `draw_rectangle`, `clear`) and the per-pixel write positions in `get_letter`: rendering has no stated result.
- `Page.display` is left out: it passes a `selected` keyword that `Card.display` does not accept.
- src/central/ui/pages.py is not part of this model: it calls `get_page` with 3-tuples and keyword arguments that the shown widgets.py does not accept.
- The `ROUTER` of src/central/main.py:224-266 makes the same 3-tuple, `with_ok_button` and `selectable` calls, and src/central/main.py:16 imports `TimeStepperPage`, which widgets.py does not define. The main module as shown therefore cannot be imported; `CentralApp` models its functions as if it could.
- `TimeStepperPage` is not part of this model: minutes and seconds are parameters.
- `stop_scanning`, `resume_scanning` and `num_peers` are not defined by the manager: they are emitted effects and a parameter.
- `on_select` closures are flags; page selection and redraw are effects.
- `set_reporting_mode`/`set_timing_mode` (src/central/vote_session.py:72-79) are field updates.
- `print` logging and `_addr_hex` are cosmetic.
- lib.consts is not part of this model: commands, votes and UUIDs are abstract distinct constructors.
- Font file I/O: lines, width, height, start letter and count are parameters.
- Font.ParseParts: `int(s, 16)` accepts only `0x`-prefixed hex digits with ASCII blanks around them. Python's underscores, other prefixes and Unicode whitespace are not modelled.
- Font.ParseParts: a value above `0xFF` fails the load, as CPython's `bytearray` raises `ValueError`. MicroPython's `bytearray` keeps the low eight bits instead; that truncation is not modelled.
- Widgets.Upper: only ASCII letters are upper-cased.
- RingQueue.FromList: the filler values in unused slots are arbitrary and never read.
- CentralApp.StartVote: it models one voting timer; as written, `start_vote` checks only the tutorial timer, so an armed voting timer is not examined.
- Peripheral.Send: it iterates a snapshot of the connection set, not the set it mutates.
- RingQueue.PutSync: like every queue operation it requires a non-empty buffer. For `ThreadSafeQueue(0)` or an empty list, `put_sync` and `get_sync` raise `IndexError` and `full()` and `qsize()` raise `ZeroDivisionError`; those error paths are not modelled.
- CentralManager.IrqPreservesInv: it assumes a free slot, a fresh handle and a new address whenever a connect arrives. The handler checks none of them, and `CentralManager.PendingConnectsExceedMax` shows a run in which the free slot is missing. `CentralManager.CountedKeepsRoom` proves the bound without that assumption, for the corrected filter.
- CentralManager.RunPreservesInv: it rests on the same per-connect assumption as `CentralManager.IrqPreservesInv`.
- LegacyManager.IrqPreservesInv: it assumes a free slot, a fresh handle and an unmapped address at every successful connect. The legacy manager does not count a pending connect either; no counterexample or counted variant is stated for it.
- LegacyManager.OnScanResult: the dispatcher and the invariant use the byte-level service test, not the test as written (`LegacyManager.OnScanResultAsWritten`, under which no connect ever happens).

## Findings

| source | as written | input that shows it | evidently intended | confidence | as-written member | corrected member |
|---|---|---|---|---|---|---|
| src/central/lcd/xglcd_font.py:105-112 | `get_letter` checks only `letter_ord >= letter_count`; a character below `start_letter` gives a negative offset and Python slices from the end | `'\n'` in the default 32/96 font resolves to slot 74, the slot of `j`, and draws its glyph | characters outside the font give the empty glyph | medium; not executed | Font.NewlineDrawsAsJ | Font.CheckedNeverAliases |
| src/central/main.py:109-126 | `end_vote` stops the timer but never clears `voting`, so `on_rx` keeps queueing | any vote arriving after `end_vote` is queued and later recorded | `voting = False`, as `VoteSession.end` does | medium; not executed | CentralApp.LateVoteQueued | CentralApp.LateVoteDropped |
| src/central/main.py:173-183 | the tick schedules the end but does not return, so it refreshes the line with the decremented time | timed round at `time_left == 0` sets the voting line to `-1:59` | return after scheduling, as `vote_session.py` does | low; not executed | CentralApp.TickShowsNegativeTime | CentralApp.TickFixedNeverNegative |
| src/central/main.py:106-136 | `end_vote` binds the global `voting_results_screen_lines` to a new list, while the results card built at lines 261-263 keeps the list created at line 106; `reset_vote_state` then clears the new list | any round: after `end_vote` the results page shows no lines | write the results into the shared list in place, as `vote_session.py` does at line 127 | medium; not executed | CentralApp.ResultsNeverShown | CentralApp.FixedShowsTally |
| src/central/ble_vote_manager.py:124-135 | the room check counts connected peers only, not a `gap_connect` still pending, and a finished subscription or a disconnect restarts scanning while one is pending | `max_peers` 2: Q connects, P connects, Q drops, A is accepted, P's subscription rescans, C is accepted, then A and C connect: three peers | pending connects count against `max_peers` | low; not executed; it assumes the stack accepts a second `gap_connect` while one is pending | CentralManager.PendingConnectsExceedMax | CentralManager.CountedRunKeepsRoom |
| src/central/vote.py:130-140 | `cast(bytes, _VOTE_SVC_UUID)` is only a type annotation, so the filter tests a `bluetooth.UUID` against the `adv_data` memoryview, and MicroPython's memoryview answers that membership test with False | any advertisement carrying the vote service: no connect is ever made | search the UUID's bytes in `bytes(adv_data)`, as ble_vote_manager.py does at line 128 | low; not executed; it rests on MicroPython's array `in` semantics | LegacyManager.AsWrittenMissesEveryAdvertiser | LegacyManager.OnScanResult |
