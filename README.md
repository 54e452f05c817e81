# iio-sensor-proxy drivers in Dafny

This project models the core of iio-sensor-proxy's sensor drivers and proves properties of the model. iio-sensor-proxy is the Linux daemon that finds accelerometers, ambient-light sensors, compasses and proximity switches and reports their readings. The modelled parts are:

- **The driver framework** (`src/drivers.h`), in `drivers.dfy`. It covers the `SensorDriver` record of four function pointers, `SensorDevice`, and the inline wrappers `driver_discover`, `driver_open`, `driver_set_polling` and `driver_close`. The shared vocabulary (`DriverType`, `ProximityNear`, `LightReadings`, the udev device view, `drv_check_udev_sensor_type`) is in `sensor_types.dfy`.
- **The input-event proximity switch** (`src/drv-input-proximity.c`), in `input_proximity.dfy`:
  - Discovery parses the hexadecimal `capabilities/sw` bitmap the kernel prints. It counts set bits with `val &= val - 1`, sanity-checks the count and tests `SW_FRONT_PROXIMITY`.
  - At run time, `struct input_event` records arrive through a GLib watch, possibly in pieces. They are reassembled in a fixed buffer with a byte offset carried across dispatches.
  - Every completed proximity-switch record triggers an `EVIOCGSW` query and, when the query succeeds, a reading. A failed query is logged and the record is skipped (src/drv-input-proximity.c:134-137).
- **The buffered IIO ambient-light driver** (`src/drv-iio-buffer-light.c`), in `iio_buffer_light.dfy`:
  - The trigger is looked up by name among the IIO devices.
  - A 700 ms timeout reads up to 127 scan rows without blocking and reports the last complete row in lux.
  - `EAGAIN` means "no new data".
- **The polled uncalibrated compass** (`src/drv-iio-poll-compass-uncalibrated.c`), in `iio_poll_compass.dfy`:
  - It installs fixed calibration extrema.
  - On each tick it reads the raw X, Y and Z attributes with `atoi`, computes hard-iron offsets and soft-iron scales in C integer and floating-point arithmetic, and passes the corrected X and Y to `atan2`.

Shared pieces:

- `polling.dfy` holds the timeout-id protocol that both polled drivers follow in `set_polling`.
- `parsing.dfy` holds the GLib/libc text functions the drivers rely on: `g_strsplit` on `" "`, `strtoul` in base 16, and `atoi`.
- `arith.dfy` holds the division facts used by the proofs.

State that C updates in place is modelled as classes:

- The proximity `DrvData` is `ProximityData`. Its record buffer is an `array` and its offset, watch id and last switch state are fields.
- The light `DrvData` is `LightData`.
- The compass `DrvData` is `CompassData`.
- `SensorDevice` is a class of the same name.
- The `glong` bitmask that `input_str_to_bitmask` fills is an `array`.

Each method's `ensures` ties the new state to a specification function, and the properties are proved about those functions. The kernel, udev, GLib's main loop, `read`, `open` and `ioctl` are not modelled. What they answer is passed in as parameters:

- `DeviceRead` for a light tick.
- `pending` and `query` for a proximity dispatch.
- `WatchEnv` for setting up the proximity watch.
- `SysfsFile` for attribute files.
- `sourceId` for the id `g_timeout_add` returns.

Callbacks are modelled as returned readings.

The drivers do not behave quite as one would expect of them. The model follows the code:

- **Proximity debouncing.** One would expect a proximity reading only when the switch bit changes. `proximity_changed` (src/drv-input-proximity.c:140-142) reports every completed proximity record whose `EVIOCGSW` query succeeds, changed or not (`InputProximity.NoDebounce`). A record whose query fails is skipped without a reading (lines 134-137).
- **Stale watch id after a hang-up.** One would expect a hang-up (`G_IO_HUP`, `G_IO_ERR` or `G_IO_NVAL`) to clear the watch. `proximity_changed` returns FALSE at src/drv-input-proximity.c:105-106, so GLib drops the watch, but `watch_id` keeps its value. A later `set_polling(TRUE)` returns at once (line 220), so the switch is never watched again. A later `set_polling(FALSE)` removes a source GLib has already removed (line 225). `InputProximity.HangUpLeavesStaleWatch` exhibits the first consequence.
- **Zero half range.** One would expect the compass to fall back to raw X and Y when a calibration half range is zero. `poll_heading` (src/drv-iio-poll-compass-uncalibrated.c:85-93) divides by the half range unguarded, which gives an infinity or NaN. The model returns `NonFinite` for that case.
- **Cancellation on close.** One would expect close to stop polling. `iio_buffer_light_close` (src/drv-iio-buffer-light.c:212-221) does not remove its timeout; only the `driver_close` wrapper's preceding `set_polling(FALSE)` does.
- **Global compass state.** The compass keeps one global `drv_data` (src/drv-iio-poll-compass-uncalibrated.c:38). The model gives each `CompassData` its own, which agrees with the code for a single compass.
- **Word order of the switch bitmap.** The last token of the capability text is word 0 (src/drv-input-proximity.c:37-41). So "80 0" sets bit 71 (word 1, bit 7), not bit 7 (`InputProximity.TwoWordExample`).

## Model

| member | source | states |
|---|---|---|
| Drivers.DriverDiscover | src/drivers.h:95-110 | a NULL driver, discover function or device is never discovered; otherwise a non-accelerometer is found exactly when its discover says so, and an accelerometer exactly when its discover says so and it is mounted in the display |
| Drivers.DriverOpen | src/drivers.h:112-130 | the driver's open is used only when the driver, its open function, the device and the callback are all present, otherwise NULL; a returned device gets the driver as its back-reference |
| Drivers.SensorDevice.constructor | src/drivers.h:90-93 | a fresh SensorDevice has no driver and no calls made through it |
| Drivers.SensorDevice.DriverSetPolling | src/drivers.h:132-146 | exactly one set_polling(state) call is made through the driver, and only when a driver with a set_polling function is attached |
| Drivers.SensorDevice.DriverClose | src/drivers.h:148-158 | set_polling(FALSE) (if the driver has it) is called before close (if it has it), and nothing else |
| Polling.NextTimeout | src/drv-iio-buffer-light.c:156-176 | after set_polling(state) a timeout is running exactly when state is true, and a call that matches the current state keeps the current timeout id |
| Polling.RepeatIsNoOp | src/drv-iio-poll-compass-uncalibrated.c:135-151 | set_polling is idempotent: repeating a call with the same state keeps the first call's timeout id, whatever id GLib would offer |
| Polling.LastCallWins | src/drv-iio-poll-compass-uncalibrated.c:135-151 | after two set_polling calls a timeout is running exactly when the last one enabled polling |
| IioBufferLight.SelectRowIsLastComplete | src/drv-iio-buffer-light.c:39-52 | `SelectRow` is the row choice of process_scan; process_scan picks a row exactly when at least one full scan row was read, and the row it picks is the last complete one |
| IioBufferLight.ProcessScanReportsLastRow | src/drv-iio-buffer-light.c:30-69 | process_scan is `ProcessScan`; it reports exactly when read_size >= scan_size; the report is in lux and is the decoding of the bytes of the last complete row |
| IioBufferLight.PrepareOutput | src/drv-iio-buffer-light.c:71-101 | a tick fails exactly when the device node does not open, skips processing exactly when read fails with EAGAIN, and passes any other read error to process_scan as a failed read that reports nothing |
| IioBufferLight.RowIndexBounded | src/drv-iio-buffer-light.c:78-90 | a read of at most buf_len rows never selects a row index beyond buf_len - 1 |
| IioBufferLight.TickReportsLastRow | src/drv-iio-buffer-light.c:71-101 | a tick reports a reading exactly when the node opens and at least one full row is available, and that reading is the last complete row of what one read returns |
| IioBufferLight.GetTriggerName | src/drv-iio-buffer-light.c:103-137 | a trigger name is returned exactly when some IIO device's name attribute is "als-dev" followed by the device number, and it is that name |
| IioBufferLight.LightData.constructor | src/drv-iio-buffer-light.c:196-207 | the driver data holds the device, its buffer data and device file, no timeout, and the NAME property or else the device name |
| IioBufferLight.LightData.SetPolling | src/drv-iio-buffer-light.c:156-176 | the timeout id becomes NextTimeout of the old id, and the set of running timeouts stays exactly the one the id names |
| IioBufferLight.LightData.ReadLight | src/drv-iio-buffer-light.c:139-148 | each tick keeps the timeout and does what PrepareOutput describes for the device's scan size |
| IioBufferLight.LightData.Close | src/drv-iio-buffer-light.c:212-221 | the buffer data and the device are released and the timeout id is left as it was |
| IioBufferLight.Open | src/drv-iio-buffer-light.c:178-210 | open fails exactly when no trigger is found or the buffer layout cannot be resolved; otherwise the new driver data has the trigger name "als-dev<number>", the scan size, the device and its name |
| IioBufferLight.DiscoverIsSensorType | src/drv-iio-buffer-light.c:150-154 | driver_discover on this driver is the "iio-buffer-als" udev tag check |
| IioPollCompass.CDivVersusEuclid | src/drv-iio-poll-compass-uncalibrated.c:75-81 | C's truncating division by a positive divisor equals Euclidean division except for a negative dividend with a remainder, where it is one larger |
| IioPollCompass.HalvingDiffers | src/drv-iio-poll-compass-uncalibrated.c:75-81 | the halvings of the offsets and half ranges round odd negative sums toward zero |
| IioPollCompass.InstalledConstants | src/drv-iio-poll-compass-uncalibrated.c:73-83 | the installed extrema give offsets (-4780, -3541, -177), half ranges (3132, 3013, 2897) and a mean half range of 3014 |
| IioPollCompass.InstalledIsFinite | src/drv-iio-poll-compass-uncalibrated.c:85-93 | poll_heading's arithmetic before atan2 is `HeadingArgs`; with the installed calibration, atan2 always receives finite arguments |
| IioPollCompass.AtOffsetIsOrigin | src/drv-iio-poll-compass-uncalibrated.c:89-93 | a calibrated sample at the hard-iron offsets is corrected to (0, 0) |
| IioPollCompass.ZIgnored | src/drv-iio-poll-compass-uncalibrated.c:87-96 | the raw Z value never affects `HeadingArgs`, calibrated or not |
| IioPollCompass.SysfsGetIntReadsBack | src/drv-iio-poll-compass-uncalibrated.c:40-57 | sysfs_get_int is `SysfsGetInt`; an attribute holding an integer printed with "%d\n" reads back as that integer; a missing or unreadable file reads as 0 |
| IioPollCompass.CompassData.Open | src/drv-iio-poll-compass-uncalibrated.c:111-133 | the driver data holds the device, its name attribute, no timeout and the installed calibration, which is marked calibrated |
| IioPollCompass.CompassData.PollHeading | src/drv-iio-poll-compass-uncalibrated.c:59-103 | each tick keeps the timeout and hands atan2 `HeadingArgs` of what `SysfsGetInt` reads: the corrected (or, uncalibrated, raw) X and Y of the three attributes it reads |
| IioPollCompass.CompassData.SetPolling | src/drv-iio-poll-compass-uncalibrated.c:135-151 | the timeout id becomes NextTimeout of the old id, the running timeouts are the one it names, and the device and calibration are unchanged |
| IioPollCompass.CompassData.Close | src/drv-iio-poll-compass-uncalibrated.c:153-159 | polling is off (no timeout left running) and the device and calibration are released |
| IioPollCompass.DiscoverIsSensorType | src/drv-iio-poll-compass-uncalibrated.c:105-109 | driver_discover on this driver is the "iio-poll-compass-uncalibrated" udev tag check |
| Parsing.GStrSplit | src/drv-input-proximity.c:36 | g_strsplit of the empty string gives no tokens, of anything else at least one; never more than max_tokens |
| Parsing.JoinSplit | src/drv-input-proximity.c:36 | the tokens of g_strsplit on " ", joined by single spaces, give the input back |
| Parsing.SplitJoin | src/drv-input-proximity.c:36 | space-free, non-empty tokens joined by spaces split back into the same tokens |
| Parsing.Strtoul16OfHex | src/drv-input-proximity.c:40 | strtoul in base 16 is `Strtoul16`; it reads a word printed with "%lx" back as that word, whatever non-digit follows it |
| Parsing.AtoiOfDecimal | src/drv-iio-poll-compass-uncalibrated.c:53 | atoi is `Atoi`; it reads an integer printed with "%d\n" back as that integer |
| InputProximity.SwitchBitmapIsOneWord | src/drv-input-proximity.c:11-16 | NBITS, OFF, LONG and test_bit are `NBits`, `Off`, `Long` and `TestBit`; the switch bitmap is NBITS(SW_MAX) = 1 word and SW_FRONT_PROXIMITY is bit 11 of word 0 |
| InputProximity.PopCountClearLowest | src/drv-input-proximity.c:43-46 | clearing the lowest set bit removes exactly one set bit |
| InputProximity.ClearLowestStep | src/drv-input-proximity.c:43-46 | one step `val &= (val - 1)` makes val smaller and removes exactly one set bit, so the counting loop ends with the population count |
| InputProximity.PopCountIsCountBits | src/drv-input-proximity.c:43-46 | the count the loop computes is the number of bit positions at which test_bit sees a 1 |
| InputProximity.ParsedWordAt | src/drv-input-proximity.c:37-42 | word j of the bitmask holds the value of token n-1-j: the most significant word comes first in the text |
| InputProximity.ParseOfPrintedBitmap | src/drv-input-proximity.c:28-51 | a bitmap printed word by word in hex, most significant first, with a trailing newline, parses back into exactly its words |
| InputProximity.Memset | src/drv-input-proximity.c:35 | the first n words become 0 and the rest keep their values |
| InputProximity.InputStrToBitmask | src/drv-input-proximity.c:28-51 | the array's prefix holds the parsed words, the rest of the cleared area is 0, words beyond max_size are untouched, and the result is the total number of set bits |
| InputProximity.SwitchGetBitmask | src/drv-input-proximity.c:53-92 | succeeds exactly when the capability file exists, was read, and has at least one and fewer than SW_CNT bits set; after a read the array's prefix holds the parsed words, word 0 is 0 for an empty text, and every word past the parsed ones (and past word 0) keeps its old value; the array is untouched when the file is missing or unreadable |
| InputProximity.DiscoversOnPrefix | src/drv-input-proximity.c:196-213 | once the bitmask is accepted, discovery is test_bit(SW_FRONT_PROXIMITY) on the caller's array, whatever lies beyond the parsed words |
| InputProximity.InputProximityDiscover | src/drv-input-proximity.c:196-213 | discovery succeeds exactly when the bitmask is accepted and bit SW_FRONT_PROXIMITY is set |
| InputProximity.StreamSplit | src/drv-input-proximity.c:109-121 | cutting the byte stream into records loses and invents nothing: full-size records, in order, followed by the partial record |
| InputProximity.StreamCounts | src/drv-input-proximity.c:109-121 | a stream of n bytes holds n / size complete records and n % size bytes of a partial record |
| InputProximity.TakeRecord | src/drv-input-proximity.c:109-121 | a stream that starts with a whole record yields that record and then the records of the rest |
| InputProximity.RecordStep | src/drv-input-proximity.c:121-142 | one more record appends exactly its own reading and sets the last switch state only when it is a proximity-switch record with a successful query |
| InputProximity.NoDebounce | src/drv-input-proximity.c:121-142 | the same proximity record delivered twice is reported twice: there is no comparison with the previous state |
| InputProximity.ReadChars | src/drv-input-proximity.c:109-112 | the chunk is copied into the event buffer at the offset and nothing else changes |
| InputProximity.ProximityData.Open | src/drv-input-proximity.c:232-247 | the driver data holds the device and its sysfs path, with no watch, an empty partial record and switch state 0 |
| InputProximity.ProximityData.WatchInputProximity | src/drv-input-proximity.c:147-194 | the watch is set up exactly when the device file is non-empty, opens, answers EVIOCGSW and takes the binary encoding; it then records the watch id and the initial switch bit |
| InputProximity.ProximityData.SetPolling | src/drv-input-proximity.c:215-230 | a call matching the current state changes nothing; disabling removes the watch; enabling sets up a watch as WatchInputProximity does |
| InputProximity.ProximityData.ProximityChanged | src/drv-input-proximity.c:94-145 | HUP, ERR or NVAL removes the watch and changes nothing; otherwise every complete record in the carried partial record plus the new bytes is handled in order, the readings are those of Readings, the last switch state is that of LastState, and the leftover bytes are carried over |
| InputProximity.ProximityData.ReadEvent | src/drv-input-proximity.c:109-118 | a read completes the record exactly when it fills the buffer, leaving the offset for the handler to reset; otherwise the offset advances and the partial record grows by the chunk |
| InputProximity.ProximityData.HandleEvent | src/drv-input-proximity.c:121-142 | a completed record resets the offset, produces exactly its reading, and updates the switch state only for a proximity-switch record whose query succeeds |
| InputProximity.ProximityData.Close | src/drv-input-proximity.c:249-257 | the device reference is dropped and the rest of the state, native_path included, is untouched |
| InputProximity.HangUpLeavesStaleWatch | src/drv-input-proximity.c:105-106 | after a hang-up proximity_changed returns FALSE and keeps the watch id, so the set_polling(TRUE) that follows (line 220) changes nothing and no watch is set up again |
| InputProximity.ShortRead | src/drv-input-proximity.c:115-118 | a read that does not complete a record yields no record and only extends the partial record |
| InputProximity.SplitDelivery | src/drv-input-proximity.c:109-142 | a proximity record delivered in two pieces yields nothing after the first piece and exactly one reading after the second |
| InputProximity.SingleWordText | src/drv-input-proximity.c:28-51 | a one-word bitmap text parses to that word |
| InputProximity.PopCountPow2 | src/drv-input-proximity.c:43-46 | a power of two has exactly one set bit |
| InputProximity.DiscoversFrontProximity | src/drv-input-proximity.c:196-213 | a device whose capability text is "800\n" (bit 11 only) is discovered |
| InputProximity.RejectsOtherSwitch | src/drv-input-proximity.c:196-213 | a device whose capability text is "400\n" (bit 10 only) is rejected |
| InputProximity.TwoWordExample | src/drv-input-proximity.c:28-51 | "80 0\n" parses into words [0, 0x80]: the second token is word 0, and exactly bit 71 is set |
| InputProximity.DiscoverIsSwitchCheck | src/drv-input-proximity.c:259-266 | driver_discover on this driver is the switch-capability check |

## Left out

- I/O and the system: udev, sysfs, device nodes, `read`, `open`, `ioctl` and GLib's main loop and channels are not modelled. What they answer is a parameter: `SysfsFile`, `DeviceRead`, `WatchEnv`, the `pending` bytes and the `query` function for `EVIOCGSW`, and `sourceId` for the ids GLib hands out. `g_source_remove` is modelled as removing the id from a ghost set of running timeouts.
- Callbacks: `callback_func`/`user_data` are not modelled; each reading a driver would pass to the callback is returned instead.
- `buffer_drv_data_new`, `process_scan_1` and channel scaling (iio-buffer-utils) are not part of this model. The scan size the buffer layout resolves to is a field of the device, and decoding a row into a level is a `decode` parameter.
- `setup_accel_location` is not part of this model; its result is a field of the device. `drv_check_udev_sensor_type` is set membership of udev tags; its log message is left out.
- `iio_fixup_sampling_frequency` and the accelerometer drivers are not part of this model.
- Floating point: doubles are modelled as reals, so rounding is not modelled. `atan2` and the conversion to degrees are not modelled: `PollHeading` returns the arguments `atan2` would receive, and `NonFinite` where C would compute an infinity or NaN.
- Parsing.Strtoul16: leading white space, a sign and a `0x` prefix are not modelled. Overflow saturates at ULONG_MAX as strtoul does.
- Parsing.Atoi: does not model overflow beyond `int` (undefined in C). Raw compass values and the sums `min + max` are unbounded integers rather than `int`.
- InputProximity.InputStrToBitmask: requires `max_size` to be a whole number of words and the array to hold every token. InputProximityDiscover and SwitchGetBitmask carry the same `requires`. The source does not ensure the second. `switch_get_bitmask` passes `sizeof (bitmask)`, which is 8 because `bitmask` is a pointer there (src/drv-input-proximity.c:80). That 8 is both the memset size and g_strsplit's `max_tokens` (line 36), so up to 8 words are stored into the one-word stack array of `input_proximity_discover` (line 199). A capability text with more than one word therefore writes past `bitmask`. Only the kernel printing a single word for `SW_MAX` keeps the write in bounds, and the model's `requires` excludes the longer texts. The model fixes `SIZEOF_POINTER` = 8.
- InputProximity.NBits: requires `x >= 1`. The macro `((((x)-1)/BITS_PER_LONG)+1)` (src/drv-input-proximity.c:12) is not modelled for x = 0, where C's `(x)-1` wraps to a huge unsigned value. The drivers only use it with `SW_MAX`.
- InputProximity.ProximityData: event records are the record size given at open (at least 8 bytes), with the 16-bit `type` and `code` read little-endian from the 8 bytes before the end, after the timeval. The timeval and `value` fields are not modelled. Each dispatch reads until the channel holds no more bytes.
- InputProximity.ProximityData.WatchInputProximity: the leaked channel and file descriptor are not modelled. A failed watch leaves the watch id as it was, as the source does.
- InputProximity.ProximityData.Close: `native_path` is not freed by the source, and the model keeps it. The `name` field the source sets on `SensorDevice` is not in `src/drivers.h`'s struct and is left out.
- IioBufferLight.LightData.Close: the timeout is not removed, as in the source. Only `driver_close`'s preceding `set_polling(FALSE)` stops it.
- IioPollCompass.CompassData.Close: `g_free (&drv_data->calibration_data)` frees a pointer into the middle of `drv_data` (src/drv-iio-poll-compass-uncalibrated.c:157). That is undefined behaviour, and it is modelled as releasing the calibration.
- IioPollCompass: the global `drv_data` (src/drv-iio-poll-compass-uncalibrated.c:38) is one `CompassData` object per open device, so a second open overwriting the first is not modelled.
- Drivers.SensorDevice.DriverClose: requires a driver, because `driver_close` dereferences `drv` without checking it.
- Drivers.SensorDriver: open, set_polling and close are kept only as "present or not"; what they do is each driver's own class.
- IioPollCompass: the compass's entry points do not match `src/drivers.h`, and the model follows `src/drivers.h` instead. `iio_compass_open` returns `gboolean` (src/drv-iio-poll-compass-uncalibrated.c:111), not a `SensorDevice *`. `iio_compass_set_polling (gboolean state)` (line 135) and `iio_compass_close (void)` (line 153) take no device; called through `driver_set_polling`, `state` would receive the device pointer. The record's `.specific_type` (line 164) is not a field of `SensorDriver`. `CompassData.SetPolling (state, …)` and `CompassData.Close ()` act on their own device, as `src/drivers.h` requires.
- InputProximity: the proximity driver's entry points do not match `src/drivers.h` either, and the model follows `src/drivers.h`. `input_proximity_open (GUdevDevice *device)` (src/drv-input-proximity.c:233) takes no callback or user data. The record's `.driver_name` (line 260) and `sensor_device->callback_func`/`user_data` (line 142) are not in `src/drivers.h`. Readings are returned instead of passed to a callback.
- Log messages (`g_debug`, `g_warning`) and timeout source names are not modelled.
