// The IIO buffered ambient-light driver (src/drv-iio-buffer-light.c): every
// 700 ms it reads what the buffer device holds and reports the last complete
// scan row.

module IioBufferLight {
  import opened SensorTypes
  import opened Polling
  import opened Drivers
  import opened Arith

  /** Rows read per tick (buf_len). */
  const BUF_LEN: nat := 127

  /** errno for "no data now" on a non-blocking read (Linux). */
  const EAGAIN: int := 11

  /** What the light driver keeps of buffer_drv_data_new's result. */
  datatype BufferData = BufferData(triggerName: string, scanSize: ScanSize)

  /** buffer_drv_data_new resolves the buffer's scan layout from the device's
      channels; the model reads the outcome off the device. */
  function BufferDrvDataNew(device: UdevDevice, triggerName: string): Option<BufferData>
  {
    if device.scanSize.Some? then Some(BufferData(triggerName, device.scanSize.value)) else None
  }

  /** IIOSensorData: the byte count read() returned (-1 on error) and the
      buffer it filled. */
  datatype IIOSensorData = IIOSensorData(readSize: int, bytes: seq<Byte>)

  // ---------------------------------------------------------------------------
  // Row selection (process_scan)

  /** The index of the row process_scan decodes, None when it gives up:
      on a failed read, and when not even one row was read. */
  function SelectRow(readSize: int, scanSize: ScanSize): Option<nat>
  {
    if readSize < 0 then None
    else if readSize / scanSize - 1 < 0 then None
    else Some(readSize / scanSize - 1)
  }

  /** A row is selected exactly when at least one full row was read, and it
      is the last complete one: it ends within the read bytes and the next
      row would not. */
  lemma SelectRowIsLastComplete(readSize: int, scanSize: ScanSize)
    ensures SelectRow(readSize, scanSize).Some? <==> readSize >= scanSize
    ensures SelectRow(readSize, scanSize).Some? ==>
      var i := SelectRow(readSize, scanSize).value;
      scanSize * (i + 1) <= readSize < scanSize * (i + 2)
  {
    if readSize >= 0 {
      var q := readSize / scanSize;
      var r := readSize % scanSize;
      assert readSize == scanSize * q + r && 0 <= r < scanSize;
      assert q >= 0;
      assert scanSize * (q + 1) == scanSize * q + scanSize;
      if q >= 1 {
        assert scanSize * q >= scanSize * 1 by {
          MulMonotone(scanSize, 1, q);
        }
      }
    }
  }

  /** The bytes of the last complete row of a read of `readSize` bytes,
      located from the end of the read. */
  function LastRow(bytes: seq<Byte>, readSize: nat, scanSize: ScanSize): seq<Byte>
    requires scanSize <= readSize <= |bytes|
  {
    bytes[readSize - readSize % scanSize - scanSize .. readSize - readSize % scanSize]
  }

  /** process_scan (src/drv-iio-buffer-light.c:30-69). `decode` stands for
      process_scan_1 on the "in_intensity_both" channel followed by
      level * scale. None: it returned 0 without calling back; Some(r): it
      called back once with r and returned 1. */
  function ProcessScan(data: IIOSensorData, scanSize: ScanSize, decode: seq<Byte> -> real): Option<LightReadings>
    requires data.readSize <= |data.bytes|
  {
    match SelectRow(data.readSize, scanSize)
    case None => None
    case Some(i) =>
      SelectRowIsLastComplete(data.readSize, scanSize);
      Some(LightReadings(decode(data.bytes[scanSize * i .. scanSize * (i + 1)]), true))
  }

  /** process_scan reports exactly when a full row was read; the report is in
      lux and is the decoding of the last complete row, and of nothing else. */
  lemma ProcessScanReportsLastRow(data: IIOSensorData, scanSize: ScanSize, decode: seq<Byte> -> real)
    requires data.readSize <= |data.bytes|
    ensures ProcessScan(data, scanSize, decode).Some? <==> data.readSize >= scanSize
    ensures ProcessScan(data, scanSize, decode).Some? ==>
      ProcessScan(data, scanSize, decode).value ==
        LightReadings(decode(LastRow(data.bytes, data.readSize, scanSize)), true)
  {
    SelectRowIsLastComplete(data.readSize, scanSize);
    if data.readSize >= scanSize {
      var i := SelectRow(data.readSize, scanSize).value;
      assert scanSize * (i + 1) == data.readSize - data.readSize % scanSize by {
        assert data.readSize == scanSize * (data.readSize / scanSize) + data.readSize % scanSize;
      }
      assert scanSize * i == scanSize * (i + 1) - scanSize;
    }
  }

  // ---------------------------------------------------------------------------
  // One tick (prepare_output)

  /** What the device node does when the tick opens and reads it: the open
      fails, the read fails with an errno, or the read returns up to the
      `available` bytes. */
  datatype DeviceRead = OpenFails | ReadFails(errno: int) | Available(available: seq<Byte>)

  /** What a tick amounts to: the node could not be opened; the read found no
      new data and process_scan was skipped; or process_scan ran with the
      given outcome. */
  datatype Tick = OpenFailed | NoNewData | Scanned(reading: Option<LightReadings>)

  /** The bytes one read() returns: at most BUF_LEN rows. */
  function ReadCap(available: seq<Byte>, scanSize: ScanSize): seq<Byte>
  {
    if |available| <= BUF_LEN * scanSize then available else available[..BUF_LEN * scanSize]
  }

  /** prepare_output (src/drv-iio-buffer-light.c:71-101). */
  function PrepareOutput(read: DeviceRead, scanSize: ScanSize, decode: seq<Byte> -> real): (tick: Tick)
    ensures tick == OpenFailed <==> read.OpenFails?
    ensures tick == NoNewData <==> read == ReadFails(EAGAIN)
    ensures read.ReadFails? && read.errno != EAGAIN ==> tick == Scanned(None)
  {
    match read
    case OpenFails => OpenFailed
    case ReadFails(errno) =>
      if errno == EAGAIN then NoNewData
      else Scanned(ProcessScan(IIOSensorData(-1, []), scanSize, decode))
    case Available(available) =>
      var got := ReadCap(available, scanSize);
      Scanned(ProcessScan(IIOSensorData(|got|, got), scanSize, decode))
  }

  /** Because a read is capped at BUF_LEN rows, the row a tick decodes has
      index at most BUF_LEN - 1. */
  lemma RowIndexBounded(available: seq<Byte>, scanSize: ScanSize)
    ensures var got := ReadCap(available, scanSize);
      SelectRow(|got|, scanSize).Some? ==> SelectRow(|got|, scanSize).value <= BUF_LEN - 1
  {
    var got := ReadCap(available, scanSize);
    SelectRowIsLastComplete(|got|, scanSize);
    if SelectRow(|got|, scanSize).Some? {
      var i := SelectRow(|got|, scanSize).value;
      if i > BUF_LEN - 1 {
        MulMonotone(scanSize, BUF_LEN + 1, i + 1);
        assert false;
      }
    }
  }

  /** A tick reports a reading exactly when the node opened, the read
      returned at least one full row, and the reading is the last complete
      row among those read. */
  lemma TickReportsLastRow(read: DeviceRead, scanSize: ScanSize, decode: seq<Byte> -> real)
    ensures PrepareOutput(read, scanSize, decode).Scanned? && PrepareOutput(read, scanSize, decode).reading.Some? <==>
      read.Available? && |ReadCap(read.available, scanSize)| >= scanSize
    ensures read.Available? && |ReadCap(read.available, scanSize)| >= scanSize ==>
      var got := ReadCap(read.available, scanSize);
      PrepareOutput(read, scanSize, decode) == Scanned(Some(LightReadings(decode(LastRow(got, |got|, scanSize)), true)))
  {
    match read
    case OpenFails =>
    case ReadFails(errno) =>
      SelectRowIsLastComplete(-1, scanSize);
    case Available(available) =>
      var got := ReadCap(available, scanSize);
      ProcessScanReportsLastRow(IIOSensorData(|got|, got), scanSize, decode);
  }

  // ---------------------------------------------------------------------------
  // Finding the trigger

  /** The name of the trigger associated with device number `number`. */
  function TriggerName(number: string): string
  {
    "als-dev" + number
  }

  /** get_trigger_name (src/drv-iio-buffer-light.c:103-137): scan the iio
      devices for the first whose `name` attribute is the trigger's name. */
  method GetTriggerName(device: UdevDevice, devices: seq<UdevDevice>) returns (triggerName: Option<string>)
    ensures triggerName.Some? <==> exists d :: d in devices && d.nameAttr == Some(TriggerName(device.number))
    ensures triggerName.Some? ==> triggerName.value == TriggerName(device.number)
  {
    var name := "als-dev" + device.number;
    var hasTrigger := false;
    var i := 0;
    while i < |devices|
      invariant 0 <= i <= |devices|
      invariant forall j :: 0 <= j < i ==> devices[j].nameAttr != Some(name)
      invariant !hasTrigger
    {
      if devices[i].nameAttr == Some(name) {
        hasTrigger := true;
        break;
      }
      i := i + 1;
    }
    if hasTrigger {
      return Some(name);
    }
    return None;
  }

  // ---------------------------------------------------------------------------
  // The driver's private data

  class LightData {
    var timeoutId: nat
    var dev: Option<UdevDevice>
    var devPath: Option<string>
    var name: string
    var bufferData: Option<BufferData>
    /** The GLib timeouts running on behalf of this device. */
    ghost var liveTimers: set<nat>

    ghost predicate Valid()
      reads this
    {
      liveTimers == LiveTimers(timeoutId)
    }

    /** The DrvData iio_buffer_light_open fills in once the trigger and the
        buffer data are found. */
    constructor (device: UdevDevice, bufferData: BufferData)
      ensures Valid() && timeoutId == 0
      ensures dev == Some(device) && this.bufferData == Some(bufferData) && devPath == device.deviceFile
      ensures name == if device.nameProperty.Some? then device.nameProperty.value else device.name
    {
      timeoutId := 0;
      dev := Some(device);
      this.bufferData := Some(bufferData);
      devPath := device.deviceFile;
      name := if device.nameProperty.Some? then device.nameProperty.value else device.name;
      liveTimers := {};
    }

    /** iio_buffer_light_set_polling (src/drv-iio-buffer-light.c:156-176);
        g_timeout_add would return `sourceId`. */
    method SetPolling(state: bool, sourceId: SourceId)
      requires Valid()
      modifies this
      ensures Valid()
      ensures timeoutId == NextTimeout(old(timeoutId), state, sourceId)
      ensures dev == old(dev) && devPath == old(devPath) && name == old(name) && bufferData == old(bufferData)
    {
      if timeoutId > 0 && state {
        return;
      }
      if timeoutId == 0 && !state {
        return;
      }
      if timeoutId != 0 {
        liveTimers := liveTimers - {timeoutId};
        timeoutId := 0;
      }
      if state {
        timeoutId := sourceId;
        liveTimers := liveTimers + {sourceId};
      }
    }

    /** read_light (src/drv-iio-buffer-light.c:139-148): one tick of the
        timeout, which always stays installed. */
    method ReadLight(read: DeviceRead, decode: seq<Byte> -> real) returns (keep: bool, tick: Tick)
      requires bufferData.Some?
      ensures keep
      ensures tick == PrepareOutput(read, bufferData.value.scanSize, decode)
    {
      tick := PrepareOutput(read, bufferData.value.scanSize, decode);
      keep := true;
    }

    /** iio_buffer_light_close (src/drv-iio-buffer-light.c:212-221): the
        buffer data and the device are released. The timeout is left alone:
        driver_close has turned polling off before. */
    method Close()
      requires Valid()
      modifies this
      ensures Valid()
      ensures bufferData.None? && dev.None?
      ensures timeoutId == old(timeoutId)
    {
      bufferData := None;
      dev := None;
    }
  }

  /** iio_buffer_light_open (src/drv-iio-buffer-light.c:178-210): null,
      before anything is allocated, when no trigger or no buffer data is
      found. */
  method Open(device: UdevDevice, iioDevices: seq<UdevDevice>) returns (data: LightData?)
    ensures data == null <==>
      !(exists d :: d in iioDevices && d.nameAttr == Some(TriggerName(device.number))) || device.scanSize.None?
    ensures data != null ==> fresh(data) && data.Valid() && data.timeoutId == 0
    ensures data != null ==> data.bufferData == Some(BufferData(TriggerName(device.number), device.scanSize.value))
    ensures data != null ==> data.dev == Some(device) && data.devPath == device.deviceFile
    ensures data != null ==>
      data.name == if device.nameProperty.Some? then device.nameProperty.value else device.name
  {
    var triggerName := GetTriggerName(device, iioDevices);
    if triggerName.None? {
      return null;
    }
    var bufferData := BufferDrvDataNew(device, triggerName.value);
    if bufferData.None? {
      return null;
    }
    data := new LightData(device, bufferData.value);
  }

  /** The driver record (src/drv-iio-buffer-light.c:223-231); discovery is
      drv_check_udev_sensor_type for "iio-buffer-als". */
  const Driver: SensorDriver :=
    SensorDriver("IIO Buffer Light sensor", Light, Some((d: UdevDevice) => CheckUdevSensorType(d, "iio-buffer-als")),
      true, true, true)

  /** driver_discover on this driver is the udev sensor-type check alone. */
  lemma DiscoverIsSensorType(device: UdevDevice)
    ensures DriverDiscover(Some(Driver), Some(device)) == CheckUdevSensorType(device, "iio-buffer-als")
  {
  }
}
