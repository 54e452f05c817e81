// The polled, uncalibrated IIO compass (src/drv-iio-poll-compass-uncalibrated.c):
// fixed calibration extrema, a hard-iron offset and soft-iron scale per axis,
// and a heading from atan2 of the corrected X and Y.

module IioPollCompass {
  import opened SensorTypes
  import opened Polling
  import opened Drivers
  import opened Parsing
  import opened Arith

  /** CalibrationData: per-axis extrema of the raw readings. */
  datatype CalibrationData = CalibrationData(
    xMax: int, xMin: int,
    yMax: int, yMin: int,
    zMax: int, zMin: int,
    isCalibrated: bool)

  /** The extrema iio_compass_open installs
      (src/drv-iio-poll-compass-uncalibrated.c:118-124). */
  const InstalledCalibration: CalibrationData :=
    CalibrationData(-1648, -7912, -528, -6554, 2720, -3074, true)

  /** C integer division, which truncates toward zero (Dafny's `/` is
      Euclidean). */
  function CDiv(a: int, b: int): int
    requires b != 0
  {
    var q := Abs(a) / Abs(b);
    if (a < 0) == (b < 0) then q else -q
  }

  function Abs(a: int): nat
  {
    if a < 0 then -a else a
  }

  /** Against Dafny's Euclidean division by a positive divisor, C's
      truncating division is one larger exactly when a negative dividend
      leaves a remainder. */
  lemma {:induction false} CDivVersusEuclid(a: int, b: int)
    requires b > 0
    ensures CDiv(a, b) == if a < 0 && a % b != 0 then a / b + 1 else a / b
  {
    if a < 0 {
      var q := -a / b;
      var r := -a % b;
      assert -a == b * q + r && 0 <= r < b;
      if r == 0 {
        assert a == b * -q + 0;
        DivUnique(a, b, -q, 0);
      } else {
        assert a == b * (-q - 1) + (b - r);
        DivUnique(a, b, -q - 1, b - r);
      }
    }
  }

  /** For the halvings poll_heading does, the two divisions differ exactly on
      odd negative numbers. */
  lemma HalvingDiffers(a: int)
    ensures CDiv(a, 2) == if a < 0 && a % 2 == 1 then a / 2 + 1 else a / 2
  {
    CDivVersusEuclid(a, 2);
  }

  /** The per-axis offsets (min + max) / 2, in C integer arithmetic
      (src/drv-iio-poll-compass-uncalibrated.c:75-77). */
  function Offsets(cal: CalibrationData): (int, int, int)
  {
    (CDiv(cal.xMin + cal.xMax, 2), CDiv(cal.yMin + cal.yMax, 2), CDiv(cal.zMin + cal.zMax, 2))
  }

  /** The per-axis half ranges (max - min) / 2, in C integer arithmetic
      (src/drv-iio-poll-compass-uncalibrated.c:79-81). */
  function HalfRanges(cal: CalibrationData): (int, int, int)
  {
    (CDiv(cal.xMax - cal.xMin, 2), CDiv(cal.yMax - cal.yMin, 2), CDiv(cal.zMax - cal.zMin, 2))
  }

  /** The mean half range, computed in floating point
      (src/drv-iio-poll-compass-uncalibrated.c:83). */
  function AverageHalfRange(cal: CalibrationData): real
  {
    var h := HalfRanges(cal);
    (h.0 + h.1 + h.2) as real / 3.0
  }

  /** One corrected axis: (raw - offset) * (mean half range / half range)
      (src/drv-iio-poll-compass-uncalibrated.c:85-90). */
  function Corrected(raw: int, offset: int, halfRange: int, avg: real): real
    requires halfRange != 0
  {
    (raw as real - offset as real) * (avg / halfRange as real)
  }

  /** A raw magnetometer sample. */
  datatype Raw = Raw(x: int, y: int, z: int)

  /** The arguments poll_heading hands to atan2, or NonFinite when a scale
      divides by a zero X or Y half range (an infinity or NaN in C). */
  datatype HeadingInput = Atan2Of(first: real, second: real) | NonFinite

  /** The part of poll_heading before atan2
      (src/drv-iio-poll-compass-uncalibrated.c:73-96). */
  function HeadingArgs(cal: CalibrationData, raw: Raw): HeadingInput
  {
    if !cal.isCalibrated then Atan2Of(raw.x as real, raw.y as real)
    else
      var off := Offsets(cal);
      var h := HalfRanges(cal);
      if h.0 == 0 || h.1 == 0 then NonFinite
      else
        var avg := AverageHalfRange(cal);
        Atan2Of(Corrected(raw.x, off.0, h.0, avg), Corrected(raw.y, off.1, h.1, avg))
  }

  /** The installed calibration: offsets (-4780, -3541, -177), half ranges
      (3132, 3013, 2897) and their mean 3014. */
  lemma InstalledConstants()
    ensures Offsets(InstalledCalibration) == (-4780, -3541, -177)
    ensures HalfRanges(InstalledCalibration) == (3132, 3013, 2897)
    ensures AverageHalfRange(InstalledCalibration) == 3014.0
  {
  }

  /** With the installed calibration no scale divides by zero. */
  lemma InstalledIsFinite(raw: Raw)
    ensures HeadingArgs(InstalledCalibration, raw).Atan2Of?
  {
    InstalledConstants();
  }

  /** A sample at the offsets is corrected to (0, 0). */
  lemma AtOffsetIsOrigin(cal: CalibrationData, raw: Raw)
    requires cal.isCalibrated && HalfRanges(cal).0 != 0 && HalfRanges(cal).1 != 0
    requires raw.x == Offsets(cal).0 && raw.y == Offsets(cal).1
    ensures HeadingArgs(cal, raw) == Atan2Of(0.0, 0.0)
  {
  }

  /** Z never reaches the heading, calibrated or not. */
  lemma ZIgnored(cal: CalibrationData, raw: Raw, z: int)
    ensures HeadingArgs(cal, raw) == HeadingArgs(cal, raw.(z := z))
  {
  }

  /** sysfs_get_int (src/drv-iio-poll-compass-uncalibrated.c:40-57): atoi of
      the attribute's contents, 0 when the file cannot be read. */
  function SysfsGetInt(file: SysfsFile): int
  {
    if file.Contents? then Atoi(file.text) else 0
  }

  /** The three raw attribute files poll_heading reads. */
  datatype RawFiles = RawFiles(x: SysfsFile, y: SysfsFile, z: SysfsFile)

  function RawOf(files: RawFiles): Raw
  {
    Raw(SysfsGetInt(files.x), SysfsGetInt(files.y), SysfsGetInt(files.z))
  }

  /** An attribute printed with "%d\n" reads back as its value, and a
      missing or unreadable one reads as 0. */
  lemma SysfsGetIntReadsBack(n: int)
    ensures SysfsGetInt(Contents(DecimalString(n) + "\n")) == n
    ensures SysfsGetInt(Missing) == 0 && SysfsGetInt(Unreadable) == 0
  {
    AtoiOfDecimal(n);
  }

  class CompassData {
    var timeoutId: nat
    var dev: Option<UdevDevice>
    var name: Option<string>
    var calibration: Option<CalibrationData>
    /** The GLib timeouts running on behalf of this device. */
    ghost var liveTimers: set<nat>

    ghost predicate Valid()
      reads this
    {
      liveTimers == LiveTimers(timeoutId)
    }

    /** iio_compass_open (src/drv-iio-poll-compass-uncalibrated.c:111-133):
        zeroed state holding the device, its `name` attribute and the fixed
        calibration. */
    constructor Open(device: UdevDevice)
      ensures Valid() && timeoutId == 0
      ensures dev == Some(device) && name == device.nameAttr
      ensures calibration == Some(InstalledCalibration)
      ensures calibration.value.isCalibrated
    {
      timeoutId := 0;
      dev := Some(device);
      name := device.nameAttr;
      calibration := Some(InstalledCalibration);
      liveTimers := {};
    }

    /** poll_heading (src/drv-iio-poll-compass-uncalibrated.c:59-103): one
        tick, reporting what atan2 is applied to; the timeout stays. */
    method PollHeading(files: RawFiles) returns (keep: bool, heading: HeadingInput)
      requires calibration.Some?
      ensures keep
      ensures heading == HeadingArgs(calibration.value, RawOf(files))
    {
      var magnX := SysfsGetInt(files.x);
      var magnY := SysfsGetInt(files.y);
      var magnZ := SysfsGetInt(files.z);
      heading := HeadingArgs(calibration.value, Raw(magnX, magnY, magnZ));
      keep := true;
    }

    /** iio_compass_set_polling (src/drv-iio-poll-compass-uncalibrated.c:135-151);
        g_timeout_add would return `sourceId`. */
    method SetPolling(state: bool, sourceId: SourceId)
      requires Valid()
      modifies this
      ensures Valid()
      ensures timeoutId == NextTimeout(old(timeoutId), state, sourceId)
      ensures dev == old(dev) && name == old(name) && calibration == old(calibration)
    {
      if timeoutId > 0 && state {
        return;
      }
      if timeoutId == 0 && !state {
        return;
      }
      if timeoutId != 0 {
        liveTimers := liveTimers - {timeoutId};
        timeoutId := 0;
      }
      if state {
        timeoutId := sourceId;
        liveTimers := liveTimers + {sourceId};
      }
    }

    /** iio_compass_close (src/drv-iio-poll-compass-uncalibrated.c:153-159):
        polling is turned off first, then the device and the calibration are
        released; no timeout is left running. */
    method Close()
      requires Valid()
      modifies this
      ensures Valid() && timeoutId == 0 && liveTimers == {}
      ensures dev.None? && calibration.None?
    {
      SetPolling(false, 1);
      dev := None;
      calibration := None;
    }
  }

  /** The driver record (src/drv-iio-poll-compass-uncalibrated.c:161-170);
      discovery is drv_check_udev_sensor_type for
      "iio-poll-compass-uncalibrated". */
  const Driver: SensorDriver :=
    SensorDriver("IIO Poll Uncalibrated Compass", Compass,
      Some((d: UdevDevice) => CheckUdevSensorType(d, "iio-poll-compass-uncalibrated")), true, true, true)

  /** driver_discover on this driver is the udev sensor-type check alone. */
  lemma DiscoverIsSensorType(device: UdevDevice)
    ensures DriverDiscover(Some(Driver), Some(device)) == CheckUdevSensorType(device, "iio-poll-compass-uncalibrated")
  {
  }
}
