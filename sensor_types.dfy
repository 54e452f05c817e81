// Shared vocabulary of the driver framework (src/drivers.h): sensor classes,
// reading records, machine words and the read-only view of a udev device.

module SensorTypes {

  datatype Option<T> = None | Some(value: T)

  /** One byte as read from a device file. */
  type Byte = x: nat | x < 0x100

  /** A `long` of the LP64 platform the drivers are built for (BITS_PER_LONG = 64),
      held as its unsigned bit pattern. */
  const BITS_PER_LONG: nat := 64
  const BYTES_PER_LONG: nat := 8
  const ULONG_MAX: nat := 0xFFFF_FFFF_FFFF_FFFF
  type Word = x: nat | x <= ULONG_MAX

  /** Identifier of a GLib main-loop source; GLib never hands out 0. */
  type SourceId = n: nat | n > 0 witness 1

  /** DriverType: the sensor class a driver serves. */
  datatype DriverType = Accel | Light | Compass | Proximity

  /** ProximityNear: -1, 0 and 1 in the C enumeration. */
  datatype ProximityNear = NearError | NearFalse | NearTrue

  /** Mounting location reported for an accelerometer. */
  datatype AccelLocation = LocationDisplay | LocationBase

  datatype LightReadings = LightReadings(level: real, usesLux: bool)

  datatype ProximityReadings = ProximityReadings(isNear: ProximityNear)

  /** Size in bytes of one scan row of an IIO buffer; a resolved row holds at
      least one byte. */
  type ScanSize = n: nat | n > 0 witness 1

  /** Outcome of reading a sysfs attribute file. */
  datatype SysfsFile = Missing | Unreadable | Contents(text: string)

  /** The read-only view of a udev device that the drivers query. Each field
      stands for one query the C code makes of GUdev or of sysfs:
      - sysfsPath, name, number: g_udev_device_get_sysfs_path/_name/_number;
      - deviceFile: g_udev_device_get_device_file (None for NULL);
      - nameProperty: the NAME udev property;
      - nameAttr: the `name` sysfs attribute;
      - sensorTypes: the sensor types the udev rules tag the device with, the
        facts drv_check_udev_sensor_type tests;
      - accelLocation: what setup_accel_location resolves for this device;
      - switchCaps: the `../capabilities/sw` file of an input device;
      - scanSize: the scan row size buffer_drv_data_new resolves from the
        device's IIO channels, None when it cannot. */
  datatype UdevDevice = UdevDevice(
    sysfsPath: string,
    name: string,
    number: string,
    deviceFile: Option<string>,
    nameProperty: Option<string>,
    nameAttr: Option<string>,
    sensorTypes: set<string>,
    accelLocation: AccelLocation,
    switchCaps: SysfsFile,
    scanSize: Option<ScanSize>)

  /** drv_check_udev_sensor_type: the device is tagged with `kind`. */
  predicate CheckUdevSensorType(device: UdevDevice, kind: string)
  {
    kind in device.sensorTypes
  }
}
