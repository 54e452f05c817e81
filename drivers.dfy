// The driver dispatch layer of src/drivers.h: a driver record of four
// function pointers and the inline wrappers the daemon calls through.

module Drivers {
  import opened SensorTypes

  /** struct SensorDriver. `discover` is the decision the driver's discover
      function makes (None for a NULL pointer); for open, set_polling and
      close the model keeps only whether the pointer is set, since what they
      do is each driver's own business. */
  datatype SensorDriver = SensorDriver(
    name: string,
    driverType: DriverType,
    discover: Option<UdevDevice -> bool>,
    hasOpen: bool,
    hasSetPolling: bool,
    hasClose: bool)

  /** driver_discover: NULL arguments are refused, then the driver's own
      discover decides; an accelerometer must also be mounted in the display. */
  function DriverDiscover(driver: Option<SensorDriver>, device: Option<UdevDevice>): (found: bool)
    ensures driver.None? || driver.value.discover.None? || device.None? ==> !found
    ensures found ==> driver.value.discover.value(device.value)
    ensures driver.Some? && driver.value.discover.Some? && device.Some? && driver.value.driverType != Accel ==>
      found == driver.value.discover.value(device.value)
    ensures driver.Some? && driver.value.discover.Some? && device.Some? && driver.value.driverType == Accel ==>
      (found <==> driver.value.discover.value(device.value) && device.value.accelLocation == LocationDisplay)
  {
    if driver.None? || driver.value.discover.None? || device.None? then false
    else if !driver.value.discover.value(device.value) then false
    else if driver.value.driverType != Accel then true
    else device.value.accelLocation == LocationDisplay
  }

  /** A call made through a device's driver record. */
  datatype DriverCall = SetPollingCall(state: bool) | CloseCall

  /** struct SensorDevice: the back-reference to its driver. The driver's
      private data lives in each driver's own class; `calls` records, oldest
      first, the calls the wrappers made through `drv` for this device. */
  class SensorDevice {
    var drv: Option<SensorDriver>
    ghost var calls: seq<DriverCall>

    /** The zeroed SensorDevice a driver's open allocates. */
    constructor ()
      ensures drv.None? && calls == []
    {
      drv := None;
      calls := [];
    }

    /** driver_set_polling (src/drivers.h:132-146): nothing without a driver
        or without a set_polling function, otherwise one call with the same
        state. */
    method DriverSetPolling(state: bool)
      modifies this
      ensures drv == old(drv)
      ensures calls == old(calls) + if drv.Some? && drv.value.hasSetPolling then [SetPollingCall(state)] else []
    {
      if drv.None? {
        return;
      }
      if !drv.value.hasSetPolling {
        return;
      }
      calls := calls + [SetPollingCall(state)];
    }

    /** driver_close (src/drivers.h:148-158): polling is turned off first,
        then the driver's close runs. The wrapper reads drv->close without
        checking drv, so a device without a driver is refused. */
    method DriverClose()
      requires drv.Some?
      modifies this
      ensures drv == old(drv)
      ensures calls == old(calls)
        + (if drv.value.hasSetPolling then [SetPollingCall(false)] else [])
        + (if drv.value.hasClose then [CloseCall] else [])
    {
      DriverSetPolling(false);
      if !drv.value.hasClose {
        return;
      }
      calls := calls + [CloseCall];
    }
  }

  /** driver_open (src/drivers.h:112-130). `returned` is what the driver's open
      returns (null when it fails); it is only asked when every argument is
      present, and a device it returns gets the driver as its back-reference. */
  method DriverOpen(driver: Option<SensorDriver>, device: Option<UdevDevice>, hasCallback: bool, returned: SensorDevice?)
    returns (sensorDevice: SensorDevice?)
    modifies returned
    ensures sensorDevice == if driver.Some? && driver.value.hasOpen && device.Some? && hasCallback then returned else null
    ensures sensorDevice != null ==> sensorDevice.drv == driver && sensorDevice.calls == old(sensorDevice.calls)
  {
    if driver.None? || !driver.value.hasOpen || device.None? || !hasCallback {
      return null;
    }
    sensorDevice := returned;
    if sensorDevice == null {
      return null;
    }
    sensorDevice.drv := driver;
  }
}
