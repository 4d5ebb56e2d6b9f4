/**
 The shapes of the JSON payload that the device-status page consumes
 (src/ts/types.ts). Strings are sequences of characters.
 */
module Types {
  import opened Wrappers

  /** One row of the "Devices" sheet; `Info` is an optional field. */
  datatype Device = Device(deviceName: string, status: string, info: Option<string>)

  /**
   One row of the "Monitors" sheet: the slot label (the field whose name
   begins with "Slots") and one optional assignee per weekday name.
   */
  datatype MonitorSlot = MonitorSlot(slot: string, assignees: map<string, string>)

  /**
   A child of a sheet. The declared type allows either row shape, and the
   renderer reads every child as a device: a monitor-slot row is one that
   carries no "Device Name".
   */
  datatype Row = DeviceRow(device: Device) | SlotRow(slot: MonitorSlot)

  datatype SheetData = SheetData(sheetName: string, children: seq<Row>)

  datatype ApiResponse = ApiResponse(data: seq<SheetData>)
}
