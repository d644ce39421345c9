/**
 * The HID report descriptor the driver publishes, and the two numbers it
 * reports to the host as its primary usage page and primary usage.  Both
 * numbers are read out of the descriptor table at fixed offsets; the driver
 * checks at compile time that the byte before each offset is the matching
 * item tag.  Here that check is the contract of the two functions.
 */
module ReportDescriptor {
  import opened ControllerPacket

  /** Short-item prefix bytes (tag, type and a one-byte size), HID 1.11 section 6.2.2. */
  const UsagePageTag: byte := 0x05
  const UsageTag: byte := 0x09

  /** Generic Desktop page and its Game Pad usage, HID Usage Tables 1.12 section 4. */
  const GenericDesktopPage: byte := 0x01
  const GamePadUsage: byte := 0x05

  const UsagePageOffset: nat := 1
  const UsageOffset: nat := 3

  /** The table, item group by item group, in the driver's order. */
  const Descriptor: seq<byte> :=
    GamePadCollection + HeaderField + ButtonFields + TriggerFields
    + StickPrefix + LeftStick + RightStick + EndCollections

  const GamePadCollection: seq<byte> := [
    0x05, 0x01,             // usage page (Generic Desktop)
    0x09, 0x05,             // usage (Game Pad)
    0xa1, 0x01,             // collection (Application)
    0xa1, 0x00              // collection (Physical)
  ]

  const HeaderField: seq<byte> := [
    0x09, 0x3f,             // usage (reserved), the packet header
    0x75, 0x20,             // report size
    0x95, 0x01,             // report count (1)
    0x81, 0x02              // input (Data, Var, Abs)
  ]

  const ButtonFields: seq<byte> := [
    0x05, 0x09,             // usage page (Button)
    0x19, 0x01,             // usage minimum (Button 1)
    0x29, 0x10,             // usage maximum (Button 16)
    0x15, 0x00,             // logical minimum (0)
    0x25, 0x01,             // logical maximum (1)
    0x95, 0x10,             // report count (16)
    0x75, 0x01,             // report size (1)
    0x81, 0x02              // input (Data, Var, Abs)
  ]

  const TriggerFields: seq<byte> := [
    0x05, 0x01,             // usage page (Generic Desktop)
    0x09, 0x32,             // usage (Z)
    0x09, 0x35,             // usage (Rz)
    0x15, 0x00,             // logical minimum (0)
    0x26, 0x00, 0x04,       // logical maximum (1024)
    0x75, 0x10,             // report size (16)
    0x95, 0x02,             // report count (2)
    0x81, 0x02              // input (Data, Var, Abs)
  ]

  const StickPrefix: seq<byte> := [
    0x16, 0x00, 0x80,       // logical minimum (-32768)
    0x26, 0xff, 0x7f,       // logical maximum (32767)
    0x36, 0x00, 0x80,       // physical minimum (-32768)
    0x46, 0xff, 0x7f,       // physical maximum (32767)
    0x95, 0x02,             // report count (2)
    0x75, 0x10,             // report size (16)
    0x05, 0x01              // usage page (Generic Desktop)
  ]

  const LeftStick: seq<byte> := [
    0x09, 0x01,             // usage (Pointer)
    0xa1, 0x00,             // collection (Physical)
    0x09, 0x30,             // usage (X)
    0x09, 0x31,             // usage (Y)
    0x81, 0x02,             // input (Data, Var, Abs)
    0xc0                    // end collection
  ]

  const RightStick: seq<byte> := [
    0x09, 0x01,             // usage (Pointer)
    0xa1, 0x00,             // collection (Physical)
    0x09, 0x33,             // usage (Rx)
    0x09, 0x34,             // usage (Ry)
    0x81, 0x02,             // input (Data, Var, Abs)
    0xc0                    // end collection
  ]

  const EndCollections: seq<byte> := [
    0xc0,                   // end collection (Physical)
    0xc0                    // end collection (Application)
  ]

  /** The primary usage page: the data byte of the descriptor's first item. */
  function PrimaryUsagePageNumber(): (page: byte)
    ensures Descriptor[UsagePageOffset - 1] == UsagePageTag
    ensures page == GenericDesktopPage
  {
    Descriptor[UsagePageOffset]
  }

  /** The primary usage: the data byte of the descriptor's second item. */
  function PrimaryUsageNumber(): (usage: byte)
    ensures Descriptor[UsageOffset - 1] == UsageTag
    ensures usage == GamePadUsage
  {
    Descriptor[UsageOffset]
  }

  /** The trigger range the descriptor declares (item 0x26 0x00 0x04) matches the packet's documented range. */
  lemma TriggerLogicalMaximum()
    ensures TriggerFields[8] == 0x26
    ensures TriggerFields[9] as int + 0x100 * TriggerFields[10] as int == TriggerMax
  {
  }
}
