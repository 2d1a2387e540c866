/**
 * The fixed constants of the library: its public enumerations, its endpoint
 * capacity, and the sizes, magic numbers and type codes of the Linux
 * FunctionFS ABI (linux/usb/functionfs.h) and of the USB 2.0 standard
 * descriptors (sections 9.6.5 and 9.6.6 of the USB 2.0 specification).
 */
module Consts {
  // Speed flags; they coincide with FunctionFS's HAS_FS/HS/SS_DESC flags.
  const USBF_SPEED_FS: bv32 := 0x01
  const USBF_SPEED_HS: bv32 := 0x02
  const USBF_SPEED_SS: bv32 := 0x04
  /** All speed bits the library recognises. */
  const USBF_SPEED_MASK: bv32 := 0x07

  // Endpoint transfer types (the value goes into bmAttributes).
  const USBF_ISOCHRONOUS: int := 0x01
  const USBF_BULK: int := 0x02
  const USBF_INTERRUPT: int := 0x03

  // Endpoint directions (the value is OR'ed into the endpoint address).
  const USBF_OUT: bv32 := 0x00
  const USBF_IN: bv32 := 0x80

  // Event types; the numbering is that of FunctionFS's event record.
  const USBF_EVENT_BIND: int := 0
  const USBF_EVENT_UNBIND: int := 1
  const USBF_EVENT_ENABLE: int := 2
  const USBF_EVENT_DISABLE: int := 3
  const FUNCTIONFS_SETUP: int := 4
  const USBF_EVENT_SUSPEND: int := 5
  const USBF_EVENT_RESUME: int := 6

  /** Capacity of a function's endpoint table. */
  const MAX_ENDPOINTS: nat := 16

  // FunctionFS ABI.
  const FUNCTIONFS_STRINGS_MAGIC: nat := 2
  const FUNCTIONFS_DESCRIPTORS_MAGIC_V2: nat := 3
  /** usb_functionfs_descs_head_v2: magic, length, flags. */
  const DESCS_HEAD_V2_SIZE: nat := 12
  /** One little-endian endpoint-count field per advertised speed. */
  const COUNT_SIZE: nat := 4
  /** usb_functionfs_strings_head: magic, length, str_count, lang_count. */
  const STRINGS_HEAD_SIZE: nat := 16
  /** A 16-bit language code. */
  const LANG_CODE_SIZE: nat := 2
  /** usb_functionfs_event: an 8-byte SETUP packet, a type byte, 3 pad bytes. */
  const EVENT_SIZE: nat := 12
  /** Byte offset of the type field inside an event record. */
  const EVENT_TYPE_OFFSET: nat := 8

  // USB 2.0 standard descriptors.
  const USB_DT_INTERFACE: int := 4
  const USB_DT_ENDPOINT: int := 5
  /** usb_interface_descriptor (section 9.6.5). */
  const INTERFACE_DESC_SIZE: nat := 9
  /** usb_endpoint_descriptor without the audio extension (section 9.6.6). */
  const ENDPOINT_DESC_SIZE: nat := 7
  /** bmRequestType bit 7: the data stage goes device-to-host. */
  const USB_DIR_IN: bv8 := 0x80
  /** Language ID of US English. */
  const LANG_US_ENGLISH: int := 0x0409

  // errno values returned negated.
  const ENOMEM: int := 12
  const EINVAL: int := 22
}
