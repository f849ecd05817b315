/** Shared vocabulary of the GM1356 sound-level meter reader: the result codes the
    protocol functions return, the records hidapi hands back, the scripted answers
    that stand in for the USB device and the clock, and the trace of hidapi calls
    the driver makes. */
module Hid {

  datatype Option<+T> = None | Some(value: T)

  /** A 16-bit USB vendor or product identifier. */
  type u16 = x: int | 0 <= x < 0x1_0000

  /** A C unsigned int. */
  type u32 = x: int | 0 <= x < 0x1_0000_0000

  /** Every report exchanged with the meter is exactly this long, in both directions. */
  const ReportLen: nat := 8

  /** The aresult_t codes the protocol functions return. ErrBadArgs is what a failed
      argument assertion returns. */
  datatype Status = Ok | ErrInval | ErrNotFound | ErrEmpty | ErrTimeout | ErrBadArgs

  /** One entry of the hid_enumerate list. */
  datatype DeviceInfo = DeviceInfo(vendorId: u16, productId: u16, serial: string)

  /** An open device, remembered by the arguments hid_open was given. */
  datatype Handle = Handle(vendorId: u16, productId: u16, serial: Option<string>)

  /** What one hid_read_timeout call does: fail (a negative count), or deliver some bytes,
      after which the monotonic clock stands elapsedNs past the start of the read loop. */
  datatype HidRead = ReadError | ReadChunk(bytes: seq<bv8>, elapsedNs: nat)

  /** The hidapi calls the driver makes, in order. */
  datatype HidCall =
    | Enumerate(vendorId: u16, productId: u16)
    | Open(vendorId: u16, productId: u16, serial: Option<string>)
    | FreeEnumeration
    | Close
    | Write(report: seq<bv8>)
    | Read(timeoutMillis: nat)

  /** n calls of hid_read_timeout with the same timeout. */
  function Reads(n: nat, timeoutMillis: nat): (calls: seq<HidCall>)
    ensures |calls| == n
    ensures forall e :: e in calls ==> e == Read(timeoutMillis)
  {
    if n == 0 then [] else [Read(timeoutMillis)] + Reads(n - 1, timeoutMillis)
  }
}
