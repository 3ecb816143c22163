/** The values that travel through the system. */
module Types {

  const TWO32: nat := 0x1_0000_0000
  const TWO63: nat := 0x8000_0000_0000_0000
  const TWO64: nat := 0x1_0000_0000_0000_0000

  type Byte = b: nat | b < 256
  type Uint64 = n: nat | n < TWO64
  type Int64 = i: int | -(TWO63 as int) <= i < TWO63

  datatype Handle = Handle(Id: Uint64, TimeStamp: Int64)

  datatype Content = Content(Id: Handle, Eof: bool, Data: seq<Byte>)

  /** The order the source sorts handles by. */
  predicate HandleLess(a: Handle, b: Handle) {
    if a.Id == b.Id then a.TimeStamp < b.TimeStamp else a.Id < b.Id
  }
}
