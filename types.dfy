/** Value types shared by the whole model: the C `BYTE` (unsigned char), a
    six-byte hardware address, and an Option standing for a possibly-NULL pointer. */
module Types {

  /** `typedef unsigned char BYTE` */
  type Byte = b: int | 0 <= b < 256

  /** A MAC address: exactly six bytes, in the order the kernel reports them. */
  type Mac = m: seq<Byte> | |m| == 6 witness [0, 0, 0, 0, 0, 0]

  /** A pointer that may be NULL. */
  datatype Option<+T> = None | Some(value: T)
}
