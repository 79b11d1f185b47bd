/** Types shared by every component of the model. */
module Common {

  datatype Option<+T> = None | Some(value: T)

  /** Error classes that decide how a caller reacts to a failed CPE request. */
  datatype ErrKind = KindPermanent | KindAuthExpired | KindUnsupported | KindBusy | KindOffline | KindUnknown

  const TWO_63 := 0x8000_0000_0000_0000
  const TWO_64 := 0x1_0000_0000_0000_0000

  /** The signed 64-bit value that two's complement arithmetic leaves for x. */
  function Wrap64(x: int): (r: int)
    ensures -TWO_63 <= r < TWO_63
    ensures -TWO_63 <= x < TWO_63 ==> r == x
    ensures (x - r) % TWO_64 == 0
  {
    var m := x % TWO_64;
    if m < TWO_63 then m else m - TWO_64
  }
}
