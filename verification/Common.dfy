/** Result types, error codes and machine integers shared by the modules. */
module Common {

  /** An optional value; failure-compatible, so `:-` propagates `None`. */
  datatype Option<+T> = None | Some(value: T) {
    predicate IsFailure() {
      None?
    }

    function PropagateFailure<U>(): Option<U>
      requires None?
    {
      None
    }

    function Extract(): T
      requires Some?
    {
      value
    }
  }

  /** The `errno_t` values that the modelled functions return. */
  datatype Errno = EOK | EAGAIN | EINVAL | EIO | ENOENT | ENOMEM

  const TWO_63 := 0x8000_0000_0000_0000
  const TWO_31 := 0x8000_0000

  type TimeT = t: int | -TWO_63 <= t < TWO_63
  type CInt = i: int | -TWO_31 <= i < TWO_31
}
