/** What several parts share. */
module Common {
  /** The size of the process table. */
  const PROC_MAX: nat := 8

  type Byte = b: nat | b < 256

  datatype Option<+T> = None | Some(value: T)

  /** The sequence without its element k. */
  function Removed<T>(s: seq<T>, k: nat): seq<T>
    requires k < |s|
  {
    s[..k] + s[k + 1..]
  }
}
