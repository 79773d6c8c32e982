/** What the plugin parts share. */
module Lldb {

  datatype Option<T> = None | Some(value: T)

  const UINT64_MAX: nat := 0xFFFF_FFFF_FFFF_FFFF

  /** LLDB_INVALID_ADDRESS. */
  const INVALID_ADDRESS: nat := UINT64_MAX
}
