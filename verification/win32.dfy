/** The Win32 vocabulary the enumerator consults: error codes, attribute
    bits, handle values and the exceptions it raises. */
module Win32 {

  /** Win32 system error codes (winerror.h) the enumerator distinguishes. */
  const ERROR_FILE_NOT_FOUND: int := 2
  const ERROR_PATH_NOT_FOUND: int := 3
  const ERROR_ACCESS_DENIED: int := 5
  const ERROR_DIRECTORY: int := 267

  /** A `FileAttributes` bit set. */
  type Attributes = bv32

  const Hidden: Attributes := 0x2
  const System: Attributes := 0x4
  const Directory: Attributes := 0x10

  /** An `IntPtr` handle value. Zero is `IntPtr.Zero`; -1 is INVALID_HANDLE_VALUE. */
  type Handle = int

  const NullHandle: Handle := 0
  const InvalidHandleValue: Handle := -1

  /** The exceptions the enumerator can let escape. `IOError` is what
      `Win32Marshal.GetExceptionForWin32Error(error, path)` builds; the mapping
      of codes onto .NET exception classes is not modelled. */
  datatype Exception =
    | ArgumentNull
    | OutOfMemory
    | IOError(error: int, path: string)

  /** How a C# call completed: it returned a value or it threw. */
  datatype Completion<+T> = Normal(value: T) | Abrupt(exception: Exception)
}
