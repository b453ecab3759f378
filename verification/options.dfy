/** `EnumerationOptions` and the sizing of the native read buffer. */
module EnumOptions {
  import opened Win32

  /** Size used when the caller asks for no particular size (zero or negative). */
  const StandardBufferSize: int := 4096

  /** Enough room for one record: a file name alone can take 512 bytes. */
  const MinimumBufferSize: int := 1024

  datatype Options = Options(
    attributesToSkip: Attributes,
    recurseSubdirectories: bool,
    returnSpecialDirectories: bool,
    ignoreInaccessible: bool,
    bufferSize: int)

  /** `EnumerationOptions.Default`: skip hidden and system entries, ignore
      inaccessible directories, no recursion, default buffer. */
  const Default: Options := Options(Hidden | System, false, false, true, 0)

  /** The length of the buffer actually allocated for a requested size. */
  function BufferLength(requested: int): (n: int)
    ensures n >= MinimumBufferSize
    ensures requested <= 0 ==> n == StandardBufferSize
    ensures requested > 0 ==> n >= requested
    ensures requested >= MinimumBufferSize ==> n == requested
    ensures 0 < requested < MinimumBufferSize ==> n == MinimumBufferSize
  {
    if requested <= 0 then StandardBufferSize
    else if MinimumBufferSize < requested then requested
    else MinimumBufferSize
  }
}
