/** What callers see of a record (`FileSystemEntry`), the overridable hooks
    of the enumerator, and the name and path helpers the traversal uses. */
module EntryModel {
  import opened Win32
  import opened EnumOptions
  import opened DirectoryStream

  /** The entry view built from the current record and the path context. */
  datatype EntryView = EntryView(
    fileName: FileName,
    attributes: Attributes,
    directory: string,
    rootDirectory: string,
    originalRootDirectory: string)

  /** The virtual members a subclass overrides. */
  datatype Hooks<R> = Hooks(
    shouldRecurseIntoEntry: EntryView -> bool,
    shouldIncludeEntry: EntryView -> bool,
    transformEntry: EntryView -> R,
    continueOnError: int -> bool)

  function View(r: Record, currentPath: string, root: string, originalRoot: string): (v: EntryView)
    ensures v.fileName == r.name && v.attributes == r.attributes
    ensures v.directory == currentPath
  {
    EntryView(r.name, r.attributes, currentPath, root, originalRoot)
  }

  predicate IsDirectory(attributes: Attributes)
  {
    attributes & Directory != 0
  }

  /** The test the enumerator applies to a directory's name to recognise the
      special entries; on a non-empty name it means exactly "." or "..". */
  function IsSpecialDirectoryName(name: FileName): (special: bool)
    ensures special <==> name == "." || name == ".."
  {
    !(|name| > 2 || name[0] != '.' || (|name| == 2 && name[1] != '.'))
  }

  predicate IsDirectorySeparator(c: char)
  {
    c == '\\' || c == '/'
  }

  /** `Path.Join(directory, name)`: the directory, then the name, with a
      backslash inserted only when neither part supplies a separator at the
      seam; separators already there are kept as they are. */
  function Join(directory: string, name: FileName): (p: string)
    ensures |directory| + |name| <= |p| && p[..|directory|] == directory && p[|p| - |name|..] == name
    ensures |directory| == 0 ==> p == name
    ensures |directory| > 0 && (IsDirectorySeparator(directory[|directory| - 1]) || IsDirectorySeparator(name[0])) ==>
      p == directory + name
    ensures |directory| > 0 && !IsDirectorySeparator(directory[|directory| - 1]) && !IsDirectorySeparator(name[0]) ==>
      p == directory + "\\" + name
    ensures |directory| > 0 ==> IsDirectorySeparator(p[|directory| - 1]) || IsDirectorySeparator(p[|directory|])
  {
    if |directory| == 0 then name
    else if IsDirectorySeparator(directory[|directory| - 1]) || IsDirectorySeparator(name[0]) then directory + name
    else directory + "\\" + name
  }

  /** `s` holds `p` at position `i`. */
  predicate OccursAt(s: string, p: string, i: int)
  {
    0 <= i && i + |p| <= |s| && s[i..i + |p|] == p
  }

  /** `String.StartsWith(p)`. */
  predicate StartsWith(s: string, p: string)
  {
    OccursAt(s, p, 0)
  }

  /** `String.IndexOf(p)`: the first position of `p` in `s`, or -1. */
  function IndexOf(s: string, p: string): (i: int)
    ensures i == -1 || OccursAt(s, p, i)
    ensures forall j :: 0 <= j && (i == -1 || j < i) ==> !OccursAt(s, p, j)
  {
    IndexOfFrom(s, p, 0)
  }

  function IndexOfFrom(s: string, p: string, k: nat): (i: int)
    requires k <= |s|
    ensures i == -1 || (k <= i && OccursAt(s, p, i))
    ensures forall j :: k <= j && (i == -1 || j < i) ==> !OccursAt(s, p, j)
    decreases |s| - k
  {
    if k + |p| > |s| then -1
    else if s[k..k + |p|] == p then k
    else IndexOfFrom(s, p, k + 1)
  }

  /** `String.Contains(p)`. */
  predicate Contains(s: string, p: string)
  {
    IndexOf(s, p) != -1
  }

  /** The trailing backslash the root open adds to a long-form device path
      of a disk partition (`\\?\GLOBALROOT\Device\HarddiskN\PartitionM`),
      which the OS would not otherwise accept as a directory. It applies
      only to `\?\`- or `\\?\`-prefixed paths naming `GLOBALROOT\Device\Harddisk`
      whose first "Partition" is at most 11 characters from the end, and
      only when no backslash ends the path already. */
  function WithPartitionSeparator(path: string): (p: string)
    ensures p == path || p == path + "\\"
    ensures p != path ==>
      && (StartsWith(path, "\\?\\") || StartsWith(path, "\\\\?\\"))
      && Contains(path, "GLOBALROOT\\Device\\Harddisk")
      && 0 <= IndexOf(path, "Partition") && |path| - IndexOf(path, "Partition") <= 11
    ensures !StartsWith(path, "\\?\\") && !StartsWith(path, "\\\\?\\") ==> p == path
    ensures !Contains(path, "Partition") ==> p == path
    ensures |path| > 0 && path[|path| - 1] == '\\' ==> p == path
    ensures p != path ==> |p| > 0 && p[|p| - 1] == '\\'
    ensures
      && (StartsWith(path, "\\?\\") || StartsWith(path, "\\\\?\\"))
      && Contains(path, "GLOBALROOT\\Device\\Harddisk")
      && |path| - IndexOf(path, "Partition") <= 11
      && path[|path| - 1] != '\\'
      ==> p == path + "\\"
  {
    if (StartsWith(path, "\\?\\") || StartsWith(path, "\\\\?\\")) && Contains(path, "GLOBALROOT\\Device\\Harddisk") then
      var diff := |path| - IndexOf(path, "Partition");
      if diff <= 11 && path[|path| - 1] != '\\' then path + "\\" else path
    else path
  }

  /** Applying the fix-up to a fixed path changes nothing more. */
  lemma WithPartitionSeparatorIsIdempotent(path: string)
    ensures WithPartitionSeparator(WithPartitionSeparator(path)) == WithPartitionSeparator(path)
  {
  }

  // ---------------------------------------------------------------------
  // The filters of the `MoveNext` loop

  /** An entry whose attributes meet the skip mask is never seen by the hooks. */
  predicate Skipped(options: Options, v: EntryView)
  {
    v.attributes & options.attributesToSkip != 0
  }

  /** "." and ".." are dropped unless the options ask for them. */
  predicate DroppedAsSpecial(options: Options, v: EntryView)
  {
    IsDirectory(v.attributes) && IsSpecialDirectoryName(v.fileName) && !options.returnSpecialDirectories
  }

  /** The entries `MoveNext` yields: not skipped, not a dropped special
      directory, and accepted by `ShouldIncludeEntry`. */
  predicate Accepted<R>(options: Options, hooks: Hooks<R>, v: EntryView)
  {
    !Skipped(options, v) && !DroppedAsSpecial(options, v) && hooks.shouldIncludeEntry(v)
  }

  /** The directories the enumerator tries to descend into. */
  predicate RecursesInto<R>(options: Options, hooks: Hooks<R>, v: EntryView)
  {
    && !Skipped(options, v)
    && IsDirectory(v.attributes)
    && !IsSpecialDirectoryName(v.fileName)
    && options.recurseSubdirectories
    && hooks.shouldRecurseIntoEntry(v)
  }
}
