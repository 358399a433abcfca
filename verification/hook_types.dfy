/** Shared vocabulary of the hook subsystem: hook files, optional values and the
    tagged outcome a hook run reports back to the host operation. */
module HookTypes {

  /** A value that may be absent; stands for a Java reference that may be null. */
  datatype Option<+T> = None | Some(value: T)

  /** What the hook runners learn about a hook file from the file system.
      `extension` is the file-name extension, given as an input: Guava's
      `Files.getFileExtension` is not modelled. */
  datatype HookFile = HookFile(
    path: string,        // File.getPath()
    name: string,        // File.getName()
    extension: string,
    onDisk: bool,        // File.exists()
    executable: bool     // File.canExecute()
  )

  /** Unchecked exceptions that escape a hook runner instead of being swallowed. */
  datatype Failure =
    | IllegalArgument(message: string)
    | NullPointer
    | StringIndexOutOfBounds

  /** How a hook run ends, as the host operation sees it:
      - `Allowed`: the runner returns normally and the operation proceeds;
      - `Aborted`: the runner throws the operation-abort exception with `message`;
      - `Crashed`: some other exception escapes the runner. */
  datatype Outcome =
    | Allowed
    | Aborted(message: string)
    | Crashed(failure: Failure)
}
