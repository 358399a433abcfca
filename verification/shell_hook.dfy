/** `runShellScript` and `isWindows`: running a hook as an external process.
    Spawning, waiting and relaying the process output are not modelled; what
    the process does is given as a `ProcResult`. */
module ShellHook {
  import opened HookTypes
  import JavaStrings

  /** What became of the spawned process. */
  datatype ProcResult =
    | Exited(code: int)   // waitFor() returned this exit status
    | SpawnFailed         // ProcessBuilder.start() threw an IOException
    | Interrupted         // waitFor() threw an InterruptedException

  /** The abort message for a failing hook process; it never depends on the output. */
  const NonZeroExitMessage := "Hook script exited with non-zero error code"

  /** `isWindows`: the lower-cased operating-system name contains "win". */
  function IsWindows(osName: string): (r: bool)
    ensures r <==> exists i :: JavaStrings.OccursAt(JavaStrings.ToLower(osName), "win", i)
  {
    JavaStrings.IndexOf(JavaStrings.ToLower(osName), "win") >= 0
  }

  /** The command line of a shell hook, or `None` when the hook is skipped
      without spawning anything: on Windows the script is passed to the
      command interpreter, elsewhere it is run directly, but only if it is
      executable. */
  function ShellCommand(windows: bool, file: HookFile): (r: Option<seq<string>>)
    ensures r.None? <==> !windows && !file.executable
    ensures r.Some? ==> |r.value| > 0 && r.value[|r.value| - 1] == file.path
    ensures r.Some? && windows ==> r.value == ["cmd.exe", "/C", file.path]
    ensures r.Some? && !windows ==> r.value == [file.path]
  {
    if windows then Some(["cmd.exe", "/C", file.path])
    else if !file.executable then None
    else Some([file.path])
  }

  /** The decision taken once the process has been started: only a nonzero exit
      status blocks the operation; an `IOException` from spawning or an
      interrupted wait is fail-open. */
  function ExitOutcome(p: ProcResult): (r: Outcome)
    ensures r.Aborted? <==> p.Exited? && p.code != 0
    ensures r.Aborted? ==> r.message == NonZeroExitMessage
    ensures !r.Aborted? ==> r == Allowed
  {
    match p
    case Exited(code) => if code != 0 then Aborted(NonZeroExitMessage) else Allowed
    case SpawnFailed => Allowed
    case Interrupted => Allowed
  }

  /** One shell-hook run: the command spawned, if any, and the outcome. */
  datatype ShellRun = ShellRun(spawned: Option<seq<string>>, outcome: Outcome)

  /** `runShellScript(file)` on a host whose operating-system name is `osName`,
      where `proc` is what spawning the command would yield. */
  function RunShellScript(osName: string, file: HookFile, proc: ProcResult): (r: ShellRun)
    ensures r.spawned == ShellCommand(IsWindows(osName), file)
    ensures r.spawned.Some? <==> IsWindows(osName) || file.executable
    ensures r.spawned.Some? ==> |r.spawned.value| > 0 && r.spawned.value[|r.spawned.value| - 1] == file.path
    ensures r.spawned.None? ==> r.outcome == Allowed
    ensures r.outcome.Aborted? <==> r.spawned.Some? && proc.Exited? && proc.code != 0
    ensures r.outcome == Allowed || r.outcome == Aborted(NonZeroExitMessage)
  {
    var command := ShellCommand(IsWindows(osName), file);
    if command.None? then ShellRun(None, Allowed)
    else ShellRun(command, ExitOutcome(proc))
  }

  /** A shell hook never aborts with anything but the fixed nonzero-exit
      message, whatever the file, the host and the process output. */
  lemma ShellAbortIsFixed(os1: string, os2: string, f1: HookFile, f2: HookFile, p1: ProcResult, p2: ProcResult)
    requires RunShellScript(os1, f1, p1).outcome.Aborted?
    requires RunShellScript(os2, f2, p2).outcome.Aborted?
    ensures RunShellScript(os1, f1, p1).outcome == RunShellScript(os2, f2, p2).outcome
  {
  }

  /** Host names the JVM reports: Windows variants are recognised whatever their
      case, the usual Unix-like names are not. */
  lemma IsWindowsExamples()
    ensures IsWindows("Windows 10") && IsWindows("WINDOWS SERVER 2008")
    ensures !IsWindows("Linux") && !IsWindows("Mac OS X")
  {
    assert JavaStrings.OccursAt(JavaStrings.ToLower("Windows 10"), "win", 0);
    assert JavaStrings.OccursAt(JavaStrings.ToLower("WINDOWS SERVER 2008"), "win", 0);
    NoWin("Linux");
    NoWin("Mac OS X");
  }

  /** A name with no 'w' or 'W' is not a Windows name. */
  lemma NoWin(osName: string)
    requires forall i :: 0 <= i < |osName| ==> osName[i] != 'w' && osName[i] != 'W'
    ensures !IsWindows(osName)
  {
    var lower := JavaStrings.ToLower(osName);
    forall i | 0 <= i && i + 3 <= |lower|
      ensures !JavaStrings.OccursAt(lower, "win", i)
    {
      assert lower[i..i + 3][0] == lower[i] != 'w';
    }
  }
}
