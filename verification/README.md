# GeoGit hook decision logic, modelled in Dafny

GeoGit runs user-supplied hook files before or after an operation such as a
commit. The hooks package decides four things. This project models those
decisions as pure functions and proves properties about them:

- **Parameter bridge** (`getParamMap` / `setParamMap`). An operation's declared
  fields are copied into a `params` map for a script. After the script, they are
  written back from that map. Keys that name a declared field overwrite that
  field verbatim. Other keys are ignored, and no field is ever added.
- **Hook dispatch** (`createScriptHook`). A hook file whose extension has a
  registered script engine becomes a JVM-script hook. Any other file becomes a
  shell hook. The `preHook` flag picks the pre or the post slot.
- **Shell hooks** (`runShellScript`, `isWindows`).
  - The command is `cmd.exe /C <path>` on Windows and `<path>` elsewhere.
  - Elsewhere, a file that is not executable is skipped without spawning
    anything.
  - A nonzero exit aborts with the fixed message
    "Hook script exited with non-zero error code".
  - An `IOException` from spawning or an interrupted wait lets the operation
    proceed (fail-open). These are the only two exceptions the runner catches.
- **JVM-script hooks** (`runJVMScript`).
  - After a successful evaluation, the script's `params` are written back.
  - A script failure whose root cause reads as `CannotRunGeogitOperationException`
    aborts the operation when the root cause's message is non-null and its last
    `'('` is at or after offset 56. The abort message is cut out of that message,
    trimmed, and followed by " (command aborted by .geogit/hooks/<file>)".
    Otherwise one of the exceptions listed below escapes.
  - Every other modelled failure is ignored.

Modules, one per component:

| file | module | contents |
|---|---|---|
| `hook_types.dfy` | `HookTypes` | `Option`, `HookFile`, the tagged `Outcome = Allowed \| Aborted(message) \| Crashed(failure)` |
| `java_strings.dfy` | `JavaStrings` | the `String` operations the hooks use: `toLowerCase`, `indexOf`, `contains`, `lastIndexOf`, `trim`, each characterised by its contract |
| `param_bridge.dfy` | `ParamBridge` | an operation as its sequence of declared fields; `GetParamMap`, `SetParamMap` and the write-back lemmas |
| `dispatch.dfy` | `Dispatch` | `CreateScriptHook` over an engine registry (the set of extensions with an engine) |
| `shell_hook.dfy` | `ShellHook` | `IsWindows`, `ShellCommand`, `ExitOutcome`, `RunShellScript` over an abstract `ProcResult = Exited(code) \| SpawnFailed \| Interrupted` |
| `jvm_hook.dfy` | `JvmHook` | `CauseText`, `AbortMessage`, `ClassifyScriptFailure`, `RunJVMScript` over an abstract `EvalResult` |

Inputs that the Java code reads from its environment are parameters here:

- the operating-system name;
- whether the hook file exists and whether it is executable;
- the file-name extension;
- the set of extensions that have a script engine;
- what the process did;
- what the script evaluation did, including the root cause of a script failure.

How the abort message is built and which exceptions escape `runJVMScript`:

- The abort suffix is " (command aborted by .geogit/hooks/<file>)"
  (Scripting.java:83).
- The abort text is cut out of the engine's message between the fixed offset
  `len(FQN) + 2` and the last `'('` (Scripting.java:81-82). FQN is the fully
  qualified class name of the abort exception.
- On the modelled paths, three exceptions escape `runJVMScript`, and the model
  keeps each as `Crashed`:
  - `IllegalArgumentException` from the argument check on a missing script
    file (Scripting.java:60);
  - `NullPointerException` when the recognised root cause has a null message
    (Scripting.java:80-81);
  - `StringIndexOutOfBoundsException` when the offsets do not fit the message
    (Scripting.java:81-82).

## Model

| member | source | states |
|---|---|---|
| ParamBridge.GetParamMap | src/core/src/main/java/org/geogit/api/hooks/Scripting.java:159-176 | the map's keys are exactly the declared field names; with distinct names, each key holds its field's current value |
| ParamBridge.SetParamMap | src/core/src/main/java/org/geogit/api/hooks/Scripting.java:189-198 | same number of fields, same names, same order; a field named by a key gets exactly that key's value; every other field is left as it was |
| ParamBridge.SetParamMapKeepsNames | src/core/src/main/java/org/geogit/api/hooks/Scripting.java:191-198 | write-back never adds, removes or renames a field, so the set of names and their distinctness are kept |
| ParamBridge.RoundTrip | src/core/src/main/java/org/geogit/api/hooks/Scripting.java:159-198 | writing back the map just extracted leaves the operation unchanged |
| ParamBridge.WriteBackIdempotent | src/core/src/main/java/org/geogit/api/hooks/Scripting.java:189-198 | writing back the same map twice equals writing it back once |
| ParamBridge.UnknownKeysIgnored | src/core/src/main/java/org/geogit/api/hooks/Scripting.java:183-197 | write-back with a map equals write-back with that map restricted to declared names, so other keys have no effect |
| ParamBridge.NoMatchingKeyNoChange | src/core/src/main/java/org/geogit/api/hooks/Scripting.java:192-197 | a map with no key that names a declared field leaves the operation unchanged |
| ParamBridge.ExtractAfterWriteBackAt | src/core/src/main/java/org/geogit/api/hooks/Scripting.java:159-198 | after write-back, a field's parameter is the map's value when the map names it, and the old value otherwise |
| ParamBridge.ExtractAfterWriteBack | src/core/src/main/java/org/geogit/api/hooks/Scripting.java:159-198 | extracting after write-back gives the old parameters overridden by the map's entries for declared names (a map merge) |
| ParamBridge.SelectiveMutation | src/core/src/main/java/org/geogit/api/hooks/Scripting.java:189-198 | a script that changes one declared parameter changes exactly that field, to the new value |
| ParamBridge.UnknownParameterNoChange | src/core/src/main/java/org/geogit/api/hooks/Scripting.java:183-198 | a script that only adds a parameter with no matching field leaves the operation unchanged |
| Dispatch.CreateScriptHook | src/core/src/main/java/org/geogit/api/hooks/Scripting.java:237-252 | a JVM hook if and only if an engine is registered for the extension, a shell hook otherwise; the file is in the pre slot if and only if `preHook` and in the post slot otherwise; the other slot is empty |
| Dispatch.DispatchTotal | src/core/src/main/java/org/geogit/api/hooks/Scripting.java:241-251 | dispatch never fails; the hook holds the given file in exactly one slot |
| Dispatch.KindDependsOnExtensionOnly | src/core/src/main/java/org/geogit/api/hooks/Scripting.java:238-250 | two files with the same extension get the same kind of hook, whatever their phase |
| ShellHook.IsWindows | src/core/src/main/java/org/geogit/api/hooks/Scripting.java:206-209 | true if and only if "win" occurs somewhere in the lower-cased OS name |
| ShellHook.IsWindowsExamples | src/core/src/main/java/org/geogit/api/hooks/Scripting.java:206-209 | "Windows 10" and "WINDOWS SERVER 2008" count as Windows; "Linux" and "Mac OS X" do not |
| ShellHook.ShellCommand | src/core/src/main/java/org/geogit/api/hooks/Scripting.java:100-111 | on Windows the command is exactly cmd.exe, /C, path; elsewhere it is exactly the path, or nothing (skip) if and only if the file is not executable; the command always ends with the path |
| ShellHook.ExitOutcome | src/core/src/main/java/org/geogit/api/hooks/Scripting.java:130-145 | aborts if and only if the process exited with a nonzero code, and then with exactly the fixed message; a spawn failure, an interrupted wait or exit 0 all proceed |
| ShellHook.RunShellScript | src/core/src/main/java/org/geogit/api/hooks/Scripting.java:94-147 | the spawned command is exactly `ShellCommand` of the Windows test and the file, so a process is spawned if and only if the host is Windows or the file is executable; a skipped hook proceeds; the run aborts if and only if something was spawned and it exited nonzero; the only possible abort is the fixed message |
| ShellHook.ShellAbortIsFixed | src/core/src/main/java/org/geogit/api/hooks/Scripting.java:130-136 | any two aborting shell runs report the same outcome, whatever file, host or process output |
| JvmHook.CauseText | src/core/src/main/java/org/geogit/api/hooks/Scripting.java:77-79 | the text tested for the abort class is the class name, followed by ": " and the message when there is one |
| JvmHook.AbortMessage | src/core/src/main/java/org/geogit/api/hooks/Scripting.java:80-83 | the message ends with " (command aborted by .geogit/hooks/" + file name + ")"; what precedes it is trimmed at both ends and is the text between offset len(FQN)+2 and the last '(' with only trimmable ends removed |
| JvmHook.ClassifyScriptFailure | src/core/src/main/java/org/geogit/api/hooks/Scripting.java:76-89 | proceeds if and only if the cause text lacks the abort class name; aborts if and only if it has it, has a message, and the offsets fit; a null message escapes as a null-pointer crash and bad offsets as an index crash |
| JvmHook.RunJVMScript | src/core/src/main/java/org/geogit/api/hooks/Scripting.java:57-92 | a missing file fails the argument check; with no engine the hook proceeds untouched; params are written back only after a successful eval that leaves a map bound to `params`; every script failure is decided by `ClassifyScriptFailure` on its root cause with the operation untouched; a host failure or a null binding proceeds untouched; it aborts exactly on a recognised, well-shaped abort, with the built message; it crashes only on a missing file or a recognised abort whose message cannot be cut; field names never change |
| JvmHook.AbortClassIsSignal | src/core/src/main/java/org/geogit/api/hooks/Scripting.java:77-79 | a root cause of the abort exception's own class is always recognised as an abort, whatever its message |
| JvmHook.UntouchedParamsLeaveOperation | src/core/src/main/java/org/geogit/api/hooks/Scripting.java:69-75 | a script that leaves `params` as it received them leaves the operation unchanged |
| JvmHook.DispatchedJvmHookWritesBack | src/core/src/main/java/org/geogit/api/hooks/Scripting.java:66-75 | a file that dispatch made a JVM hook always finds an engine, so a successful eval writes the map back and proceeds |
| JvmHook.ScenarioAbortMessage | src/core/src/main/java/org/geogit/api/hooks/Scripting.java:80-83 | the engine message "FQN: tree is empty (pre_commit.js#5)" gives exactly "tree is empty (command aborted by .geogit/hooks/pre_commit.js)" |
| JvmHook.AbortScenario | src/core/src/main/java/org/geogit/api/hooks/Scripting.java:76-84 | a run whose script failure has the engine's exception as root cause, carrying that message, aborts with exactly that text and leaves the operation unchanged |
| JvmHook.MessageNamingAbortClassIsSignal | src/core/src/main/java/org/geogit/api/hooks/Scripting.java:77-79 | a root cause of any class whose message starts with the abort exception's qualified name is recognised as an abort |
| JvmHook.BareAbortCauseCrashes | src/core/src/main/java/org/geogit/api/hooks/Scripting.java:79-82 | a root cause that is the abort exception itself with message "tree is empty" is recognised, but the cut finds no '(' and the index error escapes instead of an abort |
| JavaStrings.IndexOf | src/core/src/main/java/org/geogit/api/hooks/Scripting.java:208 | the result is an occurrence or -1; it is non-negative if and only if the pattern occurs; no earlier occurrence exists |
| JavaStrings.Contains | src/core/src/main/java/org/geogit/api/hooks/Scripting.java:79 | true if and only if the pattern occurs somewhere |
| JavaStrings.LastIndexOf | src/core/src/main/java/org/geogit/api/hooks/Scripting.java:81-82 | the result is -1 or an index holding the character, and no later index holds it |
| JavaStrings.ToLower | src/core/src/main/java/org/geogit/api/hooks/Scripting.java:207 | same length; every character is lower-cased; no upper-case ASCII letter remains |
| JavaStrings.Trim | src/core/src/main/java/org/geogit/api/hooks/Scripting.java:82 | the result has no trimmable character at either end, and is the input with only trimmable characters removed from its two ends |
| JavaStrings.TrimUnique | src/core/src/main/java/org/geogit/api/hooks/Scripting.java:82 | any trimmed string the input strips to equals `Trim` of the input, so `Trim`'s contract determines it completely |

## Left out

- Reflection (`getDeclaredFields`, `setAccessible`, `field.set`) is left out. An operation is its sequence of declared fields, and every value is assumed to fit its field. The partial, non-atomic write-backs are not modelled. They happen when reading or setting a field throws (Scripting.java:169-175, 199-202).
- ParamBridge.GetParamMap: states the value of each entry only for operations whose declared names are distinct. A Java class cannot declare two fields with the same name, so nothing is lost.
- Script-engine lookup and evaluation are left out. The eval outcome, the root cause and the engine registry are inputs. The root cause comes from the cause-chain walk of the host's utility library, which is not modelled. The same holds for binding `params` and the repository API into the engine.
- Process spawning, `waitFor` and the output-relay thread (`StreamGobbler`, Scripting.java:113-129, 211-235) are left out. They are I/O and concurrency; the process result is an input.
- `System.getProperty`, logging and `printStackTrace` are left out. They are environment reads and side effects, so the OS name is an input.
- Guava's `Files.getFileExtension` is not modelled; the extension is an input.
- JvmHook.RunJVMScript: a `java.lang.Error` thrown while binding or evaluating the script (a `StackOverflowError` from a script that recurses without end, say) is not modelled. It passes both handlers, `catch (ScriptException)` at Scripting.java:76 and `catch (Exception)` at Scripting.java:90, and escapes to the host; `EvalResult` has no case for it.
- JavaStrings.ToLower: maps only the ASCII letters. Java's locale-dependent Unicode lower-casing is not modelled.
- The `ShellScriptHook` and `JVMScriptHook` classes are not part of this model. Only their construction is modelled.
- ShellHook.RunShellScript: unchecked exceptions from starting the process (a `SecurityException`, say) are not modelled. The runner catches only `IOException` and `InterruptedException` (Scripting.java:137-146), so such an exception escapes to the host, and `ProcResult` has no case for it.
- JvmHook.AbortMessage: strings are sequences of Unicode scalar values, not of UTF-16 code units. The offsets agree with Java's only when no supplementary character comes before the cut.
