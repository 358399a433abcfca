/** `createScriptHook`: choosing the execution strategy for a hook file. */
module Dispatch {
  import opened HookTypes

  /** The two execution strategies: an external process or an in-process script engine. */
  datatype HookKind = ShellScriptHook | JVMScriptHook

  /** A command hook: its strategy and the file wired into its pre and post slots
      (`None` stands for a null slot). */
  datatype CommandHook = CommandHook(kind: HookKind, preScript: Option<HookFile>, postScript: Option<HookFile>)

  /** The engine registry, as the set of extensions some script engine claims. */
  type EngineRegistry = set<string>

  predicate HasEngine(registry: EngineRegistry, extension: string)
  {
    extension in registry
  }

  /** `createScriptHook(file, preHook)`: a JVM hook exactly when an engine is
      registered for the file's extension, a shell hook otherwise; the file
      goes into the pre slot when `preHook` holds and into the post slot
      otherwise, and the other slot stays empty. */
  function CreateScriptHook(file: HookFile, preHook: bool, registry: EngineRegistry): (h: CommandHook)
    ensures h.kind == JVMScriptHook <==> HasEngine(registry, file.extension)
    ensures h.kind == ShellScriptHook <==> !HasEngine(registry, file.extension)
    ensures h.preScript.Some? <==> preHook
    ensures h.postScript.Some? <==> !preHook
    ensures h.preScript.Some? ==> h.preScript.value == file
    ensures h.postScript.Some? ==> h.postScript.value == file
  {
    var preScript := if preHook then Some(file) else None;
    var postScript := if preHook then None else Some(file);
    if HasEngine(registry, file.extension) then
      CommandHook(JVMScriptHook, preScript, postScript)
    else
      CommandHook(ShellScriptHook, preScript, postScript)
  }

  /** The file a hook runs, whichever slot holds it. */
  function ScriptOf(h: CommandHook): Option<HookFile>
  {
    if h.preScript.Some? then h.preScript else h.postScript
  }

  /** Dispatch never loses the file and never fails: every file yields a hook
      of exactly one kind holding that file in exactly one slot. */
  lemma DispatchTotal(file: HookFile, preHook: bool, registry: EngineRegistry)
    ensures var h := CreateScriptHook(file, preHook, registry);
      && ScriptOf(h) == Some(file)
      && (h.preScript.None? || h.postScript.None?)
  {
  }

  /** The strategy depends on the extension alone: neither the rest of the
      file nor the phase affects it. */
  lemma KindDependsOnExtensionOnly(f1: HookFile, f2: HookFile, pre1: bool, pre2: bool, registry: EngineRegistry)
    requires f1.extension == f2.extension
    ensures CreateScriptHook(f1, pre1, registry).kind == CreateScriptHook(f2, pre2, registry).kind
  {
  }
}
