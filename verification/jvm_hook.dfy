/** `runJVMScript`: running a hook inside the host through a script engine.
    Script evaluation is not modelled; what it does is given as an `EvalResult`. */
module JvmHook {
  import opened HookTypes
  import JavaStrings
  import ParamBridge
  import Dispatch

  /** Simple and fully qualified name of the exception a script raises, through
      the host API, to abort the operation. It lives in the hooks package. */
  const AbortSimpleName := "CannotRunGeogitOperationException"
  const AbortPackage := "org.geogit.api.hooks."
  const AbortClassName := AbortPackage + AbortSimpleName

  /** Where the user's text starts inside the engine's message: after the
      qualified class name and the ": " that follows it. */
  const MessageStart := |AbortClassName| + 2

  /** The root cause of a script failure: its class name and its message
      (`None` for a null message). */
  datatype Cause = Cause(className: string, message: Option<string>)

  /** What evaluating the script did. */
  datatype EvalResult =
    | Completed(binding: Option<ParamBridge.ParamMap>)  // `params` after the script; None: bound to null or to a non-map value
    | ScriptFailed(rootCause: Cause)                     // eval threw a ScriptException
    | HostFailure                                        // any other exception inside the try block

  /** One JVM-hook run: the operation's fields afterwards, and the outcome. */
  datatype JvmRun = JvmRun(op: ParamBridge.Operation, outcome: Outcome)

  /** `Throwable.toString`: the class name, then ": " and the message if there is one. */
  function CauseText(c: Cause): (r: string)
    ensures c.message.None? ==> r == c.className
    ensures c.message.Some? ==> |r| == |c.className| + 2 + |c.message.value|
    ensures c.message.Some? ==> r[..|c.className|] == c.className && r[|c.className|..] == ": " + c.message.value
  {
    match c.message
    case None => c.className
    case Some(m) => c.className + ": " + m
  }

  /** The textual test the runner applies to a root cause to recognise an abort. */
  predicate IsAbortSignal(c: Cause)
  {
    JavaStrings.Contains(CauseText(c), AbortSimpleName)
  }

  /** The abort message can be cut out of `msg` without an index error: the
      last '(' lies at or after `MessageStart`. */
  predicate WellShaped(msg: string)
  {
    MessageStart <= JavaStrings.LastIndexOf(msg, '(')
  }

  /** The fixed tail naming the hook file that aborted the operation. */
  function AbortSuffix(fileName: string): string
  {
    " (command aborted by .geogit/hooks/" + fileName + ")"
  }

  /** The message reported to the user: the text between the qualified class name
      and the last '(' of the engine's message, trimmed, followed by the suffix. */
  function AbortMessage(msg: string, fileName: string): (r: string)
    requires WellShaped(msg)
    ensures |r| >= |AbortSuffix(fileName)|
    ensures r[|r| - |AbortSuffix(fileName)|..] == AbortSuffix(fileName)
    ensures JavaStrings.IsTrimmed(r[..|r| - |AbortSuffix(fileName)|])
    ensures JavaStrings.StripsTo(msg[MessageStart..JavaStrings.LastIndexOf(msg, '(')], r[..|r| - |AbortSuffix(fileName)|])
  {
    var text := JavaStrings.Trim(msg[MessageStart..JavaStrings.LastIndexOf(msg, '(')]);
    var r := text + AbortSuffix(fileName);
    assert r[..|text|] == text;
    r
  }

  /** The `catch (ScriptException e)` branch: an abort signal becomes an abort
      with the cut-out message; a null message or an index error escapes as a
      crash; any other script failure is ignored. */
  function ClassifyScriptFailure(c: Cause, fileName: string): (r: Outcome)
    ensures r == Allowed <==> !IsAbortSignal(c)
    ensures r.Aborted? <==> IsAbortSignal(c) && c.message.Some? && WellShaped(c.message.value)
    ensures r.Aborted? ==> r.message == AbortMessage(c.message.value, fileName)
    ensures r.Crashed? ==> r.failure == (if c.message.None? then NullPointer else StringIndexOutOfBounds)
  {
    if !IsAbortSignal(c) then Allowed
    else match c.message
      case None => Crashed(NullPointer)
      case Some(msg) =>
        if WellShaped(msg) then Aborted(AbortMessage(msg, fileName))
        else Crashed(StringIndexOutOfBounds)
  }

  /** The message of the argument check on a missing script file. */
  function MissingFileMessage(path: string): string
  {
    "Script file does not exist " + path
  }

  /** `runJVMScript(operation, file)` with the given engine registry, where
      `eval` is what evaluating the script would yield. */
  function RunJVMScript(op: ParamBridge.Operation, file: HookFile, registry: Dispatch.EngineRegistry, eval: EvalResult): (r: JvmRun)
    ensures !file.onDisk ==> r == JvmRun(op, Crashed(IllegalArgument(MissingFileMessage(file.path))))
    ensures file.onDisk && !Dispatch.HasEngine(registry, file.extension) ==> r == JvmRun(op, Allowed)
    ensures r.op != op ==> file.onDisk && eval.Completed? && eval.binding.Some? && r.outcome == Allowed
    ensures file.onDisk && Dispatch.HasEngine(registry, file.extension) && eval.Completed? && eval.binding.Some? ==>
      r == JvmRun(ParamBridge.SetParamMap(eval.binding.value, op), Allowed)
    ensures r.outcome.Aborted? <==>
      && file.onDisk && Dispatch.HasEngine(registry, file.extension) && eval.ScriptFailed?
      && IsAbortSignal(eval.rootCause) && eval.rootCause.message.Some? && WellShaped(eval.rootCause.message.value)
    ensures r.outcome.Aborted? ==> r.outcome.message == AbortMessage(eval.rootCause.message.value, file.name)
    ensures file.onDisk && Dispatch.HasEngine(registry, file.extension) && eval.ScriptFailed? ==>
      r == JvmRun(op, ClassifyScriptFailure(eval.rootCause, file.name))
    ensures file.onDisk && (eval.HostFailure? || eval == Completed(None)) ==> r == JvmRun(op, Allowed)
    ensures r.outcome.Crashed? ==> !file.onDisk || (eval.ScriptFailed? && IsAbortSignal(eval.rootCause))
    ensures ParamBridge.Names(r.op) == ParamBridge.Names(op)
  {
    if !file.onDisk then JvmRun(op, Crashed(IllegalArgument(MissingFileMessage(file.path))))
    // without an engine, handing it the parameters throws and the catch-all ignores it
    else if !Dispatch.HasEngine(registry, file.extension) then JvmRun(op, Allowed)
    else match eval
      case Completed(Some(m)) =>
        ParamBridge.SetParamMapKeepsNames(m, op);
        JvmRun(ParamBridge.SetParamMap(m, op), Allowed)
      // a null or non-map binding makes the write-back throw, and the catch-all ignores it
      case Completed(None) => JvmRun(op, Allowed)
      case ScriptFailed(c) => JvmRun(op, ClassifyScriptFailure(c, file.name))
      case HostFailure => JvmRun(op, Allowed)
  }

  /** A root cause of the abort exception's own class is always recognised as an
      abort signal, whatever its message. */
  lemma AbortClassIsSignal(message: Option<string>)
    ensures IsAbortSignal(Cause(AbortClassName, message))
  {
    var text := CauseText(Cause(AbortClassName, message));
    var start := |AbortPackage|;
    assert text[..|AbortClassName|] == AbortClassName;
    assert AbortClassName[start..] == AbortSimpleName;
    assert text[start..start + |AbortSimpleName|] == text[..|AbortClassName|][start..];
    assert JavaStrings.OccursAt(text, AbortSimpleName, start);
  }

  /** A script that leaves `params` as it received them leaves the operation as it was. */
  lemma UntouchedParamsLeaveOperation(op: ParamBridge.Operation, file: HookFile, registry: Dispatch.EngineRegistry)
    requires ParamBridge.DistinctNames(op)
    ensures RunJVMScript(op, file, registry, Completed(Some(ParamBridge.GetParamMap(op)))).op == op
  {
    ParamBridge.RoundTrip(op);
  }

  /** A file dispatched as a JVM hook always finds its engine, so a successful
      evaluation always writes the parameters back. */
  lemma DispatchedJvmHookWritesBack(op: ParamBridge.Operation, file: HookFile, preHook: bool,
                                    registry: Dispatch.EngineRegistry, m: ParamBridge.ParamMap)
    requires Dispatch.CreateScriptHook(file, preHook, registry).kind == Dispatch.JVMScriptHook
    requires file.onDisk
    ensures RunJVMScript(op, file, registry, Completed(Some(m))) == JvmRun(ParamBridge.SetParamMap(m, op), Allowed)
  {
  }

  /** A script aborting with "tree is empty" in hook file pre_commit.js at
      line 5: the engine reports it as its own exception, whose message is the
      abort exception's text followed by the script location. */
  const ScenarioEngineClass := "sun.org.mozilla.javascript.internal.JavaScriptException"
  const ScenarioText := "tree is empty "
  const ScenarioLocation := "(pre_commit.js#5)"
  const ScenarioMessage := AbortClassName + ": " + ScenarioText + ScenarioLocation

  /** The last '(' of the scenario message opens the location the engine appends. */
  lemma ScenarioLastParen()
    ensures JavaStrings.LastIndexOf(ScenarioMessage, '(') == 70
  {
    var msg := ScenarioMessage;
    assert msg[70..] == ScenarioLocation;
    assert msg[70] == '(';
    assert forall j :: 70 < j < |msg| ==> msg[j] == ScenarioLocation[j - 70];
  }

  /** Trimming drops the blank that separates the user's text from the location. */
  lemma ScenarioTrim()
    ensures JavaStrings.Trim(ScenarioText) == "tree is empty"
  {
    var between := ScenarioText;
    assert between[0..13] == "tree is empty";
    assert between[13] == ' ';
    assert JavaStrings.StripsTo(between, between[0..13]);
    JavaStrings.TrimUnique(between, "tree is empty");
  }

  /** The message built from the scenario's engine message. */
  lemma ScenarioAbortMessage()
    ensures WellShaped(ScenarioMessage)
    ensures AbortMessage(ScenarioMessage, "pre_commit.js") == "tree is empty" + " (command aborted by .geogit/hooks/" + "pre_commit.js" + ")"
  {
    ScenarioLastParen();
    assert MessageStart == 56;
    assert ScenarioMessage[56..70] == ScenarioText;
    ScenarioTrim();
    assert AbortMessage(ScenarioMessage, "pre_commit.js") == "tree is empty" + AbortSuffix("pre_commit.js");
  }

  /** A script that aborts with "tree is empty" from hook file pre_commit.js
      stops the operation with exactly the expected message. */
  lemma AbortScenario(op: ParamBridge.Operation, registry: Dispatch.EngineRegistry)
    requires "js" in registry
    ensures var file := HookFile(".geogit/hooks/pre_commit.js", "pre_commit.js", "js", true, true);
      RunJVMScript(op, file, registry, ScriptFailed(Cause(ScenarioEngineClass, Some(ScenarioMessage))))
        == JvmRun(op, Aborted("tree is empty" + " (command aborted by .geogit/hooks/" + "pre_commit.js" + ")"))
  {
    MessageNamingAbortClassIsSignal(ScenarioEngineClass, ScenarioMessage);
    ScenarioAbortMessage();
  }

  /** A root cause of any class whose message starts with the abort exception's
      qualified name is recognised as an abort signal. */
  lemma MessageNamingAbortClassIsSignal(className: string, msg: string)
    requires |msg| >= |AbortClassName| && msg[..|AbortClassName|] == AbortClassName
    ensures IsAbortSignal(Cause(className, Some(msg)))
  {
    var text := CauseText(Cause(className, Some(msg)));
    var start := |className| + 2 + |AbortPackage|;
    assert text[|className| + 2..] == msg;
    assert AbortClassName[|AbortPackage|..] == AbortSimpleName;
    assert text[start..start + |AbortSimpleName|] == msg[..|AbortClassName|][|AbortPackage|..];
    assert JavaStrings.OccursAt(text, AbortSimpleName, start);
  }

  /** A root cause that is the abort exception itself, carrying only the user's
      text, is recognised but has no '(' to cut at: the index error escapes
      instead of an abort. */
  lemma BareAbortCauseCrashes(fileName: string)
    ensures ClassifyScriptFailure(Cause(AbortClassName, Some("tree is empty")), fileName) == Crashed(StringIndexOutOfBounds)
  {
    AbortClassIsSignal(Some("tree is empty"));
    assert JavaStrings.LastIndexOf("tree is empty", '(') < MessageStart;
  }
}
