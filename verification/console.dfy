/** Console (Base/Console.cs): the in-game console's command engine. A command
    is trimmed, recorded in the history, split into tokens and dispatched: a key
    binding, a call on one named object, a broadcast to every object exposing
    the method, Unity's SendMessage, or a "not recognized" log. Around it sit
    the autocomplete list, the history and suggestion cursors driven by keys,
    and the history file window.

    The scene, the invoked methods and the log file are parameters: `scene`
    lists the objects UpdateMethodList would find, `host` says what an invoked
    method does with its arguments, and files are sequences of lines. */
module Console {
  import opened Results
  import opened Text
  import opened Values
  import Convert
  import TypeHelper
  import StringHelper
  import ArrayHelper
  import FileHelper
  import MethodHelper
  import Tokenizer
  import opened Registry

  const SplitOn := " "
  const GroupStart := "\""
  const GroupEnd := "\""

  /** The number of key bindings: one per digit key. */
  const SlotCount := 10

  /** The number of history lines Save writes. */
  const SaveWindow := 101

  const BindUsage := "bind must be followed by a numeral and then a command."

  /** The placeholder table once Start has run: the console offers itself to
      methods that take a Console parameter. */
  const Placeholders: map<ParamType, Value> := MethodHelper.Objects[Other("Console") := ObjRef("Console")]

  /** The console's fields that the command engine reads and writes. */
  datatype State = State(
    history: seq<string>,
    historyIndex: int,
    bindings: seq<Option<string>>,
    registry: Registry,
    allowSendMessage: bool,
    command: string,
    suggestions: seq<string>,
    suggestionIndex: int,
    isOpen: bool)

  /** What an invoked method does with the arguments it is given. */
  type Host = (Binding, seq<Value>) -> MethodHelper.Outcome

  /** One invocation: the binding called and the arguments passed. */
  datatype Call = Call(binding: Binding, args: seq<Value>)

  datatype LogEntry = Log(text: string) | InvokeFailed(report: MethodHelper.InvokeFailure)

  /** The calls made and lines logged, in order, and the exception that ended
      the command early, if any. */
  datatype Effects = Effects(calls: seq<Call>, logs: seq<LogEntry>, fault: Option<Fault>)

  /** GameObject.SendMessage(methodName, argument) on every object. */
  datatype SendMessage = SendMessage(methodName: string, argument: string)

  /** Everything a step did besides changing the state: the history lines
      written by Save, the effects of dispatch, and a SendMessage broadcast. */
  datatype Report = Report(saved: Option<seq<string>>, effects: Effects, sendMessage: Option<SendMessage>)

  datatype Step = Step(state: State, report: Report)

  const NoEffects := Effects([], [], None)
  const Quiet := Report(None, NoEffects, None)

  function LogOnly(text: string): Effects {
    Effects([], [Log(text)], None)
  }

  function FaultOnly(e: Fault): Effects {
    Effects([], [], Some(e))
  }

  // ---------------------------------------------------------------------------
  // Invocation

  /** ComponentMethod.Invoke(data): coerce the data, call the method, log what
      it threw. A coercion fault means no call; a null argument in a failed
      call makes the report itself throw. */
  function InvokeOne(b: Binding, data: seq<string>, host: Host): (r: Effects)
    ensures |r.calls| <= 1 && |r.logs| <= 1
    ensures forall k :: 0 <= k < |r.calls| ==> r.calls[k].binding == b
    ensures r.fault.None? ==> |r.calls| == 1
    ensures r.fault.Some? ==> r.logs == []
    ensures |r.calls| == 1 <==> MethodHelper.StringsToArguments(b.methodInfo, data, Placeholders).Success?
    ensures |r.calls| == 1 ==> Success(r.calls[0].args) == MethodHelper.StringsToArguments(b.methodInfo, data, Placeholders)
  {
    match MethodHelper.StringsToArguments(b.methodInfo, data, Placeholders)
    case Failure(e) => FaultOnly(e)
    case Success(args) =>
      match MethodHelper.Invoke(b.methodInfo, data, Placeholders, a => host(b, a))
      case Failure(e) => Effects([Call(b, args)], [], Some(e))
      case Success(done) =>
        Effects([Call(b, args)], if done.failure.Some? then [InvokeFailed(done.failure.value)] else [], None)
  }

  /** What one invocation reports: a coercion fault as it is; otherwise a
      method that throws is reported with its arguments, parameters and
      message, unless an argument is null, when the report itself throws
      NullReferenceException. */
  lemma InvokeOneReport(b: Binding, data: seq<string>, host: Host)
    ensures var a := MethodHelper.StringsToArguments(b.methodInfo, data, Placeholders); var r := InvokeOne(b, data, host);
      a.Failure? ==> r.fault == Some(a.error)
    ensures var a := MethodHelper.StringsToArguments(b.methodInfo, data, Placeholders); var r := InvokeOne(b, data, host);
      a.Success? ==>
        && (r.fault.Some? <==> host(b, a.value).Threw? && Null in a.value)
        && (r.fault.Some? ==> r.fault == Some(NullReference))
        && (|r.logs| == 1 <==> host(b, a.value).Threw? && Null !in a.value)
        && (|r.logs| == 1 ==>
              r.logs[0] == InvokeFailed(MethodHelper.InvokeFailure(a.value, b.methodInfo.params, host(b, a.value).message)))
  {
  }

  /** `first`, then `second` unless `first` threw. */
  function Then(first: Effects, second: Effects): Effects {
    if first.fault.Some? then first
    else Effects(first.calls + second.calls, first.logs + second.logs, second.fault)
  }

  /** The broadcast loop: every binding in turn, stopped by the first exception
      that escapes an invocation. */
  function Broadcast(bs: seq<Binding>, data: seq<string>, host: Host): (r: Effects)
    ensures |r.calls| <= |bs|
    ensures forall k :: 0 <= k < |r.calls| ==> r.calls[k].binding == bs[k]
    ensures forall k :: 0 <= k < |r.calls| ==>
      MethodHelper.StringsToArguments(bs[k].methodInfo, data, Placeholders) == Success(r.calls[k].args)
    ensures r.fault.None? ==> |r.calls| == |bs|
    decreases |bs|
  {
    if |bs| == 0 then NoEffects
    else Then(InvokeOne(bs[0], data, host), Broadcast(bs[1..], data, host))
  }

  /** The lines the invocations of `bs` log, one binding after another. */
  function LogsOf(bs: seq<Binding>, data: seq<string>, host: Host): seq<LogEntry>
    decreases |bs|
  {
    if |bs| == 0 then [] else InvokeOne(bs[0], data, host).logs + LogsOf(bs[1..], data, host)
  }

  // ---------------------------------------------------------------------------
  // Run_Command

  /** What dispatch decided: the new bindings, the effects and a SendMessage. */
  datatype Resolution = Resolution(bindings: seq<Option<string>>, effects: Effects, sendMessage: Option<SendMessage>)

  /** The dispatch part of Run_Command, on the tokens of the command. */
  function Resolve(reg: Registry, bindings: seq<Option<string>>, allowSendMessage: bool, parts: seq<string>, host: Host)
    : (r: Resolution)
    requires |parts| >= 1
    ensures |r.bindings| == |bindings|
    ensures r.bindings != bindings ==> parts[0] == "bind" && r.effects == NoEffects
    ensures r.sendMessage.Some? ==> r.effects == NoEffects
  {
    var first := parts[0];
    if first == "bind" then
      if |parts| < 3 then Resolution(bindings, LogOnly(BindUsage), None)
      else
        match Convert.ParseInt32(parts[1])
        case Failure(e) => Resolution(bindings, FaultOnly(e), None)
        case Success(slot) =>
          match StringHelper.ArrayToString(parts, SplitOn, 2, -1, TypeHelper.StringToString)
          case Failure(e) => Resolution(bindings, FaultOnly(e), None)
          case Success(text) =>
            if 0 <= slot < |bindings| then Resolution(bindings[slot := Some(text)], NoEffects, None)
            else Resolution(bindings, FaultOnly(IndexOutOfRange), None)
    else if |parts| > 1 && first in reg.byObject then
      var name := parts[1];
      if name !in reg.byObject[first].methods then
        Resolution(bindings, LogOnly("No method " + name + " in object " + first), None)
      else
        match ArrayHelper.SubArray(parts, 2, -1)
        case Failure(e) => Resolution(bindings, FaultOnly(e), None)
        case Success(data) => Resolution(bindings, InvokeOne(reg.byObject[first].methods[name], data, host), None)
    else if first in reg.byMethod then
      match ArrayHelper.SubArray(parts, 1, -1)
      case Failure(e) => Resolution(bindings, FaultOnly(e), None)
      case Success(data) => Resolution(bindings, Broadcast(reg.byMethod[first], data, host), None)
    else if allowSendMessage then
      match StringHelper.ArrayToString(parts, SplitOn, 1, -1, TypeHelper.StringToString)
      case Failure(e) => Resolution(bindings, FaultOnly(e), None)
      case Success(argument) => Resolution(bindings, NoEffects, Some(SendMessage(first, argument)))
    else Resolution(bindings, LogOnly("Command " + first + " not recognized"), None)
  }

  /** The lines Save writes: the newest 101 history entries, oldest first. */
  function SaveLines(history: seq<string>): (r: seq<string>)
    ensures |r| == if |history| <= SaveWindow then |history| else SaveWindow
    ensures r == history[|history| - |r|..]
  {
    history[if |history| <= SaveWindow then 0 else |history| - SaveWindow..]
  }

  /** The tokens of a command, as Run_Command splits it. */
  function Tokens(command: string): (r: seq<string>)
    ensures |r| >= 1
  {
    Tokenizer.CommandSplit(command, SplitOn, GroupStart, GroupEnd)
  }

  /** Run_Command(command): a blank command does nothing; any other is trimmed,
      recorded and saved before it is dispatched. Only the history, its cursor
      and (through bind) the bindings change. */
  function RunCommand(s: State, command: string, host: Host): (r: Step)
    ensures r.state.registry == s.registry && r.state.allowSendMessage == s.allowSendMessage
    ensures r.state.command == s.command && r.state.isOpen == s.isOpen
    ensures r.state.suggestions == s.suggestions && r.state.suggestionIndex == s.suggestionIndex
    ensures |r.state.bindings| == |s.bindings|
    ensures r.report.saved.Some? <==> Trim(command) != ""
  {
    var cmd := Trim(command);
    if cmd == "" then Step(s, Quiet)
    else
      var history := s.history + [cmd];
      var res := Resolve(s.registry, s.bindings, s.allowSendMessage, Tokens(cmd), host);
      Step(s.(history := history, historyIndex := 0, bindings := res.bindings),
           Report(Some(SaveLines(history)), res.effects, res.sendMessage))
  }

  // ---------------------------------------------------------------------------
  // Run_Command, case by case

  /** A command that trims to nothing changes nothing and does nothing. */
  lemma BlankCommandIgnored(s: State, command: string, host: Host)
    requires AllWhite(command)
    ensures RunCommand(s, command, host) == Step(s, Quiet)
  {
    TrimEmpty(command);
  }

  /** Any other command is recorded, trimmed, with the history cursor reset and
      the new history window saved, whatever dispatch then does. */
  lemma CommandRecorded(s: State, command: string, host: Host)
    requires !AllWhite(command)
    ensures var r := RunCommand(s, command, host);
      && r.state.history == s.history + [Trim(command)]
      && r.state.historyIndex == 0
      && r.report.saved == Some(SaveLines(s.history + [Trim(command)]))
  {
    TrimEmpty(command);
  }

  /** Any other command is dispatched on its tokens: the bindings, the effects
      and the message to send are those Resolve gives for them. */
  lemma Dispatched(s: State, command: string, host: Host)
    requires !AllWhite(command)
    ensures var r := RunCommand(s, command, host);
      var res := Resolve(s.registry, s.bindings, s.allowSendMessage, Tokens(Trim(command)), host);
      && r.state.bindings == res.bindings
      && r.report.effects == res.effects
      && r.report.sendMessage == res.sendMessage
  {
    TrimEmpty(command);
  }

  /** `bind` with fewer than three tokens logs its usage and binds nothing. */
  lemma BindTooShort(reg: Registry, bindings: seq<Option<string>>, allow: bool, parts: seq<string>, host: Host)
    requires |parts| >= 1 && parts[0] == "bind" && |parts| < 3
    ensures Resolve(reg, bindings, allow, parts, host) == Resolution(bindings, LogOnly(BindUsage), None)
  {
  }

  /** `bind n cmd...` with n a numeral of a slot stores the remaining tokens,
      joined by spaces, in slot n and changes no other slot. */
  lemma BindSetsSlot(reg: Registry, bindings: seq<Option<string>>, allow: bool, parts: seq<string>, host: Host, slot: int)
    requires |parts| >= 3 && parts[0] == "bind" && Convert.ParseInt32(parts[1]) == Success(slot)
    requires 0 <= slot < |bindings|
    ensures Resolve(reg, bindings, allow, parts, host)
            == Resolution(bindings[slot := Some(Join(SplitOn, parts[2..]))], NoEffects, None)
  {
    StringHelper.ArrayToStringTail(parts, SplitOn, 2);
  }

  /** `bind n ...` where n is not a numeral throws the parse error, and where n
      names no slot throws IndexOutOfRange; either way nothing is bound. */
  lemma BindBadSlot(reg: Registry, bindings: seq<Option<string>>, allow: bool, parts: seq<string>, host: Host)
    requires |parts| >= 3 && parts[0] == "bind"
    requires Convert.ParseInt32(parts[1]).Failure? || !(0 <= Convert.ParseInt32(parts[1]).value < |bindings|)
    ensures var n := Convert.ParseInt32(parts[1]);
      Resolve(reg, bindings, allow, parts, host)
      == Resolution(bindings, FaultOnly(if n.Failure? then n.error else IndexOutOfRange), None)
  {
    StringHelper.ArrayToStringTail(parts, SplitOn, 2);
  }

  /** `obj name args...` on a registered object calls that object's binding for
      the name, once at most, with the remaining tokens; it never falls through
      to the broadcast. */
  lemma ObjectCall(reg: Registry, bindings: seq<Option<string>>, allow: bool, parts: seq<string>, host: Host)
    requires |parts| > 1 && parts[0] != "bind" && parts[0] in reg.byObject
    requires parts[1] in reg.byObject[parts[0]].methods
    ensures Resolve(reg, bindings, allow, parts, host)
            == Resolution(bindings, InvokeOne(reg.byObject[parts[0]].methods[parts[1]], parts[2..], host), None)
  {
    ArrayHelper.SubArrayTail(parts, 2);
  }

  /** `obj name ...` where the object has no such method logs one line and calls nothing. */
  lemma ObjectNoMethod(reg: Registry, bindings: seq<Option<string>>, allow: bool, parts: seq<string>, host: Host)
    requires |parts| > 1 && parts[0] != "bind" && parts[0] in reg.byObject
    requires parts[1] !in reg.byObject[parts[0]].methods
    ensures Resolve(reg, bindings, allow, parts, host)
            == Resolution(bindings, LogOnly("No method " + parts[1] + " in object " + parts[0]), None)
  {
  }

  /** `name args...` for a registered method name, when the command is not an
      object call, invokes every binding of that name in registration order
      with the remaining tokens. A lone object name lands here too. */
  lemma MethodBroadcast(reg: Registry, bindings: seq<Option<string>>, allow: bool, parts: seq<string>, host: Host)
    requires |parts| >= 1 && parts[0] != "bind" && !(|parts| > 1 && parts[0] in reg.byObject)
    requires parts[0] in reg.byMethod
    ensures Resolve(reg, bindings, allow, parts, host)
            == Resolution(bindings, Broadcast(reg.byMethod[parts[0]], parts[1..], host), None)
  {
    ArrayHelper.SubArrayTail(parts, 1);
  }

  /** Anything else is sent with SendMessage when allowed, the remaining tokens
      joined by spaces as its argument; otherwise exactly one line is logged. */
  lemma Unrecognized(reg: Registry, bindings: seq<Option<string>>, allow: bool, parts: seq<string>, host: Host)
    requires |parts| >= 1 && parts[0] != "bind" && !(|parts| > 1 && parts[0] in reg.byObject)
    requires parts[0] !in reg.byMethod
    ensures allow ==> (Resolve(reg, bindings, allow, parts, host)
      == Resolution(bindings, NoEffects, Some(SendMessage(parts[0], Join(SplitOn, parts[1..])))))
    ensures !allow ==> (Resolve(reg, bindings, allow, parts, host)
      == Resolution(bindings, LogOnly("Command " + parts[0] + " not recognized"), None))
  {
    StringHelper.ArrayToStringTail(parts, SplitOn, 1);
  }

  /** A broadcast logs what the invocations it made log, in order: an
      invocation that throws logs nothing, and nothing after it runs. */
  lemma {:induction false} BroadcastLogs(bs: seq<Binding>, data: seq<string>, host: Host)
    ensures var r := Broadcast(bs, data, host);
      r.logs == LogsOf(bs[..|r.calls|], data, host)
    decreases |bs|
  {
    if |bs| > 0 {
      var one := InvokeOne(bs[0], data, host);
      var rest := Broadcast(bs[1..], data, host);
      var r := Broadcast(bs, data, host);
      if one.fault.Some? {
        assert r == one;
        if |one.calls| == 0 {
          assert bs[..|r.calls|] == [];
        } else {
          assert bs[..|r.calls|] == [bs[0]] + [];
          LogsOfCons(bs[0], [], data, host);
        }
      } else {
        assert r.calls == one.calls + rest.calls && r.logs == one.logs + rest.logs;
        BroadcastLogs(bs[1..], data, host);
        var done := bs[1..][..|rest.calls|];
        SliceCons(bs, |r.calls|);
        LogsOfCons(bs[0], done, data, host);
      }
    }
  }

  /** Only an exception escaping one invocation stops a broadcast: a call that
      throws but is reported lets the next binding run. */
  lemma {:induction false} BroadcastFault(bs: seq<Binding>, data: seq<string>, host: Host)
    ensures Broadcast(bs, data, host).fault.None?
      <==> forall k :: 0 <= k < |bs| ==> InvokeOne(bs[k], data, host).fault.None?
    decreases |bs|
  {
    if |bs| > 0 {
      BroadcastFault(bs[1..], data, host);
      forall k | 1 <= k < |bs|
        ensures bs[k] == bs[1..][k - 1]
      {
      }
    }
  }

  /** The first exception that escapes an invocation ends the broadcast and is
      the one it reports: binding j is the last one reached, and every binding
      before it was called exactly once. */
  lemma {:induction false} BroadcastStopsAt(bs: seq<Binding>, data: seq<string>, host: Host, j: nat)
    requires j < |bs| && InvokeOne(bs[j], data, host).fault.Some?
    requires forall k :: 0 <= k < j ==> InvokeOne(bs[k], data, host).fault.None?
    ensures Broadcast(bs, data, host).fault == InvokeOne(bs[j], data, host).fault
    ensures |Broadcast(bs, data, host).calls| == j + |InvokeOne(bs[j], data, host).calls|
    decreases j
  {
    if j > 0 {
      var rest := bs[1..];
      assert InvokeOne(bs[0], data, host).fault.None?;
      assert rest[j - 1] == bs[j];
      forall k | 0 <= k < j - 1
        ensures InvokeOne(rest[k], data, host).fault.None?
      {
        assert rest[k] == bs[k + 1];
      }
      BroadcastStopsAt(rest, data, host, j - 1);
    }
  }

  lemma SliceCons<T>(xs: seq<T>, n: nat)
    requires 1 <= n <= |xs|
    ensures xs[..n] == [xs[0]] + xs[1..][..n - 1]
  {
  }

  lemma LogsOfCons(b: Binding, bs: seq<Binding>, data: seq<string>, host: Host)
    ensures LogsOf([b] + bs, data, host) == InvokeOne(b, data, host).logs + LogsOf(bs, data, host)
  {
    assert ([b] + bs)[1..] == bs;
  }

  /** A broadcast that nothing interrupts calls every binding exactly once, in
      registration order, each with the same data converted for its own method. */
  lemma BroadcastAll(bs: seq<Binding>, data: seq<string>, host: Host)
    requires forall k :: 0 <= k < |bs| ==> MethodHelper.StringsToArguments(bs[k].methodInfo, data, Placeholders).Success?
    requires forall k :: 0 <= k < |bs| ==>
      var args := MethodHelper.StringsToArguments(bs[k].methodInfo, data, Placeholders).value;
      host(bs[k], args).Returned? || Null !in args
    ensures var r := Broadcast(bs, data, host);
      && r.fault.None? && |r.calls| == |bs|
      && forall k :: 0 <= k < |bs| ==>
           r.calls[k] == Call(bs[k], MethodHelper.StringsToArguments(bs[k].methodInfo, data, Placeholders).value)
    decreases |bs|
  {
    if |bs| > 0 {
      BroadcastAll(bs[1..], data, host);
    }
  }

  // ---------------------------------------------------------------------------
  // Autocomplete

  /** The names that contain `t`, in their original order. */
  function FilterContains(names: seq<string>, t: string): (r: seq<string>)
    ensures forall x :: x in r <==> x in names && Contains(x, t)
    ensures FileHelper.IsSubsequence(r, names)
    decreases |names|
  {
    if |names| == 0 then []
    else
      var rest := FilterContains(names[1..], t);
      if Contains(names[0], t) then [names[0]] + rest
      else
        FileHelper.SubsequenceSkip(rest, names);
        rest
  }

  /** The token being typed and the one before it; with one token both are it. */
  function LastTwo(command: string): (string, string) {
    var parts := Split(command, SplitOn);
    (parts[|parts| - 1], parts[if |parts| >= 2 then |parts| - 2 else 0])
  }

  /** UpdateAutoComplete: after an object name, that object's methods that
      contain the token being typed; after a method name, nothing; otherwise
      the objects, then the methods, that contain it. The selection cursor is
      left where it was. */
  function UpdateAutoComplete(s: State): (r: State)
    ensures r == s.(suggestions := r.suggestions)
    ensures var (last, secondLast) := LastTwo(s.command); var reg := s.registry;
      && (secondLast in reg.byObject ==>
            && r.suggestions == FilterContains(reg.byObject[secondLast].names, last)
            && forall x :: x in r.suggestions <==> x in reg.byObject[secondLast].names && Contains(x, last))
      && (secondLast !in reg.byObject && secondLast in reg.byMethod ==> r.suggestions == [])
      && (secondLast !in reg.byObject && secondLast !in reg.byMethod ==>
            && r.suggestions == FilterContains(reg.objectNames, last) + FilterContains(reg.methodNames, last)
            && forall x :: x in r.suggestions <==> (x in reg.objectNames || x in reg.methodNames) && Contains(x, last))
  {
    var (last, secondLast) := LastTwo(s.command);
    var reg := s.registry;
    var suggestions :=
      if secondLast in reg.byObject then FilterContains(reg.byObject[secondLast].names, last)
      else if secondLast in reg.byMethod then []
      else FilterContains(reg.objectNames, last) + FilterContains(reg.methodNames, last);
    s.(suggestions := suggestions)
  }

  /** With a single token, the token before the one being typed is that same
      token: typing an object's name lists its methods whose names contain it. */
  lemma SingleTokenAutoComplete(s: State)
    requires !Contains(s.command, SplitOn) && s.command in s.registry.byObject
    ensures forall x :: x in UpdateAutoComplete(s).suggestions <==>
      x in s.registry.byObject[s.command].names && Contains(x, s.command)
  {
    SplitNone(s.command, SplitOn);
  }

  /** Every suggestion in the general case names a registered object or method. */
  lemma SuggestionsRegistered(s: State)
    requires Valid(s.registry)
    ensures forall x :: x in UpdateAutoComplete(s).suggestions ==>
      (x in s.registry.byMethod || x in s.registry.byObject
       || exists o :: o in s.registry.byObject && x in s.registry.byObject[o].methods)
  {
    var (last, secondLast) := LastTwo(s.command);
    forall x | x in UpdateAutoComplete(s).suggestions
      ensures x in s.registry.byMethod || x in s.registry.byObject
        || exists o :: o in s.registry.byObject && x in s.registry.byObject[o].methods
    {
      if secondLast in s.registry.byObject {
        assert x in s.registry.byObject[secondLast].methods;
      }
    }
  }

  // ---------------------------------------------------------------------------
  // Opening, closing, editing, loading

  /** Open: show the console, rebuild the registry from the scene, refresh suggestions. */
  function Open(s: State, scene: seq<HostObject>): (r: State)
    ensures r.isOpen && r.registry == UpdateMethodList(scene)
    ensures r.history == s.history && r.bindings == s.bindings && r.command == s.command
    ensures r.suggestionIndex == s.suggestionIndex && r.historyIndex == s.historyIndex
    ensures r.allowSendMessage == s.allowSendMessage
    ensures UpdateAutoComplete(r) == r
  {
    UpdateAutoComplete(s.(isOpen := true, registry := UpdateMethodList(scene)))
  }

  /** Close: hide the console and drop the suggestions; the selection cursor stays. */
  function Close(s: State): (r: State)
    ensures !r.isOpen && r.suggestions == []
    ensures r == s.(isOpen := false, suggestions := [])
  {
    s.(isOpen := false, suggestions := [])
  }

  /** The text field changed: a different text refreshes the suggestions. */
  function Edit(s: State, text: string): (r: State)
    ensures r.command == text && r.suggestionIndex == s.suggestionIndex
    ensures r == s.(command := text, suggestions := r.suggestions)
    ensures text == s.command ==> r == s
    ensures text != s.command ==> UpdateAutoComplete(r) == r
  {
    if text == s.command then s else UpdateAutoComplete(s.(command := text))
  }

  /** Load: append the history file's non-blank lines, cursor past the end. */
  function Load(s: State, file: Option<seq<string>>): (r: State)
    ensures r.history == s.history + FileHelper.LoadFile(file, true)
    ensures r.historyIndex == |r.history|
    ensures |s.history| <= |r.history| && r.history[..|s.history|] == s.history
    ensures forall k :: |s.history| <= k < |r.history| ==> !FileHelper.IsBlank(r.history[k])
    ensures r == s.(history := r.history, historyIndex := r.historyIndex)
  {
    var history := s.history + FileHelper.LoadFile(file, true);
    assert history[..|s.history|] == s.history;
    s.(history := history, historyIndex := |history|)
  }

  /** The state before Start: empty history and registry, the bindings as set
      in the inspector. */
  function Initial(bindings: seq<Option<string>>, allowSendMessage: bool): State {
    State([], -1, bindings, Empty, allowSendMessage, "", [], -1, false)
  }

  /** Start: load the history, build the registry, compute suggestions. */
  function Start(bindings: seq<Option<string>>, allowSendMessage: bool, scene: seq<HostObject>, file: Option<seq<string>>): (r: State)
    ensures r.history == FileHelper.LoadFile(file, true) && r.historyIndex == |r.history|
    ensures r.registry == UpdateMethodList(scene) && !r.isOpen && r.bindings == bindings
    ensures r.allowSendMessage == allowSendMessage && r.command == "" && r.suggestionIndex == -1
    ensures UpdateAutoComplete(r) == r
  {
    var loaded := Load(Initial(bindings, allowSendMessage), file);
    UpdateAutoComplete(loaded.(registry := UpdateMethodList(scene)))
  }

  /** A digit key: run the command bound to that slot. An unset slot holds
      null, and trimming it throws. */
  function RunBinding(s: State, slot: nat, host: Host): (r: Step)
    requires slot < SlotCount
    ensures slot < |s.bindings| && s.bindings[slot].Some? ==> r == RunCommand(s, s.bindings[slot].value, host)
    ensures !(slot < |s.bindings| && s.bindings[slot].Some?) ==> r.state == s && r.report.effects.fault.Some?
  {
    if slot >= |s.bindings| then Step(s, Report(None, FaultOnly(IndexOutOfRange), None))
    else match s.bindings[slot]
      case None => Step(s, Report(None, FaultOnly(NullReference), None))
      case Some(command) => RunCommand(s, command, host)
  }

  // ---------------------------------------------------------------------------
  // Keys

  datatype Key = ToggleKey | ReturnKey | LeftArrow | RightArrow | UpArrow | DownArrow | OtherKey

  /** C#'s % on int: the remainder takes the sign of the dividend. */
  function Rem(a: int, n: int): (r: int)
    requires n > 0
    ensures a >= 0 ==> 0 <= r < n
    ensures a < 0 ==> -n < r <= 0
  {
    if a >= 0 then a % n else -((-a) % n)
  }

  function Faulted(s: State, e: Fault): Step {
    Step(s, Report(None, FaultOnly(e), None))
  }

  /** The key branches of OnGUI on an open console, before the text field is
      compared with its previous value. List indexing out of range throws
      ArgumentOutOfRangeException with whatever was assigned before it. */
  function KeyBranch(s: State, key: Key, host: Host): (r: Step)
    ensures r.state.suggestions == s.suggestions && r.state.registry == s.registry
    ensures r.state.isOpen == s.isOpen
  {
    match key
    case ReturnKey =>
      if s.suggestionIndex != -1 then
        if 0 <= s.suggestionIndex < |s.suggestions| then
          Step(s.(command := s.command + s.suggestions[s.suggestionIndex], suggestionIndex := -1), Quiet)
        else Faulted(s, ArgumentOutOfRange)
      else if Trim(s.command) != "" then
        var run := RunCommand(s, s.command, host);
        if run.report.effects.fault.Some? then run
        else Step(run.state.(command := ""), run.report)
      else Step(s, Quiet)
    case LeftArrow => Step(s.(suggestionIndex := -1, historyIndex := -1), Quiet)
    case RightArrow => Step(s.(suggestionIndex := -1, historyIndex := -1), Quiet)
    case UpArrow =>
      var s1 :=
        if s.suggestionIndex != -1 then s.(suggestionIndex := -1, historyIndex := 0)
        else if |s.history| > 0 then s.(historyIndex := Rem(s.historyIndex + 1, |s.history|))
        else s;
      var at := |s1.history| - 1 - s1.historyIndex;
      if 0 <= at < |s1.history| then Step(s1.(command := s1.history[at]), Quiet)
      else Faulted(s1, ArgumentOutOfRange)
    case DownArrow =>
      if |s.suggestions| > 0 then
        if s.historyIndex != -1 then Step(s.(historyIndex := -1, suggestionIndex := 0), Quiet)
        else Step(s.(suggestionIndex := Rem(s.suggestionIndex + 1, |s.suggestions|)), Quiet)
      else Step(s, Quiet)
    case _ => Step(s, Quiet)
  }

  /** One key press. On a closed console only the toggle key matters (Update
      opens it); on an open one the toggle key closes it, the other keys take
      their branch, and a changed command refreshes the suggestions. */
  function KeyPress(s: State, key: Key, scene: seq<HostObject>, host: Host): (r: Step)
    ensures !s.isOpen && key != ToggleKey ==> r == Step(s, Quiet)
    ensures !s.isOpen && key == ToggleKey ==> r == Step(Open(s, scene), Quiet)
    ensures s.isOpen && key == ToggleKey ==> r == Step(Close(s), Quiet)
    ensures s.isOpen && key != ToggleKey && r.report.effects.fault.None? && r.state.command != s.command ==>
      UpdateAutoComplete(r.state) == r.state
    ensures s.isOpen && key != ToggleKey ==>
      r.report == KeyBranch(s, key, host).report && r.state.command == KeyBranch(s, key, host).state.command
    ensures s.isOpen && key != ToggleKey && !(r.report.effects.fault.None? && r.state.command != s.command) ==>
      r.state == KeyBranch(s, key, host).state && r.state.suggestions == s.suggestions
  {
    if !s.isOpen then
      if key == ToggleKey then Step(Open(s, scene), Quiet) else Step(s, Quiet)
    else if key == ToggleKey then Step(Close(s), Quiet)
    else
      var b := KeyBranch(s, key, host);
      if b.report.effects.fault.None? && b.state.command != s.command then Step(UpdateAutoComplete(b.state), b.report)
      else b
  }

  // ---------------------------------------------------------------------------
  // Cursor transitions

  /** Any other key on an open console does nothing. */
  lemma OtherKeyQuiet(s: State, scene: seq<HostObject>, host: Host)
    requires s.isOpen
    ensures KeyPress(s, OtherKey, scene, host) == Step(s, Quiet)
  {
  }

  /** Left and Right leave both the history and the suggestion list. */
  lemma SideArrowsReset(s: State, key: Key, scene: seq<HostObject>, host: Host)
    requires s.isOpen && (key == LeftArrow || key == RightArrow)
    ensures KeyPress(s, key, scene, host) == Step(s.(suggestionIndex := -1, historyIndex := -1), Quiet)
  {
  }

  /** Down steps through the suggestions cyclically, or selects the first one
      when coming from the history; with no suggestions it does nothing. The
      list itself and everything but the two cursors are kept, so repeated
      presses cycle through one list. */
  lemma DownCycles(s: State, scene: seq<HostObject>, host: Host)
    requires s.isOpen && s.suggestionIndex >= -1
    ensures var r := KeyPress(s, DownArrow, scene, host).state;
      && (|s.suggestions| == 0 ==> r == s)
      && (|s.suggestions| > 0 && s.historyIndex != -1 ==> r.suggestionIndex == 0 && r.historyIndex == -1)
      && (|s.suggestions| > 0 && s.historyIndex == -1 ==>
            r.suggestionIndex == (s.suggestionIndex + 1) % |s.suggestions| && 0 <= r.suggestionIndex < |s.suggestions|)
      && r == s.(suggestionIndex := r.suggestionIndex, historyIndex := r.historyIndex)
  {
  }

  /** Up steps back through the history cyclically, newest first, and loads
      the entry into the text field; a selected suggestion is dropped for the
      newest entry. */
  lemma UpCycles(s: State, scene: seq<HostObject>, host: Host)
    requires s.isOpen && |s.history| > 0 && s.historyIndex >= -1
    ensures var r := KeyPress(s, UpArrow, scene, host);
      && r.report.effects.fault.None?
      && r.state.suggestionIndex == -1
      && 0 <= r.state.historyIndex < |s.history|
      && r.state.command == s.history[|s.history| - 1 - r.state.historyIndex]
      && (s.suggestionIndex == -1 ==> r.state.historyIndex == (s.historyIndex + 1) % |s.history|)
      && (s.suggestionIndex != -1 ==> r.state.historyIndex == 0)
      && r.state == s.(historyIndex := r.state.historyIndex, suggestionIndex := -1,
                       command := r.state.command, suggestions := r.state.suggestions)
      && (r.state.command != s.command ==> UpdateAutoComplete(r.state) == r.state)
      && (r.state.command == s.command ==> r.state.suggestions == s.suggestions)
  {
  }

  /** After Left or Right, the first Up recalls the newest command. */
  lemma UpFromResetIsNewest(s: State, scene: seq<HostObject>, host: Host)
    requires s.isOpen && |s.history| > 0 && s.historyIndex == -1 && s.suggestionIndex == -1
    ensures KeyPress(s, UpArrow, scene, host).state.command == s.history[|s.history| - 1]
  {
  }

  /** With the cursor at the count, as Load and Start leave it, the first Up
      recalls the second newest entry, not the newest. */
  lemma UpFromCountSkipsNewest(s: State, scene: seq<HostObject>, host: Host)
    requires s.isOpen && s.suggestionIndex == -1
    requires |s.history| >= 2 && s.historyIndex == |s.history|
    ensures KeyPress(s, UpArrow, scene, host).state.command == s.history[|s.history| - 2]
  {
    ModNext(|s.history|);
    assert Rem(s.historyIndex + 1, |s.history|) == 1;
  }

  /** With a single entry and the cursor at the count, the cursor wraps to 0
      and the first Up recalls that entry. */
  lemma UpFromCountSingle(s: State, scene: seq<HostObject>, host: Host)
    requires s.isOpen && s.suggestionIndex == -1
    requires |s.history| == 1 && s.historyIndex == 1
    ensures KeyPress(s, UpArrow, scene, host).state.command == s.history[0]
    ensures KeyPress(s, UpArrow, scene, host).state.historyIndex == 0
  {
    assert Rem(s.historyIndex + 1, |s.history|) == 0;
  }

  lemma ModNext(n: int)
    requires n >= 2
    ensures (n + 1) % n == 1
  {
  }

  /** Up with an empty history throws. */
  lemma UpOnEmptyHistoryFaults(s: State, scene: seq<HostObject>, host: Host)
    requires s.isOpen && |s.history| == 0
    ensures KeyPress(s, UpArrow, scene, host).report.effects.fault == Some(ArgumentOutOfRange)
    ensures KeyPress(s, UpArrow, scene, host).state
      == if s.suggestionIndex != -1 then s.(suggestionIndex := -1, historyIndex := 0) else s
  {
  }

  /** Return on a selected suggestion appends it to the command as it is, with
      no separator, and clears the selection; nothing runs. */
  lemma ReturnAppendsSuggestion(s: State, scene: seq<HostObject>, host: Host)
    requires s.isOpen && 0 <= s.suggestionIndex < |s.suggestions|
    ensures var r := KeyPress(s, ReturnKey, scene, host);
      && r.state.command == s.command + s.suggestions[s.suggestionIndex]
      && r.state.suggestionIndex == -1
      && r.state.history == s.history
      && r.report == Quiet
      && r.state == s.(command := r.state.command, suggestionIndex := -1, suggestions := r.state.suggestions)
      && (r.state.command != s.command ==> UpdateAutoComplete(r.state) == r.state)
      && (r.state.command == s.command ==> r.state.suggestions == s.suggestions)
  {
  }

  /** Return without a selection runs the command and empties the field. */
  lemma ReturnRunsCommand(s: State, host: Host)
    requires s.suggestionIndex == -1 && !AllWhite(s.command)
    ensures var r := KeyBranch(s, ReturnKey, host); var run := RunCommand(s, s.command, host);
      && r.report == run.report
      && r.state.history == s.history + [Trim(s.command)]
      && (run.report.effects.fault.None? ==> r.state.command == "")
      && r == (if run.report.effects.fault.Some? then run else Step(run.state.(command := ""), run.report))
  {
    var run := RunCommand(s, s.command, host);
    assert KeyBranch(s, ReturnKey, host)
        == if run.report.effects.fault.Some? then run else Step(run.state.(command := ""), run.report) by {
      TrimEmpty(s.command);
    }
    assert run.state.history == s.history + [Trim(s.command)] by {
      CommandRecorded(s, s.command, host);
    }
  }

  /** Return with no selection on a blank command does nothing. */
  lemma ReturnOnBlankQuiet(s: State, scene: seq<HostObject>, host: Host)
    requires s.isOpen && s.suggestionIndex == -1 && AllWhite(s.command)
    ensures KeyPress(s, ReturnKey, scene, host) == Step(s, Quiet)
  {
    TrimEmpty(s.command);
  }

  /** On an open console every key but the toggle does what its branch does;
      the refresh of the suggestions touches nothing else. */
  lemma KeyPressIsBranch(s: State, key: Key, scene: seq<HostObject>, host: Host)
    requires s.isOpen && key != ToggleKey
    ensures var r := KeyPress(s, key, scene, host); var b := KeyBranch(s, key, host);
      r.report == b.report && r.state == b.state.(suggestions := r.state.suggestions)
    ensures var r := KeyPress(s, key, scene, host); var b := KeyBranch(s, key, host);
      && (b.report.effects.fault.None? && b.state.command != s.command ==> r.state == UpdateAutoComplete(b.state))
      && (!(b.report.effects.fault.None? && b.state.command != s.command) ==> r == b && r.state.suggestions == s.suggestions)
  {
  }

  /** A selection left beyond the end of the list makes Return throw. */
  lemma StaleSelectionFaults(s: State, scene: seq<HostObject>, host: Host)
    requires s.isOpen && s.suggestionIndex != -1 && !(0 <= s.suggestionIndex < |s.suggestions|)
    ensures KeyPress(s, ReturnKey, scene, host) == Faulted(s, ArgumentOutOfRange)
  {
  }

  /** Editing the command recomputes the list but keeps the selection, so a
      selection made on a longer list goes stale: with nothing registered, any
      edit empties the list and the next Return throws. */
  lemma EditLeavesStaleSelection(s: State, text: string, scene: seq<HostObject>, host: Host)
    requires s.isOpen && s.registry == Empty && s.suggestionIndex == 0 && text != s.command
    ensures Edit(s, text).suggestions == []
    ensures KeyPress(Edit(s, text), ReturnKey, scene, host).report.effects.fault == Some(ArgumentOutOfRange)
  {
  }

  /** Closing drops the list but not the selection. */
  lemma CloseKeepsSelection(s: State)
    ensures Close(s).suggestionIndex == s.suggestionIndex && Close(s).suggestions == []
  {
  }

  // ---------------------------------------------------------------------------
  // History window

  /** The history file holds at most 101 lines, the newest last. */
  lemma SaveWindowBound(history: seq<string>)
    ensures |SaveLines(history)| <= SaveWindow
    ensures |history| > 0 ==> SaveLines(history)[|SaveLines(history)| - 1] == history[|history| - 1]
    ensures |history| <= SaveWindow ==> SaveLines(history) == history
  {
  }

  // ---------------------------------------------------------------------------
  // The console invariant

  /** Ten binding slots, a well-formed registry, cursors at -1 or above, and a
      history of non-blank commands. */
  ghost predicate Wf(s: State) {
    && |s.bindings| == SlotCount
    && Valid(s.registry)
    && s.historyIndex >= -1 && s.suggestionIndex >= -1
    && forall k :: 0 <= k < |s.history| ==> !FileHelper.IsBlank(s.history[k])
  }

  lemma TrimmedNotBlank(command: string)
    requires Trim(command) != ""
    ensures !FileHelper.IsBlank(Trim(command))
  {
    TrimIdempotent(command);
  }

  lemma RunCommandWf(s: State, command: string, host: Host)
    requires Wf(s)
    ensures Wf(RunCommand(s, command, host).state)
  {
    var r := RunCommand(s, command, host).state;
    assert r.registry == s.registry && |r.bindings| == |s.bindings| && r.suggestionIndex == s.suggestionIndex;
    if AllWhite(command) {
      BlankCommandIgnored(s, command, host);
    } else {
      RecordedNotBlank(s, command, host);
    }
  }

  lemma RecordedNotBlank(s: State, command: string, host: Host)
    requires !AllWhite(command)
    requires forall k :: 0 <= k < |s.history| ==> !FileHelper.IsBlank(s.history[k])
    ensures var r := RunCommand(s, command, host).state;
      r.historyIndex == 0 && forall k :: 0 <= k < |r.history| ==> !FileHelper.IsBlank(r.history[k])
  {
    CommandRecorded(s, command, host);
    TrimEmpty(command);
    TrimmedNotBlank(command);
    AppendNotBlank(s.history, Trim(command));
  }

  lemma AppendNotBlank(h: seq<string>, x: string)
    requires forall k :: 0 <= k < |h| ==> !FileHelper.IsBlank(h[k])
    requires !FileHelper.IsBlank(x)
    ensures forall k :: 0 <= k < |h + [x]| ==> !FileHelper.IsBlank((h + [x])[k])
  {
  }

  lemma RunBindingWf(s: State, slot: nat, host: Host)
    requires Wf(s) && slot < SlotCount
    ensures Wf(RunBinding(s, slot, host).state)
  {
    if s.bindings[slot].Some? {
      RunCommandWf(s, s.bindings[slot].value, host);
    }
  }

  lemma OpenWf(s: State, scene: seq<HostObject>)
    requires Wf(s)
    ensures Wf(Open(s, scene))
  {
    UpdateMethodListSpec(scene);
  }

  lemma LoadWf(s: State, file: Option<seq<string>>)
    requires Wf(s)
    ensures Wf(Load(s, file))
  {
    var r := Load(s, file);
    forall k | 0 <= k < |r.history|
      ensures !FileHelper.IsBlank(r.history[k])
    {
      if k < |s.history| {
        assert r.history[k] == r.history[..|s.history|][k];
      }
    }
  }

  lemma StartWf(bindings: seq<Option<string>>, allowSendMessage: bool, scene: seq<HostObject>, file: Option<seq<string>>)
    requires |bindings| == SlotCount
    ensures Wf(Start(bindings, allowSendMessage, scene, file))
  {
    UpdateMethodListSpec(scene);
  }

  lemma KeyPressWf(s: State, key: Key, scene: seq<HostObject>, host: Host)
    requires Wf(s)
    ensures Wf(KeyPress(s, key, scene, host).state)
  {
    if !s.isOpen {
      if key == ToggleKey {
        OpenWf(s, scene);
      }
    } else if key != ToggleKey {
      KeyBranchWf(s, key, host);
    }
  }

  lemma KeyBranchWf(s: State, key: Key, host: Host)
    requires Wf(s)
    ensures Wf(KeyBranch(s, key, host).state)
  {
    if key == ReturnKey {
      ReturnWf(s, host);
    }
  }

  lemma ReturnWf(s: State, host: Host)
    requires Wf(s)
    ensures Wf(KeyBranch(s, ReturnKey, host).state)
  {
    if s.suggestionIndex == -1 && Trim(s.command) != "" {
      var run := RunCommand(s, s.command, host);
      assert Wf(run.state) by {
        RunCommandWf(s, s.command, host);
      }
      assert Wf(run.state.(command := ""));
    }
  }

  /** Saving a well-formed history and loading the file into an empty history
      gives back exactly the saved window, with the cursor past its end. */
  lemma SaveLoadRoundTrip(s: State, t: State)
    requires Wf(s) && t.history == []
    ensures Load(t, Some(SaveLines(s.history))).history == SaveLines(s.history)
    ensures Load(t, Some(SaveLines(s.history))).historyIndex == |SaveLines(s.history)|
  {
    var w := SaveLines(s.history);
    forall k | 0 <= k < |w|
      ensures !FileHelper.IsBlank(w[k])
    {
      assert w[k] == s.history[|s.history| - |w| + k];
    }
    FileHelper.LoadFileNoBlank(w);
  }
}
