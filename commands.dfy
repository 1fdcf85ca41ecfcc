/**
 * Command dispatch of swm.c: a client writes a command name into the
 * `_MYWM_CMD` property of the root window, and `handle_prop` runs the first
 * entry of the handler table whose name equals it.
 */
module Commands {
  import opened Wrappers
  import opened WmTypes
  import opened Swm

  /** The commands of the handler table. */
  datatype Command =
    | Next | Prev
    | FocusMonLeft | FocusMonRight
    | MoveWindowLeft | MoveWindowRight
    | KillFocused | Quit

  /** One entry of the handler table: a command name and the command it runs. */
  datatype Handler = Handler(name: string, command: Command)

  /** The handler table, in its order. */
  const Handlers: seq<Handler> := [
    Handler("next", Next),
    Handler("prev", Prev),
    Handler("focus_mon_left", FocusMonLeft),
    Handler("focus_mon_right", FocusMonRight),
    Handler("move_window_left", MoveWindowLeft),
    Handler("move_window_right", MoveWindowRight),
    Handler("kill_focused", KillFocused),
    Handler("quit", Quit)
  ]

  /** The property read asks for 32 32-bit units, so at most 128 bytes of the value arrive. */
  const MaxPropertyBytes := 128

  /** The part of the property value that the read returns. */
  function Received(value: string): (r: string)
    ensures |r| <= MaxPropertyBytes && |r| <= |value|
    ensures r == value[..|r|]
    ensures |r| < MaxPropertyBytes ==> r == value
  {
    if |value| <= MaxPropertyBytes then value else value[..MaxPropertyBytes]
  }

  /**
   * The string the name comparison sees: the bytes before the first NUL (the
   * returned buffer always carries a terminating NUL after its last byte).
   */
  function CString(s: string): (r: string)
    ensures |r| <= |s| && r == s[..|r|]
    ensures '\0' !in r
    ensures |r| < |s| ==> s[|r|] == '\0'
  {
    if s == [] || s[0] == '\0' then []
    else
      var t := CString(s[1..]);
      assert [s[0]] + t == s[..|t| + 1];
      [s[0]] + t
  }

  /** The position of the first handler named `name`, or -1. */
  function Lookup(table: seq<Handler>, name: string): (i: int)
    ensures -1 <= i < |table|
    ensures i == -1 <==> forall j :: 0 <= j < |table| ==> table[j].name != name
    ensures 0 <= i ==> table[i].name == name && forall j :: 0 <= j < i ==> table[j].name != name
  {
    if table == [] then -1
    else if table[0].name == name then 0
    else
      var j := Lookup(table[1..], name);
      if j == -1 then -1 else j + 1
  }

  /**
   * The command `handle_prop` runs for a property value, given as none when
   * the event concerns another property, the read fails, or the value is
   * not 8-bit text: nothing for an empty value or an unknown name.
   */
  function CommandFor(data: Option<string>): (c: Option<Command>)
    ensures c != None ==> data != None && 0 < |Received(data.value)|
    ensures c != None ==> var i := Lookup(Handlers, CString(Received(data.value)));
      0 <= i && c == Some(Handlers[i].command)
  {
    match data
    case None => None
    case Some(value) =>
      var r := Received(value);
      if |r| == 0 then None
      else
        var i := Lookup(Handlers, CString(r));
        if i < 0 then None else Some(Handlers[i].command)
  }

  /** The handler names are pairwise different, so first match and only match agree. */
  lemma HandlerNamesDistinct()
    ensures forall i, j :: 0 <= i < j < |Handlers| ==> Handlers[i].name != Handlers[j].name
  {
  }

  /** Every handler name is non-empty, short enough to arrive whole, and free of NUL bytes. */
  lemma HandlerNamesWellFormed()
    ensures forall h :: h in Handlers ==> 0 < |h.name| < MaxPropertyBytes && '\0' !in h.name
  {
    forall i | 0 <= i < |Handlers|
      ensures 0 < |Handlers[i].name| < MaxPropertyBytes && '\0' !in Handlers[i].name
    {
      NulFree(Handlers[i].name);
    }
  }

  /** A string none of whose bytes is NUL does not contain NUL. */
  lemma NulFree(s: string)
    requires forall k :: 0 <= k < |s| ==> s[k] != '\0'
    ensures '\0' !in s
  {
  }

  /** The comparison sees a NUL-free name whole, and stops at a NUL that follows it. */
  lemma {:induction false} CStringOfName(name: string, rest: string)
    requires '\0' !in name
    ensures CString(name) == name
    ensures CString(name + "\0" + rest) == name
  {
    if name != [] {
      CStringOfName(name[1..], rest);
      assert (name + "\0" + rest)[1..] == name[1..] + "\0" + rest;
    }
  }

  /** The search for a handler's own name stops at that handler. */
  lemma LookupOwnName(i: int)
    requires 0 <= i < |Handlers|
    ensures Lookup(Handlers, Handlers[i].name) == i
  {
    HandlerNamesDistinct();
  }

  /** Every command runs under its own name. */
  lemma EveryCommandReachable(i: int)
    requires 0 <= i < |Handlers|
    ensures CommandFor(Some(Handlers[i].name)) == Some(Handlers[i].command)
  {
    LookupOwnName(i);
    HandlerNamesWellFormed();
    var name := Handlers[i].name;
    assert Handlers[i] in Handlers;
    CStringOfName(name, "");
    assert Received(name) == name;
  }

  /** A short NUL-free name followed by a NUL arrives whole, and the comparison sees exactly it. */
  lemma NameThenNul(name: string, rest: string)
    requires '\0' !in name && |name| < MaxPropertyBytes
    ensures CString(Received(name + "\0" + rest)) == name
  {
    var value := name + "\0" + rest;
    var r := Received(value);
    var k := |name| + 1;
    assert r == name + "\0" + r[k..] by {
      assert r[..k] == value[..k] == name + "\0";
    }
    CStringOfName(name, r[k..]);
  }

  /** Bytes after a NUL that follows a command name are ignored. */
  lemma TrailingBytesIgnored(i: int, rest: string)
    requires 0 <= i < |Handlers|
    ensures CommandFor(Some(Handlers[i].name + "\0" + rest)) == Some(Handlers[i].command)
  {
    LookupOwnName(i);
    HandlerNamesWellFormed();
    assert Handlers[i] in Handlers;
    NameThenNul(Handlers[i].name, rest);
  }

  /** A name that matches no handler, or an empty value, runs nothing. */
  lemma UnknownRunsNothing(value: string)
    requires forall h :: h in Handlers ==> h.name != CString(Received(value))
    ensures CommandFor(Some(value)) == None
  {
  }

  /** What a handler reports: the window given focus, the move, the window asked to close, or the exit. */
  datatype HandlerResult =
    | NoResult
    | Focus(window: Option<Window>)
    | Move(outcome: MoveOutcome)
    | Kill(target: Option<Window>)
    | Exit

  /** The effect of running `command`'s handler on `wm`, as each handler's own effect states it. */
  twostate predicate RunEffect(wm: Manager, command: Command, new result: HandlerResult)
    reads wm, wm.stack, wm.count, wm.current
    requires old(wm.Valid()) && wm.Valid()
  {
    match command
    case Next => result.Focus? && wm.CycleEffect(1, result.window)
    case Prev => result.Focus? && wm.CycleEffect(-1, result.window)
    case FocusMonLeft => result.Focus? && wm.FocusRelativeEffect(-1, result.window)
    case FocusMonRight => result.Focus? && wm.FocusRelativeEffect(1, result.window)
    case MoveWindowLeft => result.Move? && wm.MoveEffect(-1, result.outcome)
    case MoveWindowRight => result.Move? && wm.MoveEffect(1, result.outcome)
    case KillFocused => result == Kill(old(wm.KillTarget())) && unchanged(wm, wm.stack, wm.count, wm.current)
    case Quit => result == Exit && unchanged(wm, wm.stack, wm.count, wm.current)
  }

  /** The handler functions of the table: each command's operation on the window manager. */
  method Run(wm: Manager, command: Command) returns (result: HandlerResult)
    requires wm.Valid()
    modifies wm, wm.stack, wm.count, wm.current
    ensures wm.Valid()
    ensures RunEffect(wm, command, result)
  {
    match command {
      case Next =>
        var focus := wm.Cycle(1);
        result := Focus(focus);
      case Prev =>
        var focus := wm.Cycle(-1);
        result := Focus(focus);
      case FocusMonLeft =>
        var focus := wm.FocusMonitorRelative(-1);
        result := Focus(focus);
      case FocusMonRight =>
        var focus := wm.FocusMonitorRelative(1);
        result := Focus(focus);
      case MoveWindowLeft =>
        var outcome := wm.MoveWindowRelative(-1);
        result := Move(outcome);
      case MoveWindowRight =>
        var outcome := wm.MoveWindowRelative(1);
        result := Move(outcome);
      case KillFocused =>
        result := Kill(wm.KillTarget());
      case Quit =>
        result := Exit;
    }
  }

  /**
   * The parsing half of `handle_prop`: nothing for an unusable or empty
   * value; otherwise the table is searched in order for the first name equal
   * to the text before the first NUL.
   */
  method ParseCommand(data: Option<string>) returns (command: Option<Command>)
    ensures command == CommandFor(data)
  {
    if data == None {
      return None;
    }
    var received := Received(data.value);
    if |received| == 0 {
      return None;
    }
    var i := FindHandler(Handlers, CString(received));
    if i < 0 {
      return None;
    }
    return Some(Handlers[i].command);
  }

  /** The search loop of `handle_prop`: the position of the first entry of `table` named `name`, or -1. */
  method FindHandler(table: seq<Handler>, name: string) returns (i: int)
    ensures i == Lookup(table, name)
  {
    i := 0;
    while i < |table| && table[i].name != name
      invariant 0 <= i <= |table|
      invariant forall j :: 0 <= j < i ==> table[j].name != name
    {
      i := i + 1;
    }
    if i == |table| {
      i := -1;
    }
  }

  /**
   * `handle_prop`: run the handler named by the property value, the command
   * `CommandFor` gives and the search of `ParseCommand` finds. An unknown
   * name or an unusable value changes nothing. The kill handler's X protocol
   * exchange and quit's process exit are reported, not performed.
   */
  method HandleProp(wm: Manager, data: Option<string>) returns (ran: Option<Command>, result: HandlerResult)
    requires wm.Valid()
    modifies wm, wm.stack, wm.count, wm.current
    ensures wm.Valid()
    ensures ran == CommandFor(data)
    ensures ran == None ==> result == NoResult && unchanged(wm, wm.stack, wm.count, wm.current)
    ensures ran != None ==> RunEffect(wm, ran.value, result)
  {
    ran := CommandFor(data);
    if ran == None {
      return ran, NoResult;
    }
    result := Run(wm, ran.value);
  }
}
