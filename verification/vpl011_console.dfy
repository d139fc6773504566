/**
 The physical console in front of the virtual UARTs (vmm/vdev/vpl011.c):
 each byte typed on the real UART is either an escape command that switches
 the console, a key of the hypervisor's own command line, or forwarded to
 the VM whose console is active. Bytes a VM transmits are echoed with a
 `[VMn] ` prefix when that VM is not the active one.
 */
module Vpl011Console {
  import opened CTypes

  /** The console number that means "the hypervisor's own console". */
  const Hypervisor: u32 := 0xFFFF_FFFF
  /** HV_CMD_BUFFER_SIZE: room for 63 characters and the terminating NUL. */
  const CmdCap := 64

  const Esc: Char8 := 27 as char
  const Backspace: Char8 := 8 as char
  const Del: Char8 := 127 as char

  /** One slot of the virtual UART table: whether a VM and a UART state are attached. */
  datatype Slot = Slot(hasVm: bool, hasState: bool)

  /** The table of allocated slots: at most VM_NUM_MAX (4). */
  type Slots = s: seq<Slot> | |s| <= 4

  /** The console switch: active console, escape handling, and the command line typed so far. */
  datatype Console = Console(current: u32, switching: bool, inEscape: bool, cmd: seq<Char8>)

  predicate Printable(c: Char8) {
    32 <= c as int < 127
  }

  /** The command line holds at most 63 printable characters. */
  predicate ConsoleWf(con: Console) {
    |con.cmd| < CmdCap && forall i :: 0 <= i < |con.cmd| ==> Printable(con.cmd[i])
  }

  /** vpl011_global_init: VM 0's console active, switching enabled, no escape pending. */
  function GlobalInit(): (con: Console)
    ensures ConsoleWf(con) && con.current == 0 && con.switching && !con.inEscape && con.cmd == []
  {
    Console(0, true, false, [])
  }

  /**
   vpl011_switch_to_vm: only a slot that exists and has a VM can become
   the active console; any other number leaves the console as it was.
   */
  function SwitchToVm(con: Console, slots: Slots, id: nat): (con': Console)
    ensures con' == con || (id < |slots| && con' == con.(current := id as u32))
    ensures con'.current == id <==> con.current == id || (id < |slots| && slots[id].hasVm)
  {
    if id >= |slots| || !slots[id].hasVm then con else con.(current := id as u32)
  }

  /** The hypervisor command lines. */
  datatype Command = Help | Status | List | SwitchTo(id: nat) | Exit | Unknown(line: seq<Char8>)

  /**
   vpl011_execute_hypervisor_command's decoding: the four keywords, and
   `vm ` followed by a digit, of which only that one digit counts.
   */
  function ParseCommand(line: seq<Char8>): (c: Command)
    ensures c.SwitchTo? <==> |line| >= 4 && line[..3] == "vm " && '0' <= line[3] <= '9'
    ensures c.SwitchTo? ==> c.id == line[3] as int - '0' as int && c.id < 10
    ensures c.Unknown? ==> c.line == line
  {
    if line == "help" then Help
    else if line == "status" then Status
    else if line == "list" then List
    else if |line| >= 4 && line[..3] == "vm " && '0' <= line[3] <= '9' then SwitchTo(line[3] as int - '0' as int)
    else if line == "exit" then Exit
    else Unknown(line)
  }

  /** The console switch a command makes: `vm N` selects VM N, `exit` VM 0 when any UART exists. */
  function Execute(con: Console, slots: Slots, c: Command): (con': Console)
    ensures !c.SwitchTo? && !c.Exit? ==> con' == con
  {
    match c
    case SwitchTo(id) => SwitchToVm(con, slots, id)
    case Exit => if |slots| > 0 then SwitchToVm(con, slots, 0) else con
    case _ => con
  }

  /** The result of one key: the console after it, the VM it goes to, the command it completed. */
  datatype Routed = Routed(con: Console, forward: Option<nat>, executed: Option<Command>)

  datatype Option<T> = None | Some(value: T)

  /**
   vpl011_handle_hypervisor_command: Enter runs a non-empty line and clears
   it, Backspace or DEL removes the last character, a printable character is
   appended while fewer than 63 are held, anything else is ignored.
   */
  function CommandKey(con: Console, slots: Slots, c: Char8): (r: Routed)
    requires ConsoleWf(con)
    ensures ConsoleWf(r.con) && r.forward.None? && r.con.switching == con.switching && r.con.inEscape == con.inEscape
    ensures (c == '\r' || c == '\n') ==> r.con.cmd == [] && (r.executed.Some? <==> |con.cmd| > 0)
    ensures r.executed.Some? ==> (c == '\r' || c == '\n') && r.executed.value == ParseCommand(con.cmd)
    ensures (c == Backspace || c == Del) ==> r.con.cmd == if con.cmd == [] then [] else con.cmd[..|con.cmd| - 1]
    ensures Printable(c) ==> r.con.cmd == if |con.cmd| < CmdCap - 1 then con.cmd + [c] else con.cmd
    ensures !(c == '\r' || c == '\n' || c == Backspace || c == Del || Printable(c)) ==> r.con == con
    ensures r.executed.None? ==> r.con.current == con.current
  {
    if c == '\r' || c == '\n' then
      if |con.cmd| > 0 then
        var command := ParseCommand(con.cmd);
        Routed(Execute(con, slots, command).(cmd := []), None, Some(command))
      else Routed(con, None, None)
    else if c == Backspace || c == Del then
      Routed(if con.cmd == [] then con else con.(cmd := con.cmd[..|con.cmd| - 1]), None, None)
    else if Printable(c) && |con.cmd| < CmdCap - 1 then
      Routed(con.(cmd := con.cmd + [c]), None, None)
    else Routed(con, None, None)
  }

  /**
   vpl011_handle_physical_uart_rx: with switching enabled, ESC starts an
   escape and the next key is its command (0 the hypervisor, 1-4 VMs 0-3,
   anything else nothing); otherwise the key goes to the command line in
   hypervisor mode, or to the active VM when its slot has a VM and a UART.
   */
  function Receive(con: Console, slots: Slots, c: Char8): (r: Routed)
    requires ConsoleWf(con)
    ensures ConsoleWf(r.con) && r.con.switching == con.switching
    ensures r.forward.Some? ==> (r.forward.value == con.current as int && r.forward.value < |slots|
      && slots[r.forward.value].hasVm && slots[r.forward.value].hasState && r.con == con)
    ensures r.forward.Some? <==> (!(con.switching && (c == Esc || con.inEscape)) && con.current != Hypervisor
      && con.current as int < |slots| && slots[con.current].hasVm && slots[con.current].hasState)
    ensures con.switching && c == Esc ==> r.con == con.(inEscape := true) && r.executed.None?
    ensures con.switching && c != Esc && con.inEscape ==> !r.con.inEscape && r.con.cmd == con.cmd && r.executed.None?
  {
    if con.switching && c == Esc then Routed(con.(inEscape := true), None, None)
    else if con.switching && con.inEscape then
      var con' := con.(inEscape := false);
      if c == '0' then Routed(con'.(current := Hypervisor), None, None)
      else if '1' <= c <= '4' then Routed(SwitchToVm(con', slots, c as int - '1' as int), None, None)
      else Routed(con', None, None)
    else if con.current == Hypervisor then CommandKey(con, slots, c)
    else if con.current as int < |slots| && slots[con.current].hasVm && slots[con.current].hasState then
      Routed(con, Some(con.current as int), None)
    else Routed(con, None, None)
  }

  /** Keys received one after another, with the commands they complete. */
  function ReceiveAll(con: Console, slots: Slots, keys: seq<Char8>): (r: (Console, seq<Command>))
    requires ConsoleWf(con)
    ensures ConsoleWf(r.0)
    decreases |keys|
  {
    if keys == [] then (con, [])
    else
      var step := Receive(con, slots, keys[0]);
      var rest := ReceiveAll(step.con, slots, keys[1..]);
      (rest.0, (if step.executed.Some? then [step.executed.value] else []) + rest.1)
  }

  /**
   On the hypervisor's command line, a line of up to 63 printable
   characters typed into an empty buffer is held exactly, no command runs
   before Enter, and Enter runs that line.
   */
  lemma {:induction false} TypedLineHeld(con: Console, slots: Slots, line: seq<Char8>)
    requires ConsoleWf(con) && con.current == Hypervisor && !con.inEscape
    requires |con.cmd| + |line| < CmdCap && forall i :: 0 <= i < |line| ==> Printable(line[i])
    decreases |line|
    ensures var r := ReceiveAll(con, slots, line);
      r.0 == con.(cmd := con.cmd + line) && r.1 == []
  {
    if line != [] {
      var step := Receive(con, slots, line[0]);
      assert line[0] != Esc;
      assert step.con == con.(cmd := con.cmd + [line[0]]) && step.executed.None?;
      TypedLineHeld(step.con, slots, line[1..]);
      assert con.cmd + [line[0]] + line[1..] == con.cmd + line;
    }
  }

  lemma TypedLineRuns(con: Console, slots: Slots, line: seq<Char8>)
    requires ConsoleWf(con) && con.current == Hypervisor && !con.inEscape && con.cmd == []
    requires 0 < |line| < CmdCap && forall i :: 0 <= i < |line| ==> Printable(line[i])
    ensures ReceiveAll(con, slots, line + ['\r']).1 == [ParseCommand(line)]
  {
    TypedLineHeld(con, slots, line);
    ReceiveAllSplit(con, slots, line, ['\r']);
    var mid := ReceiveAll(con, slots, line).0;
    assert mid.cmd == line;
    assert ['\r'][1..] == [];
  }

  /** Receiving two runs of keys is receiving the first, then the second. */
  lemma {:induction false} ReceiveAllSplit(con: Console, slots: Slots, a: seq<Char8>, b: seq<Char8>)
    requires ConsoleWf(con)
    decreases |a|
    ensures var ra := ReceiveAll(con, slots, a);
      var rb := ReceiveAll(ra.0, slots, b);
      ReceiveAll(con, slots, a + b) == (rb.0, ra.1 + rb.1)
  {
    if a != [] {
      var step := Receive(con, slots, a[0]);
      assert (a + b)[0] == a[0] && (a + b)[1..] == a[1..] + b;
      ReceiveAllSplit(step.con, slots, a[1..], b);
      var x: seq<Command> := if step.executed.Some? then [step.executed.value] else [];
      var ra' := ReceiveAll(step.con, slots, a[1..]);
      var rb := ReceiveAll(ra'.0, slots, b);
      assert x + (ra'.1 + rb.1) == (x + ra'.1) + rb.1;
    } else {
      assert a + b == b;
      assert [] + ReceiveAll(con, slots, b).1 == ReceiveAll(con, slots, b).1;
    }
  }

  /** A printable key typed while there is room, then Backspace, leaves the console as it was. */
  lemma BackspaceUndoes(con: Console, slots: Slots, c: Char8)
    requires ConsoleWf(con) && con.current == Hypervisor && !con.inEscape && Printable(c) && |con.cmd| < CmdCap - 1
    ensures Receive(Receive(con, slots, c).con, slots, Backspace).con == con
  {
    assert c != Esc && Backspace != Esc;
    var r1 := CommandKey(con, slots, c);
    assert r1.con == con.(cmd := con.cmd + [c]);
    var r2 := CommandKey(r1.con, slots, Backspace);
    assert (con.cmd + [c])[..|con.cmd|] == con.cmd;
    assert r2.con == con;
  }

  /** Escape then a digit 1 to 4 makes VM digit - 1 active when it has a VM; no key reaches any VM. */
  lemma EscapeDigitSwitches(con: Console, slots: Slots, d: Char8)
    requires ConsoleWf(con) && con.switching && '1' <= d <= '4'
    ensures var r1 := Receive(con, slots, Esc);
      var r2 := Receive(r1.con, slots, d);
      var id := d as int - '1' as int;
      r1.forward.None? && r2.forward.None?
      && (r2.con.current as int == id <==> con.current as int == id || (id < |slots| && slots[id].hasVm))
      && !r2.con.inEscape
  {
  }

  /**
   vpl011_output_char_with_prefix: a byte of the active VM goes out
   unchanged; a byte of another VM that starts a line (and is not a line
   break) is preceded by `[VMn] `, n the VM's digit truncated to a char.
   `atLineStart` is the function's static state, shared by all VMs.
   */
  function Echo(atLineStart: bool, vmId: u32, current: u32, c: Char8): (r: (bool, seq<Char8>))
    ensures vmId == current ==> r == (c == '\n', [c])
    ensures |r.1| >= 1 && r.1[|r.1| - 1] == c
    ensures vmId != current ==> (
      (|r.1| > 1 <==> atLineStart && c != '\n' && c != '\r')
      && (|r.1| > 1 ==> r.1[..|r.1| - 1] == "[VM" + [Digit(vmId)] + "] ")
      && (r.0 <==> c == '\n' || (atLineStart && c == '\r')))
  {
    if vmId == current then (c == '\n', [c])
    else
      var prefixed := atLineStart && c != '\n' && c != '\r';
      var out := (if prefixed then "[VM" + [Digit(vmId)] + "] " else []) + [c];
      var start := if prefixed then false else atLineStart;
      (if c == '\n' then true else start, out)
  }

  /** `'0' + vm_id` stored into a char: the low byte of the sum. */
  function Digit(vmId: u32): (d: Char8)
    ensures vmId < 10 ==> d as int == '0' as int + vmId
  {
    (('0' as int + vmId) % 0x100) as char
  }
}
