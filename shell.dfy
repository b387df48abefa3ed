/** main.c: the interactive shell over the globals selected_fd and
    recv_timeout_sec (main.c:7-8, 112-193), and the command-line mode that
    validates its flags and performs one injection (main.c:11-109). Standard
    input is a value; the process directory every search sees is a parameter. */
module Shell {
  import opened Options
  import opened Text
  import opened AddressCodec
  import opened SocketScanner
  import opened Injection

  /** char line[1024]: fgets reads at most 1023 characters. */
  const LineCapacity: nat := 1023

  /** int recv_timeout_sec = 5 (main.c:8). */
  const InitialTimeout: int := 5

  /** An input line, classified by the prefix tests of main.c:120-190, with
      the argument each command takes. */
  datatype Command =
    | Help
    | Search(pattern: Option<string>)
    | Select(index: Option<int>)
    | Sendf(path: string)
    | Send(data: string)
    | Rec(outfile: Option<string>)
    | Timeout(seconds: Option<int>)
    | Quit
    | Blank
    | Unknown(line: string)

  /** An argument with leading spaces skipped; an empty one is NULL. */
  function Argument(s: string): (r: Option<string>)
    ensures r.Some? ==> r.value != [] && r.value[0] != ' '
  {
    var a := SkipBlanks(s);
    if a == "" then None else Some(a)
  }

  /** strncmp(line, word, |word|) == 0, tried in the order of main.c:120-190. */
  function Classify(line: string): (c: Command)
    ensures c == Blank <==> line == ""
    ensures c.Unknown? ==> c.line == line
  {
    if "help" <= line then Help
    else if "search" <= line then Search(Argument(line[6..]))
    else if "select" <= line then Select(ScanInt(line[6..]))
    else if "sendf" <= line then Sendf(SkipBlanks(line[5..]))
    else if "send" <= line then Send(SkipBlanks(line[4..]))
    else if "rec" <= line then Rec(Argument(line[3..]))
    else if "timeout" <= line then Timeout(ScanInt(line[7..]))
    else if "quit" <= line then Quit
    else if line == "" then Blank
    else Unknown(line)
  }

  /** The bytes of a C string: each character as its code modulo 256. */
  function Bytes(s: string): (b: seq<byte>)
    ensures |b| == |s|
  {
    seq(|s|, i requires 0 <= i < |s| => (s[i] as int % 256) as byte)
  }

  /** One call of the injection functions of jinsock.c. */
  datatype Request =
    | SendBytes(pid: int, fd: int, data: seq<byte>)
    | SendPath(pid: int, fd: int, path: string)
    | RecvTo(pid: int, fd: int, outfile: Option<string>, timeout: int)

  /** What a call returns, and the script and output it leaves. */
  datatype Effect = Effect(result: int, script: Script, io: Output)

  /** dup_socket_and_send, dup_socket_and_sendfile or dup_socket_and_recv on
      the kernel script s and output io. */
  function Outcome(s: Script, io: Output, req: Request): (e: Effect)
    ensures req.SendBytes? ==> e.result == SendOutcome(s, req.pid, req.fd, |req.data|) && e.io == io
    ensures req.SendPath? ==> e.result == SendFileOutcome(s) && e.io == io
    ensures req.RecvTo? ==> e.result == RecvOutcome(s, req.outfile)
    ensures req.RecvTo? && e.result == -1 ==> e.io == io
  {
    match req
    case SendBytes(pid, fd, data) => Effect(SendOutcome(s, pid, fd, |data|), SendScript(s, pid, fd), io)
    case SendPath(_, _, _) => Effect(SendFileOutcome(s), SendFileScript(s), io)
    case RecvTo(_, _, outfile, timeout) =>
      var r := RecvOutcome(s, outfile);
      Effect(r, RecvScript(s, outfile), if r == 0 then Received(io, outfile, timeout, Listen(s.selects, s.recvs, [], 0)) else io)
  }

  /** What the shell prints or does for one line. */
  datatype Reply =
    | ShowHelp
    | Searched
    | Selected(index: nat)
    | InvalidIndex
    | NoSelection
    | MissingFilename
    | MissingData
    | Injected(request: Request, result: int)
    | TimeoutSet(seconds: int)
    | InvalidTimeout
    | Stopped
    | Ignored
    | UnknownCommand(line: string)

  /** Everything a line can change: selected_fd, recv_timeout_sec,
      entry_count, the slots of entries[], and the kernel's script and output. */
  datatype State = State(selected: int, timeout: int, count: nat, slots: seq<SocketEntry>, script: Script, io: Output)

  /** What the shell keeps true: a selection is -1 or a slot index, the
      timeout is positive, and entry_count fits the array. */
  predicate Good(st: State)
  {
    && -1 <= st.selected < MaxEntries && st.timeout > 0
    && st.count <= MaxEntries && |st.slots| == MaxEntries
  }

  /** The shell at start-up (main.c:7-8), over the registry and kernel as found. */
  function Initial(count: nat, slots: seq<SocketEntry>, script: Script, io: Output): (st: State)
    ensures st.selected == -1 && st.timeout == 5
  {
    State(-1, InitialTimeout, count, slots, script, io)
  }

  /** entry_count after a scan that discovered n sockets. */
  function Filled(n: nat): (k: nat)
    ensures k <= MaxEntries && (k == n || k == MaxEntries)
  {
    if n <= MaxEntries then n else MaxEntries
  }

  /** entries[] after a scan that discovered all, over the slots prev. */
  function AfterScan(prev: seq<SocketEntry>, all: seq<Found>): (slots: seq<SocketEntry>)
    requires |prev| == MaxEntries
    ensures |slots| == MaxEntries
    ensures forall k :: 0 <= k < Filled(|all|) ==> slots[k] == MakeEntry(all[k], prev[k])
    ensures forall k :: Filled(|all|) <= k < MaxEntries ==> slots[k] == prev[k]
  {
    seq(MaxEntries, k requires 0 <= k < MaxEntries => if k < Filled(|all|) then MakeEntry(all[k], prev[k]) else prev[k])
  }

  /** Perform req and show its result. */
  function Inject(st: State, req: Request): (r: (State, Reply))
    ensures r.1 == Injected(req, Outcome(st.script, st.io, req).result)
    ensures r.0 == st.(script := Outcome(st.script, st.io, req).script, io := Outcome(st.script, st.io, req).io)
  {
    var e := Outcome(st.script, st.io, req);
    (st.(script := e.script, io := e.io), Injected(req, e.result))
  }

  /** search (main.c:122-125): rescan; the selection and timeout stay. */
  function SearchStep(st: State, pattern: Option<string>, procs: Option<seq<ProcDir>>): (r: (State, Reply))
    requires Good(st)
    ensures Good(r.0)
  {
    var all := Discover(procs, pattern);
    (st.(count := Filled(|all|), slots := AfterScan(st.slots, all)), Searched)
  }

  /** select (main.c:126-133). */
  function SelectStep(st: State, index: Option<int>): (r: (State, Reply))
    requires Good(st)
    ensures Good(r.0)
  {
    if index.Some? && 0 <= index.value < st.count then (st.(selected := index.value), Selected(index.value))
    else (st, InvalidIndex)
  }

  /** sendf, send and rec (main.c:134-175): refused without a selection, and
      sendf and send refused without an argument; otherwise the call goes to
      the selected slot's pid and fd. */
  function InjectStep(st: State, c: Command): (r: (State, Reply))
    requires Good(st) && (c.Sendf? || c.Send? || c.Rec?)
    ensures Good(r.0)
  {
    if st.selected < 0 then (st, NoSelection)
    else
      var e := st.slots[st.selected];
      match c
      case Sendf(path) => if path == "" then (st, MissingFilename) else Inject(st, SendPath(e.pid, e.fd, path))
      case Send(data) => if data == "" then (st, MissingData) else Inject(st, SendBytes(e.pid, e.fd, Bytes(data)))
      case Rec(outfile) => Inject(st, RecvTo(e.pid, e.fd, outfile, st.timeout))
  }

  /** timeout (main.c:176-183). */
  function TimeoutStep(st: State, seconds: Option<int>): (r: (State, Reply))
    requires Good(st)
    ensures Good(r.0)
  {
    if seconds.Some? && seconds.value > 0 then (st.(timeout := seconds.value), TimeoutSet(seconds.value))
    else (st, InvalidTimeout)
  }

  /** What a classified command does. */
  function Act(st: State, c: Command, procs: Option<seq<ProcDir>>): (r: (State, Reply))
    requires Good(st)
    ensures Good(r.0)
  {
    match c
    case Help => (st, ShowHelp)
    case Search(pattern) => SearchStep(st, pattern, procs)
    case Select(index) => SelectStep(st, index)
    case Sendf(_) => InjectStep(st, c)
    case Send(_) => InjectStep(st, c)
    case Rec(_) => InjectStep(st, c)
    case Timeout(seconds) => TimeoutStep(st, seconds)
    case Quit => (st, Stopped)
    case Blank => (st, Ignored)
    case Unknown(text) => (st, UnknownCommand(text))
  }

  /** One pass of the loop body of main.c:118-190 on a line without its
      newline; procs is the process directory a search walks. */
  function Decide(st: State, line: string, procs: Option<seq<ProcDir>>): (r: (State, Reply))
    requires Good(st)
    ensures Good(r.0)
  {
    Act(st, Classify(line), procs)
  }

  /** The shell loop of main.c:114-191 on what is left of standard input:
      read a line with fgets, drop its newline, act on it; stop at the end of
      input or after quit. */
  function Run(st: State, input: string, procs: Option<seq<ProcDir>>): (r: (State, seq<Reply>))
    requires Good(st)
    ensures Good(r.0) && |r.1| <= |input|
    decreases |input|
  {
    if input == [] then (st, [])
    else
      var chunk := FgetsLine(input, LineCapacity);
      var step := Decide(st, TrimNewline(chunk), procs);
      if step.1 == Stopped then (step.0, [Stopped])
      else
        var rest := Run(step.0, input[|chunk|..], procs);
        (rest.0, [step.1] + rest.1)
  }

  /** The registry a scan leaves is the one AfterScan describes. */
  lemma StoresView(r: Registry, all: seq<Found>, prev: seq<SocketEntry>)
    requires r.Stores(all, prev)
    ensures r.count == Filled(|all|) && r.entries[..] == AfterScan(prev, all)
  {
  }

  /** The shell's globals, with the registry and the kernel it drives. */
  class Shell {
    var selected: int
    var timeout: int
    const registry: Registry
    const kernel: Kernel

    ghost predicate Valid()
      reads this, registry, kernel
    {
      && registry.Valid() && kernel.fds.Valid()
      && -1 <= selected < MaxEntries && timeout > 0
    }

    /** The state Decide and Run act on. */
    ghost function View(): State
      reads this, registry, registry.entries, kernel
    {
      State(selected, timeout, registry.count, registry.entries[..], kernel.script, kernel.io)
    }

    /** Start-up (main.c:7-8): nothing selected, a 5-second receive timeout. */
    constructor (registry: Registry, kernel: Kernel)
      requires registry.Valid() && kernel.fds.Valid()
      ensures Valid() && this.registry == registry && this.kernel == kernel
      ensures View() == Initial(registry.count, registry.entries[..], kernel.script, kernel.io)
    {
      this.registry := registry;
      this.kernel := kernel;
      selected := -1;
      timeout := InitialTimeout;
    }

    /** One line of input (main.c:118-190). */
    method Step(line: string, procs: Option<seq<ProcDir>>) returns (reply: Reply)
      requires Valid()
      modifies this, registry, registry.entries, kernel
      ensures Valid() && registry.entries == old(registry.entries)
      ensures (View(), reply) == Decide(old(View()), line, procs)
    {
      var c := Classify(line);
      match c {
        case Search(pattern) => reply := DoSearch(pattern, procs);
        case Select(index) => reply := DoSelect(index);
        case Sendf(_) => reply := DoInject(c);
        case Send(_) => reply := DoInject(c);
        case Rec(_) => reply := DoInject(c);
        case Timeout(seconds) => reply := DoTimeout(seconds);
        case Help => reply := ShowHelp;
        case Quit => reply := Stopped;
        case Blank => reply := Ignored;
        case Unknown(text) => reply := UnknownCommand(text);
      }
    }

    /** cmd_search(pattern) over the registry. */
    method DoSearch(pattern: Option<string>, procs: Option<seq<ProcDir>>) returns (reply: Reply)
      requires Valid()
      modifies registry, registry.entries
      ensures Valid() && registry.entries == old(registry.entries)
      ensures (View(), reply) == SearchStep(old(View()), pattern, procs)
    {
      ghost var prev := registry.entries[..];
      var truncated := registry.Scan(procs, pattern);
      StoresView(registry, Discover(procs, pattern), prev);
      reply := Searched;
    }

    method DoSelect(index: Option<int>) returns (reply: Reply)
      requires Valid()
      modifies this
      ensures Valid()
      ensures (View(), reply) == SelectStep(old(View()), index)
    {
      if index.Some? && 0 <= index.value < registry.count {
        selected := index.value;
        reply := Selected(index.value);
      } else {
        reply := InvalidIndex;
      }
    }

    method DoInject(c: Command) returns (reply: Reply)
      requires Valid() && (c.Sendf? || c.Send? || c.Rec?)
      modifies kernel
      ensures Valid()
      ensures (View(), reply) == InjectStep(old(View()), c)
    {
      if selected < 0 {
        return NoSelection;
      }
      var e := registry.entries[selected];
      match c {
        case Sendf(path) =>
          if path == "" {
            reply := MissingFilename;
          } else {
            reply := Perform(SendPath(e.pid, e.fd, path));
          }
        case Send(data) =>
          if data == "" {
            reply := MissingData;
          } else {
            reply := Perform(SendBytes(e.pid, e.fd, Bytes(data)));
          }
        case Rec(outfile) =>
          reply := Perform(RecvTo(e.pid, e.fd, outfile, timeout));
      }
    }

    method DoTimeout(seconds: Option<int>) returns (reply: Reply)
      requires Valid()
      modifies this
      ensures Valid()
      ensures (View(), reply) == TimeoutStep(old(View()), seconds)
    {
      if seconds.Some? && seconds.value > 0 {
        timeout := seconds.value;
        reply := TimeoutSet(seconds.value);
      } else {
        reply := InvalidTimeout;
      }
    }

    /** Call the injection function req names on the kernel. */
    method Perform(req: Request) returns (reply: Reply)
      requires Valid()
      modifies kernel
      ensures Valid()
      ensures var e := Outcome(old(kernel.script), old(kernel.io), req);
        reply == Injected(req, e.result) && kernel.script == e.script && kernel.io == e.io
    {
      var r := Call(kernel, req);
      reply := Injected(req, r);
    }

    /** The loop of main.c:114-191 over all of standard input. */
    method Loop(input: string, procs: Option<seq<ProcDir>>) returns (replies: seq<Reply>)
      requires Valid()
      modifies this, registry, registry.entries, kernel
      ensures Valid() && registry.entries == old(registry.entries)
      ensures (View(), replies) == Run(old(View()), input, procs)
    {
      var rest := input;
      replies := [];
      assert [] + Run(View(), rest, procs).1 == Run(View(), rest, procs).1;
      while rest != []
        invariant Valid() && registry.entries == old(registry.entries)
        invariant Run(old(View()), input, procs) == (Run(View(), rest, procs).0, replies + Run(View(), rest, procs).1)
        decreases |rest|
      {
        ghost var before, whole := View(), rest;
        var chunk := FgetsLine(rest, LineCapacity);
        var reply := Step(TrimNewline(chunk), procs);
        rest := rest[|chunk|..];
        if reply == Stopped {
          assert Run(before, whole, procs) == (View(), [Stopped]);
          replies := replies + [Stopped];
          return;
        }
        ghost var after := Run(View(), rest, procs);
        assert Run(before, whole, procs) == (after.0, [reply] + after.1);
        assert replies + ([reply] + after.1) == (replies + [reply]) + after.1;
        replies := replies + [reply];
      }
      assert replies + [] == replies;
    }
  }

  /** The injection function req names, called on kernel. */
  method Call(kernel: Kernel, req: Request) returns (r: int)
    requires kernel.fds.Valid()
    modifies kernel
    ensures kernel.fds.Valid()
    ensures var e := Outcome(old(kernel.script), old(kernel.io), req);
      r == e.result && kernel.script == e.script && kernel.io == e.io
  {
    match req {
      case SendBytes(pid, fd, data) =>
        r := kernel.Send(pid, fd, data);
      case SendPath(pid, fd, path) =>
        r := kernel.SendFile(pid, fd, path);
      case RecvTo(pid, fd, outfile, timeout) =>
        var received;
        r, received := kernel.Receive(pid, fd, outfile, timeout);
    }
  }

  /** The options getopt_long leaves (main.c:23-74): pid and socket as atoi
      read them (-1 when absent), the --send string, the --sendf path, the
      --rec file, and argv[optind-1], the last argument the parse consumed. */
  datatype Arguments = Arguments(pid: int, socket: int, send: Option<string>, sendf: Option<string>,
                                 recFile: Option<string>, lastArg: string)

  /** How main was started (main.c:10-74). */
  datatype Invocation =
    | Interactive(input: string)
    | SearchOnly(pattern: Option<string>)
    | HelpOption
    | BadOption
    | Flags(args: Arguments)

  /** The actions main.c:77-80 counts; rec counts when it has a file or when
      the last argument consumed is exactly "-r". */
  function ActionCount(a: Arguments): (n: nat)
    ensures n <= 3
    ensures n == 0 <==> a.send.None? && a.sendf.None? && a.recFile.None? && a.lastArg != "-r"
  {
    (if a.send.Some? then 1 else 0) + (if a.sendf.Some? then 1 else 0)
      + (if a.recFile.Some? || a.lastArg == "-r" then 1 else 0)
  }

  /** The call flag mode makes (main.c:77-109): none unless an action is
      given, pid > 0 and socket >= 0; send before sendf before rec, which uses
      the initial 5-second timeout. */
  function Chosen(a: Arguments): (r: Option<Request>)
    ensures r.Some? ==> r.value.pid == a.pid > 0 && r.value.fd == a.socket >= 0
  {
    if ActionCount(a) == 0 || a.pid <= 0 || a.socket < 0 then None
    else if a.send.Some? then Some(SendBytes(a.pid, a.socket, Bytes(a.send.value)))
    else if a.sendf.Some? then Some(SendPath(a.pid, a.socket, a.sendf.value))
    else Some(RecvTo(a.pid, a.socket, a.recFile, InitialTimeout))
  }

  /** The exit status main.c:92-109 gives a call's result. */
  function Status(req: Request, result: int): (code: int)
    ensures code == 0 || code == 1
    ensures code == 0 <==> (if req.RecvTo? then result == 0 else result >= 0)
  {
    if req.RecvTo? then (if result == 0 then 0 else 1) else (if result >= 0 then 0 else 1)
  }

  /** Flag mode: the exit status, and the script and output it leaves. */
  function FlagRun(a: Arguments, s: Script, io: Output): (e: Effect)
    ensures e.result == 0 || e.result == 1
  {
    match Chosen(a)
    case None => Effect(1, s, io)
    case Some(req) =>
      var e := Outcome(s, io, req);
      e.(result := Status(req, e.result))
  }

  /** main (main.c:10-193) over a registry and a kernel: the exit status, and
      the replies of the shell when it runs. */
  method Start(inv: Invocation, registry: Registry, kernel: Kernel, procs: Option<seq<ProcDir>>)
    returns (code: int, replies: seq<Reply>)
    requires registry.Valid() && kernel.fds.Valid()
    modifies registry, registry.entries, kernel
    ensures registry.Valid() && kernel.fds.Valid() && registry.entries == old(registry.entries)
    ensures !inv.Interactive? ==> replies == []
    ensures inv.SearchOnly? ==> code == 0 && registry.Stores(Discover(procs, inv.pattern), old(registry.entries[..]))
    ensures inv.HelpOption? || inv.BadOption? ==> code == (if inv.HelpOption? then 0 else 1)
    ensures inv.Flags? ==> Effect(code, kernel.script, kernel.io) == FlagRun(inv.args, old(kernel.script), old(kernel.io))
    ensures !inv.Flags? && !inv.Interactive? ==>
      kernel.script == old(kernel.script) && kernel.io == old(kernel.io) && kernel.fds == old(kernel.fds)
    ensures !inv.SearchOnly? && !inv.Interactive? ==>
      registry.count == old(registry.count) && registry.entries[..] == old(registry.entries[..])
    ensures inv.Interactive? ==>
      var fin := Run(Initial(old(registry.count), old(registry.entries[..]), old(kernel.script), old(kernel.io)), inv.input, procs);
      && code == 0 && replies == fin.1
      && registry.count == fin.0.count && registry.entries[..] == fin.0.slots
      && kernel.script == fin.0.script && kernel.io == fin.0.io
  {
    replies := [];
    match inv {
      case Interactive(input) =>
        var shell := new Shell(registry, kernel);
        replies := shell.Loop(input, procs);
        code := 0;
      case SearchOnly(pattern) =>
        var truncated := registry.Scan(procs, pattern);
        code := 0;
      case HelpOption =>
        code := 0;
      case BadOption =>
        code := 1;
      case Flags(a) =>
        code := RunFlags(kernel, a);
    }
  }

  /** main.c:76-109. */
  method RunFlags(kernel: Kernel, a: Arguments) returns (code: int)
    requires kernel.fds.Valid()
    modifies kernel
    ensures kernel.fds.Valid()
    ensures Effect(code, kernel.script, kernel.io) == FlagRun(a, old(kernel.script), old(kernel.io))
  {
    var req := Chosen(a);
    if req.None? {
      return 1;
    }
    var r := Call(kernel, req.value);
    code := Status(req.value, r);
  }

  // Properties of the shell.

  // The lemmas below are about a classified command c; the line-level step is
  // Decide(st, line, procs) == Act(st, Classify(line), procs).

  /** Only a select with an index below entry_count changes the selection,
      and such a select always does. */
  lemma SelectionChanges(st: State, c: Command, procs: Option<seq<ProcDir>>, n: int)
    requires Good(st)
    ensures var t := Act(st, c, procs).0;
      t.selected != st.selected ==> c == Select(Some(t.selected)) && 0 <= t.selected < st.count
    ensures c == Select(Some(n)) ==> (Act(st, c, procs).0.selected == n <==> 0 <= n < st.count || n == st.selected)
  {
  }

  /** Only a timeout with a positive value changes the receive timeout, and
      such a timeout always does. */
  lemma TimeoutChanges(st: State, c: Command, procs: Option<seq<ProcDir>>, n: int)
    requires Good(st)
    ensures var t := Act(st, c, procs).0;
      t.timeout != st.timeout ==> c == Timeout(Some(t.timeout)) && t.timeout > 0
    ensures c == Timeout(Some(n)) ==> (Act(st, c, procs).0.timeout == n <==> n > 0 || n == st.timeout)
  {
  }

  /** Without a selection no command injects anything, and the kernel is left
      as it was. */
  lemma NoSelectionNoInjection(st: State, c: Command, procs: Option<seq<ProcDir>>)
    requires Good(st) && st.selected < 0
    ensures var r := Act(st, c, procs);
      !r.1.Injected? && r.0.script == st.script && r.0.io == st.io
  {
  }

  /** send and sendf with nothing after the spaces inject nothing and change
      nothing. */
  lemma EmptyArgumentRefused(st: State, c: Command, procs: Option<seq<ProcDir>>)
    requires Good(st) && (c == Send("") || c == Sendf(""))
    ensures var r := Act(st, c, procs);
      r.0 == st && r.1 in {NoSelection, MissingData, MissingFilename}
  {
  }

  /** A command injects exactly when it is sendf, send or rec with a
      selection, with an argument for sendf and send. */
  lemma InjectsIff(st: State, c: Command, procs: Option<seq<ProcDir>>)
    requires Good(st)
    ensures Act(st, c, procs).1.Injected? <==>
      && st.selected >= 0
      && (c.Rec? || (c.Sendf? && c.path != "") || (c.Send? && c.data != ""))
    ensures !Act(st, c, procs).1.Injected? ==>
      Act(st, c, procs).0.script == st.script && Act(st, c, procs).0.io == st.io
  {
  }

  /** An injection goes to the pid and fd of the selected slot, and its
      result and effect are those of the injection function called. */
  lemma InjectionTarget(st: State, c: Command, procs: Option<seq<ProcDir>>)
    requires Good(st)
    ensures var r := Act(st, c, procs);
      r.1.Injected? ==>
        && st.selected >= 0
        && r.1.request.pid == st.slots[st.selected].pid && r.1.request.fd == st.slots[st.selected].fd
        && var e := Outcome(st.script, st.io, r.1.request);
           r.1.result == e.result && r.0 == st.(script := e.script, io := e.io)
  {
  }

  /** search rescans the registry and changes nothing else; no other command
      touches the registry. */
  lemma SearchOnlyRescans(st: State, c: Command, procs: Option<seq<ProcDir>>)
    requires Good(st)
    ensures var t := Act(st, c, procs).0;
      c.Search? ==> t == st.(count := t.count, slots := t.slots)
    ensures var t := Act(st, c, procs).0;
      !c.Search? ==> t.count == st.count && t.slots == st.slots
    ensures c.Search? ==>
      var all := Discover(procs, c.pattern);
      Act(st, c, procs).0.count == Filled(|all|) && Act(st, c, procs).0.slots == AfterScan(st.slots, all)
  {
  }

  /** A search keeps the selection even when it finds fewer sockets: after a
      search that finds none, entry_count is 0 but a rec still goes to the
      pid and fd the selected slot held before. */
  lemma SelectionOutlivesSearch(st: State, pattern: Option<string>, outfile: Option<string>)
    requires Good(st) && st.selected >= 0
    ensures var t := Act(st, Search(pattern), None).0;
      && t.count == 0 && t.selected == st.selected
      && Act(t, Rec(outfile), None).1.Injected?
      && Act(t, Rec(outfile), None).1.request.pid == st.slots[st.selected].pid
      && Act(t, Rec(outfile), None).1.request.fd == st.slots[st.selected].fd
  {
    var t := Act(st, Search(pattern), None).0;
    assert Discover(None, pattern) == [];
    assert t.slots[st.selected] == st.slots[st.selected];
  }

  /** A word that differs from line at some position is not a prefix of it. */
  lemma Differs(w: string, line: string, i: nat)
    requires i < |w| && i < |line| && w[i] != line[i]
    ensures !(w <= line)
  {
  }

  /** w followed by anything starts with w. */
  lemma StartsWith(w: string, rest: string)
    ensures w <= w + rest && (w + rest)[|w|..] == rest
  {
    assert (w + rest)[..|w|] == w;
  }

  /** A line that starts with "sendf" is a file send, never a string send. */
  lemma SendfBeforeSend(rest: string)
    ensures Classify("sendf" + rest) == Sendf(SkipBlanks(rest))
  {
    var line := "sendf" + rest;
    Differs("help", line, 0);
    Differs("search", line, 2);
    Differs("select", line, 2);
    StartsWith("sendf", rest);
  }

  /** A line is a string send exactly when it starts with "send" but not with
      "sendf". */
  lemma SendIff(line: string)
    ensures Classify(line).Send? <==> "send" <= line && !("sendf" <= line)
  {
    if "send" <= line {
      Differs("help", line, 0);
      Differs("search", line, 2);
      Differs("select", line, 2);
    }
  }

  /** A line is unknown exactly when it is not empty and starts with none of
      the words the shell knows. */
  lemma UnknownIff(line: string)
    ensures Classify(line).Unknown? <==>
      && line != "" && !("help" <= line) && !("search" <= line) && !("select" <= line)
      && !("sendf" <= line) && !("send" <= line) && !("rec" <= line)
      && !("timeout" <= line) && !("quit" <= line)
  {
  }

  /** Only the prefix is compared: trailing letters are ignored. */
  lemma HelpmeIsHelp()
    ensures Classify("helpme") == Help
  {
    StartsWith("help", "me");
  }

  /** "sendfoo" is sendf with the file name "oo". */
  lemma SendfooIsSendf()
    ensures Classify("sendfoo") == Sendf("oo")
  {
    var rest := "oo";
    assert "sendf" + rest == "sendfoo";
    SendfBeforeSend(rest);
    assert rest[0] != ' ';
  }

  /** A line that starts with "rec" is rec, its argument the rest of the line
      after the spaces. */
  lemma RecPrefix(rest: string)
    ensures Classify("rec" + rest) == Rec(Argument(rest))
  {
    var line := "rec" + rest;
    Differs("help", line, 0);
    Differs("search", line, 0);
    Differs("select", line, 0);
    Differs("sendf", line, 0);
    Differs("send", line, 0);
    StartsWith("rec", rest);
  }

  /** "recipe" is rec with the output file "ipe". */
  lemma RecipeIsRec()
    ensures Classify("recipe") == Rec(Some("ipe"))
  {
    var rest := "ipe";
    assert "rec" + rest == "recipe";
    RecPrefix(rest);
    assert rest[0] != ' ';
  }

  /** fgets stops at the first newline. */
  lemma {:induction false} FgetsFirstLine(line: string, rest: string, cap: nat)
    requires |line| < cap
    requires forall k :: 0 <= k < |line| ==> line[k] != '\n'
    ensures FgetsLine(line + "\n" + rest, cap) == line + "\n"
    decreases |line|
  {
    if line == [] {
      assert ("\n" + rest)[0] == '\n';
      assert [] + "\n" + rest == "\n" + rest;
    } else {
      assert (line + "\n" + rest)[1..] == line[1..] + "\n" + rest;
      FgetsFirstLine(line[1..], rest, cap - 1);
      assert [line[0]] + (line[1..] + "\n") == line + "\n";
    }
  }

  /** quit ends the session: what follows it is never read. */
  lemma QuitStops(st: State, rest: string, procs: Option<seq<ProcDir>>)
    requires Good(st)
    ensures Run(st, "quit\n" + rest, procs) == (st, [Stopped])
  {
    FgetsFirstLine("quit", rest, LineCapacity);
    assert "quit" + "\n" + rest == "quit\n" + rest;
    assert TrimNewline("quit\n") == "quit";
  }

  // Properties of flag mode.

  /** Invalid flags call nothing, leave the kernel as it was, and exit 1. */
  lemma InvalidFlags(a: Arguments, s: Script, io: Output)
    requires ActionCount(a) == 0 || a.pid <= 0 || a.socket < 0
    ensures Chosen(a).None? && FlagRun(a, s, io) == Effect(1, s, io)
  {
  }

  /** With valid flags the call is made, --send before --sendf before --rec. */
  lemma FlagPriority(a: Arguments)
    requires ActionCount(a) > 0 && a.pid > 0 && a.socket >= 0
    ensures Chosen(a).Some?
    ensures a.send.Some? ==> Chosen(a).value.SendBytes?
    ensures a.send.None? && a.sendf.Some? ==> Chosen(a).value.SendPath?
    ensures a.send.None? && a.sendf.None? ==> Chosen(a).value == RecvTo(a.pid, a.socket, a.recFile, 5)
  {
  }

  /** --send exits 0 exactly when both handles are granted and the send is
      accepted. */
  lemma SendExit(a: Arguments, s: Script, io: Output)
    requires a.send.Some? && a.pid > 0 && a.socket >= 0
    ensures FlagRun(a, s, io).result == 0 <==> Granted(s.grants, 2) == 2 && NextSend(s.sends).Accepts?
  {
  }

  /** --rec exits 0 exactly when every handle it needs is granted. */
  lemma RecExit(a: Arguments, s: Script, io: Output)
    requires a.send.None? && a.sendf.None? && ActionCount(a) > 0 && a.pid > 0 && a.socket >= 0
    ensures FlagRun(a, s, io).result == 0 <==> Granted(s.grants, RecvHandles(a.recFile)) == RecvHandles(a.recFile)
  {
  }

  /** rec without a file is an action only when "-r" is the last argument:
      "--rec" alone, or "-r" followed by other options, is refused. */
  lemma RecDetection()
    ensures Chosen(Arguments(7, 3, None, None, None, "--rec")).None?
    ensures Chosen(Arguments(7, 3, None, None, None, "3")).None?
    ensures Chosen(Arguments(7, 3, None, None, None, "-r")) == Some(RecvTo(7, 3, None, 5))
  {
  }
}
