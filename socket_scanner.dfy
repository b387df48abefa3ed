/** cmd_search (jinsock.c:164-231): walk the process directory, keep the
    processes the pattern selects, and record each of their socket descriptors,
    with its remote endpoint, in the fixed-size registry entries[MAX_ENTRIES].
    The process directory is an input value: one ProcDir per directory entry,
    in the order readdir returns them. */
module SocketScanner {
  import opened Options
  import opened Text
  import opened AddressCodec
  import opened InodeResolver

  /** MAX_ENTRIES (jinsock.h:23). */
  const MaxEntries: nat := 1024

  /** fgets(buf, 256, f) into proc_name[256] reads at most 255 characters. */
  const NameCapacity: nat := 255

  /** One entry of a process's fd directory: its name, and the target of the
      link, None when readlink fails. */
  datatype FdEntry = FdEntry(name: string, link: Option<string>)

  /** One entry of the process directory: its name, the contents of its comm
      file (None when it cannot be opened), the entries of its fd directory
      (None when it cannot be opened) and its connection tables. */
  datatype ProcDir = ProcDir(name: string, comm: Option<string>, fds: Option<seq<FdEntry>>, tables: NetTables)

  /** A socket descriptor the scan discovers, before it is stored. */
  datatype Found = Found(pid: nat, fd: nat, name: string, remote: Option<Endpoint>)

  /** SocketEntry (jinsock.h:25-32). The remote address is None for the "?"
      written when the endpoint cannot be resolved; the address text that
      snprintf or inet_ntop would write is represented by its bytes. */
  datatype SocketEntry = SocketEntry(pid: nat, fd: nat, name: string, remote: Option<IpAddr>, port: nat)

  /** The zero-filled slot of the global array before any scan. */
  const BlankEntry := SocketEntry(0, 0, "", None, 0)

  /** What one fgets call reads: characters up to and including the first
      newline, at most cap of them. */
  function FgetsLine(c: string, cap: nat): (r: string)
    ensures r <= c && |r| <= cap
    ensures forall k :: 0 <= k < |r| - 1 ==> r[k] != '\n'
    ensures |r| < cap && |r| < |c| ==> |r| > 0 && r[|r| - 1] == '\n'
  {
    if cap == 0 || c == [] then []
    else if c[0] == '\n' then "\n"
    else [c[0]] + FgetsLine(c[1..], cap - 1)
  }

  /** load_proc_name (jinsock.c:110-122) as used by cmd_search: the first line of
      the comm file, at most 255 characters, without its newline; the buffer
      stays empty when the file cannot be opened or is empty. */
  function LoadProcName(comm: Option<string>): (r: string)
    ensures |r| <= NameCapacity
    ensures comm.Some? ==> r <= comm.value
    ensures forall k :: 0 <= k < |r| ==> r[k] != '\n'
    ensures comm.None? || comm == Some("") ==> r == ""
  {
    if comm.None? || comm.value == [] then ""
    else TrimNewline(FgetsLine(comm.value, NameCapacity))
  }

  /** The kernel's comm file, "name\n", gives the name back. */
  lemma {:induction false} LoadProcNameOfComm(name: string)
    requires |name| <= NameCapacity
    requires forall k :: 0 <= k < |name| ==> name[k] != '\n'
    ensures LoadProcName(Some(name + "\n")) == name
  {
    FgetsLineOfLine(name, NameCapacity);
    if |name| < NameCapacity {
      TrimNewlineAppended(name);
    } else {
      assert FgetsLine(name + "\n", NameCapacity) == name;
    }
  }

  lemma {:induction false} FgetsLineOfLine(name: string, cap: nat)
    requires |name| <= cap
    requires forall k :: 0 <= k < |name| ==> name[k] != '\n'
    ensures FgetsLine(name + "\n", cap) == if |name| < cap then name + "\n" else name
  {
    if name != [] {
      assert (name + "\n")[1..] == name[1..] + "\n";
      FgetsLineOfLine(name[1..], cap - 1);
    }
  }

  /** The pattern test of jinsock.c:179-189: no pattern or an empty one keeps
      every process; otherwise the name or the decimal pid must contain it. */
  predicate Keeps(pattern: Option<string>, name: string, pid: nat)
    ensures Keeps(pattern, name, pid) && pattern.Some? ==>
      |pattern.value| <= |name| || |pattern.value| <= |DecString(pid)|
  {
    pattern.None? || pattern.value == "" ||
    Contains(name, pattern.value) || Contains(DecString(pid), pattern.value)
  }

  /** The test is a plain, case-sensitive substring match on either string. */
  lemma KeepsIff(pattern: string, name: string, pid: nat)
    requires pattern != ""
    ensures Keeps(Some(pattern), name, pid) <==>
      (exists i: nat :: OccursAt(name, pattern, i)) || (exists i: nat :: OccursAt(DecString(pid), pattern, i))
  {
    ContainsIff(name, pattern);
    ContainsIff(DecString(pid), pattern);
    assert Keeps(Some(pattern), name, pid) <==> Contains(name, pattern) || Contains(DecString(pid), pattern);
  }

  /** A pattern that differs only in letter case does not match. */
  lemma CaseSensitive()
    ensures !Keeps(Some("SSH"), "sshd", 42)
    ensures Keeps(Some("ssh"), "sshd", 42)
  {
    assert DecString(42) == "42";
    assert "sshd"[0..3] == "ssh" && "sshd"[1..4] == "shd";
    assert !Contains("42", "SSH");
    assert OccursAt("sshd", "ssh", 0);
  }

  /** readlink, then the "socket:[" parse (jinsock.c:94-108). */
  function SocketInode(e: FdEntry): (r: Option<nat>)
    ensures r.Some? ==> e.link.Some? && ParseSocketInode(e.link.value) == r
  {
    if e.link.None? then None else ParseSocketInode(e.link.value)
  }

  /** jinsock.c:198: names starting with '.' are skipped. */
  predicate Visible(e: FdEntry)
    ensures e.name == "." || e.name == ".." ==> !Visible(e)
    ensures AllDigits(e.name) ==> Visible(e)
  {
    !(|e.name| > 0 && e.name[0] == '.')
  }

  /** The concatenation of f(x) over xs, in order: what a loop over xs that
      appends f(x) at each step has produced when it ends. */
  function Flatten<T, U>(xs: seq<T>, f: T -> seq<U>): (r: seq<U>)
    ensures forall y :: y in r ==> exists i :: 0 <= i < |xs| && y in f(xs[i])
  {
    if xs == [] then [] else Flatten(xs[..|xs| - 1], f) + f(xs[|xs| - 1])
  }

  lemma FlattenStep<T, U>(xs: seq<T>, i: nat, f: T -> seq<U>)
    requires i < |xs|
    ensures Flatten(xs[..i + 1], f) == Flatten(xs[..i], f) + f(xs[i])
  {
    assert xs[..i + 1][..i] == xs[..i];
  }

  lemma {:induction false} FlattenPrefix<T, U>(xs: seq<T>, i: nat, f: T -> seq<U>)
    requires i <= |xs|
    ensures Flatten(xs[..i], f) <= Flatten(xs, f)
    decreases |xs|
  {
    if i < |xs| {
      var init := xs[..|xs| - 1];
      assert init[..i] == xs[..i];
      FlattenPrefix(init, i, f);
    } else {
      assert xs[..i] == xs;
    }
  }

  lemma {:induction false} FlattenAppend<T, U>(xs: seq<T>, ys: seq<T>, f: T -> seq<U>)
    ensures Flatten(xs + ys, f) == Flatten(xs, f) + Flatten(ys, f)
    decreases |ys|
  {
    if ys == [] {
      assert xs + ys == xs;
    } else {
      var init := ys[..|ys| - 1];
      assert (xs + ys)[..|xs + ys| - 1] == xs + init;
      FlattenAppend(xs, init, f);
    }
  }

  /** What one entry of a process's fd directory contributes (jinsock.c:198-220):
      a socket when its name does not start with '.' and its link names one. */
  function FdSocket(pid: nat, name: string, tables: NetTables, e: FdEntry): (r: seq<Found>)
    ensures |r| <= 1
    ensures r != [] <==> Visible(e) && SocketInode(e).Some?
    ensures r != [] ==> r[0] == Found(pid, Atoi(e.name), name, Resolve(tables, SocketInode(e).value))
  {
    var ino := SocketInode(e);
    if Visible(e) && ino.Some? then [Found(pid, Atoi(e.name), name, Resolve(tables, ino.value))] else []
  }

  function FdSocketOf(pid: nat, name: string, tables: NetTables): FdEntry -> seq<Found>
  {
    e => FdSocket(pid, name, tables, e)
  }

  /** The sockets of one process's fd directory, in directory order
      (jinsock.c:197-221). */
  function FdSockets(pid: nat, name: string, fds: seq<FdEntry>, tables: NetTables): seq<Found>
  {
    Flatten(fds, FdSocketOf(pid, name, tables))
  }

  /** jinsock.c:173: only names starting with a digit are processes. */
  predicate IsProcess(p: ProcDir)
    ensures IsProcess(p) <==> DigitRun(p.name) > 0
    ensures p.name != [] && AllDigits(p.name) ==> IsProcess(p)
  {
    |p.name| > 0 && IsDigit(p.name[0])
  }

  /** The sockets one process contributes (jinsock.c:173-223). */
  function ProcSockets(p: ProcDir, pattern: Option<string>): (r: seq<Found>)
    ensures !IsProcess(p) || p.fds.None? ==> r == []
    ensures p.fds.Some? ==> |r| <= |p.fds.value|
    ensures forall f :: f in r ==>
      f.pid == Atoi(p.name) && f.name == LoadProcName(p.comm) && Keeps(pattern, f.name, f.pid)
    ensures IsProcess(p) && p.fds.Some? && Keeps(pattern, LoadProcName(p.comm), Atoi(p.name)) ==>
      r == FdSockets(Atoi(p.name), LoadProcName(p.comm), p.fds.value, p.tables)
  {
    if !IsProcess(p) then []
    else
      var pid := Atoi(p.name);
      var name := LoadProcName(p.comm);
      if !Keeps(pattern, name, pid) || p.fds.None? then []
      else
        FdSocketsShape(pid, name, p.fds.value, p.tables);
        FdSockets(pid, name, p.fds.value, p.tables)
  }

  function ProcSocketsOf(pattern: Option<string>): ProcDir -> seq<Found>
  {
    p => ProcSockets(p, pattern)
  }

  /** Every socket of the processes in ps, in discovery order. */
  function DiscoverAll(ps: seq<ProcDir>, pattern: Option<string>): (r: seq<Found>)
    ensures forall f :: f in r ==> exists i :: 0 <= i < |ps| && f in ProcSockets(ps[i], pattern)
  {
    Flatten(ps, ProcSocketsOf(pattern))
  }

  /** The sockets the scan discovers; none when the process directory cannot
      be opened. */
  function Discover(procs: Option<seq<ProcDir>>, pattern: Option<string>): seq<Found>
  {
    if procs.None? then [] else DiscoverAll(procs.value, pattern)
  }

  /** jinsock.c:208-218: pid, fd and name are copied; a resolved endpoint gives
      its address and, when a port was stored, that port, while an IPv6 decode
      that read no port leaves the slot's previous rem_port; an unresolved one
      gives "?" and port 0. */
  function MakeEntry(f: Found, prev: SocketEntry): (e: SocketEntry)
    ensures e.pid == f.pid && e.fd == f.fd && e.name == f.name
    ensures e.remote.None? <==> f.remote.None?
    ensures f.remote.None? ==> e.port == 0
    ensures f.remote.Some? ==> e.remote.value == f.remote.value.ip
    ensures f.remote.Some? ==>
      e.port == (if f.remote.value.port.Some? then f.remote.value.port.value else prev.port)
  {
    match f.remote {
      case None => SocketEntry(f.pid, f.fd, f.name, None, 0)
      case Some(ep) =>
        SocketEntry(f.pid, f.fd, f.name, Some(ep.ip), if ep.port.Some? then ep.port.value else prev.port)
    }
  }

  lemma PrefixTrans<T>(a: seq<T>, b: seq<T>, c: seq<T>)
    requires a <= b && b <= c
    ensures a <= c
  {
    assert a == c[..|a|];
  }

  lemma PrefixExtend<T>(a: seq<T>, b: seq<T>, c: seq<T>, d: seq<T>)
    requires b <= c && a + c <= d
    ensures a + b <= d
  {
    assert a + b == (a + c)[..|a| + |b|];
  }

  /** Each fd entry gives at most one socket, and every socket found in a
      process's fd directory carries that process's pid and name. */
  lemma {:induction false} FdSocketsShape(pid: nat, name: string, fds: seq<FdEntry>, tables: NetTables)
    ensures |FdSockets(pid, name, fds, tables)| <= |fds|
    ensures forall f :: f in FdSockets(pid, name, fds, tables) ==> f.pid == pid && f.name == name
    decreases |fds|
  {
    if fds != [] {
      var init := fds[..|fds| - 1];
      FdSocketsShape(pid, name, init, tables);
      assert FdSockets(pid, name, fds, tables) ==
        FdSockets(pid, name, init, tables) + FdSocket(pid, name, tables, fds[|fds| - 1]);
    }
  }

  /** Every discovered socket belongs to a process the pattern keeps. */
  lemma {:induction false} DiscoveredAreKept(ps: seq<ProcDir>, pattern: Option<string>)
    ensures forall f :: f in DiscoverAll(ps, pattern) ==> Keeps(pattern, f.name, f.pid)
    decreases |ps|
  {
    if ps != [] {
      var init, p := ps[..|ps| - 1], ps[|ps| - 1];
      DiscoveredAreKept(init, pattern);
      assert DiscoverAll(ps, pattern) == DiscoverAll(init, pattern) + ProcSockets(p, pattern);
      if IsProcess(p) && p.fds.Some? {
        FdSocketsShape(Atoi(p.name), LoadProcName(p.comm), p.fds.value, p.tables);
      }
    }
  }

  /** A process the pattern rejects, or whose name does not start with a digit,
      contributes no socket wherever it is listed. */
  lemma SkippedProcess(ps: seq<ProcDir>, p: ProcDir, qs: seq<ProcDir>, pattern: Option<string>)
    requires !IsProcess(p) || !Keeps(pattern, LoadProcName(p.comm), Atoi(p.name))
    ensures DiscoverAll(ps + [p] + qs, pattern) == DiscoverAll(ps + qs, pattern)
  {
    var f := ProcSocketsOf(pattern);
    assert f(p) == [];
    assert Flatten(ps + [p], f) == Flatten(ps, f) by {
      assert (ps + [p])[..|ps|] == ps;
    }
    FlattenAppend(ps + [p], qs, f);
    FlattenAppend(ps, qs, f);
  }

  /** Without a pattern, or with an empty one, every process is kept. */
  lemma NoPatternKeepsAll(p: ProcDir)
    ensures ProcSockets(p, None) == ProcSockets(p, Some(""))
    ensures IsProcess(p) && p.fds.Some? ==>
      ProcSockets(p, None) == FdSockets(Atoi(p.name), LoadProcName(p.comm), p.fds.value, p.tables)
  {
  }

  /** The global entries[] and entry_count. */
  class Registry {
    var entries: array<SocketEntry>
    var count: nat

    ghost predicate Valid()
      reads this
    {
      entries.Length == MaxEntries && count <= MaxEntries
    }

    /** The zero-initialised globals (jinsock.c:28-29). */
    constructor ()
      ensures Valid() && fresh(entries) && count == 0
      ensures forall k :: 0 <= k < MaxEntries ==> entries[k] == BlankEntry
    {
      entries := new SocketEntry[MaxEntries](_ => BlankEntry);
      count := 0;
    }

    /** The first count slots hold found, stored over prev; the others still
        hold prev. */
    ghost predicate Holds(found: seq<Found>, prev: seq<SocketEntry>)
      reads this, entries
    {
      && entries.Length == MaxEntries && |prev| == MaxEntries
      && count == |found| <= MaxEntries
      && (forall k :: 0 <= k < count ==> entries[k] == MakeEntry(found[k], prev[k]))
      && (forall k :: count <= k < MaxEntries ==> entries[k] == prev[k])
    }

    /** The registry as a scan of all leaves it: slot k holds the k-th socket
        of all, stored over prev[k], for as many sockets as fit, and every
        later slot still holds prev. */
    ghost predicate Stores(all: seq<Found>, prev: seq<SocketEntry>)
      reads this, entries
    {
      && entries.Length == MaxEntries && |prev| == MaxEntries
      && count == (if |all| <= MaxEntries then |all| else MaxEntries)
      && (forall k :: 0 <= k < count ==> entries[k] == MakeEntry(all[k], prev[k]))
      && (forall k :: count <= k < MaxEntries ==> entries[k] == prev[k])
    }

    /** How a part of the scan ended: without `full` it stored all; with
        `full` every slot is taken, what it stored is a prefix of all, and all
        holds more sockets than fit. */
    ghost predicate Recorded(full: bool, stored: seq<Found>, all: seq<Found>)
      reads this
    {
      if full then count == MaxEntries && stored <= all && |all| > MaxEntries
      else stored == all
    }

    /** cmd_search (jinsock.c:164-231). entry_count restarts at 0; slot k
        receives the k-th discovered socket; the scan stops with `truncated`
        when a socket turns up while all MaxEntries slots are taken; slots past
        the new count keep their old contents. */
    method Scan(procs: Option<seq<ProcDir>>, pattern: Option<string>) returns (truncated: bool)
      requires Valid()
      modifies this, entries
      ensures Valid() && entries == old(entries)
      ensures Stores(Discover(procs, pattern), old(entries[..]))
      ensures truncated <==> |Discover(procs, pattern)| > MaxEntries
    {
      count := 0;
      if procs.None? {
        Settle([], [], entries[..]);
        return false;
      }
      truncated := ScanAll(procs.value, pattern, entries[..]);
    }

    /** The loop over the process directory (jinsock.c:171-225), starting
        from an empty registry over the slots prev. */
    method ScanAll(ps: seq<ProcDir>, pattern: Option<string>, ghost prev: seq<SocketEntry>) returns (truncated: bool)
      requires Holds([], prev)
      modifies this, entries
      ensures entries == old(entries)
      ensures Stores(DiscoverAll(ps, pattern), prev)
      ensures truncated <==> |DiscoverAll(ps, pattern)| > MaxEntries
    {
      ghost var found: seq<Found> := [];
      var i := 0;
      while i < |ps|
        invariant i <= |ps|
        invariant entries == old(entries)
        invariant found == DiscoverAll(ps[..i], pattern)
        invariant Holds(found, prev)
      {
        FlattenStep(ps, i, ProcSocketsOf(pattern));
        var full;
        ghost var stored;
        full, stored := ScanProcess(ps[i], pattern, found, prev);
        if full {
          TruncatedAt(ps, i, pattern, stored);
          Settle(stored, DiscoverAll(ps, pattern), prev);
          return true;
        }
        found := stored;
        i := i + 1;
      }
      assert ps[..i] == ps;
      Settle(found, found, prev);
      return false;
    }

    /** The registry holds a prefix of all that is to be found, and either
        all of it or as much as fits. */
    lemma Settle(found: seq<Found>, all: seq<Found>, prev: seq<SocketEntry>)
      requires Holds(found, prev) && found <= all
      requires |found| == |all| || |found| == MaxEntries
      ensures Stores(all, prev)
    {
    }

    /** One entry of the process directory (jinsock.c:173-223): skip it unless
        it names a process the pattern keeps and whose fd directory opens. */
    method ScanProcess(p: ProcDir, pattern: Option<string>, ghost found: seq<Found>, ghost prev: seq<SocketEntry>)
      returns (full: bool, ghost stored: seq<Found>)
      requires Holds(found, prev)
      modifies this, entries
      ensures entries == old(entries) && Holds(stored, prev)
      ensures Recorded(full, stored, found + ProcSockets(p, pattern))
    {
      if !IsProcess(p) {
        return false, found;
      }
      var pid := Atoi(p.name);
      var name := LoadProcName(p.comm);
      if !Keeps(pattern, name, pid) || p.fds.None? {
        return false, found;
      }
      full, stored := RecordSockets(pid, name, p.fds.value, p.tables, found, prev);
    }

    /** The fd loop of jinsock.c:197-221 for one kept process: store each
        socket in the next slot, or report `full` when a socket turns up while
        every slot is taken. */
    method RecordSockets(pid: nat, name: string, fds: seq<FdEntry>, tables: NetTables,
                         ghost found: seq<Found>, ghost prev: seq<SocketEntry>)
      returns (full: bool, ghost stored: seq<Found>)
      requires Holds(found, prev)
      modifies this, entries
      ensures entries == old(entries) && Holds(stored, prev)
      ensures Recorded(full, stored, found + FdSockets(pid, name, fds, tables))
    {
      stored := found;
      var j := 0;
      while j < |fds|
        invariant j <= |fds|
        invariant entries == old(entries) && Holds(stored, prev)
        invariant stored == found + FdSockets(pid, name, fds[..j], tables)
      {
        FlattenStep(fds, j, FdSocketOf(pid, name, tables));
        var full;
        ghost var next;
        full, next := RecordSocket(pid, name, fds[j], tables, stored, prev);
        if full {
          FullAt(pid, name, fds, j, tables, found, stored);
          return true, stored;
        }
        stored := next;
        j := j + 1;
      }
      assert fds[..j] == fds;
      return false, stored;
    }

    /** One entry of the fd directory (jinsock.c:198-220): when it is a
        socket, resolve its remote endpoint and store it, unless every slot is
        taken. */
    method RecordSocket(pid: nat, name: string, e: FdEntry, tables: NetTables,
                        ghost found: seq<Found>, ghost prev: seq<SocketEntry>)
      returns (full: bool, ghost stored: seq<Found>)
      requires Holds(found, prev)
      modifies this, entries
      ensures entries == old(entries) && Holds(stored, prev)
      ensures !full ==> stored == found + FdSocket(pid, name, tables, e)
      ensures full ==> count == MaxEntries && stored == found && FdSocket(pid, name, tables, e) != []
    {
      var ino := SocketInode(e);
      if !Visible(e) || ino.None? {
        return false, found;
      }
      if count >= MaxEntries {
        return true, found;
      }
      var remote := ResolveRemote(tables, ino.value);
      var f := Found(pid, Atoi(e.name), name, remote);
      Store(f, found, prev);
      return false, found + [f];
    }

    /** entries[entry_count++] = the new socket (jinsock.c:208-219). */
    method Store(f: Found, ghost found: seq<Found>, ghost prev: seq<SocketEntry>)
      requires Holds(found, prev) && count < MaxEntries
      modifies this, entries
      ensures entries == old(entries) && Holds(found + [f], prev)
    {
      entries[count] := MakeEntry(f, entries[count]);
      count := count + 1;
    }
  }

  /** When the fd directory of process i yields more sockets than fit, so
      does the whole process directory. */
  lemma TruncatedAt(ps: seq<ProcDir>, i: nat, pattern: Option<string>, stored: seq<Found>)
    requires i < |ps|
    requires stored <= DiscoverAll(ps[..i + 1], pattern) && |DiscoverAll(ps[..i + 1], pattern)| > MaxEntries
    ensures stored <= DiscoverAll(ps, pattern) && |DiscoverAll(ps, pattern)| > MaxEntries
  {
    FlattenPrefix(ps, i + 1, ProcSocketsOf(pattern));
    PrefixTrans(stored, DiscoverAll(ps[..i + 1], pattern), DiscoverAll(ps, pattern));
  }

  /** The socket that finds every slot taken lies within what the whole fd
      directory yields, so that yields more than MaxEntries sockets. */
  lemma FullAt(pid: nat, name: string, fds: seq<FdEntry>, j: nat, tables: NetTables,
               found: seq<Found>, stored: seq<Found>)
    requires j < |fds| && |stored| >= MaxEntries
    requires stored == found + FdSockets(pid, name, fds[..j], tables)
    requires FdSockets(pid, name, fds[..j + 1], tables) ==
      FdSockets(pid, name, fds[..j], tables) + FdSocket(pid, name, tables, fds[j])
    requires FdSocket(pid, name, tables, fds[j]) != []
    ensures stored <= found + FdSockets(pid, name, fds, tables)
    ensures |found + FdSockets(pid, name, fds, tables)| > MaxEntries
  {
    var whole := found + FdSockets(pid, name, fds, tables);
    var next := found + FdSockets(pid, name, fds[..j + 1], tables);
    FlattenPrefix(fds, j + 1, FdSocketOf(pid, name, tables));
    PrefixExtend(found, FdSockets(pid, name, fds[..j + 1], tables), FdSockets(pid, name, fds, tables), whole);
    assert stored <= next;
    PrefixTrans(stored, next, whole);
  }

}
