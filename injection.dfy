/** The injection engine (jinsock.c:233-366): dup_socket_and_send,
    dup_socket_and_sendfile and dup_socket_and_recv, run against a model of the
    operating system. The Kernel hands out handles (pidfd_open, pidfd_getfd,
    open, fopen) and answers read, send, select and recv from a script fixed in
    advance, one reply per call, in order; the methods must give back every
    handle they obtain. */
module Injection {
  import opened Options
  import opened AddressCodec

  /** The size of the stack buffers of sendfile and recv. */
  const BufferSize: nat := 4096

  /** What send() does with a request of n bytes: take min(k, n) of them, or
      fail with -1. */
  datatype SendReply = Accepts(k: nat) | SendFailed

  /** What select() reports: the socket became readable, with the time left
      that Linux writes back into the timeval; the timeout expired; or an error. */
  datatype SelectReply = Readable(left: int) | TimedOut | SelectFailed

  /** What recv() returns: the bytes received (none for the peer's orderly
      close, recv returning 0), or an error. */
  datatype RecvReply = Chunk(bytes: seq<byte>) | RecvFailed

  /** The replies the kernel will give, in call order. A script that runs out
      answers: acquisition fails, read is at end of file, send takes up to
      4096 bytes (the size of the buffer), select times out, and recv reports
      the peer's close. */
  datatype Script = Script(
    grants: seq<bool>,
    fileReads: seq<int>,
    sends: seq<SendReply>,
    selects: seq<SelectReply>,
    recvs: seq<RecvReply>)

  function Rest<T>(s: seq<T>): (r: seq<T>)
    ensures s != [] ==> r == s[1..]
    ensures s == [] ==> r == []
  {
    if s == [] then [] else s[1..]
  }

  function NextGrant(g: seq<bool>): bool { g != [] && g[0] }

  function NextRead(r: seq<int>): (n: int)
    ensures n != 0 ==> r != []
  {
    if r == [] then 0 else r[0]
  }

  function NextSend(s: seq<SendReply>): SendReply
  {
    if s == [] then Accepts(BufferSize) else s[0]
  }

  function NextSelect(s: seq<SelectReply>): (r: SelectReply)
    ensures r.Readable? ==> s != []
  {
    if s == [] then TimedOut else s[0]
  }

  function NextRecv(s: seq<RecvReply>): RecvReply
  {
    if s == [] then Chunk([]) else s[0]
  }

  /** The result of send(sock, buf, n): the bytes taken, or -1. */
  function SendAmount(reply: SendReply, n: nat): (r: int)
    ensures -1 <= r <= n
    ensures r == -1 <==> reply.SendFailed?
    ensures reply.Accepts? ==> r <= reply.k && (r == reply.k || r == n)
  {
    match reply {
      case SendFailed => -1
      case Accepts(k) => if k < n then k else n
    }
  }

  /** The number of handles k acquisitions in a row obtain: they stop at the
      first refusal. */
  function Granted(g: seq<bool>, k: nat): (n: nat)
    ensures n <= k
  {
    if k == 0 || !NextGrant(g) then 0 else 1 + Granted(Rest(g), k - 1)
  }

  /** What is left of the grant script after up to k acquisitions in a row. */
  function AfterGrants(g: seq<bool>, k: nat): (r: seq<bool>)
    ensures |r| <= |g|
  {
    if k == 0 then g
    else if !NextGrant(g) then Rest(g)
    else AfterGrants(Rest(g), k - 1)
  }

  /** k acquisitions all succeed exactly when the grant script starts with k
      grants. */
  lemma {:induction false} GrantedAll(g: seq<bool>, k: nat)
    ensures Granted(g, k) == k <==> k <= |g| && forall i :: 0 <= i < k ==> g[i]
    decreases k
  {
    if k > 0 && NextGrant(g) {
      GrantedAll(g[1..], k - 1);
      if k <= |g| {
        assert (forall i :: 0 <= i < k ==> g[i]) <==> (forall i :: 0 <= i < k - 1 ==> g[1..][i]) by {
          forall i | 0 <= i < k - 1 ensures g[1..][i] == g[i + 1] {
          }
        }
      }
    }
  }

  /** One acquisition refused: the run stops there. */
  lemma RefusedStep(g: seq<bool>, k: nat)
    requires k > 0 && !NextGrant(g)
    ensures Granted(g, k) == 0 && AfterGrants(g, k) == Rest(g)
  {
  }

  /** One acquisition granted: the run goes on with the rest of the script. */
  lemma GrantedStep(g: seq<bool>, k: nat)
    requires k > 0 && NextGrant(g)
    ensures Granted(g, k) == 1 + Granted(Rest(g), k - 1)
    ensures AfterGrants(g, k) == AfterGrants(Rest(g), k - 1)
  {
  }

  /** The handle numbers a, a + 1, ..., a + n - 1. */
  function Range(a: nat, n: nat): (r: seq<nat>)
    ensures |r| == n
  {
    seq(n, i requires 0 <= i < n => a + i)
  }

  /** dup_socket_and_send (jinsock.c:233-254): an invalid pid or fd is refused
      before anything is acquired; otherwise pidfd_open, pidfd_getfd, then one
      send whose result is returned. */
  function SendOutcome(s: Script, pid: int, fd: int, len: nat): (r: int)
    ensures -1 <= r <= len
    ensures r == -1 <==> pid <= 0 || fd < 0 || Granted(s.grants, 2) < 2 || NextSend(s.sends).SendFailed?
    ensures r != -1 ==> r <= NextSend(s.sends).k && (r == NextSend(s.sends).k || r == len)
  {
    if pid <= 0 || fd < 0 || Granted(s.grants, 2) < 2 then -1
    else SendAmount(NextSend(s.sends), len)
  }

  /** Sending "hi" (two bytes) through a socket the kernel lets through, with
      nothing else scripted, reports the two bytes sent. */
  lemma SendHi()
    ensures SendOutcome(Script([true, true], [], [], [], []), 1234, 3, |"hi"|) == 2
  {
    assert Granted([true, true], 2) == 2;
  }

  /** What dup_socket_and_send leaves of the script. */
  function SendScript(s: Script, pid: int, fd: int): Script
  {
    if pid <= 0 || fd < 0 then s
    else if Granted(s.grants, 2) < 2 then s.(grants := AfterGrants(s.grants, 2))
    else s.(grants := AfterGrants(s.grants, 2), sends := Rest(s.sends))
  }

  /** The outcome of a read/send loop, and what is left of the read and send
      scripts. */
  datatype Transfer = Transfer(total: int, fileReads: seq<int>, sends: seq<SendReply>)

  /** The loop of jinsock.c:278-288 with acc bytes already sent: read a chunk;
      at end of file or on a read error, return acc; otherwise send the chunk,
      failing with -1 (whatever acc is) when send fails, and go on with the
      count it returned added. */
  function Pump(rs: seq<int>, sends: seq<SendReply>, acc: nat): (t: Transfer)
    ensures t.total == -1 <==> SendFails(rs, sends)
    ensures t.total != -1 ==> t.total >= acc
    decreases |rs|
  {
    var n := NextRead(rs);
    if n <= 0 then Transfer(acc, Rest(rs), sends)
    else
      var sent := SendAmount(NextSend(sends), n);
      if sent < 0 then Transfer(-1, Rest(rs), Rest(sends))
      else Pump(Rest(rs), Rest(sends), acc + sent)
  }

  /** Some send fails before the file reaches its end or a read error: the
      i-th positive read is answered by the i-th send reply. */
  predicate SendFails(rs: seq<int>, sends: seq<SendReply>)
    decreases |rs|
  {
    NextRead(rs) > 0 && (NextSend(sends).SendFailed? || SendFails(Rest(rs), Rest(sends)))
  }

  /** The bytes the file offers: the positive read counts before the first
      end of file or read error. */
  function Available(rs: seq<int>): nat
    decreases |rs|
  {
    if rs == [] || rs[0] <= 0 then 0 else rs[0] + Available(rs[1..])
  }

  /** Starting with acc bytes already sent changes the total by acc, unless a
      send fails, and consumes the same replies. */
  lemma {:induction false} PumpShift(rs: seq<int>, sends: seq<SendReply>, acc: nat)
    ensures var t := Pump(rs, sends, 0);
      var u := Pump(rs, sends, acc);
      && u.fileReads == t.fileReads && u.sends == t.sends
      && u.total == (if t.total < 0 then -1 else acc + t.total)
    decreases |rs|
  {
    var n := NextRead(rs);
    if n > 0 {
      var sent := SendAmount(NextSend(sends), n);
      if sent >= 0 {
        PumpShift(Rest(rs), Rest(sends), acc + sent);
        PumpShift(Rest(rs), Rest(sends), sent);
      }
    }
  }

  /** The loop never reports more bytes than the file offered. */
  lemma {:induction false} PumpBounded(rs: seq<int>, sends: seq<SendReply>, acc: nat)
    ensures Pump(rs, sends, acc).total <= acc + Available(rs)
    decreases |rs|
  {
    var n := NextRead(rs);
    if n > 0 {
      var sent := SendAmount(NextSend(sends), n);
      if sent >= 0 {
        PumpBounded(Rest(rs), Rest(sends), acc + sent);
      }
    }
  }

  /** The send reply that answers the i-th read. */
  function SendFor(sends: seq<SendReply>, i: nat): SendReply
  {
    if i < |sends| then sends[i] else Accepts(BufferSize)
  }

  /** When every send takes the whole chunk it is given, the loop reports
      exactly the bytes the file offered. */
  lemma {:induction false} PumpComplete(rs: seq<int>, sends: seq<SendReply>, acc: nat)
    requires forall i :: 0 <= i < |rs| ==> SendFor(sends, i).Accepts? && rs[i] <= SendFor(sends, i).k
    ensures Pump(rs, sends, acc).total == acc + Available(rs)
    decreases |rs|
  {
    var n := NextRead(rs);
    if n > 0 {
      assert SendFor(sends, 0) == NextSend(sends);
      forall i | 0 <= i < |Rest(rs)|
        ensures SendFor(Rest(sends), i).Accepts? && Rest(rs)[i] <= SendFor(Rest(sends), i).k
      {
        assert SendFor(Rest(sends), i) == SendFor(sends, i + 1);
      }
      PumpComplete(Rest(rs), Rest(sends), acc + n);
    }
  }

  /** A 10000-byte file read in chunks of 4096, 4096 and 1808 bytes, every send
      taking its chunk whole, is reported as 10000 bytes sent. */
  lemma SendFileWholeFile()
    ensures SendFileOutcome(Script([true, true, true], [4096, 4096, 1808, 0], [], [], [])) == 10000
  {
    var rs := [4096, 4096, 1808, 0];
    assert Available(rs) == 10000 by {
      assert rs[1..] == [4096, 1808, 0] && rs[1..][1..] == [1808, 0] && rs[1..][1..][1..] == [0];
    }
    PumpComplete(rs, [], 0);
  }

  /** dup_socket_and_sendfile (jinsock.c:256-293): open, pidfd_open,
      pidfd_getfd, then the loop. */
  function SendFileOutcome(s: Script): (r: int)
    ensures r == -1 <==> !(3 <= |s.grants| && s.grants[0] && s.grants[1] && s.grants[2]) || SendFails(s.fileReads, s.sends)
    ensures -1 <= r <= Available(s.fileReads)
  {
    GrantedAll(s.grants, 3);
    PumpBounded(s.fileReads, s.sends, 0);
    if Granted(s.grants, 3) < 3 then -1 else Pump(s.fileReads, s.sends, 0).total
  }

  function SendFileScript(s: Script): Script
  {
    var g := AfterGrants(s.grants, 3);
    if Granted(s.grants, 3) < 3 then s.(grants := g)
    else
      var t := Pump(s.fileReads, s.sends, 0);
      s.(grants := g, fileReads := t.fileReads, sends := t.sends)
  }

  /** The data a receive session delivers, the select calls it made, and what is
      left of the select and recv scripts. */
  datatype Session = Session(data: seq<byte>, selectCalls: nat, selects: seq<SelectReply>, recvs: seq<RecvReply>)

  /** The loop of jinsock.c:326-359 with acc received over calls select calls:
      select; stop on timeout or error; otherwise recv, stop on error or on the
      peer's close, else deliver the chunk and go on. */
  function Listen(selects: seq<SelectReply>, recvs: seq<RecvReply>, acc: seq<byte>, calls: nat): (s: Session)
    ensures acc <= s.data && calls < s.selectCalls
    decreases |selects|
  {
    match NextSelect(selects) {
      case TimedOut => Session(acc, calls + 1, Rest(selects), recvs)
      case SelectFailed => Session(acc, calls + 1, Rest(selects), recvs)
      case Readable(_) =>
        match NextRecv(recvs) {
          case RecvFailed => Session(acc, calls + 1, Rest(selects), Rest(recvs))
          case Chunk(b) =>
            if b == [] then Session(acc, calls + 1, Rest(selects), Rest(recvs))
            else Listen(Rest(selects), Rest(recvs), acc + b, calls + 1)
        }
    }
  }

  /** Starting with acc received over calls select calls prefixes the data with
      acc, adds calls to the count, and consumes the same replies. */
  lemma {:induction false} ListenShift(selects: seq<SelectReply>, recvs: seq<RecvReply>, acc: seq<byte>, calls: nat)
    ensures var t := Listen(selects, recvs, [], 0);
      Listen(selects, recvs, acc, calls) == t.(data := acc + t.data, selectCalls := calls + t.selectCalls)
    decreases |selects|
  {
    var t := Listen(selects, recvs, [], 0);
    if NextSelect(selects).Readable? && NextRecv(recvs).Chunk? && NextRecv(recvs).bytes != [] {
      var b := NextRecv(recvs).bytes;
      var rest := Listen(Rest(selects), Rest(recvs), [], 0);
      ListenShift(Rest(selects), Rest(recvs), acc + b, calls + 1);
      ListenShift(Rest(selects), Rest(recvs), b, 1);
      assert [] + b == b;
      assert acc + b + rest.data == acc + (b + rest.data);
    } else {
      assert acc + [] == acc;
    }
  }

  /** Two chunks and then the timeout: the session delivers both chunks in
      order, after three select calls. */
  lemma ListenTwoChunks()
    ensures Listen([Readable(3), Readable(1), TimedOut], [Chunk([1, 2]), Chunk([3])], [], 0)
         == Session([1, 2, 3], 3, [], [])
  {
    ListenShift([Readable(1), TimedOut], [Chunk([3])], [1, 2], 1);
    ListenShift([TimedOut], [], [3], 1);
    var b: seq<byte> := [1, 2];
    assert [] + b == b;
  }

  /** The handles dup_socket_and_recv needs: pidfd, the duplicated socket and,
      when an output file is named, the file. */
  function RecvHandles(outfile: Option<string>): nat
  {
    if outfile.Some? then 3 else 2
  }

  /** dup_socket_and_recv (jinsock.c:295-366) returns 0 once it holds its
      handles, -1 when an acquisition fails. */
  function RecvOutcome(s: Script, outfile: Option<string>): (r: int)
    ensures r == 0 || r == -1
    ensures r == 0 <==> RecvHandles(outfile) <= |s.grants| && forall i :: 0 <= i < RecvHandles(outfile) ==> s.grants[i]
  {
    GrantedAll(s.grants, RecvHandles(outfile));
    if Granted(s.grants, RecvHandles(outfile)) < RecvHandles(outfile) then -1 else 0
  }

  function RecvScript(s: Script, outfile: Option<string>): Script
  {
    var g := AfterGrants(s.grants, RecvHandles(outfile));
    if Granted(s.grants, RecvHandles(outfile)) < RecvHandles(outfile) then s.(grants := g)
    else
      var l := Listen(s.selects, s.recvs, [], 0);
      s.(grants := g, selects := l.selects, recvs := l.recvs)
  }

  /** The process's file-descriptor table: the handles it holds, the number the
      next one gets, and every handle obtained and every close, in order. */
  datatype FdTable = FdTable(open: set<nat>, next: nat, acquired: seq<nat>, released: seq<nat>)
  {
    /** Every handle held is below next. */
    predicate Valid()
    {
      forall h :: h in open ==> h < next
    }

    /** The table after a successful acquisition: the handle is next. */
    function Obtain(): (t: FdTable)
      ensures Valid() ==> t.Valid()
      ensures next !in open ==> next in t.open && t.open - {next} == open
    {
      FdTable(open + {next}, next + 1, acquired + [next], released)
    }

    /** The table after close(h). */
    function Release(h: nat): (t: FdTable)
      ensures Valid() ==> t.Valid()
      ensures h !in t.open && t.released == released + [h]
      ensures t.open == open - {h} && t.next == next && t.acquired == acquired
    {
      FdTable(open - {h}, next, acquired, released + [h])
    }
  }

  /** The table is back to t0 but for its history: every handle obtained since
      (numbered from t0.next on, n of them) was released exactly once, and
      nothing else was released. */
  predicate Balanced(t0: FdTable, t: FdTable, n: nat)
  {
    && t.open == t0.open && t.next == t0.next + n
    && t.acquired == t0.acquired + Range(t0.next, n)
    && |t0.released| <= |t.released| && t.released[..|t0.released|] == t0.released
    && multiset(t.released[|t0.released|..]) == multiset(Range(t0.next, n))
  }

  /** No handle obtained, none closed. */
  lemma RestoresNone(t0: FdTable)
    ensures Balanced(t0, t0, 0)
  {
    assert t0.released[|t0.released|..] == [];
  }

  /** One handle obtained and closed. */
  lemma RestoresOne(t0: FdTable)
    requires t0.Valid()
    ensures Balanced(t0, t0.Obtain().Release(t0.next), 1)
  {
    var t := t0.Obtain().Release(t0.next);
    assert t.released[|t0.released|..] == [t0.next];
  }

  /** Two handles obtained and closed, the first one obtained first, or the
      other way round. */
  lemma RestoresTwo(t0: FdTable, reversed: bool)
    requires t0.Valid()
    ensures var n := t0.next;
      var (x, y) := if reversed then (n + 1, n) else (n, n + 1);
      Balanced(t0, t0.Obtain().Obtain().Release(x).Release(y), 2)
  {
    var n := t0.next;
    var (x, y) := if reversed then (n + 1, n) else (n, n + 1);
    var t := t0.Obtain().Obtain().Release(x).Release(y);
    assert Range(n, 2) == [n, n + 1];
    assert t.released[|t0.released|..] == [x, y];
  }

  /** Three handles obtained and closed in the order of dup_socket_and_sendfile:
      the file, the socket, the pidfd (the first, third and second obtained). */
  lemma RestoresThree(t0: FdTable)
    requires t0.Valid()
    ensures var n := t0.next;
      Balanced(t0, t0.Obtain().Obtain().Obtain().Release(n).Release(n + 2).Release(n + 1), 3)
  {
    var n := t0.next;
    var t := t0.Obtain().Obtain().Obtain().Release(n).Release(n + 2).Release(n + 1);
    assert Range(n, 3) == [n, n + 1, n + 2];
    assert t.released[|t0.released|..] == [n, n + 2, n + 1];
  }

  /** Three handles obtained and closed in the reverse order, as
      dup_socket_and_recv closes its output file, the socket and the pidfd. */
  lemma RestoresThreeReversed(t0: FdTable)
    requires t0.Valid()
    ensures var n := t0.next;
      Balanced(t0, t0.Obtain().Obtain().Obtain().Release(n + 2).Release(n + 1).Release(n), 3)
  {
    var n := t0.next;
    var t := t0.Obtain().Obtain().Obtain().Release(n + 2).Release(n + 1).Release(n);
    assert Range(n, 3) == [n, n + 1, n + 2];
    assert t.released[|t0.released|..] == [n + 2, n + 1, n];
  }

  /** Once an acquisition is refused, asking for one more changes nothing: the
      run had already stopped. */
  lemma {:induction false} RefusalIsFinal(g: seq<bool>, k: nat)
    requires Granted(g, k) < k
    ensures Granted(g, k + 1) == Granted(g, k)
    ensures AfterGrants(g, k + 1) == AfterGrants(g, k)
  {
    if NextGrant(g) {
      RefusalIsFinal(Rest(g), k - 1);
    }
  }

  /** After k grants in a row, one more acquisition reads the next entry of
      the grant script. */
  lemma {:induction false} OneMore(g: seq<bool>, k: nat)
    requires Granted(g, k) == k
    ensures Granted(g, k + 1) == k + (if NextGrant(AfterGrants(g, k)) then 1 else 0)
    ensures AfterGrants(g, k + 1) == Rest(AfterGrants(g, k))
  {
    if k > 0 {
      OneMore(Rest(g), k - 1);
    }
  }

  /** What the process leaves behind: the timeout passed to each select call,
      in order; what it wrote to standard output; the files it wrote. */
  datatype Output = Output(budgets: seq<int>, stdout: seq<byte>, files: map<string, seq<byte>>)

  /** The operating system as the injection functions see it: the process's
      descriptor table, the replies still to come, and the output so far. */
  class Kernel {
    var fds: FdTable
    var script: Script
    var io: Output

    /** pidfd_open, pidfd_getfd, open or fopen: a fresh handle when the script
        grants it. */
    method Acquire() returns (h: Option<nat>)
      modifies this
      ensures script == old(script).(grants := Rest(old(script.grants))) && io == old(io)
      ensures h.Some? <==> NextGrant(old(script.grants))
      ensures h.Some? ==> h.value == old(fds.next) && fds == old(fds).Obtain()
      ensures h.None? ==> fds == old(fds)
    {
      var granted := NextGrant(script.grants);
      script := script.(grants := Rest(script.grants));
      if granted {
        h := Some(fds.next);
        fds := fds.Obtain();
      } else {
        h := None;
      }
    }

    method Close(h: nat)
      modifies this
      ensures fds == old(fds).Release(h) && script == old(script) && io == old(io)
    {
      fds := fds.Release(h);
    }

    method Read(f: nat) returns (n: int)
      modifies this
      ensures n == NextRead(old(script.fileReads)) && script == old(script).(fileReads := Rest(old(script.fileReads)))
      ensures fds == old(fds) && io == old(io)
    {
      n := NextRead(script.fileReads);
      script := script.(fileReads := Rest(script.fileReads));
    }

    method Transmit(sock: nat, len: nat) returns (sent: int)
      modifies this
      ensures sent == SendAmount(NextSend(old(script.sends)), len)
      ensures script == old(script).(sends := Rest(old(script.sends)))
      ensures fds == old(fds) && io == old(io)
    {
      sent := SendAmount(NextSend(script.sends), len);
      script := script.(sends := Rest(script.sends));
    }

    method Select(sock: nat, tv: int) returns (reply: SelectReply)
      modifies this
      ensures reply == NextSelect(old(script.selects)) && script == old(script).(selects := Rest(old(script.selects)))
      ensures io == old(io).(budgets := old(io.budgets) + [tv]) && fds == old(fds)
    {
      reply := NextSelect(script.selects);
      script := script.(selects := Rest(script.selects));
      io := io.(budgets := io.budgets + [tv]);
    }

    method Recv(sock: nat) returns (reply: RecvReply)
      modifies this
      ensures reply == NextRecv(old(script.recvs)) && script == old(script).(recvs := Rest(old(script.recvs)))
      ensures fds == old(fds) && io == old(io)
    {
      reply := NextRecv(script.recvs);
      script := script.(recvs := Rest(script.recvs));
    }

    /** fwrite to the output file, or to standard output. */
    method Deliver(outfile: Option<string>, data: seq<byte>)
      requires outfile.Some? ==> outfile.value in io.files
      modifies this
      ensures outfile.None? ==> io == old(io).(stdout := old(io.stdout) + data)
      ensures outfile.Some? ==> io == old(io).(files := old(io.files)[outfile.value := old(io.files)[outfile.value] + data])
      ensures fds == old(fds) && script == old(script)
    {
      if outfile.Some? {
        io := io.(files := io.files[outfile.value := io.files[outfile.value] + data]);
      } else {
        io := io.(stdout := io.stdout + data);
      }
    }

    /** pidfd_open, then pidfd_getfd (jinsock.c:238-248 and 296-305): the
        pidfd and the duplicated socket when both calls are granted; when
        pidfd_getfd is refused the pidfd is closed again. */
    method Duplicate() returns (h: Option<(nat, nat)>)
      requires fds.Valid()
      modifies this
      ensures io == old(io)
      ensures script == old(script).(grants := AfterGrants(old(script.grants), 2))
      ensures h.Some? <==> Granted(old(script.grants), 2) == 2
      ensures h.Some? ==> h.value == (old(fds.next), old(fds.next) + 1) && fds == old(fds).Obtain().Obtain()
      ensures h.None? ==> Balanced(old(fds), fds, Granted(old(script.grants), 2))
      ensures h.None? ==> fds.released == old(fds.released) + Range(old(fds.next), Granted(old(script.grants), 2))
    {
      ghost var g0 := script.grants;
      var pidfd := Acquire();
      if pidfd.None? {
        RefusedStep(g0, 2);
        RestoresNone(old(fds));
        assert Range(old(fds.next), 0) == [];
        return None;
      }
      GrantedStep(g0, 2);
      ghost var g1 := script.grants;
      var sockfd := Acquire();
      if sockfd.None? {
        RefusedStep(g1, 1);
        Close(pidfd.value);
        RestoresOne(old(fds));
        assert Range(old(fds.next), 1) == [pidfd.value];
        return None;
      }
      GrantedStep(g1, 1);
      h := Some((pidfd.value, sockfd.value));
    }

    /** dup_socket_and_send (jinsock.c:233-254). */
    method Send(pid: int, fd: int, data: seq<byte>) returns (r: int)
      requires fds.Valid()
      modifies this
      ensures io == old(io)
      ensures r == SendOutcome(old(script), pid, fd, |data|)
      ensures script == SendScript(old(script), pid, fd)
      ensures Balanced(old(fds), fds, if pid <= 0 || fd < 0 then 0 else Granted(old(script.grants), 2))
      ensures pid > 0 && fd >= 0 && Granted(old(script.grants), 2) == 2 ==>
        fds.released == old(fds.released) + [old(fds.next) + 1, old(fds.next)]
    {
      if pid <= 0 || fd < 0 {
        RestoresNone(fds);
        return -1;
      }
      var h := Duplicate();
      if h.None? {
        return -1;
      }
      var (pidfd, sockfd) := h.value;
      r := Transmit(sockfd, |data|);
      Close(sockfd);
      Close(pidfd);
      RestoresTwo(old(fds), true);
    }

    /** open, pidfd_open, pidfd_getfd (jinsock.c:257-273): the file, the
        pidfd and the duplicated socket when all three are granted; otherwise
        what was obtained is closed again, the file first. */
    method Prepare() returns (h: Option<(nat, nat, nat)>)
      requires fds.Valid()
      modifies this
      ensures io == old(io)
      ensures script == old(script).(grants := AfterGrants(old(script.grants), 3))
      ensures h.Some? <==> Granted(old(script.grants), 3) == 3
      ensures h.Some? ==> h.value == (old(fds.next), old(fds.next) + 1, old(fds.next) + 2)
      ensures h.Some? ==> fds == old(fds).Obtain().Obtain().Obtain()
      ensures h.None? ==> Balanced(old(fds), fds, Granted(old(script.grants), 3))
      ensures h.None? ==> fds.released == old(fds.released) + Range(old(fds.next), Granted(old(script.grants), 3))
    {
      ghost var g0 := script.grants;
      var f := Acquire();
      if f.None? {
        RefusedStep(g0, 3);
        RestoresNone(old(fds));
        assert Range(old(fds.next), 0) == [];
        return None;
      }
      GrantedStep(g0, 3);
      var pair := Connect(f.value, old(fds));
      if pair.None? {
        return None;
      }
      h := Some((f.value, pair.value.0, pair.value.1));
    }

    /** pidfd_open and pidfd_getfd once the file f is open (jinsock.c:262-273):
        on a refusal the file and then the pidfd are closed. */
    method Connect(f: nat, ghost t0: FdTable) returns (h: Option<(nat, nat)>)
      requires t0.Valid() && f == t0.next && fds == t0.Obtain()
      modifies this
      ensures io == old(io)
      ensures script == old(script).(grants := AfterGrants(old(script.grants), 2))
      ensures h.Some? <==> Granted(old(script.grants), 2) == 2
      ensures h.Some? ==> h.value == (f + 1, f + 2) && fds == t0.Obtain().Obtain().Obtain()
      ensures h.None? ==> Balanced(t0, fds, 1 + Granted(old(script.grants), 2))
      ensures h.None? ==> fds.released == t0.released + Range(f, 1 + Granted(old(script.grants), 2))
    {
      ghost var g1 := script.grants;
      var pidfd := Acquire();
      if pidfd.None? {
        RefusedStep(g1, 2);
        Close(f);
        RestoresOne(t0);
        assert Range(f, 1) == [f];
        return None;
      }
      GrantedStep(g1, 2);
      ghost var g2 := script.grants;
      var sockfd := Acquire();
      if sockfd.None? {
        RefusedStep(g2, 1);
        Close(f);
        Close(pidfd.value);
        RestoresTwo(t0, false);
        assert Range(f, 2) == [f, pidfd.value];
        return None;
      }
      GrantedStep(g2, 1);
      h := Some((pidfd.value, sockfd.value));
    }

    /** dup_socket_and_sendfile (jinsock.c:256-293). The path names the file
        whose reads the script answers. */
    method SendFile(pid: int, fd: int, path: string) returns (r: int)
      requires fds.Valid()
      modifies this
      ensures io == old(io)
      ensures r == SendFileOutcome(old(script))
      ensures script == SendFileScript(old(script))
      ensures Balanced(old(fds), fds, Granted(old(script.grants), 3))
      ensures Granted(old(script.grants), 3) == 3 ==>
        fds.released == old(fds.released) + [old(fds.next), old(fds.next) + 2, old(fds.next) + 1]
    {
      var h := Prepare();
      if h.None? {
        return -1;
      }
      var (f, pidfd, sockfd) := h.value;
      r := Stream(f, sockfd);
      Close(f);
      Close(sockfd);
      Close(pidfd);
      RestoresThree(old(fds));
    }

    /** The read/send loop of dup_socket_and_sendfile (jinsock.c:275-288):
        the bytes sent in all, or -1 once a send fails. The handles are left to
        the caller, which closes the same three on either exit. */
    method Stream(f: nat, sock: nat) returns (total: int)
      modifies this
      ensures var t := Pump(old(script.fileReads), old(script.sends), 0);
        total == t.total && script == old(script).(fileReads := t.fileReads, sends := t.sends)
      ensures fds == old(fds) && io == old(io)
    {
      ghost var goal := Pump(script.fileReads, script.sends, 0);
      var sum: nat := 0;
      while true
        invariant Pump(script.fileReads, script.sends, sum) == goal
        invariant script.grants == old(script.grants) && script.selects == old(script.selects) && script.recvs == old(script.recvs)
        invariant fds == old(fds) && io == old(io)
        decreases |script.fileReads|
      {
        var n := Read(f);
        if n <= 0 {
          break;
        }
        var sent := Transmit(sock, n);
        if sent < 0 {
          return -1;
        }
        sum := sum + sent;
      }
      return sum;
    }

    /** pidfd_open, pidfd_getfd and fopen of the output file with mode "wb",
        which creates it empty (jinsock.c:296-322). When fopen is refused, the
        socket and then the pidfd are closed again. */
    method Attach(path: string) returns (h: Option<(nat, nat, nat)>)
      requires fds.Valid()
      modifies this
      ensures script == old(script).(grants := AfterGrants(old(script.grants), 3))
      ensures h.Some? <==> Granted(old(script.grants), 3) == 3
      ensures h.Some? ==> h.value == (old(fds.next), old(fds.next) + 1, old(fds.next) + 2)
      ensures h.Some? ==> fds == old(fds).Obtain().Obtain().Obtain()
      ensures h.Some? ==> io == old(io).(files := old(io.files)[path := []])
      ensures h.None? ==> Balanced(old(fds), fds, Granted(old(script.grants), 3)) && io == old(io)
      ensures h.None? && Granted(old(script.grants), 3) < 2 ==>
        fds.released == old(fds.released) + Range(old(fds.next), Granted(old(script.grants), 3))
      ensures Granted(old(script.grants), 3) == 2 ==>
        fds.released == old(fds.released) + [old(fds.next) + 1, old(fds.next)]
    {
      ghost var g0 := script.grants;
      var pair := Duplicate();
      if pair.None? {
        RefusalIsFinal(g0, 2);
        return None;
      }
      OneMore(g0, 2);
      var (pidfd, sockfd) := pair.value;
      var outf := Acquire();
      if outf.None? {
        Close(sockfd);
        Close(pidfd);
        RestoresTwo(old(fds), true);
        return None;
      }
      io := io.(files := io.files[path := []]);
      h := Some((pidfd, sockfd, outf.value));
    }

    /** dup_socket_and_recv (jinsock.c:295-366). `received` is the count the
        function prints (total_received); the session's data goes to
        standard output, or to the output file, created empty by fopen "wb". */
    method Receive(pid: int, fd: int, outfile: Option<string>, timeout: int) returns (r: int, received: nat)
      requires fds.Valid()
      modifies this
      ensures r == RecvOutcome(old(script), outfile)
      ensures script == RecvScript(old(script), outfile)
      ensures Balanced(old(fds), fds, Granted(old(script.grants), RecvHandles(outfile)))
      ensures r == -1 ==> received == 0 && io == old(io)
      ensures r == 0 ==> io == Received(old(io), outfile, timeout, Listen(old(script.selects), old(script.recvs), [], 0))
      ensures r == 0 ==> received == |Listen(old(script.selects), old(script.recvs), [], 0).data|
      ensures r == 0 && outfile.Some? ==>
        fds.released == old(fds.released) + [old(fds.next) + 2, old(fds.next) + 1, old(fds.next)]
      ensures r == 0 && outfile.None? ==> fds.released == old(fds.released) + [old(fds.next) + 1, old(fds.next)]
    {
      var h := Hold(outfile);
      if h.None? {
        return -1, 0;
      }
      received := Serve(h.value.0, h.value.1, h.value.2, outfile, timeout, old(fds));
      r := 0;
    }

    /** The acquisitions of dup_socket_and_recv (jinsock.c:296-322): pidfd_open,
        pidfd_getfd and, with an output file, fopen. Without a file the third
        handle is unused. */
    method Hold(outfile: Option<string>) returns (h: Option<(nat, nat, nat)>)
      requires fds.Valid()
      modifies this
      ensures script == old(script).(grants := AfterGrants(old(script.grants), RecvHandles(outfile)))
      ensures h.Some? <==> Granted(old(script.grants), RecvHandles(outfile)) == RecvHandles(outfile)
      ensures h.Some? ==> h.value.0 == old(fds.next) && h.value.1 == old(fds.next) + 1
      ensures h.Some? && outfile.Some? ==>
        && h.value.2 == old(fds.next) + 2
        && fds == old(fds).Obtain().Obtain().Obtain()
        && io == old(io).(files := old(io.files)[outfile.value := []])
      ensures h.Some? && outfile.None? ==> fds == old(fds).Obtain().Obtain() && io == old(io)
      ensures h.None? ==> Balanced(old(fds), fds, Granted(old(script.grants), RecvHandles(outfile))) && io == old(io)
    {
      if outfile.Some? {
        h := Attach(outfile.value);
      } else {
        var pair := Duplicate();
        if pair.None? {
          return None;
        }
        h := Some((pair.value.0, pair.value.1, 0));
      }
    }

    /** The rest of dup_socket_and_recv once its handles are held
        (jinsock.c:324-365): the session, then fclose, and close of the socket
        and of the pidfd, which gives back every handle obtained since t0. */
    method Serve(pidfd: nat, sockfd: nat, outh: nat, outfile: Option<string>, timeout: int, ghost t0: FdTable)
      returns (received: nat)
      requires outfile.Some? ==> outfile.value in io.files
      requires t0.Valid() && pidfd == t0.next && sockfd == t0.next + 1
      requires outfile.None? ==> fds == t0.Obtain().Obtain()
      requires outfile.Some? ==> outh == t0.next + 2 && fds == t0.Obtain().Obtain().Obtain()
      modifies this
      ensures var s := Listen(old(script.selects), old(script.recvs), [], 0);
        && received == |s.data|
        && script == old(script).(selects := s.selects, recvs := s.recvs)
        && io == Appended(old(io), outfile, timeout, s)
      ensures Balanced(t0, fds, RecvHandles(outfile))
      ensures outfile.Some? ==> fds.released == t0.released + [t0.next + 2, t0.next + 1, t0.next]
      ensures outfile.None? ==> fds.released == t0.released + [t0.next + 1, t0.next]
    {
      received := Drain(sockfd, outfile, timeout);
      if outfile.Some? {
        Close(outh);
        Close(sockfd);
        Close(pidfd);
        RestoresThreeReversed(t0);
      } else {
        Close(sockfd);
        Close(pidfd);
        RestoresTwo(t0, true);
      }
    }

    /** The select/recv loop of dup_socket_and_recv (jinsock.c:326-359): each
        select waits at most the time left, which is back to the full timeout
        after every chunk; each chunk goes to the output, a file opened empty or
        standard output. Returns total_received. */
    method Drain(sock: nat, outfile: Option<string>, timeout: int) returns (received: nat)
      requires outfile.Some? ==> outfile.value in io.files
      modifies this
      ensures var s := Listen(old(script.selects), old(script.recvs), [], 0);
        && received == |s.data|
        && script == old(script).(selects := s.selects, recvs := s.recvs)
        && io == Appended(old(io), outfile, timeout, s)
      ensures fds == old(fds)
    {
      ghost var goal := Listen(script.selects, script.recvs, [], 0);
      ghost var acc: seq<byte> := [];
      ghost var calls: nat := 0;
      ghost var io0 := io;
      var tv := timeout;
      received := 0;
      AppendedNothing(io0, outfile, timeout);
      while true
        invariant Listen(script.selects, script.recvs, acc, calls) == goal
        invariant script.grants == old(script.grants) && script.fileReads == old(script.fileReads) && script.sends == old(script.sends)
        invariant received == |acc| && tv == timeout
        invariant io == Appended(io0, outfile, timeout, Session(acc, calls, [], []))
        invariant fds == old(fds)
        decreases |script.selects|
      {
        var ready := Select(sock, tv);
        AppendedSelect(io0, outfile, timeout, acc, calls);
        calls := calls + 1;
        if !ready.Readable? {
          break;
        }
        tv := ready.left;
        var reply := Recv(sock);
        if reply.RecvFailed? || reply.bytes == [] {
          break;
        }
        received := received + |reply.bytes|;
        Deliver(outfile, reply.bytes);
        AppendedChunk(io0, outfile, timeout, acc, calls, reply.bytes);
        acc := acc + reply.bytes;
        tv := timeout;
      }
    }
  }

  /** An empty session leaves the output as it was. */
  lemma AppendedNothing(io: Output, outfile: Option<string>, timeout: int)
    requires outfile.Some? ==> outfile.value in io.files
    ensures Appended(io, outfile, timeout, Session([], 0, [], [])) == io
  {
    assert io.budgets + seq(0, _ => timeout) == io.budgets;
    if outfile.Some? {
      assert io.files[outfile.value] + [] == io.files[outfile.value];
      assert io.files[outfile.value := io.files[outfile.value]] == io.files;
    } else {
      assert io.stdout + [] == io.stdout;
    }
  }

  /** One more select call adds one budget, the full timeout. */
  lemma AppendedSelect(io: Output, outfile: Option<string>, timeout: int, acc: seq<byte>, calls: nat)
    ensures var r := Appended(io, outfile, timeout, Session(acc, calls, [], []));
      r.(budgets := r.budgets + [timeout]) == Appended(io, outfile, timeout, Session(acc, calls + 1, [], []))
  {
    assert io.budgets + seq(calls + 1, _ => timeout) == io.budgets + seq(calls, _ => timeout) + [timeout];
  }

  /** One more chunk is written after the data already delivered. */
  lemma AppendedChunk(io: Output, outfile: Option<string>, timeout: int, acc: seq<byte>, calls: nat, b: seq<byte>)
    ensures outfile.Some? ==> outfile.value in Appended(io, outfile, timeout, Session(acc, calls, [], [])).files
    ensures outfile.None? ==> var r := Appended(io, outfile, timeout, Session(acc, calls, [], []));
      r.(stdout := r.stdout + b) == Appended(io, outfile, timeout, Session(acc + b, calls, [], []))
    ensures outfile.Some? ==> var r := Appended(io, outfile, timeout, Session(acc, calls, [], []));
      r.(files := r.files[outfile.value := r.files[outfile.value] + b]) == Appended(io, outfile, timeout, Session(acc + b, calls, [], []))
  {
    if outfile.Some? {
      var old0 := if outfile.value in io.files then io.files[outfile.value] else [];
      assert old0 + acc + b == old0 + (acc + b);
    } else {
      assert io.stdout + acc + b == io.stdout + (acc + b);
    }
  }

  /** The output after a receive session s appended to what io already held:
      one select budget per call, the data to the file or to standard output. */
  function Appended(io: Output, outfile: Option<string>, timeout: int, s: Session): (r: Output)
    ensures r.budgets == io.budgets + seq(s.selectCalls, _ => timeout)
    ensures outfile.Some? ==> r.stdout == io.stdout
  {
    var budgets := io.budgets + seq(s.selectCalls, _ => timeout);
    match outfile
    case None => io.(budgets := budgets, stdout := io.stdout + s.data)
    case Some(path) =>
      io.(budgets := budgets, files := io.files[path := (if path in io.files then io.files[path] else []) + s.data])
  }

  /** The output after dup_socket_and_recv held its handles: the file, if any,
      truncated by fopen "wb" and then given the session's data. */
  function Received(io: Output, outfile: Option<string>, timeout: int, s: Session): (r: Output)
    ensures outfile.Some? ==> r.files == io.files[outfile.value := s.data] && r.stdout == io.stdout
    ensures outfile.None? ==> r.files == io.files && r.stdout == io.stdout + s.data
    ensures r.budgets == io.budgets + seq(s.selectCalls, _ => timeout)
  {
    match outfile
    case None => Appended(io, outfile, timeout, s)
    case Some(path) =>
      var start := io.(files := io.files[path := []]);
      assert start.files[path := [] + s.data] == io.files[path := s.data] by {
        assert [] + s.data == s.data;
      }
      Appended(start, outfile, timeout, s)
  }
}
