/** Recognising socket descriptors and finding their remote endpoint:
    get_socket_inode_from_fd reads "socket:[<inode>]" link targets, and
    get_remote_addr_from_inode searches the per-process TCP connection table
    (net/tcp, or net/tcp6 when net/tcp cannot be opened) for the row carrying
    that inode. A table is the sequence of its text lines, header first. */
module InodeResolver {
  import opened Options
  import opened Text
  import opened AddressCodec

  const SocketPrefix: string := "socket:["

  /** sscanf(linktarget, "socket:[%llu]", &ino) == 1 (jinsock.c:103): the literal
      prefix, then a run of decimal digits; the closing ']' is not checked. */
  function ParseSocketInode(link: string): (r: Option<nat>)
    ensures r.Some? <==> (|link| > 8 && link[..8] == SocketPrefix && IsDigit(link[8]))
  {
    if |link| < 8 || link[..8] != SocketPrefix then None
    else
      var k := DigitRun(link[8..]);
      if k == 0 then None else Some(DecValue(link[8..][..k]))
  }

  /** The kernel's link text for a socket, "socket:[<n>]", yields n, and so does
      any text that continues after the digits with something other than a digit. */
  lemma {:induction false} SocketInodeOfLink(n: nat, tail: string)
    requires tail == [] || !IsDigit(tail[0])
    ensures ParseSocketInode(SocketPrefix + DecString(n) + tail) == Some(n)
  {
    var d := DecString(n);
    var link := SocketPrefix + d + tail;
    assert link[..8] == SocketPrefix;
    assert link[8..] == d + tail;
    DigitRunOf(d, tail);
    assert (d + tail)[..|d|] == d;
    DecStringValue(n);
  }

  /** Descriptors that are not sockets are skipped. */
  lemma NonSocketLinks()
    ensures ParseSocketInode("pipe:[5]").None?
    ensures ParseSocketInode("anon_inode:[eventfd]").None?
    ensures ParseSocketInode("/dev/null").None?
    ensures ParseSocketInode("socket:[]").None?
  {
    assert "pipe:[5]"[0] != SocketPrefix[0];
    assert "anon_inode:[eventfd]"[0] != SocketPrefix[0];
    assert "/dev/null"[0] != SocketPrefix[0];
    assert !IsDigit("socket:[]"[8]);
  }

  /** A conversion's result and the text after what it consumed. */
  datatype Field<T> = Field(value: T, rest: string)

  /** End of the run of non-space characters that starts at j, at most width long. */
  function WordEnd(s: string, j: nat, width: nat): (e: nat)
    requires j <= |s|
    ensures j <= e <= |s| && e - j <= width
    ensures forall k :: j <= k < e ==> !IsSpace(s[k])
    ensures e - j < width && e < |s| ==> IsSpace(s[e])
    decreases |s| - j
  {
    if width == 0 || j == |s| || IsSpace(s[j]) then j else WordEnd(s, j + 1, width - 1)
  }

  /** End of the run of decimal digits that starts at j. */
  function DigitEnd(s: string, j: nat): (e: nat)
    requires j <= |s|
    ensures j <= e <= |s|
    ensures forall k :: j <= k < e ==> IsDigit(s[k])
    ensures e < |s| ==> !IsDigit(s[e])
    decreases |s| - j
  {
    if j == |s| || !IsDigit(s[j]) then j else DigitEnd(s, j + 1)
  }

  /** "%<width>s": skip white space, then read 1 to width non-space characters,
      stopping early only at white space or the end of the line; fails when
      nothing but white space is left. */
  function ScanWord(s: string, width: nat): (r: Option<Field<string>>)
    requires width > 0
    ensures r.Some? <==> SkipSpaces(s, 0) < |s|
    ensures r.Some? ==> 0 < |r.value.value| <= width && |r.value.rest| < |s|
    ensures r.Some? ==> forall k :: 0 <= k < |r.value.value| ==> !IsSpace(r.value.value[k])
    ensures r.Some? && |r.value.value| < width && r.value.rest != [] ==> IsSpace(r.value.rest[0])
  {
    var j := SkipSpaces(s, 0);
    if j == |s| then None
    else
      var e := WordEnd(s, j, width);
      Some(Field(s[j..e], s[e..]))
  }

  /** "%u" / "%llu": skip white space, then read the whole run of decimal digits;
      fails when no digit follows the white space. */
  function ScanUnsigned(s: string): (r: Option<Field<nat>>)
    ensures r.Some? <==> SkipSpaces(s, 0) < |s| && IsDigit(s[SkipSpaces(s, 0)])
    ensures r.Some? ==> |r.value.rest| < |s|
    ensures r.Some? && r.value.rest != [] ==> !IsDigit(r.value.rest[0])
  {
    var j := SkipSpaces(s, 0);
    var e := DigitEnd(s, j);
    if e == j then None
    else
      assert AllDigits(s[j..e]);
      Some(Field(DecValue(s[j..e]), s[e..]))
  }

  /** Text that "%<width>s" reads whole: 1 to width characters, none of them
      white space. */
  predicate WordText(w: string, width: nat)
  {
    0 < |w| <= width && forall j :: 0 <= j < |w| ==> !IsSpace(w[j])
  }

  /** One directive of a scanf format: a conversion "%u", "%<width>s", or an
      ordinary character that must appear literally. */
  datatype Directive = Unsigned | Word(width: nat) | Literal(c: char)

  /** What a directive read: the text for a word or literal, the number for "%u". */
  datatype Value = Value(text: string, number: nat)

  /** sscanf with format fmt; None unless every directive succeeds, one value
      per directive otherwise. */
  function Scan(s: string, fmt: seq<Directive>): (r: Option<seq<Value>>)
    ensures r.Some? ==> |r.value| == |fmt|
    decreases |s|
  {
    if fmt == [] then Some([])
    else
      var first := ScanDirective(s, fmt[0]);
      if first.None? then None
      else
        var rest := Scan(first.value.rest, fmt[1..]);
        if rest.None? then None else Some([first.value.value] + rest.value)
  }

  /** One directive of sscanf; whatever succeeds consumes at least one character. */
  function ScanDirective(s: string, d: Directive): (r: Option<Field<Value>>)
    ensures r.Some? ==> |r.value.rest| < |s|
    ensures r.Some? && d.Word? ==> WordText(r.value.value.text, d.width)
  {
    match d {
      case Literal(c) =>
        if s != [] && s[0] == c then Some(Field(Value([c], 0), s[1..])) else None
      case Word(width) =>
        if width == 0 then None
        else
          var w := ScanWord(s, width);
          if w.None? then None else Some(Field(Value(w.value.value, 0), w.value.rest))
      case Unsigned =>
        var n := ScanUnsigned(s);
        if n.None? then None else Some(Field(Value([], n.value.value), n.value.rest))
    }
  }

  /** "%u: %63s %63s %7s %15s %15s %7s %15s %15s %*u %*u %llu" (jinsock.c:145):
      sl, ':', local_address, rem_address, st, tx_queue, rx_queue, tr, tm->when,
      retrnsmt, uid, timeout, inode. The blank directives are omitted: "%s" and
      "%u" skip white space by themselves. */
  const RowFormat: seq<Directive> := [
    Unsigned, Literal(':'), Word(63), Word(63), Word(7), Word(15), Word(15),
    Word(7), Word(15), Word(15), Unsigned, Unsigned, Unsigned]

  /** Every word a successful scan stores fits its directive's width and has
      no white space. */
  lemma {:induction false} ScanWords(s: string, fmt: seq<Directive>, k: nat)
    requires Scan(s, fmt).Some? && k < |fmt| && fmt[k].Word?
    ensures WordText(Scan(s, fmt).value[k].text, fmt[k].width)
    decreases |s|
  {
    var first := ScanDirective(s, fmt[0]).value;
    if k > 0 {
      ScanWords(first.rest, fmt[1..], k - 1);
    }
  }

  /** The two columns the resolver keeps from a table row. */
  datatype Row = Row(remote: string, inode: nat)

  /** The row scan of jinsock.c:144-146, succeeding only when every conversion
      does (sscanf returns 10). The field widths matter: the kernel's
      17-character "tx_queue:rx_queue" column is read as 15 + 2 characters,
      which shifts the following string fields but still lands the last three
      numbers on uid, timeout and inode. */
  function ParseRow(line: string): (r: Option<Row>)
    ensures r.Some? ==> WordText(r.value.remote, 63)
  {
    match Scan(line, RowFormat)
    case None => None
    case Some(v) =>
      ScanWords(line, RowFormat, 3);
      Some(Row(v[3].text, v[12].number))
  }

  /** The row matching predicate of jinsock.c:144-147. */
  predicate RowMatches(line: string, inode: nat)
  {
    var r := ParseRow(line);
    r.Some? && r.value.inode == inode
  }

  /** Position of the first row that matches inode, |rows| when none does. */
  function FindRow(rows: seq<string>, inode: nat): (k: nat)
    ensures k <= |rows|
    ensures k < |rows| ==> RowMatches(rows[k], inode)
    ensures forall j :: 0 <= j < k ==> !RowMatches(rows[j], inode)
  {
    if rows == [] || RowMatches(rows[0], inode) then 0 else 1 + FindRow(rows[1..], inode)
  }

  /** jinsock.c:150-156: a 13-character remote field is IPv4, a 37-character one
      IPv6, any other length is a failure. */
  function DecodeRemote(field: string): (r: Option<Endpoint>)
    ensures |field| == 13 ==> r == DecodeV4(field)
    ensures |field| == 37 ==> r == DecodeV6(field)
    ensures r.Some? ==> (|field| == 13 && r.value.ip.V4?) || (|field| == 37 && r.value.ip.V6?)
  {
    if |field| == 13 then DecodeV4(field)
    else if |field| == 37 then DecodeV6(field)
    else None
  }

  /** The result of searching one table: the header line is skipped, the first
      matching row decides, and no matching row gives None. */
  function LookupTable(lines: seq<string>, inode: nat): (r: Option<Endpoint>)
    ensures (forall k :: 1 <= k < |lines| ==> !RowMatches(lines[k], inode)) ==> r.None?
  {
    if lines == [] then None
    else
      var rows := lines[1..];
      var k := FindRow(rows, inode);
      assert forall j :: 1 <= j < |lines| ==> lines[j] == rows[j - 1];
      if k == |rows| then None else DecodeRemote(ParseRow(rows[k]).value.remote)
  }

  /** The connection tables of one process: None for a table that cannot be opened. */
  datatype NetTables = NetTables(tcp: Option<seq<string>>, tcp6: Option<seq<string>>)

  /** net/tcp when it can be opened (even if it holds no matching row), else net/tcp6. */
  function Resolve(t: NetTables, inode: nat): Option<Endpoint>
  {
    if t.tcp.Some? then LookupTable(t.tcp.value, inode)
    else if t.tcp6.Some? then LookupTable(t.tcp6.value, inode)
    else None
  }

  /** get_remote_addr_from_inode (jinsock.c:125-162): choose the table, then search it. */
  method ResolveRemote(t: NetTables, inode: nat) returns (r: Option<Endpoint>)
    ensures r == Resolve(t, inode)
  {
    if t.tcp.Some? {
      r := SearchTable(t.tcp.value, inode);
    } else if t.tcp6.Some? {
      r := SearchTable(t.tcp6.value, inode);
    } else {
      r := None;
    }
  }

  /** The line-by-line search of jinsock.c:135-161: skip the header, return at
      the first row whose inode column equals inode. */
  method SearchTable(lines: seq<string>, inode: nat) returns (r: Option<Endpoint>)
    ensures r == LookupTable(lines, inode)
  {
    if lines == [] {
      return None;
    }
    var i := 1;
    while i < |lines|
      invariant 1 <= i <= |lines|
      invariant i - 1 <= FindRow(lines[1..], inode)
    {
      if RowMatches(lines[i], inode) {
        FindRowAt(lines, i, inode);
        return DecodeRemote(ParseRow(lines[i]).value.remote);
      }
      FindRowPast(lines, i, inode);
      i := i + 1;
    }
    FindRowAt(lines, i, inode);
    return None;
  }

  /** Line k of a table is the first matching row (or, for k == |lines|, no
      row matches) when the search has got past every earlier line. */
  lemma FindRowAt(lines: seq<string>, k: nat, inode: nat)
    requires 1 <= k <= |lines| && k - 1 <= FindRow(lines[1..], inode)
    requires k < |lines| ==> RowMatches(lines[k], inode)
    ensures FindRow(lines[1..], inode) == k - 1
  {
    assert k < |lines| ==> lines[1..][k - 1] == lines[k];
  }

  /** The search gets past every row before the first match. */
  lemma {:induction false} FindRowAtLeast(rows: seq<string>, m: nat, inode: nat)
    requires m <= |rows|
    requires forall j :: 0 <= j < m ==> !RowMatches(rows[j], inode)
    ensures m <= FindRow(rows, inode)
  {
    if m > 0 {
      assert !RowMatches(rows[0], inode);
      assert forall j :: 0 <= j < m - 1 ==> rows[1..][j] == rows[j + 1];
      FindRowAtLeast(rows[1..], m - 1, inode);
    }
  }

  /** The first matching row after the header decides the result of a table. */
  lemma FirstMatchFound(lines: seq<string>, k: nat, inode: nat)
    requires 1 <= k < |lines| && RowMatches(lines[k], inode)
    requires forall j :: 1 <= j < k ==> !RowMatches(lines[j], inode)
    ensures LookupTable(lines, inode) == DecodeRemote(ParseRow(lines[k]).value.remote)
  {
    var rows := lines[1..];
    assert forall j :: 0 <= j < k - 1 ==> rows[j] == lines[j + 1];
    FindRowAtLeast(rows, k - 1, inode);
    FindRowAt(lines, k, inode);
  }

  /** A line that does not match moves the search past it. */
  lemma FindRowPast(lines: seq<string>, k: nat, inode: nat)
    requires 1 <= k < |lines| && k - 1 <= FindRow(lines[1..], inode)
    requires !RowMatches(lines[k], inode)
    ensures k <= FindRow(lines[1..], inode)
  {
    var rows := lines[1..];
    assert rows[k - 1] == lines[k];
  }

  lemma DropFirstOfAppend<T>(a: seq<T>, b: seq<T>)
    requires a != []
    ensures (a + b)[1..] == a[1..] + b
  {
  }

  lemma {:induction false} FindRowAppend(rows: seq<string>, more: seq<string>, inode: nat)
    requires FindRow(rows, inode) < |rows|
    ensures FindRow(rows + more, inode) == FindRow(rows, inode)
  {
    if !RowMatches(rows[0], inode) {
      DropFirstOfAppend(rows, more);
      FindRowAppend(rows[1..], more, inode);
    }
  }

  lemma {:induction false} FindRowSkip(rows: seq<string>, more: seq<string>, inode: nat)
    requires FindRow(rows, inode) == |rows|
    ensures FindRow(rows + more, inode) == |rows| + FindRow(more, inode)
  {
    if rows != [] {
      DropFirstOfAppend(rows, more);
      FindRowSkip(rows[1..], more, inode);
    } else {
      assert rows + more == more;
    }
  }

  /** Lines after the first matching row are never looked at. */
  lemma FirstMatchDecides(lines: seq<string>, more: seq<string>, inode: nat)
    requires lines != [] && FindRow(lines[1..], inode) < |lines| - 1
    ensures LookupTable(lines + more, inode) == LookupTable(lines, inode)
  {
    DropFirstOfAppend(lines, more);
    FindRowAppend(lines[1..], more, inode);
  }

  /** Rows that do not match can be put in front of a table without changing
      what the search finds. */
  lemma NonMatchingRowsIgnored(header: string, skipped: seq<string>, rest: seq<string>, inode: nat)
    requires forall j :: 0 <= j < |skipped| ==> !RowMatches(skipped[j], inode)
    ensures LookupTable([header] + skipped + rest, inode) == LookupTable([header] + rest, inode)
  {
    var rows := skipped + rest;
    assert ([header] + skipped + rest)[1..] == rows;
    assert ([header] + rest)[1..] == rest;
    assert FindRow(skipped, inode) == |skipped|;
    FindRowSkip(skipped, rest, inode);
    var k := FindRow(rest, inode);
    assert FindRow(rows, inode) == |skipped| + k;
    if k < |rest| {
      assert rows[|skipped| + k] == rest[k];
    }
  }

  /** The header line is skipped whatever it holds, even when it is itself a
      well-formed row for inode. */
  lemma HeaderSkipped(h1: string, h2: string, rows: seq<string>, inode: nat)
    ensures LookupTable([h1] + rows, inode) == LookupTable([h2] + rows, inode)
  {
    assert ([h1] + rows)[1..] == rows == ([h2] + rows)[1..];
  }

  /** net/tcp6 is consulted only when net/tcp cannot be opened. */
  lemma Tcp6OnlyAsFallback(tcp: seq<string>, tcp6a: Option<seq<string>>, tcp6b: Option<seq<string>>, inode: nat)
    ensures Resolve(NetTables(Some(tcp), tcp6a), inode) == Resolve(NetTables(Some(tcp), tcp6b), inode)
    ensures Resolve(NetTables(None, tcp6a), inode) == if tcp6a.Some? then LookupTable(tcp6a.value, inode) else None
  {
  }
}
