/** The lines the kernel writes into /proc/<pid>/net/tcp and net/tcp6, and the
    proof that the row scan of get_remote_addr_from_inode (jinsock.c:144-147)
    reads the rem_address column and the inode out of every such line. */
module TcpTable {
  import opened Options
  import opened Text
  import opened AddressCodec
  import opened InodeResolver

  /** n blanks. */
  function Blanks(n: nat): (s: string)
    ensures |s| == n && forall k :: 0 <= k < n ==> s[k] == ' '
  {
    seq(n, _ => ' ')
  }

  /** One column of a line: the blanks written before it, then its text. */
  datatype Column = Column(gap: nat, text: string)

  /** The columns one after another, then the rest of the line. */
  function Joined(cs: seq<Column>, tail: string): (s: string)
    ensures |s| >= |tail|
  {
    if cs == [] then tail else Blanks(cs[0].gap) + cs[0].text + Joined(cs[1..], tail)
  }

  /** The blanks "%<w>u" writes before the decimal text of n. */
  function Padding(n: nat, w: nat): nat
  {
    var d := DecString(n);
    if |d| < w then w - |d| else 0
  }

  /** The columns of one connection that the kernel prints with
      "%4d: %08X:%04X %08X:%04X %02X %08X:%08X %02X:%08lX %08X %5u %8d %lu";
      the two addresses are kept as their "address:port" text (13 characters
      in net/tcp, 37 in net/tcp6). */
  datatype KernelLine = KernelLine(
    sl: nat, local: string, remote: string, state: nat,
    txQueue: nat, rxQueue: nat, timerActive: nat, timerExpires: nat,
    retransmits: nat, uid: nat, probes: nat, inode: nat)

  function KernelColumns(k: KernelLine): (cs: seq<Column>)
    ensures |cs| == 11
  {
    [ Column(Padding(k.sl, 4), DecString(k.sl)),
      Column(0, ":"),
      Column(1, k.local),
      Column(1, k.remote),
      Column(1, HexString(k.state, 2)),
      Column(1, HexString(k.txQueue, 8) + ":" + HexString(k.rxQueue, 8)),
      Column(1, HexString(k.timerActive, 2) + ":" + HexString(k.timerExpires, 8)),
      Column(1, HexString(k.retransmits, 8)),
      Column(1 + Padding(k.uid, 5), DecString(k.uid)),
      Column(1 + Padding(k.probes, 8), DecString(k.probes)),
      Column(1, DecString(k.inode)) ]
  }

  /** The text of one table line: the columns, then the kernel's further
      columns and the newline, which the scan does not reach. */
  function KernelRow(k: KernelLine, tail: string): string
  {
    Joined(KernelColumns(k), tail)
  }

  /** An address column as the kernel writes it: 1 to 63 characters and no
      white space, so that "%63s" reads it whole. */
  predicate AddressText(a: string)
  {
    0 < |a| <= 63 && forall j :: 0 <= j < |a| ==> !IsSpace(a[j])
  }

  predicate NoSpace(w: string)
  {
    forall j :: 0 <= j < |w| ==> !IsSpace(w[j])
  }

  /** Directive d, applied where column c starts, reads exactly c and stops
      before after: a literal is the column itself, a word has no white space
      and ends at the width or at white space, a number ends at a non-digit. */
  predicate Reads(d: Directive, c: Column, after: string)
  {
    match d
    case Literal(ch) => c.gap == 0 && c.text == [ch]
    case Word(width) =>
      0 < |c.text| <= width && NoSpace(c.text) &&
      (|c.text| == width || after == [] || IsSpace(after[0]))
    case Unsigned =>
      c.text != [] && AllDigits(c.text) && (after == [] || !IsDigit(after[0]))
  }

  /** The value sscanf stores for directive d reading column c. */
  function ValueOf(d: Directive, c: Column): Value
  {
    match d
    case Literal(ch) => Value([ch], 0)
    case Word(_) => Value(c.text, 0)
    case Unsigned => Value([], if AllDigits(c.text) then DecValue(c.text) else 0)
  }

  lemma {:induction false} SkipSpacesTo(s: string, i: nat, j: nat)
    requires i <= j <= |s|
    requires forall k :: i <= k < j ==> IsSpace(s[k])
    requires j == |s| || !IsSpace(s[j])
    ensures SkipSpaces(s, i) == j
    decreases j - i
  {
    if i < j {
      SkipSpacesTo(s, i + 1, j);
    }
  }

  lemma {:induction false} WordEndTo(s: string, j: nat, e: nat, width: nat)
    requires j <= e <= |s| && e - j <= width
    requires forall k :: j <= k < e ==> !IsSpace(s[k])
    requires e - j == width || e == |s| || IsSpace(s[e])
    ensures WordEnd(s, j, width) == e
    decreases e - j
  {
    if j < e {
      WordEndTo(s, j + 1, e, width - 1);
    }
  }

  lemma {:induction false} DigitEndTo(s: string, j: nat, e: nat)
    requires j <= e <= |s|
    requires forall k :: j <= k < e ==> IsDigit(s[k])
    requires e == |s| || !IsDigit(s[e])
    ensures DigitEnd(s, j) == e
    decreases e - j
  {
    if j < e {
      DigitEndTo(s, j + 1, e);
    }
  }

  /** A directive that reads column c consumes it and leaves what follows. */
  lemma ScanColumn(d: Directive, c: Column, after: string)
    requires Reads(d, c, after)
    ensures ScanDirective(Blanks(c.gap) + c.text + after, d) == Some(Field(ValueOf(d, c), after))
  {
    var s := Blanks(c.gap) + c.text + after;
    var g, e := c.gap, c.gap + |c.text|;
    assert s[g..e] == c.text && s[e..] == after;
    assert forall k :: g <= k < e ==> s[k] == c.text[k - g];
    assert e < |s| ==> s[e] == after[0];
    match d {
      case Literal(ch) =>
      case Word(width) =>
        SkipSpacesTo(s, 0, g);
        WordEndTo(s, g, e, width);
      case Unsigned =>
        SkipSpacesTo(s, 0, g);
        DigitEndTo(s, g, e);
    }
  }

  /** Each directive of fmt reads its column of cs, the last one stopping
      before tail. */
  predicate ReadsAll(cs: seq<Column>, fmt: seq<Directive>, tail: string)
    requires |cs| == |fmt|
  {
    cs != [] ==> Reads(fmt[0], cs[0], Joined(cs[1..], tail)) && ReadsAll(cs[1..], fmt[1..], tail)
  }

  /** The values the directives store, column by column. */
  function Values(cs: seq<Column>, fmt: seq<Directive>): (vs: seq<Value>)
    requires |cs| == |fmt|
    ensures |vs| == |cs|
  {
    if cs == [] then [] else [ValueOf(fmt[0], cs[0])] + Values(cs[1..], fmt[1..])
  }

  lemma {:induction false} ValuesAt(cs: seq<Column>, fmt: seq<Directive>, i: nat)
    requires |cs| == |fmt| && i < |cs|
    ensures Values(cs, fmt)[i] == ValueOf(fmt[i], cs[i])
    decreases i
  {
    if i > 0 {
      ValuesAt(cs[1..], fmt[1..], i - 1);
    }
  }

  lemma {:induction false} ReadsEach(cs: seq<Column>, fmt: seq<Directive>, tail: string)
    requires |cs| == |fmt|
    requires forall i :: 0 <= i < |cs| ==> Reads(fmt[i], cs[i], Joined(cs[i + 1..], tail))
    ensures ReadsAll(cs, fmt, tail)
    decreases |cs|
  {
    if cs != [] {
      assert Reads(fmt[0], cs[0], Joined(cs[0 + 1..], tail));
      forall i | 0 <= i < |cs| - 1
        ensures Reads(fmt[1..][i], cs[1..][i], Joined(cs[1..][i + 1..], tail))
      {
        assert cs[1..][i + 1..] == cs[i + 1 + 1..];
        assert Reads(fmt[i + 1], cs[i + 1], Joined(cs[i + 1 + 1..], tail));
      }
      ReadsEach(cs[1..], fmt[1..], tail);
    }
  }

  /** A format whose directives each read one column reads every column. */
  lemma {:induction false} ScanJoined(cs: seq<Column>, fmt: seq<Directive>, tail: string)
    requires |cs| == |fmt| && ReadsAll(cs, fmt, tail)
    ensures Scan(Joined(cs, tail), fmt) == Some(Values(cs, fmt))
    decreases |cs|
  {
    if cs != [] {
      ScanColumn(fmt[0], cs[0], Joined(cs[1..], tail));
      ScanJoined(cs[1..], fmt[1..], tail);
    }
  }

  /** Cutting a column in two, the second half with no blanks before it,
      leaves the line as it was. */
  lemma {:induction false} SplitColumn(cs: seq<Column>, i: nat, n: nat, tail: string)
    requires i < |cs| && n <= |cs[i].text|
    ensures Joined(cs, tail) == Joined(Split(cs, i, n), tail)
    decreases i
  {
    var halves := [Column(cs[i].gap, cs[i].text[..n]), Column(0, cs[i].text[n..])];
    var ds := cs[..i] + halves + cs[i + 1..];
    if i == 0 {
      var c := cs[0];
      assert ds[0] == halves[0] && ds[1..][0] == halves[1] && ds[1..][1..] == cs[1..];
      assert c.text == c.text[..n] + c.text[n..];
      var rest := Joined(cs[1..], tail);
      assert Joined(ds[1..], tail) == Blanks(0) + c.text[n..] + rest;
      assert Blanks(0) == [];
    } else {
      SplitColumn(cs[1..], i - 1, n, tail);
      assert ds[0] == cs[0];
      assert ds[1..] == cs[1..][..i - 1] + halves + cs[1..][i - 1 + 1..];
    }
  }

  /** The kernel's columns in the pieces the row format reads: the
      17-character "tx_queue:rx_queue" column as 15 + 2 characters and the
      11-character "tr:tm->when" column as 7 + 4. */
  function ScannedColumns(k: KernelLine): (cs: seq<Column>)
    ensures |cs| == 13
  {
    var queues := HexString(k.txQueue, 8) + ":" + HexString(k.rxQueue, 8);
    var timer := HexString(k.timerActive, 2) + ":" + HexString(k.timerExpires, 8);
    [ Column(Padding(k.sl, 4), DecString(k.sl)),
      Column(0, ":"),
      Column(1, k.local),
      Column(1, k.remote),
      Column(1, HexString(k.state, 2)),
      Column(1, queues[..15]),
      Column(0, queues[15..]),
      Column(1, timer[..7]),
      Column(0, timer[7..]),
      Column(1, HexString(k.retransmits, 8)),
      Column(1 + Padding(k.uid, 5), DecString(k.uid)),
      Column(1 + Padding(k.probes, 8), DecString(k.probes)),
      Column(1, DecString(k.inode)) ]
  }

  /** Column i cut after its first n characters. */
  function Split(cs: seq<Column>, i: nat, n: nat): (ds: seq<Column>)
    requires i < |cs| && n <= |cs[i].text|
    ensures |ds| == |cs| + 1
  {
    cs[..i] + [Column(cs[i].gap, cs[i].text[..n]), Column(0, cs[i].text[n..])] + cs[i + 1..]
  }

  lemma ScannedColumnsSplit(k: KernelLine)
    ensures var ds := Split(KernelColumns(k), 5, 15);
      ScannedColumns(k) == Split(ds, 7, 7)
  {
    var cs := KernelColumns(k);
    var ds := Split(cs, 5, 15);
    assert ds[7] == cs[6];
    assert ds[..7] == cs[..5] + [Column(1, cs[5].text[..15]), Column(0, cs[5].text[15..])];
    assert ds[8..] == cs[7..];
  }

  lemma ScannedColumnsJoined(k: KernelLine, tail: string)
    ensures KernelRow(k, tail) == Joined(ScannedColumns(k), tail)
  {
    var cs := KernelColumns(k);
    SplitColumn(cs, 5, 15, tail);
    var ds := Split(cs, 5, 15);
    SplitColumn(ds, 7, 7, tail);
    ScannedColumnsSplit(k);
  }

  /** Hex digits and ':' are not white space. */
  lemma HexColonText(a: string, b: string)
    requires AllHex(a) && AllHex(b)
    ensures NoSpace(a + ":" + b)
  {
  }

  /** The first character after column j - 1: a blank when column j has
      blanks before it, otherwise the first character of its text. */
  lemma NextChar(cs: seq<Column>, j: nat, tail: string)
    requires j <= |cs|
    ensures j == |cs| ==> Joined(cs[j..], tail) == tail
    ensures j < |cs| && cs[j].gap > 0 ==> Joined(cs[j..], tail) != [] && Joined(cs[j..], tail)[0] == ' '
    ensures j < |cs| && cs[j].gap == 0 && cs[j].text != [] ==>
      Joined(cs[j..], tail) != [] && Joined(cs[j..], tail)[0] == cs[j].text[0]
  {
    if j < |cs| {
      assert cs[j..][0] == cs[j];
      var rest := Joined(cs[j..][1..], tail);
      assert Joined(cs[j..], tail) == Blanks(cs[j].gap) + cs[j].text + rest;
    } else {
      assert cs[j..] == [];
    }
  }

  predicate NumberColumn(c: Column)
  {
    c.text != [] && AllDigits(c.text)
  }

  predicate WordColumn(c: Column, width: nat)
  {
    0 < |c.text| <= width && NoSpace(c.text)
  }

  /** The shape of a line the row format reads whole: numbers, a ':', words
      of the right widths, blanks where a word stops short of its width. */
  predicate RowShape(cs: seq<Column>)
  {
    && |cs| == 13
    && NumberColumn(cs[0]) && cs[1] == Column(0, ":")
    && WordColumn(cs[2], 63) && WordColumn(cs[3], 63) && WordColumn(cs[4], 7)
    && WordColumn(cs[5], 15) && |cs[5].text| == 15 && WordColumn(cs[6], 15)
    && WordColumn(cs[7], 7) && |cs[7].text| == 7 && WordColumn(cs[8], 15) && WordColumn(cs[9], 15)
    && NumberColumn(cs[10]) && NumberColumn(cs[11]) && NumberColumn(cs[12])
    && cs[3].gap > 0 && cs[4].gap > 0 && cs[5].gap > 0 && cs[7].gap > 0
    && cs[9].gap > 0 && cs[10].gap > 0 && cs[11].gap > 0 && cs[12].gap > 0
  }

  /** The row format reads the first five columns of a line of that shape. */
  lemma ReadsFront(cs: seq<Column>, tail: string, i: nat)
    requires RowShape(cs) && i < 5
    ensures Reads(RowFormat[i], cs[i], Joined(cs[i + 1..], tail))
  {
    NextChar(cs, i + 1, tail);
    if i == 0 {
      assert RowFormat[0] == Unsigned;
    } else if i == 1 {
      assert RowFormat[1] == Literal(':');
    } else if i == 2 {
      assert RowFormat[2] == Word(63);
    } else if i == 3 {
      assert RowFormat[3] == Word(63);
    } else {
      assert RowFormat[4] == Word(7);
    }
  }

  /** The row format reads the middle columns of a line of that shape. */
  lemma ReadsMiddle(cs: seq<Column>, tail: string, i: nat)
    requires RowShape(cs) && 5 <= i < 10
    ensures Reads(RowFormat[i], cs[i], Joined(cs[i + 1..], tail))
  {
    NextChar(cs, i + 1, tail);
    if i == 5 {
      assert RowFormat[5] == Word(15);
    } else if i == 6 {
      assert RowFormat[6] == Word(15);
    } else if i == 7 {
      assert RowFormat[7] == Word(7);
    } else if i == 8 {
      assert RowFormat[8] == Word(15);
    } else {
      assert RowFormat[9] == Word(15);
    }
  }

  /** The row format reads the last three numbers of a line of that shape. */
  lemma ReadsBack(cs: seq<Column>, tail: string, i: nat)
    requires RowShape(cs) && 10 <= i < 13
    requires tail == [] || !IsDigit(tail[0])
    ensures Reads(RowFormat[i], cs[i], Joined(cs[i + 1..], tail))
  {
    NextChar(cs, i + 1, tail);
    assert RowFormat[i] == Unsigned;
  }

  /** Every directive of the row format reads its column of a line of that
      shape. */
  lemma ShapeRead(cs: seq<Column>, tail: string)
    requires RowShape(cs)
    requires tail == [] || !IsDigit(tail[0])
    ensures ReadsAll(cs, RowFormat, tail)
  {
    forall i | 0 <= i < 13
      ensures Reads(RowFormat[i], cs[i], Joined(cs[i + 1..], tail))
    {
      if i < 5 {
        ReadsFront(cs, tail, i);
      } else if i < 10 {
        ReadsMiddle(cs, tail, i);
      } else {
        ReadsBack(cs, tail, i);
      }
    }
    ReadsEach(cs, RowFormat, tail);
  }

  /** A kernel line has that shape once split into the pieces the format reads. */
  lemma ScannedShape(k: KernelLine)
    requires AddressText(k.local) && AddressText(k.remote)
    ensures RowShape(ScannedColumns(k))
  {
    var cs := ScannedColumns(k);
    HexColonText(HexString(k.txQueue, 8), HexString(k.rxQueue, 8));
    HexColonText(HexString(k.timerActive, 2), HexString(k.timerExpires, 8));
    assert AllHex(cs[4].text) && AllHex(cs[9].text);
  }

  /** Every line the kernel writes is read by the row scan: its remote address
      column and its inode come out, whatever the other columns hold. */
  lemma KernelRowParses(k: KernelLine, tail: string)
    requires AddressText(k.local) && AddressText(k.remote)
    requires tail == [] || !IsDigit(tail[0])
    ensures ParseRow(KernelRow(k, tail)) == Some(Row(k.remote, k.inode))
  {
    var cs := ScannedColumns(k);
    ScannedColumnsJoined(k, tail);
    ScannedShape(k);
    ShapeRead(cs, tail);
    ScanJoined(cs, RowFormat, tail);
    ValuesAt(cs, RowFormat, 3);
    ValuesAt(cs, RowFormat, 12);
    DecStringValue(k.inode);
  }

  /** A kernel line matches exactly the inode in its inode column. */
  lemma KernelRowMatches(k: KernelLine, tail: string, inode: nat)
    requires AddressText(k.local) && AddressText(k.remote)
    requires tail == [] || !IsDigit(tail[0])
    ensures RowMatches(KernelRow(k, tail), inode) <==> inode == k.inode
  {
    KernelRowParses(k, tail);
  }

  lemma {:induction false} HexBytesHex(b: seq<byte>)
    ensures AllHex(HexBytes(b))
  {
    if b != [] {
      HexBytesHex(b[..|b| - 1]);
    }
  }

  /** A table whose first row is the kernel's line for an IPv4 connection
      gives that connection's remote address and port. */
  lemma KernelTableV4(header: string, k: KernelLine, tail: string, more: seq<string>, o: seq<byte>, port: nat)
    requires |o| == 4 && port < 65536
    requires AddressText(k.local) && k.remote == EncodeV4(o, port)
    requires tail == [] || !IsDigit(tail[0])
    ensures LookupTable([header, KernelRow(k, tail)] + more, k.inode) == Some(Endpoint(V4(o), Some(port)))
  {
    var r := KernelRow(k, tail);
    var lines := [header, r] + more;
    assert AddressText(k.remote);
    KernelRowParses(k, tail);
    assert lines[1..][0] == r;
    assert FindRow(lines[1..], k.inode) == 0;
    DecodeEncodeV4(o, port);
  }

  /** A table whose first row has the rem_address EncodeV6(b, port), the
      text parse_ipv6_port reads back as b, gives b and the port. */
  lemma KernelTableV6(header: string, k: KernelLine, tail: string, more: seq<string>, b: seq<byte>, port: nat)
    requires |b| == 16 && port < 65536
    requires AddressText(k.local) && k.remote == EncodeV6(b, port)
    requires tail == [] || !IsDigit(tail[0])
    ensures LookupTable([header, KernelRow(k, tail)] + more, k.inode) == Some(Endpoint(V6(b), Some(port)))
  {
    var r := KernelRow(k, tail);
    HexBytesHex(Reverse(b));
    HexColonText(HexBytes(Reverse(b)), HexString(port, 4));
    var lines := [header, r] + more;
    KernelRowParses(k, tail);
    assert lines[1..][0] == r;
    assert FindRow(lines[1..], k.inode) == 0;
    DecodeEncodeV6(b, port);
  }

  /** A table whose first row is the kernel's own net/tcp6 line for a
      connection to b gives b with its four 32-bit words in reverse order. */
  lemma KernelTableTcp6(header: string, k: KernelLine, tail: string, more: seq<string>, b: seq<byte>, port: nat)
    requires |b| == 16 && port < 65536
    requires AddressText(k.local) && k.remote == KernelV6Text(b, port)
    requires tail == [] || !IsDigit(tail[0])
    ensures LookupTable([header, KernelRow(k, tail)] + more, k.inode) == Some(Endpoint(V6(WordsReversed(b)), Some(port)))
  {
    KernelV6TextReversed(b, port);
    KernelTableV6(header, k, tail, more, WordsReversed(b), port);
  }
}
