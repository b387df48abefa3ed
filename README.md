# jinsock in Dafny

jinsock is a Linux tool that finds the TCP sockets of running processes and
injects data into them. It has two front ends.

- It lists sockets by walking `/proc/<pid>/fd`. Each link target of the form
  `socket:[<inode>]` is looked up in the process's `net/tcp` (or `net/tcp6`)
  table to find the remote endpoint. Up to 1024 results are kept in a global
  registry.
- It duplicates a chosen socket into its own process with `pidfd_open` and
  `pidfd_getfd`. Through the copy it sends a string, sends a file, or receives
  until a timeout, into a file or to standard output.
- `main.c` is both an interactive shell (`search`, `select`, `send`, `sendf`,
  `rec`, `timeout`, `quit`) and a flag-driven one-shot mode.

This project models the core of `jinsock.c` and `main.c` and proves
properties of the model. The files are:

- `text.dfy`: the C string helpers the core relies on. These are
  `trim_newline`, `strstr`, `atoi`, the `%X`, `%u`, `%llu` and `%d` scanf
  conversions, and the shell's space skipping. The module `Options` holds the
  Option type.
- `address_codec.dfy`: `parse_ip_port` and `parse_ipv6_port`. Each is a
  function from hex text to an endpoint. `EncodeV4` is the kernel's own
  `net/tcp` text, and decoding inverts it. `EncodeV6` is the text that
  `parse_ipv6_port` reads back as the same bytes. `KernelV6Text` is the
  kernel's own `net/tcp6` text, four 32-bit words each written as `%08X`;
  it decodes with its words in reverse order.
- `inode_resolver.dfy`: the `socket:[` parse, the row scan of
  `get_remote_addr_from_inode`, and the choice between `net/tcp` and
  `net/tcp6`. A table is the sequence of its lines.
- `tcp_table.dfy`: the rows the kernel writes into `net/tcp` and `net/tcp6`,
  column by column, and the proof that the row scan reads back their
  `rem_address` and `inode` columns. The `rem_address` of an IPv4 row decodes
  to its address. The kernel's `net/tcp6` address text decodes with its 32-bit
  words reversed (`TcpTable.KernelTableTcp6`).
- `socket_scanner.dfy`: `cmd_search`. The process directory is an input
  value. The registry is a class with the array `entries` and the counter
  `count`, filled in place by nested loops.
- `injection.dfy`: `dup_socket_and_send`, `dup_socket_and_sendfile` and
  `dup_socket_and_recv`, as methods of a `Kernel` class.
  - The kernel's replies are a `Script`: handle grants, read counts, send
    results, select results and recv chunks, in call order.
  - The kernel also tracks the process's descriptor table and the output
    written.
  - Every method is proved against a function of the script, and proved to
    close every handle it obtained.
- `shell.dfy`: the shell and flag mode of `main.c`.
  - `Classify` is the prefix classification of an input line.
  - `Decide` and `Run` are pure step and loop functions over the state they
    touch: `selected_fd`, `recv_timeout_sec`, the registry, the kernel script
    and the output.
  - The `Shell` class runs them in place.
  - `Chosen` and `FlagRun` give flag mode's validation, priority and exit
    status.

Notes on the source:
- `parse_ipv6_port` reverses all 16 bytes. So the table text
  `00000000000000000000000000000001:1F90` gives the bytes 1, 0, …, 0, which
  is the address `100::`. The comment at jinsock.c:77 shows this text as the
  example format and does not say which address it stands for; `::1` would be
  `00000000000000000000000001000000`. The model follows the code
  (`AddressCodec.DecodeV6LastPairFirst`).
- The kernel writes a `net/tcp6` address as four 32-bit words, each `%08X`
  of the word in host order. On a little-endian machine `::1` is written
  `00000000000000000000000001000000`. `parse_ipv6_port` reverses all 16
  bytes, so it returns the four words in reverse order and `::1` comes back
  as `0:1::` (`AddressCodec.DecodeKernelV6`,
  `AddressCodec.DecodeKernelV6LastWord`, `AddressCodec.KernelV6Loopback`).
  The model follows the code.
- The comment at jinsock.c:180 calls the pattern filter case-insensitive, but
  `strstr` is case-sensitive. The model follows the code
  (`SocketScanner.CaseSensitive`).
- In `dup_socket_and_recv`, `tv` is reset to `recv_timeout_sec` after every
  chunk, and every other path leaves the loop. So every `select` call waits
  for the full timeout; `Output.budgets` records each call's timeout.
- When `parse_ipv6_port`'s port scan fails, `*port` is not written, and the
  registry slot keeps its previous `rem_port` (`SocketScanner.MakeEntry`).
- A search that finds fewer sockets does not reset `selected_fd`, so later
  commands use the slot as the earlier search left it
  (`Shell.SelectionOutlivesSearch`).
- Flag mode counts `--rec` without a file as an action only when the last
  argument consumed is exactly `-r` (main.c:80). So `--rec` alone is refused
  (`Shell.RecDetection`).

## Model

| member | source | states |
|---|---|---|
| Text.TrimNewline | jinsock.c:32-35 | the result is the input with one trailing newline removed; it is shorter exactly when the input ends in '\n' |
| Text.TrimNewlineAppended | jinsock.c:32-35 | trimming s + "\n" gives s back; a string without a trailing newline is unchanged |
| Text.SkipBlanks | main.c:123-124 | the result is a suffix of the input that does not start with ' ', and everything dropped is ' ' |
| Text.HexRun | jinsock.c:62 | "%8X" consumes at most 8 leading hex digits and stops at the first non-hex character |
| Text.HexStringValue | jinsock.c:62 | reading the kernel's w-digit "%0wX" text of n back gives n |
| Text.DigitRun | jinsock.c:103 | "%llu" consumes exactly the leading decimal digits |
| Text.DecStringValue | jinsock.c:185 | the "%d" text of a non-negative n reads back as n |
| Text.Atoi | jinsock.c:174 | atoi of a string is the value of its leading digits, below 10 to the string's length |
| Text.AtoiDecString | jinsock.c:174 | atoi of the decimal text of n is n |
| Text.StrStrFrom | jinsock.c:182 | strstr finds the first position at which the needle occurs, or reports that it occurs nowhere |
| Text.ContainsIff | jinsock.c:182 | strstr is non-NULL exactly when the needle occurs somewhere in the haystack |
| Text.SkipSpaces | main.c:128 | scanf's implicit skip passes exactly the isspace characters |
| Text.ScanIntDecString | main.c:128 | "%d" on " n" followed by a non-digit reads n |
| Text.ScanInt | main.c:126-128 | "%d" fails on text without a digit; a success starts, after white space, with a digit or a sign and a digit; a negative value comes only from a '-' |
| AddressCodec.ScanHex | jinsock.c:82 | "%X" succeeds exactly when the text starts with a hex digit |
| AddressCodec.Octets | jinsock.c:65-69 | bytes[k] = (ipval >> 8k) & 0xFF, so the four octets read least significant first give back the 32-bit value |
| AddressCodec.OctetsOfLittleEndian | jinsock.c:66-69 | any four octets come back from their little-endian value |
| AddressCodec.DecodeV4 | jinsock.c:51-74 | success exactly when there are at least 13 characters and "%8X:%X" reads both fields; the octets are the first field's value, least significant byte first, and the port is the hex after ':' |
| AddressCodec.DecodeEncodeV4 | jinsock.c:51-74 | decoding the kernel's "%08X:%04X" text of an address and port gives back the same octets and port |
| AddressCodec.DecodeV4Loopback | jinsock.c:52 | "0100007F:1F90" decodes to 127.0.0.1 port 8080 |
| AddressCodec.DecodeV6 | jinsock.c:76-91 | success exactly when there are at least 37 characters; output byte 15 - i is the hex pair at 2i, 2i + 1; the port is "%X" from position 33 |
| AddressCodec.DecodeEncodeV6 | jinsock.c:76-91 | decoding the byte-reversed hex text of 16 bytes and a port gives those bytes and that port back |
| AddressCodec.HexBytesAt | jinsock.c:86-87 | each two-digit pair written for a byte reads back, through strtol, as that byte |
| AddressCodec.PairValue | jinsock.c:86-87 | strtol on a two-character pair: two hex digits give their value, a hex digit then a non-hex character gives the one digit, no hex digit gives 0 |
| AddressCodec.PairValueLax | jinsock.c:86-87 | strtol skips a blank and accepts a sign before one digit, "-1" wraps to 255 in the cast, and reading stops at the first non-hex character |
| AddressCodec.ReverseInvolution | jinsock.c:85-88 | the byte reversal applied twice is the identity |
| AddressCodec.DecodeV6LastPairFirst | jinsock.c:77-88 | "0…01:1F90" decodes to the bytes 1, 0, …, 0 (the address 100::) with port 8080 |
| AddressCodec.HexStringByte | jinsock.c:77-88 | the w + 2 digit hex text of n is the w digit text of n / 256 followed by the two digits of its low byte |
| AddressCodec.ValueText | jinsock.c:77-88 | the hex text of a little-endian value, two digits per byte, is its bytes' hex pairs, most significant first |
| AddressCodec.WordText | jinsock.c:77-88 | the "%08X" text of a word is the hex pairs of its four host-order bytes, last byte first |
| AddressCodec.HexBytesAppend | jinsock.c:85-88 | the hex text of two byte runs joined is their texts joined |
| AddressCodec.KernelV6Text | jinsock.c:77-88 | the kernel's net/tcp6 text of an address and port is 37 characters long |
| AddressCodec.WordsReversed | jinsock.c:85-88 | output byte i is byte 4 (3 - i / 4) + i % 4 of the input: the four 4-byte words in reverse order |
| AddressCodec.KernelV6TextReversed | jinsock.c:76-91 | the kernel's word-by-word text of b is the text parse_ipv6_port reads back as b with its words reversed |
| AddressCodec.DecodeKernelV6 | jinsock.c:76-91 | parse_ipv6_port on the kernel's net/tcp6 text of b and a port gives b with its four words reversed, and the port |
| AddressCodec.ZeroText | jinsock.c:77 | the hex text of 0 in w digits is w zeros |
| AddressCodec.OneWordText | jinsock.c:77 | the word of ::1's last four bytes 0, 0, 0, 1 is written "01000000" |
| AddressCodec.KernelV6Loopback | jinsock.c:77 | the kernel writes ::1 port 8080 as three zero words, "01000000" and ":1F90" |
| AddressCodec.DecodeKernelV6LastWord | jinsock.c:85-88 | the kernel text of twelve zero bytes and a last word w decodes to w followed by twelve zero bytes, so ::1 decodes to 0:1:: |
| AddressCodec.ScanHexPort | jinsock.c:52 | the port text "1F90" reads as 8080 |
| InodeResolver.ParseSocketInode | jinsock.c:101-107 | an inode is read exactly when the link starts with "socket:[" followed by a digit; the closing ']' is not checked |
| InodeResolver.SocketInodeOfLink | jinsock.c:101-105 | "socket:[n]", or n followed by any non-digit, yields n |
| InodeResolver.NonSocketLinks | jinsock.c:103-107 | pipe, anon_inode and plain-path links, and "socket:[]", yield no inode |
| InodeResolver.ScanWord | jinsock.c:145 | "%<width>s" succeeds exactly when non-space text remains; it reads 1 to width non-space characters and, short of width, stops at white space |
| InodeResolver.ScanUnsigned | jinsock.c:145 | "%u" succeeds exactly when the first non-space character is a digit, and reads every digit from there |
| InodeResolver.Scan | jinsock.c:144-146 | a successful scan returns one value per directive |
| InodeResolver.ScanWords | jinsock.c:144-146 | every string field of a successful row scan is 1 to its width non-space characters |
| InodeResolver.ParseRow | jinsock.c:144-146 | a parsed row's rem_address is 1 to 63 non-space characters |
| InodeResolver.FindRow | jinsock.c:137-147 | the position of the first matching row: every earlier row fails to match, and the row there matches |
| InodeResolver.DecodeRemote | jinsock.c:150-156 | a 13-character field is decoded as IPv4, a 37-character one as IPv6, any other length fails |
| InodeResolver.ResolveRemote | jinsock.c:125-162 | the result is that of net/tcp when it can be opened, else of net/tcp6, else failure |
| InodeResolver.SearchTable | jinsock.c:135-161 | the loop returns the decoded remote field of the first row after the header whose inode matches, or failure when there is none |
| InodeResolver.LookupTable | jinsock.c:135-161 | a table in which no row after the header matches the inode gives failure |
| InodeResolver.FirstMatchFound | jinsock.c:135-157 | when row k is the first row after the header that matches, the table's result is the decoded rem_address of row k |
| InodeResolver.FindRowAtLeast | jinsock.c:137-147 | the search moves past every row before the first match |
| InodeResolver.FirstMatchDecides | jinsock.c:147-157 | lines after the first matching row do not change the result |
| InodeResolver.NonMatchingRowsIgnored | jinsock.c:144-158 | non-matching rows placed before the others do not change the result |
| InodeResolver.HeaderSkipped | jinsock.c:136 | the first line is skipped whatever it holds |
| InodeResolver.Tcp6OnlyAsFallback | jinsock.c:127-134 | net/tcp6 is irrelevant when net/tcp opens, and decides when it does not |
| TcpTable.ScanColumn | jinsock.c:144-146 | one conversion, on a column of blanks and text that it accepts, returns the column's value and leaves the rest of the line |
| TcpTable.ScanJoined | jinsock.c:144-146 | the row scan of columns that each read as their directive returns one value per column, each column's value |
| TcpTable.KernelRowParses | jinsock.c:141-146 | a row in the kernel's net/tcp layout parses to its rem_address column and its inode, although the 17-character tx_queue:rx_queue column is read as 15 + 2 characters |
| TcpTable.KernelRowMatches | jinsock.c:144-147 | a kernel row matches an inode exactly when the inode is the row's own |
| TcpTable.KernelTableV4 | jinsock.c:135-158 | a table whose first row after the header is the kernel row of an IPv4 socket gives that socket's remote address and port |
| TcpTable.KernelTableV6 | jinsock.c:135-158 | a table whose first row after the header has the rem_address EncodeV6(b, port) gives b and the port |
| TcpTable.KernelTableTcp6 | jinsock.c:135-158 | a table whose first row after the header is the kernel's net/tcp6 row of a socket with address b gives b with its four words reversed, and the port |
| SocketScanner.FgetsLine | jinsock.c:115 | fgets returns a prefix of at most cap characters, ending at the first newline when it stops early |
| SocketScanner.LoadProcName | jinsock.c:110-122 | the name is a prefix of the comm file, at most 255 characters, with no newline; an unreadable or empty comm file gives "" |
| SocketScanner.LoadProcNameOfComm | jinsock.c:110-122 | the kernel's "name\n" comm file gives back name |
| SocketScanner.KeepsIff | jinsock.c:179-189 | a non-empty pattern keeps a process exactly when it occurs in the name or in the decimal pid |
| SocketScanner.CaseSensitive | jinsock.c:180-182 | "SSH" does not select "sshd" while "ssh" does |
| SocketScanner.NoPatternKeepsAll | jinsock.c:179 | no pattern and an empty pattern keep the same sockets, every socket of the process |
| SocketScanner.Keeps | jinsock.c:179-189 | a pattern that keeps a process is no longer than the process name or than its decimal pid |
| SocketScanner.Visible | jinsock.c:198 | "." and ".." are skipped and every numeric fd name is visited |
| SocketScanner.IsProcess | jinsock.c:173 | a directory entry is a process exactly when it starts with a digit, so every numeric name is one |
| SocketScanner.ProcSockets | jinsock.c:173-223 | a non-process or a process without a readable fd directory gives nothing; otherwise at most one socket per fd entry, each carrying atoi of the directory name, the loaded process name, and kept by the pattern; a kept process with a readable fd directory gives exactly the sockets of its fd entries |
| SocketScanner.DiscoverAll | jinsock.c:171-225 | every socket discovered comes from one of the listed processes |
| SocketScanner.SocketInode | jinsock.c:98-107 | an inode comes only from a readable link that parses as a socket |
| SocketScanner.FdSocket | jinsock.c:198-220 | an fd entry yields one socket exactly when its name does not start with '.' and its link is a socket, carrying pid, atoi(name), the process name and the resolved endpoint |
| SocketScanner.FdSocketsShape | jinsock.c:197-221 | a process yields at most one socket per fd entry, all with its pid and name |
| SocketScanner.DiscoveredAreKept | jinsock.c:172-223 | every discovered socket belongs to a process the pattern keeps |
| SocketScanner.SkippedProcess | jinsock.c:173-188 | a non-numeric or filtered-out directory entry contributes nothing wherever it is listed |
| SocketScanner.MakeEntry | jinsock.c:208-218 | pid, fd and name are copied; a resolved endpoint stores its address and port (keeping the slot's previous port when none was read); an unresolved one stores "?" and port 0 |
| SocketScanner.Registry.constructor | jinsock.c:28-29 | the registry starts empty with every slot zeroed |
| SocketScanner.Registry.Scan | jinsock.c:164-231 | entry_count restarts at 0; slot k holds the k-th discovered socket for as many as fit in 1024; later slots keep their contents; the result reports truncation exactly when more were discovered |
| SocketScanner.Registry.ScanAll | jinsock.c:171-225 | the readdir loop over the process directory stores DiscoverAll of it and reports truncation |
| SocketScanner.Registry.ScanProcess | jinsock.c:173-195 | a kept process with a readable fd directory stores its sockets; a full registry stops the scan |
| SocketScanner.Registry.RecordSockets | jinsock.c:196-222 | the fd loop stores each socket in the next slot, or stops when a socket finds every slot taken |
| SocketScanner.Registry.RecordSocket | jinsock.c:198-220 | one fd entry: nothing for a non-socket; "full" when entry_count has reached 1024; otherwise one stored entry |
| SocketScanner.Registry.Store | jinsock.c:208-219 | the next slot receives the entry and entry_count grows by one |
| SocketScanner.Registry.Settle | jinsock.c:202-206 | a stored prefix of all the sockets that is either all of them or 1024 long is the registry Scan promises |
| SocketScanner.TruncatedAt | jinsock.c:202-206 | overflowing within one process means the whole directory overflows |
| SocketScanner.FullAt | jinsock.c:202-206 | a socket that finds every slot taken means the process yields more sockets than fit |
| Injection.SendAmount | jinsock.c:249 | send returns -1 exactly on failure, otherwise the bytes the kernel takes or the whole length, whichever is smaller |
| Injection.Granted | jinsock.c:238-248 | the number of leading acquisitions granted, at most the number attempted |
| Injection.GrantedAll | jinsock.c:238-248 | k acquisitions all succeed exactly when the script starts with k grants |
| Injection.RefusalIsFinal | jinsock.c:257-274 | after a refusal, attempting one more acquisition changes nothing |
| Injection.OneMore | jinsock.c:262-274 | after k grants, one more attempt succeeds exactly when the next grant does |
| Injection.SendOutcome | jinsock.c:233-254 | the result is -1 exactly for an invalid pid or fd, a refused pidfd_open or pidfd_getfd, or a failed send; otherwise the bytes the kernel takes or the whole length, whichever is smaller |
| Injection.SendHi | jinsock.c:249-253 | "hi" sent to a socket whose handles are granted and whose send accepts everything returns 2 |
| Injection.Pump | jinsock.c:278-288 | the read/send loop returns -1 exactly when a send fails before end of file (SendFails), otherwise at least the bytes already sent |
| Injection.SendFileOutcome | jinsock.c:256-293 | -1 exactly when open, pidfd_open or pidfd_getfd is refused or a send fails; otherwise at most the bytes the file offered |
| Injection.PumpShift | jinsock.c:277-288 | starting with acc bytes already sent adds acc to the total unless a send fails, and consumes the same replies |
| Injection.PumpBounded | jinsock.c:278-288 | the total sent never exceeds the bytes the file offered before end of file or a read error |
| Injection.PumpComplete | jinsock.c:278-288 | when every send takes its whole chunk, the total is exactly the bytes the file offered |
| Injection.SendFileWholeFile | jinsock.c:275-292 | a 10000-byte file read as 4096 + 4096 + 1808 bytes is reported as 10000 bytes sent |
| Injection.Listen | jinsock.c:326-359 | the receive loop only adds to the data received so far and makes at least one more select call |
| Injection.ListenShift | jinsock.c:324-359 | the received data and the select count of a session accumulate exactly |
| Injection.ListenTwoChunks | jinsock.c:326-359 | two chunks and then a timeout deliver both chunks in order after three select calls |
| Injection.RecvOutcome | jinsock.c:295-366 | 0 or -1, and 0 exactly when every handle it needs (two, or three with an output file) is granted |
| Injection.FdTable.Obtain | jinsock.c:238 | a new handle is the next number, now open, and nothing else opens |
| Injection.FdTable.Release | jinsock.c:251-252 | close removes the handle and logs it as the last one closed; the next number and the acquired handles are unchanged |
| Injection.RestoresTwo | jinsock.c:246-252 | obtaining two handles and closing both, in either order, leaves the open set as it was and closes exactly what was obtained |
| Injection.RestoresThree | jinsock.c:289-291 | sendfile's three handles, closed f, sockfd, pidfd, leave the open set as it was |
| Injection.RestoresThreeReversed | jinsock.c:360-362 | recv's three handles, closed outf, sockfd, pidfd, leave the open set as it was |
| Injection.Kernel.Acquire | jinsock.c:238 | a handle is granted exactly when the script grants it, and is the next number |
| Injection.Kernel.Close | jinsock.c:251 | close releases the handle and changes nothing else |
| Injection.Kernel.Read | jinsock.c:278 | read returns the script's next read count and consumes it |
| Injection.Kernel.Transmit | jinsock.c:249 | send returns the script's next reply, -1 or at most the length asked, and consumes it |
| Injection.Kernel.Select | jinsock.c:329 | select returns the script's next reply and records the timeout it was given |
| Injection.Kernel.Recv | jinsock.c:339 | recv returns the script's next chunk, error or close, and consumes it |
| Injection.Kernel.Deliver | jinsock.c:348-354 | a chunk is appended to the output file when there is one, else to standard output |
| Injection.Appended | jinsock.c:326-359 | one timeout is recorded per select call of the session, and standard output is untouched when a file is named |
| Injection.Kernel.Duplicate | jinsock.c:238-248 | pidfd_open then pidfd_getfd: both handles on success; on a failure the handles obtained are closed, so a refused pidfd_getfd closes the pidfd |
| Injection.Kernel.Send | jinsock.c:233-254 | returns SendOutcome of the script, consumes SendScript, leaves the output alone, and closes every handle it obtained, the socket and then the pidfd |
| Injection.Kernel.Prepare | jinsock.c:257-273 | all three handles when all are granted; a refused pidfd_open closes the file, a refused pidfd_getfd closes the file and then the pidfd |
| Injection.Kernel.Connect | jinsock.c:262-273 | with the file open: pidfd_open and pidfd_getfd, closing the file and then the pidfd on a refusal |
| Injection.Kernel.Stream | jinsock.c:275-288 | the loop returns Pump's total and consumes the reads and sends Pump consumes |
| Injection.Kernel.SendFile | jinsock.c:256-293 | returns SendFileOutcome, consumes SendFileScript, and closes every handle it obtained; once all three are held they are closed file, socket, pidfd |
| Injection.Kernel.Attach | jinsock.c:296-322 | pidfd_open, pidfd_getfd and fopen "wb" (which truncates the file); a refused fopen closes the socket and then the pidfd, and earlier refusals close what was obtained |
| Injection.Kernel.Hold | jinsock.c:296-322 | recv's two or three acquisitions: all handles, numbered in order, when all are granted, the file truncated when one is named; on a refusal every handle obtained is closed and the output is untouched |
| Injection.Kernel.Drain | jinsock.c:324-359 | the loop writes Listen's data to the file or standard output, makes Listen's select calls with the full timeout each, and returns the byte count |
| Injection.Kernel.Serve | jinsock.c:324-365 | after the loop the output file, the socket and the pidfd are closed, in that order |
| Injection.Kernel.Receive | jinsock.c:295-366 | returns RecvOutcome, -1 exactly when a handle is refused (output untouched), else 0 with the file truncated and then given the session's data; every handle obtained is closed, on success output file, socket, pidfd |
| Injection.Received | jinsock.c:313-365 | a named file ends holding exactly the session's data and standard output is untouched; without a file the data is appended to standard output; one timeout is recorded per select call |
| Shell.Classify | main.c:120-190 | a line is Blank exactly when it is empty, and an unknown line carries itself |
| Shell.Argument | main.c:123-125 | a returned argument is non-empty and does not start with a space |
| Shell.SendfBeforeSend | main.c:134-149 | a line starting "sendf" is a file send with the spaces after it skipped, never a string send |
| Shell.SendIff | main.c:134-149 | a line is a string send exactly when it starts "send" but not "sendf" |
| Shell.UnknownIff | main.c:120-190 | a line is unknown exactly when it is non-empty and starts with none of the eight words |
| Shell.HelpmeIsHelp | main.c:120 | "helpme" is help: only the prefix is compared |
| Shell.SendfooIsSendf | main.c:134-140 | "sendfoo" sends the file "oo" |
| Shell.RecPrefix | main.c:164-175 | a line starting "rec" is rec with the rest, after its spaces, as the output file |
| Shell.RecipeIsRec | main.c:164-175 | "recipe" receives into the file "ipe" |
| Shell.Bytes | main.c:161 | the bytes sent are as many as the characters |
| Shell.Inject | main.c:145-175 | an injection's reply carries the request and the call's result, and only the script and output change |
| Shell.Outcome | main.c:146 | a call's result is that of the injection function named, and the send functions leave the output alone |
| Shell.Initial | main.c:7-8 | the shell starts with no selection and a 5-second timeout |
| Shell.AfterScan | jinsock.c:164-231 | slot k holds the k-th discovered socket for k below the new entry_count, and every later slot is unchanged |
| Shell.Decide | main.c:118-190 | one line keeps the shell's invariant: selection -1 or a slot, timeout positive, entry_count at most 1024 |
| Shell.Run | main.c:114-191 | the loop keeps the invariant and gives at most one reply per input character |
| Shell.Shell.constructor | main.c:7-8 | selected_fd is -1 and recv_timeout_sec is 5 |
| Shell.Shell.Step | main.c:118-190 | the new shell, registry, script and output, and the reply, are exactly Decide's |
| Shell.Shell.DoSearch | main.c:122-125 | search rescans the registry as SearchStep says |
| Shell.Shell.DoSelect | main.c:126-133 | select updates the selection as SelectStep says |
| Shell.Shell.DoInject | main.c:134-175 | sendf, send and rec act as InjectStep says |
| Shell.Shell.DoTimeout | main.c:176-183 | timeout updates recv_timeout_sec as TimeoutStep says |
| Shell.Shell.Perform | main.c:145-175 | the reply carries the request and the result of the injection call, and the script and output are left as Outcome says |
| Shell.Shell.Loop | main.c:114-191 | reading all of standard input leaves exactly the state and replies Run gives |
| Shell.StoresView | jinsock.c:164-231 | a registry that holds a scan's result has entry_count Filled and the slots AfterScan |
| Shell.Filled | jinsock.c:202-206 | entry_count after a scan is the number discovered, or 1024 when more were discovered |
| Shell.SearchStep | main.c:122-125 | search keeps the shell's invariant |
| Shell.SelectStep | main.c:126-133 | select keeps the shell's invariant |
| Shell.InjectStep | main.c:134-175 | sendf, send and rec keep the shell's invariant |
| Shell.TimeoutStep | main.c:176-183 | timeout keeps the shell's invariant |
| Shell.Act | main.c:118-190 | a classified command keeps the shell's invariant |
| Shell.Call | main.c:161 | the kernel call returns and leaves what Outcome says |
| Shell.SelectionChanges | main.c:126-133 | only select with 0 <= n < entry_count changes the selection, and it always sets it to n |
| Shell.TimeoutChanges | main.c:176-183 | only timeout with t > 0 changes the timeout, and it always sets it to t |
| Shell.NoSelectionNoInjection | main.c:135-168 | with no selection nothing is injected and the kernel is unchanged |
| Shell.EmptyArgumentRefused | main.c:139-158 | send and sendf with nothing after the spaces change nothing |
| Shell.InjectsIff | main.c:134-175 | a command injects exactly when it is rec, or sendf or send with an argument, and a slot is selected; a command that does not inject leaves the script and output alone |
| Shell.InjectionTarget | main.c:145-175 | an injection targets the selected slot's pid and fd and has the effect of the function called |
| Shell.SearchOnlyRescans | main.c:122-125 | search changes only entry_count and the slots, as the scan defines; nothing else changes them |
| Shell.SelectionOutlivesSearch | main.c:122-175 | after a search that finds nothing, a rec still targets the previously selected slot |
| Shell.FgetsFirstLine | main.c:117 | fgets stops after the first newline |
| Shell.QuitStops | main.c:184-185 | after "quit" nothing more is read and nothing changes |
| Shell.ActionCount | main.c:77-80 | no action is counted exactly when there is no --send, no --sendf, no rec file and the last argument is not "-r" |
| Shell.Chosen | main.c:77-109 | a call is made only with pid > 0 and socket >= 0, to that pid and fd |
| Shell.Status | main.c:92-109 | the exit status is 0 exactly for a non-negative send count or a recv result of 0 |
| Shell.FlagRun | main.c:76-109 | flag mode exits with 0 or 1 |
| Shell.InvalidFlags | main.c:81-90 | missing action, pid <= 0 or socket < 0 exits 1 without calling anything |
| Shell.FlagPriority | main.c:92-109 | --send wins over --sendf, which wins over --rec, which uses the 5-second timeout |
| Shell.SendExit | main.c:92-98 | --send exits 0 exactly when both handles are granted and the send is accepted |
| Shell.RecExit | main.c:106-108 | --rec exits 0 exactly when every handle it needs is granted |
| Shell.RecDetection | main.c:80 | "--rec" without a file, or "-r" followed by other options, is not counted; "-r" last is |
| Shell.RunFlags | main.c:76-109 | the exit status, script and output are FlagRun's |
| Shell.Start | main.c:10-195 | "search" scans and exits 0; -h exits 0; a bad option exits 1; flags act as FlagRun; no arguments runs the shell over standard input as Run says; only flag mode and the shell touch the kernel, and only "search" and the shell touch the registry |

## Left out

- Raw system calls are not modelled as real operations. `pidfd_open`,
  `pidfd_getfd`, `open`, `fopen`, `read`, `send`, `select`, `recv` and `close`
  are replaced by the scripted kernel. An exhausted script refuses handles,
  reads end of file, accepts up to 4096 bytes per send, times out every
  select, and reports the peer's close from recv. Real time is absent: a timeout is a script event.
- `opendir`, `readdir`, `readlink`, the `/proc` files and standard input are
  input values. One process directory snapshot serves every search of a
  session.
- The 512-byte `fgets` line splitting of `net/tcp` (jinsock.c:135-137) and the
  `PATH_MAX` path building are left out: a table is a sequence of whole lines.
- Lines of more than 1023 characters on the shell's input are split as
  `fgets` does (`SocketScanner.FgetsLine`). The 1024-byte limit on a `send`
  argument is otherwise not modelled.
- Part of the laxity of scanf, strtol and atoi is left out. Modelled: leading
  white space for `%d`, `%u` and `%s`, the sign of `%d`, and, for the two
  characters given to `strtol` (`AddressCodec.PairValue`), leading white space,
  a sign, and the stop at the first non-hex character. Not modelled: a sign
  or a `0x` prefix accepted by `%X`, a sign accepted by `%llu` and by `%u`
  (the `sl` and inode columns), and white space or a sign accepted by `atoi`.
  `Text.Atoi` reads leading digits only.
- Integer widths are left out. 32-bit `int` and `unsigned` overflow in scanf,
  `atoi`, `pid_t` and the ports, and the `ssize_t` to `int` return conversion
  of the injection functions, are unbounded in the model.
- `inet_ntop` and the `%u.%u.%u.%u` text are left out; the model keeps the
  address bytes. So is all `printf`, `perror` and `fprintf` text: help,
  usage, the search listing and the messages.
- `getopt_long` parsing (main.c:43-74) is left out. Flag mode starts from its
  result, `Shell.Arguments`, which includes `argv[optind-1]` for the test at
  main.c:80.
- NUL bytes inside strings are not modelled: `strlen` is the length of the
  Dafny string. Characters are sent as their code modulo 256 (`Shell.Bytes`).
- `Text.TrimNewline` is a function on values; the C function writes a NUL into
  the buffer in place.
- The data a script's recv chunk or read count supplies is not limited to the
  4096-byte buffer.
- `gui/` is not part of this model.
- Shell.SearchStep, Shell.SelectStep, Shell.InjectStep, Shell.TimeoutStep,
  Shell.Act, Shell.Decide: each contract states only the shell's invariant.
  What each command does is stated by the lemmas about `Act`
  (`Shell.SelectionChanges`, `Shell.TimeoutChanges`, `Shell.InjectsIff`,
  `Shell.InjectionTarget`, `Shell.SearchOnlyRescans`).
- Text.Atoi: its contract gives only a bound. Its value is stated by
  `Text.AtoiDecString`.
- SocketScanner.SocketInode: its contract states only where an inode comes
  from, not that every socket link gives one.
