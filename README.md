# OS-Fingerprinter core in Dafny

A model of the sequential core of OS-Fingerprinter, a small C tool that guesses a host's operating system from how it answers crafted TCP probes. The model covers five parts. The sockets, processes and console output are stripped away; what they would deliver becomes parameters.

- **Checksum** (`checksum.dfy`, `src/utils.c`). `calculate_checksum` is the RFC 1071 one's-complement sum. It reads 16-bit words through `unsigned short *` on a little-endian host. It adds an odd trailing byte, keeps a 32-bit accumulator, folds twice and complements. `CalculateChecksum` is the loop. `InternetChecksum` is the reference definition it is proved equal to for buffers of at most 0x20000 bytes, and the RFC's properties are proved about that definition.
- **Probe transport** (`network.dfy`, `bits.dfy`, `bytes.dfy`, `src/network.c`).
  - `send_tcp_packet` clears a 4096-byte buffer and fills a 20-byte `struct tcphdr` in place. It builds the 12-byte pseudo-header of section 3.1 of RFC 793 and stores the checksum over pseudo-header plus header. It then sends exactly 20 bytes.
  - `TcpHeader`/`ProbeSegment` are the pure encoder. `FillTcpHeader` and `SendTcpPacket` are the in-place code proved to produce that encoder's bytes.
  - The flag bits are read the way C's `flags & TH_X` reads a two's-complement `int` (`Bits.HasBit`).
  - `receive_tcp_response` is a loop over the datagrams received until one `recvfrom` waits two seconds without data. `Ihl` reads the IP header length that locates the TCP header in the reply, and `ProbeChecksum` is the checksum `send_tcp_packet` stores.
- **Signature loader** (`db_parser.dfy`, `src/db_parser.c`).
  - `parse_nmap_db` reads the file's lines as `fgets` returns them. Each line starting with `Fingerprint` appends a node to a singly linked list of `SignatureNode` objects. The node is named by the text from offset 12 up to the first `'\n'` or NUL. `IsFingerprintLine` is the `strncmp` test and `NameOf` the name cut.
  - The list is a ghost sequence of nodes ("spine") tied to the `next` pointers by `IsList`. `Records` is the reference definition of what gets loaded.
- **Scorer** (`matcher.dfy`, `src/matcher.c`). `find_best_match` walks the list and scores each signature: +10 for a TTL within 5, +50 for an exact window. It keeps the first signature with the highest score (strict `>`) and reports it when that score is at least 10. `Scan` and `Report` are the reference definitions.
- **Schedule and verdict** (`orchestrator.dfy`, `src/main.c`).
  - T1 (SYN) is sent first and is the only probe matched against the list. If T1 is unanswered the run ends with "host down".
  - Otherwise T2..T7 are sent with fixed flag masks. Replies to T2, T3 and T7 vote Linux with weights 1, 1 and 2, and unanswered ones vote Windows with the same weights. Linux needs a strict majority.

Facts about the code that shape the model:
- `doff` is always 5 and exactly 20 bytes are sent. The option-related types in `include/defs.h` (`TCPOpts`, `Fingerprint`, `FingerprintNode`, `ScanResult`, lines 48-109) are never used by the code.
- The loader reads only `Fingerprint` lines. It never fills the T1 expectations.
- The scorer is the ±5 TTL / exact window rule above and nothing more.
- The schedule is seven probes: SYN, null, SYN|FIN|PSH|URG, ACK, SYN, ACK, FIN|PSH|URG.
- `create_node` leaves `t1_ttl` and `t1_window` uninitialised. As a modelling choice the model gives both the matcher's "unknown" sentinel −1 (`DbParser.Unknown`). As a consequence, loaded records never score and the T1 match never reports (`Orchestrator.LoadAndRunFirstProbe`).
- The sources as written do not compile; in each case the model follows the evident intent:
  - `src/utils.c` includes `utils.h`, whose `char* get_local_ip(const char *)` (`include/utils.h:17`) conflicts with the definition `void get_local_ip(char *buffer, const char *target_ip)` (`src/utils.c:30`). Both calls (`src/network.c:66`, `src/main.c:75`) use the header's form. The model follows the header's reading: the source address is the routing lookup's result, and the call at `src/main.c:75` has no effect, leaving the target string unchanged.
  - `src/network.c` includes `network.h`, whose three-parameter `receive_tcp_response` (`include/network.h:16`) conflicts with the two-parameter definition (`src/network.c:91`). The call at `src/main.c:35` uses the definition's form. The model follows the `.c` definition.
  - `src/matcher.c` includes `matcher.h`, whose `find_best_match(SignatureNode *, HostResults *)` (`include/matcher.h:17`) conflicts with the definition (`src/matcher.c:8`). The call at `src/main.c:48` uses the definition's form. The model follows the `.c` definition.
  - `src/matcher.c:22` and `src/matcher.c:28` read `data->ttl` and `data->window_size`, fields the record type does not have; it declares `t1_ttl` and `t1_window`. The model reads the declared fields.

## Model

| member | source | states |
|---|---|---|
| Bytes.BigEndian16 | src/network.c:70 | `htons` layout: the high byte comes first, and the two bytes read back as the value |
| Checksum.WordSumStep | src/utils.c:16-17 | the words still to be summed from offset i are the little-endian word at i followed by the words from i + 2, so each loop step moves exactly one word into the accumulator |
| Checksum.AccumulateLastByte | src/utils.c:19-20 | adding the odd trailing byte completes the word sum of the buffer |
| Checksum.FoldProperties | src/utils.c:22-23 | end-around-carry folding preserves the value modulo 0xFFFF; it yields 0 exactly for 0 |
| Checksum.TwoFoldsSuffice | src/utils.c:22-23 | for any 32-bit sum, the two C folds `(sum >> 16) + (sum & 0xFFFF)` and `sum += sum >> 16` leave in the low 16 bits the full one's-complement reduction, and no overflow occurs |
| Checksum.WordSumFits | src/utils.c:13-17 | for buffers up to 0x20000 bytes the word sum is below 2^32, so the `unsigned int` accumulator never wraps |
| Checksum.CalculateChecksum | src/utils.c:11-26 | the result fits in 16 bits; while the accumulator cannot wrap, it is the complement of the one's-complement sum of the buffer's little-endian words plus an odd trailing byte |
| Checksum.ChecksumOfZeros | src/utils.c:16-25 | an all-zero buffer, the empty one included, has word sum 0 and checksum 0xFFFF |
| Checksum.ChecksumVerifies | src/utils.c:11-26 | storing the checksum into a zeroed aligned 16-bit field of the buffer makes the checksum of the whole buffer 0 (section 1 of RFC 1071) |
| Checksum.SwapWordsPreservesChecksum | src/utils.c:16-17 | swapping two aligned 16-bit words changes neither the word sum nor the checksum (section 2(A) of RFC 1071) |
| Checksum.WordSumUpdate | src/utils.c:16-17 | rewriting one aligned word changes the word sum by exactly the difference between the new and old word |
| Network.FlagByteDigits | src/network.c:53-58 | the flag byte written at offset 13 is the number whose binary digits, lowest first, are FIN, SYN, RST, PSH, ACK, URG as taken from `flags` |
| Network.FlagByteIsLowBits | src/network.c:53-58 | bit k of the wire flag byte is set iff k ≤ 5 and bit k of `flags` is set, whatever the sign of `flags`; so the byte is `flags & 0x3F` and every higher mask bit is ignored |
| Network.TcpHeader | src/network.c:82 | the header is exactly `sizeof(struct tcphdr)` = 20 bytes |
| Network.PseudoHeader | src/network.c:66-70 | the pseudo-header is 12 bytes: source, destination, 0, protocol 6, length 20 |
| Network.ProbeFields | src/network.c:46-63 | read back through `struct tcphdr`, the probe has source port 12345, destination `port` mod 2^16, seq = ack = 0, data offset 5, reserved 0, each control bit set iff its mask bit is set, ECE/CWR clear, window 5840, the stored checksum, and urgent pointer 0 |
| Network.ProbeChecksumVerifies | src/network.c:62-78 | the checksum over pseudo-header plus the finished header is 0 |
| Network.FillTcpHeader | src/network.c:33-63 | writing the fields into the cleared 4096-byte buffer leaves the encoder's header, checksum field zero, in bytes 0..19, and every other byte zero |
| Network.SendTcpPacket | src/network.c:25-89 | the 20 bytes sent are the encoder's segment for (source, destination, port, flags), and they verify against the pseudo-header |
| Network.ReceiveTcpResponse | src/network.c:97-124 | no reply iff the socket fails or no arriving datagram comes from the target; otherwise the reply is the first datagram from the target, every earlier one being from elsewhere, with its TCP header at offset `ihl*4` |
| DbParser.SignatureNode.constructor | src/db_parser.c:7-16 | `create_node`: a node holding the name, both T1 expectations unknown, `next` NULL |
| DbParser.Contents | src/db_parser.c:47-53 | the records of the list, one per node, in list order |
| DbParser.NameLength | src/db_parser.c:42 | `strcspn(s, "\n")` on the C string: no '\n' or NUL before it, and it stops at one of those or at the end |
| DbParser.RecordsAppend | src/db_parser.c:33-56 | loading a file in two pieces one after the other gives the records of the whole file |
| DbParser.RecordsOfNextPrefix | src/db_parser.c:33-55 | reading one more line adds that line's record if it is a `Fingerprint` line, and nothing otherwise |
| DbParser.OtherLineAddsNothing | src/db_parser.c:37 | inserting a line that does not start with `Fingerprint` anywhere in the file changes nothing |
| DbParser.RecordCount | src/db_parser.c:33-54 | the number of records equals the number of lines whose first 11 characters are `Fingerprint` |
| DbParser.RecordPosition | src/db_parser.c:47-53 | the record of the `Fingerprint` line at index i sits at the position given by the number of `Fingerprint` lines before i, so file order is kept; its name is the text from offset 12 up to the first '\n' or NUL |
| DbParser.NoFingerprintLinesNoRecords | src/db_parser.c:25-60 | with no `Fingerprint` lines nothing is loaded |
| DbParser.RecordsHaveUnknownExpectations | src/db_parser.c:11 | every loaded record has both T1 expectations unknown |
| DbParser.AppendNode | src/db_parser.c:44-53 | the new node becomes the head of an empty list or is linked after the last node; the list stays well formed with the node at its end, and no earlier record changes |
| DbParser.ParseNmapDb | src/db_parser.c:18-61 | an unopenable file gives NULL and count 0; otherwise the result is a NULL-terminated acyclic list holding exactly the records of the file's `Fingerprint` lines in file order, and `count` is its length |
| Matcher.Score | src/matcher.c:19-32 | the score is 0, 10, 50 or 60: 50 is included iff the window is known and equal, and 10 iff the TTL is known and within 5; a positive score is at least 10 |
| Matcher.ScanIsFirstMaximum | src/matcher.c:11-39 | after the scan `max_score` is the maximum score, or 0 for an empty list; there is no best match iff that is 0; otherwise the best match is the earliest signature attaining it |
| Matcher.ReportIffSomeScore | src/matcher.c:34-46 | a match is reported iff some signature scores above 0 (the `>= 10` test never rejects a best match), and the report is the first signature with the top score together with that score |
| Matcher.UnknownExpectationsNeverMatch | src/matcher.c:22-28 | signatures whose expectations are both −1 are never reported |
| Matcher.FindBestMatch | src/matcher.c:8-47 | the traversal ends with `max_score`, `best_match` and the report the scan defines, and only reads the list |
| Orchestrator.LinuxScore | src/main.c:134-136 | the Linux score is at most 4, and 0 iff none of T2, T3, T7 replied |
| Orchestrator.WindowsScore | src/main.c:134-136 | the Linux and Windows scores always total 4 |
| Orchestrator.Verdict | src/main.c:138-144 | the verdict is Linux iff T7 replied and T2 or T3 replied, iff the Linux score exceeds 2; a 2:2 tie is Windows |
| Orchestrator.RunTestAndMatch | src/main.c:18-60 | the probe sent is the encoder's segment for `flags` to port 80; the result is 1 iff the target replied, else 0; the matcher runs, and reports, only on a reply when a list was given |
| Orchestrator.LoadAndRunFirstProbe | src/main.c:77-89 | T1 is the SYN segment; it is matched against the loaded list, and because every loaded record has unknown expectations it never reports a match |
| Orchestrator.RunProbe | src/main.c:108-113 | one `results[k] = run_test_and_match(..., NULL)` statement: the probe's segment is sent, slot k gets its result, and no other slot changes |
| Orchestrator.RunProbesT2ToT4 | src/main.c:108-110 | T2, T3 and T4 are sent in order with masks 0, SYN+FIN+PSH+URG and ACK; their results land in slots 2..4 and no other slot changes |
| Orchestrator.RunProbesT5ToT7 | src/main.c:111-113 | T5, T6 and T7 are sent in order with masks SYN, ACK and FIN+PSH+URG; their results land in slots 5..7 and no other slot changes |
| Orchestrator.RunHeuristicProbes | src/main.c:106-113 | T2..T7 are sent in order with their fixed masks and no list; slots 2..7 get their results; slots 0, 1, 8 and 9 keep their values |
| Orchestrator.AnalyzeResults | src/main.c:130-144 | the two scores and the verdict computed by the C increments are those of the vote on slots 2, 3 and 7 |
| Orchestrator.Fingerprint | src/main.c:62-148 | if T1 is unanswered only T1 is sent and the outcome is "host down"; otherwise T1..T7 are sent in order with their fixed masks, the result vector has slots 0, 8 and 9 zero and slot i+1 holding probe i's reply bit, and the scores and verdict depend only on the replies to T2, T3 and T7, so T4..T6 never affect the verdict; T1's match never reports |

## Left out

- Sockets: the raw-socket creation, `setsockopt` timeout, `sendto`, `recvfrom` and `close` are OS I/O. Sending returns the bytes that would go on the wire. The receive side takes, as a finite sequence, the datagrams received until one `recvfrom` waits two seconds without data, plus whether the socket opened. A failed `sendto` does not change the model, since the C code only prints there. A failed sender socket makes the child exit; the model always sends.
- A failed `fork()` (`src/main.c:25`) returns −1, so only the parent branch runs: no probe is sent, but the parent still listens and can still return 1 on an unrelated datagram from the target. The model assumes `fork` succeeds and always sends.
- The `fork`/`usleep`/`wait` sender–receiver rendezvous is process concurrency and timing. A probe is one send followed by one receive.
- `get_local_ip` is a UDP routing lookup. The local source address is a parameter of every send.
- Target matching in `receive_tcp_response` compares `inet_ntoa` text with the argument string. The model compares four-octet addresses, which assumes the argument is in canonical dotted-decimal form.
- `fopen`/`fgets`/`fclose` are file I/O. The file is given as its sequence of lines, or `None` when it cannot be opened. `fgets` splitting lines longer than 2047 characters is not modelled.
- DbParser.ParseNmapDb and DbParser.Records: both require every `Fingerprint` line to be at least 12 characters long (`DbParser.LinesReadable`). A shorter one makes `line + 12` point past the line's terminating NUL but still inside the 2048-byte buffer, so the C names the node from whatever an earlier, longer line left there (nothing defined when no earlier line reached offset 12). The model does not keep that stale buffer, so it excludes such lines.
- Lines are Dafny strings, sequences of characters, while `strncmp(line, "Fingerprint", 11)`, `line + 12` and `strcspn` count bytes. The model assumes the first 12 bytes of a `Fingerprint` line are ASCII, so byte and character offsets agree; a multi-byte character straddling offset 12 would give the C a name starting with a stray byte.
- `malloc` failure in `create_node`, and `free_db`, are memory management with nothing to state in a garbage-collected model.
- The `t1_resp`, `t3_resp` and `t7_resp` fields of a record are never read or written by the code, so the record has no such fields.
- All `printf` output, the ANSI colours, and the hard-coded "6036 signatures" message are console output.
- The `getuid` root check and the `argv` handling are environment checks that run before the model starts.
- Pointer mismatch in `run_test_and_match`: it finds the IP header for the matcher by stepping back a fixed `sizeof(struct iphdr)` from the TCP header (`src/main.c:47`). The TCP header was located at `ihl*4`, so the two agree only when the IP header has no options. Only the TTL is affected: `ntohs(tcp->window)` (`src/matcher.c:14`) reads the TCP header that was located at `ihl*4`. The model does not model that memory layout. The TTL the matcher reads is given with each probe as `Exchange.seen`. The window is also given there rather than read from the reply's bytes; this only keeps the model simple. No verdict depends on either value, because loaded records never score.
- Endless wait in `receive_tcp_response`: `SO_RCVTIMEO` bounds each `recvfrom` call, not the loop, so datagrams from other hosts arriving less than two seconds apart keep it waiting forever; the finite arrival sequence excludes that case. The unchecked result of `setsockopt` is not modelled either: the two-second bound is assumed to be in force.
- In the matcher, `pkt_ttl - ttl` is computed with unbounded integers. The TTL is 0..255, and in the model every loaded record's expectation is −1, so no overflow arises. In the C, `t1_ttl` is uninitialised `malloc` memory (`src/db_parser.c:11`), and a leftover value near INT_MIN makes `pkt_ttl - curr->data->ttl` or its `abs` overflow (`src/matcher.c:23`). The −1 modelling choice excludes that case.
- Checksum.CalculateChecksum: the contract gives the result as the internet checksum only for buffers of at most 0x20000 bytes, a length up to which the 32-bit accumulator cannot wrap. Longer buffers may wrap (the loop models the wrap), and for them the contract states only that the result fits in 16 bits; the only call checksums 32 bytes.
- Network.FillTcpHeader: the stores of zero in `seq`, `ack_seq`, `check` and `urg_ptr` (`src/network.c:48-49` and `src/network.c:62-63`) are not written out, because the cleared buffer already holds zero there.
