# ICMP echo probe: checksum, echo header and attempt loop

A model of the core of a minimal `ping`-style probe (`icmp.cpp`). The model
has three parts:

- `InternetChecksum` (checksum.dfy): `EvaluateCheckSum`, the Internet
  checksum of section 1 of RFC 1071. It is a method with the source's two
  loops. They are proved against the pure definition `Checksum`, which is the
  complement of `Fold`, the one's-complement sum of all words. The buffer is
  the sequence of 16-bit words the host reads through `unsigned short *`,
  plus the single byte read through `unsigned char *` when the length is odd.
  The `unsigned long` accumulator, 64 bits on LP64 targets, is written out with wrap-around
  (`% 2^64`), and it is proved never to wrap for an `int` length. The final
  `(unsigned short)(~sum)` is written out as a 64-bit complement truncated to
  16 bits.
- `Echo` (echo.dfy): the ICMP Echo request header of RFC 792 (type 8, code 0,
  checksum, identifier, sequence number), which `main` fills in before each
  send. The host's byte order is a parameter (`ByteOrder`). It decides how
  the type and code bytes pack into the first 16-bit word. It also decides in
  which byte order the three 16-bit fields lie in memory, since the source
  applies no `htons`. `BuildEchoRequest` assigns the fields one by one,
  zeroes the checksum, and writes in the checksum of the header.
- `Session` (session.dfy): the `for` loop of `main`. It runs one attempt per
  sequence number 0..3. Each attempt builds a request and classifies the value
  `select` returned into a failure, a reply or a timeout. The `select` results
  are an input sequence. The process id (`getpid()`) is a parameter.

Two points where the code is modelled as written:

- Odd trailing byte. RFC 1071 pads an odd last byte on the right with zeros.
  The code adds the byte's value as it is (`*(unsigned char *)buffer`), as
  RFC 1071's own sample does. That equals the padded word only on a
  little-endian host. The model adds the byte's value.
- Sending. The code ignores what `sendto` returns (icmp.cpp:79), so every
  attempt has one of the three outcomes of the `select` test.

## Model

| member | source | states |
|---|---|---|
| InternetChecksum.EvaluateCheckSum | icmp.cpp:23-34 | The result lies in 0..0xFFFF. It equals `Checksum` of the words plus the odd byte: each word is added once, in order, then the odd byte. The 64-bit accumulator never wraps for an `int` length. A zero-length buffer gives 0xFFFF. |
| InternetChecksum.Fold | icmp.cpp:31-32 | The carry fold gives the one's-complement sum: 0 for 0, otherwise the value in 1..0xFFFF congruent to the sum modulo 0xFFFF. So it never changes the sum modulo 0xFFFF and ends below 0x10000 (end-around carry, section 2(B) of RFC 1071). |
| InternetChecksum.FoldStep | icmp.cpp:31-32 | One fold step strictly shrinks a sum of 0x10000 or more and keeps it positive. So the fold loop terminates, and the step keeps the sum's value modulo 0xFFFF. |
| InternetChecksum.WordSum | icmp.cpp:25-28 | The sum of n 16-bit words is at most 0xFFFF * n. This is the bound behind the no-overflow claim for the accumulator. |
| InternetChecksum.ChecksumOfZeros | icmp.cpp:24-33 | A buffer of zero bytes, of any length and with or without an odd byte, has checksum 0xFFFF. |
| InternetChecksum.WordSumUpdate | icmp.cpp:26 | Overwriting one word changes the word sum by exactly the difference of the new and old values. |
| InternetChecksum.ChecksumVerifies | icmp.cpp:73-74 | Compute the checksum while word k holds 0, then write it into word k. The checksum of the result is 0 (receiver-side check of section 1 of RFC 1071). |
| InternetChecksum.SwapScales | icmp.cpp:26 | Exchanging a word's two bytes is multiplication by 0x100 modulo 0xFFFF. It maps 0, and only 0, to 0. |
| InternetChecksum.SwappedSum | icmp.cpp:25-28 | The word sum of the byte-swapped words is 0x100 times the original sum, modulo 0xFFFF. One sum is zero exactly when the other is. |
| InternetChecksum.FoldSwapped | icmp.cpp:31-32 | Two sums that are byte swaps modulo 0xFFFF fold to byte-swapped results. |
| InternetChecksum.ChecksumSwapped | icmp.cpp:23-34 | Byte-order independence (section 2(B) of RFC 1071): the checksum of the byte-swapped words is the byte-swapped checksum. |
| InternetChecksum.SwapComplement | icmp.cpp:33 | Complementing a word and exchanging its bytes commute. |
| Echo.BytesOf | icmp.cpp:71-74 | Storing a 16-bit field in host byte order gives two bytes that read back as the same value. |
| Echo.BytesOfWordOf | icmp.cpp:74 | Reading two bytes as a host word and storing it again gives the same two bytes. |
| Echo.Memory | icmp.cpp:68-73 | The header lies in memory as eight bytes: type, code, then the checksum, identifier and sequence number, each stored as two bytes that the host reads back as that field's value. |
| Echo.WordsOf | icmp.cpp:26 | Reading a byte buffer through `unsigned short *` gives one word per byte pair. Each word, stored back in host byte order, is exactly its pair of bytes. |
| Echo.HostWords | icmp.cpp:74 | Read through `unsigned short *`, the 8-byte header gives four words. The first packs type and code in host byte order; the other three are the checksum, identifier and sequence fields themselves. |
| Echo.WordsOfByteOrders | icmp.cpp:74 | A little-endian host reads exactly the byte-swapped words that a big-endian host reads from the same bytes. |
| Echo.EchoRequestUnique | icmp.cpp:69-74 | The process id and sequence number fix the whole header, checksum included. Building it twice gives the same header. |
| Echo.EchoRequestVerifies | icmp.cpp:73-74 | A built echo request has checksum 0 over its own four host words. |
| Echo.WireChecksum | icmp.cpp:74-79 | Header bytes that verify on the sending host verify in either byte order, network order included. So the request passes the receiver's ICMP checksum test without `htons`. |
| Echo.ZeroEchoChecksum | icmp.cpp:69-74 | The echo header with identifier 0 and sequence 0 has checksum 0xFFF7 on a little-endian host and 0xF7FF on a big-endian one. |
| Echo.BuildEchoRequest | icmp.cpp:68-74 | The built header has type 8 (ICMP_ECHO), code 0, identifier pid mod 65536 and sequence number seq mod 65536. Its checksum was computed while the field held 0. The header then has checksum 0 for readers of either byte order. |
| Session.RunAttempts | icmp.cpp:67-102 | The loop makes exactly MAX_ATTEMPTS (4) attempts, with sequence numbers 0, 1, 2, 3 in order. Each attempt carries the echo request for its sequence number. Each has exactly one outcome: `select` failure if the result is below 0, reply if above 0, timeout if 0. |
| Session.AttemptOrder | icmp.cpp:67 | The attempts' sequence numbers strictly increase, so none repeats, and every request sent has checksum 0. |

## Left out

- Socket creation and closing, `getaddrinfo`/`freeaddrinfo`, `sendto`, `recvfrom` and `select` (icmp.cpp:42-63, 79-93, 104): operating-system and network I/O. `select`'s result is an input of `RunAttempts`. `getpid()` is the parameter `pid`.
- Overwriting the header with the received datagram (icmp.cpp:93). The model records the request that was sent. Nothing after the receive reads the header, and the reply is not validated.
- Round-trip time (icmp.cpp:76-77, 94-96): `long double` arithmetic on `clock_gettime` timestamps.
- `HandleSig` and the `SIGINT` handler (icmp.cpp:18-21, 65): asynchronous, process-wide control flow.
- `usleep` pacing (icmp.cpp:101), the `select` timeout value (icmp.cpp:85-87) and all `std::cout`/`std::cerr`/`perror` output: timing and text output. The model keeps only the outcome of each attempt.
- The argument-count check and exit codes (icmp.cpp:37-40): process exit.
- The layout of `struct icmphdr` beyond the eight bytes used here, and pointer casts. The header is modelled as type, code and three 16-bit fields. The host byte order is a parameter, not a fixed choice.
- InternetChecksum.EvaluateCheckSum: the odd trailing byte is an input of its own. The model does not say which half of the next host word `*(unsigned char *)buffer` reads, because that depends on the host's byte order. The header the program checksums has even length.
- InternetChecksum.EvaluateCheckSum: the accumulator is taken to be a 64-bit `unsigned long`, as on LP64 targets. On a target where `unsigned long` has 32 bits, a long enough buffer would wrap the sum. The no-wrap proof does not cover that case.
- InternetChecksum.EvaluateCheckSum: the buffer length is derived from the words and the odd byte, so it is never negative. For a negative `int length` the source skips both additions and returns 0xFFFF, as it does for an empty buffer. The model cannot express that call.
