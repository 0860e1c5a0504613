/**
 The ICMP Echo request header (RFC 792, "Echo or Echo Reply Message") as
 `main` in icmp.cpp fills it in before each send.

 `struct icmphdr` is eight bytes: type, code, then the 16-bit checksum,
 identifier and sequence number, each stored in the host's byte order (the
 source applies no `htons`). The checksum routine reads these bytes as four
 host 16-bit words, so the host byte order is a parameter of the model.
 */
module Echo {
  import opened InternetChecksum

  /** ICMP type of an echo request. */
  const ICMP_ECHO: Byte := 8
  /** sizeof(struct icmphdr), the length given to EvaluateCheckSum and sendto. */
  const HEADER_SIZE: nat := 8

  datatype ByteOrder = LittleEndian | BigEndian

  datatype IcmpHeader = IcmpHeader(icmpType: Byte, code: Byte, checksum: Word16, id: Word16, sequence: Word16)

  /** The value a host of byte order `order` reads from two consecutive bytes. */
  function WordOf(order: ByteOrder, first: Byte, second: Byte): Word16
  {
    match order
    case LittleEndian => second * 0x100 + first
    case BigEndian => first * 0x100 + second
  }

  /** The two bytes, in memory order, in which a host of byte order `order` stores `w`. */
  function BytesOf(order: ByteOrder, w: Word16): (b: seq<Byte>)
    ensures |b| == 2 && WordOf(order, b[0], b[1]) == w
  {
    match order
    case LittleEndian => [w % 0x100, w / 0x100]
    case BigEndian => [w / 0x100, w % 0x100]
  }

  /** Storing what was read from two bytes gives those bytes back. */
  lemma BytesOfWordOf(order: ByteOrder, first: Byte, second: Byte)
    ensures BytesOf(order, WordOf(order, first, second)) == [first, second]
  {
  }

  /**
   The header as it lies in memory: type, code, then the checksum, identifier
   and sequence number, each stored as two bytes in host byte order.
   */
  function Memory(order: ByteOrder, h: IcmpHeader): (m: seq<Byte>)
    ensures |m| == HEADER_SIZE
    ensures m[0] == h.icmpType && m[1] == h.code
    ensures WordOf(order, m[2], m[3]) == h.checksum
    ensures WordOf(order, m[4], m[5]) == h.id
    ensures WordOf(order, m[6], m[7]) == h.sequence
  {
    [h.icmpType, h.code] + BytesOf(order, h.checksum) + BytesOf(order, h.id) + BytesOf(order, h.sequence)
  }

  /** A byte buffer read word by word through an `unsigned short *`. */
  function WordsOf(order: ByteOrder, bytes: seq<Byte>): (w: seq<Word16>)
    ensures |w| == |bytes| / 2
    ensures forall i :: 0 <= i < |w| ==> BytesOf(order, w[i]) == bytes[2 * i..2 * i + 2]
  {
    seq(|bytes| / 2, i requires 0 <= i < |bytes| / 2 => WordOf(order, bytes[2 * i], bytes[2 * i + 1]))
  }

  /**
   The four words EvaluateCheckSum reads from the header: the first packs
   type and code in host byte order; the other three are the fields themselves.
   */
  function HostWords(order: ByteOrder, h: IcmpHeader): (w: seq<Word16>)
    ensures w == [WordOf(order, h.icmpType, h.code), h.checksum, h.id, h.sequence]
  {
    WordsOf(order, Memory(order, h))
  }

  /** A little-endian host reads the byte-swapped words a big-endian host reads. */
  lemma WordsOfByteOrders(bytes: seq<Byte>)
    ensures WordsOf(LittleEndian, bytes) == Swapped(WordsOf(BigEndian, bytes))
  {
  }

  /**
   The header `main` builds for attempt `sequence`: type ICMP_ECHO, code 0,
   the low 16 bits of the process id and of the sequence number, and the
   checksum of the header computed while its checksum field held 0.
   */
  predicate IsEchoRequest(order: ByteOrder, pid: int, sequence: int, h: IcmpHeader)
  {
    && h.icmpType == ICMP_ECHO
    && h.code == 0
    && h.id == pid % 0x10000
    && h.sequence == sequence % 0x10000
    && h.checksum == Checksum(HostWords(order, h.(checksum := 0)), None)
  }

  /** The fields fix the header: building it twice gives the same header and checksum. */
  lemma EchoRequestUnique(order: ByteOrder, pid: int, sequence: int, h1: IcmpHeader, h2: IcmpHeader)
    requires IsEchoRequest(order, pid, sequence, h1) && IsEchoRequest(order, pid, sequence, h2)
    ensures h1 == h2
  {
  }

  /** A built echo request passes the receiver's check: its checksum over the host words is 0. */
  lemma EchoRequestVerifies(order: ByteOrder, pid: int, sequence: int, h: IcmpHeader)
    requires IsEchoRequest(order, pid, sequence, h)
    ensures Checksum(HostWords(order, h), None) == 0
  {
    var zeroed := h.(checksum := 0);
    assert HostWords(order, h) == HostWords(order, zeroed)[1 := h.checksum];
    ChecksumVerifies(HostWords(order, zeroed), None, 1);
  }

  /**
   Bytes that verify on the sending host verify whatever byte order the
   receiver reads them in, network order included.
   */
  lemma WireChecksum(order: ByteOrder, h: IcmpHeader, reader: ByteOrder)
    requires Checksum(HostWords(order, h), None) == 0
    ensures Checksum(WordsOf(reader, Memory(order, h)), None) == 0
  {
    var m := Memory(order, h);
    if order != reader {
      WordsOfByteOrders(m);
      ChecksumSwapped(WordsOf(BigEndian, m));
      SwapScales(Checksum(WordsOf(BigEndian, m), None));
    }
  }

  /** The checksum of the echo header with identifier and sequence 0. */
  lemma ZeroEchoChecksum(order: ByteOrder)
    ensures Checksum(HostWords(order, IcmpHeader(ICMP_ECHO, 0, 0, 0, 0)), None)
         == if order == LittleEndian then 0xFFF7 else 0xF7FF
  {
    var h := IcmpHeader(ICMP_ECHO, 0, 0, 0, 0);
    var w := HostWords(order, h);
    assert w[..1][..0] == [] && w[..2][..1] == w[..1] && w[..3][..2] == w[..2] && w[..3] == w[..4][..3];
    assert WordSum(w[..1]) == w[0];
    assert WordSum(w[..2]) == w[0];
    assert WordSum(w[..3]) == w[0];
    assert w[..4] == w;
  }

  /**
   Lines 68-74 of `main`: the header's fields are assigned one by one, the
   checksum field is zeroed, and the checksum of the header is written into it.
   The struct starts out uninitialised.
   */
  method BuildEchoRequest(order: ByteOrder, pid: int, sequence: int) returns (h: IcmpHeader)
    ensures IsEchoRequest(order, pid, sequence, h)
    ensures Checksum(HostWords(order, h), None) == 0
    ensures forall reader: ByteOrder :: Checksum(WordsOf(reader, Memory(order, h)), None) == 0
  {
    h := *;
    h := h.(icmpType := ICMP_ECHO);
    h := h.(code := 0);
    h := h.(id := pid % 0x10000);
    h := h.(sequence := sequence % 0x10000);
    h := h.(checksum := 0);
    var c := EvaluateCheckSum(HostWords(order, h), None);
    h := h.(checksum := c);
    EchoRequestVerifies(order, pid, sequence, h);
    forall reader: ByteOrder
      ensures Checksum(WordsOf(reader, Memory(order, h)), None) == 0
    {
      WireChecksum(order, h, reader);
    }
  }
}
