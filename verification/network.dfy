/**
 * The byte-level parts of network_helper3.py: reading the fields of an IPv4
 * packet at their fixed offsets, and packing addresses to and from integers.
 * The textual address forms (inet_ntoa, inet_pton, inet_ntop) are left
 * abstract: addresses are the packed bytes those calls consume or produce.
 */
module Network {
  import opened Wrappers

  type Byte = b: int | 0 <= b < 256

  /** Address families as the socket module numbers them on Linux. */
  const AF_INET: int := 2
  const AF_INET6: int := 10

  const TWO_TO_32: nat := 0x1_0000_0000
  const TWO_TO_64: nat := 0x1_0000_0000_0000_0000

  /** 256 to the n-th power. */
  function Pow256(n: nat): (p: nat)
    ensures p >= 1
  {
    if n == 0 then 1 else 256 * Pow256(n - 1)
  }

  lemma {:induction false} Pow256Add(m: nat, n: nat)
    ensures Pow256(m + n) == Pow256(m) * Pow256(n)
  {
    if m > 0 {
      Pow256Add(m - 1, n);
    }
  }

  /** The unsigned integer that bytes encode, most significant byte first (struct's '!'). */
  function BigEndian(bs: seq<Byte>): (x: nat)
    ensures x < Pow256(|bs|)
  {
    if |bs| == 0 then 0 else BigEndian(bs[..|bs| - 1]) * 256 + bs[|bs| - 1]
  }

  /** The n-byte big-endian encoding of x (struct.pack of an in-range value). */
  function ToBigEndian(x: nat, n: nat): (bs: seq<Byte>)
    requires x < Pow256(n)
    ensures |bs| == n
  {
    if n == 0 then [] else ToBigEndian(x / 256, n - 1) + [x % 256]
  }

  /** Decoding an encoding gives back the integer. */
  lemma {:induction false} DecodeEncode(x: nat, n: nat)
    requires x < Pow256(n)
    ensures BigEndian(ToBigEndian(x, n)) == x
  {
    if n > 0 {
      var bs := ToBigEndian(x, n);
      assert bs[..n - 1] == ToBigEndian(x / 256, n - 1);
      DecodeEncode(x / 256, n - 1);
    }
  }

  /** Encoding a decoding gives back the bytes. */
  lemma {:induction false} EncodeDecode(bs: seq<Byte>)
    ensures ToBigEndian(BigEndian(bs), |bs|) == bs
  {
    if |bs| > 0 {
      var init := bs[..|bs| - 1];
      var x := BigEndian(bs);
      assert x / 256 == BigEndian(init) && x % 256 == bs[|bs| - 1];
      EncodeDecode(init);
    }
  }

  /** A big-endian number splits at any byte boundary. */
  lemma {:induction false} BigEndianAppend(s: seq<Byte>, t: seq<Byte>)
    ensures BigEndian(s + t) == BigEndian(s) * Pow256(|t|) + BigEndian(t)
  {
    if |t| > 0 {
      var init, last := t[..|t| - 1], t[|t| - 1];
      assert (s + t)[..|s + t| - 1] == s + init;
      BigEndianAppend(s, init);
      var a, p, b := BigEndian(s), Pow256(|init|), BigEndian(init);
      assert BigEndian(s + t) == (a * p + b) * 256 + last;
      Regroup(a, p, b, last);
    } else {
      assert s + t == s;
    }
  }

  lemma Regroup(a: int, p: int, b: int, last: int)
    ensures (a * p + b) * 256 + last == a * (256 * p) + (b * 256 + last)
  {
  }

  // ---------------------------------------------------------------------
  // parse_packet_custom
  // ---------------------------------------------------------------------

  /** The transport fields parse_packet_custom adds, by IP protocol number. */
  datatype Transport =
    | Icmp(icmpType: Byte, icmpCode: Byte)                  // protocol 1
    | Tcp(sport: nat, dport: nat, tcpFlags: Byte)           // protocol 6
    | Udp(sport: nat, dport: nat)                           // protocol 17
    | Sctp(sport: nat, dport: nat, sctpTag: nat)            // protocol 132
    | Other                                                 // any other protocol

  /** The fields parse_packet_custom returns; the addresses as their four packed bytes. */
  datatype Packet = Packet(src: seq<Byte>, dst: seq<Byte>, ttl: Byte, proto: Byte, transport: Transport)

  /** The exceptions a packet that is too short raises. */
  datatype ParseError =
    | AddressLength(offset: nat)          // inet_ntoa given fewer than four bytes (OSError)
    | IndexOutOfRange(index: nat)         // data[index] past the end (IndexError)
    | UnpackLength(offset: nat, width: nat) // struct.unpack given a short slice (struct.error)

  /** The length of the IPv4 header in bytes: the low nibble of byte 0 counts 32-bit words. */
  function HeaderLength(data: seq<Byte>): (ihl: nat)
    requires |data| > 0
    ensures ihl <= 60 && ihl % 4 == 0
  {
    (data[0] % 16) * 4
  }

  /** `struct.unpack` of a big-endian unsigned field of width bytes at offset. */
  function Unpack(data: seq<Byte>, offset: nat, width: nat): (r: Result<nat, ParseError>)
    ensures r.Ok? <==> offset + width <= |data|
    ensures r.Ok? ==> r.value < Pow256(width)
    ensures r.Err? ==> r.error == UnpackLength(offset, width)
  {
    if offset + width <= |data| then Ok(BigEndian(data[offset..offset + width]))
    else Err(UnpackLength(offset, width))
  }

  /** The transport part of parse_packet_custom, reading relative to the header length ihl. */
  function ParseTransport(data: seq<Byte>, proto: Byte, ihl: nat): Result<Transport, ParseError> {
    if proto == 1 then
      if ihl >= |data| then Err(IndexOutOfRange(ihl))
      else if ihl + 1 >= |data| then Err(IndexOutOfRange(ihl + 1))
      else Ok(Icmp(data[ihl], data[ihl + 1]))
    else if proto == 6 || proto == 17 || proto == 132 then
      var sport := Unpack(data, ihl, 2);
      if sport.Err? then Err(sport.error) else
      var dport := Unpack(data, ihl + 2, 2);
      if dport.Err? then Err(dport.error) else
      if proto == 6 then
        var flags := Unpack(data, ihl + 13, 1);
        if flags.Err? then Err(flags.error) else Ok(Tcp(sport.value, dport.value, flags.value))
      else if proto == 17 then
        Ok(Udp(sport.value, dport.value))
      else
        var tag := Unpack(data, ihl + 4, 4);
        if tag.Err? then Err(tag.error) else Ok(Sctp(sport.value, dport.value, tag.value))
    else
      Ok(Other)
  }

  /** `parse_packet_custom(data)`. */
  function ParsePacketCustom(data: seq<Byte>): (r: Result<Packet, ParseError>)
    ensures |data| < 16 ==> r == Err(AddressLength(12))
    ensures 16 <= |data| < 20 ==> r == Err(AddressLength(16))
    ensures r.Ok? ==> |data| >= 20 && r.value.src == data[12..16] && r.value.dst == data[16..20]
    ensures r.Ok? ==> r.value.ttl == data[8] && r.value.proto == data[9]
  {
    if |data| < 16 then Err(AddressLength(12))
    else if |data| < 20 then Err(AddressLength(16))
    else
      var transport := ParseTransport(data, data[9], HeaderLength(data));
      if transport.Err? then Err(transport.error)
      else Ok(Packet(data[12..16], data[16..20], data[8], data[9], transport.value))
  }

  /** How many bytes the transport fields of a protocol need after the IPv4 header (none when it has none). */
  function TransportBytes(proto: Byte): nat {
    if proto == 1 then 2
    else if proto == 6 then 14
    else if proto == 17 then 4
    else if proto == 132 then 8
    else 0
  }

  /**
   * A packet parses exactly when it holds both addresses and, for ICMP, TCP,
   * UDP and SCTP, the transport fields after the header; for any other
   * protocol the header length is never used.
   */
  lemma ParseSucceeds(data: seq<Byte>)
    ensures ParsePacketCustom(data).Ok? <==>
      |data| >= 20 && (TransportBytes(data[9]) == 0 || HeaderLength(data) + TransportBytes(data[9]) <= |data|)
  {
    if |data| >= 20 {
      var ihl, proto := HeaderLength(data), data[9];
      assert ParsePacketCustom(data).Ok? <==> ParseTransport(data, proto, ihl).Ok?;
      if proto == 6 {
        assert ParseTransport(data, proto, ihl).Ok? <==>
          Unpack(data, ihl, 2).Ok? && Unpack(data, ihl + 2, 2).Ok? && Unpack(data, ihl + 13, 1).Ok?;
      } else if proto == 17 {
        assert ParseTransport(data, proto, ihl).Ok? <==> Unpack(data, ihl, 2).Ok? && Unpack(data, ihl + 2, 2).Ok?;
      } else if proto == 132 {
        assert ParseTransport(data, proto, ihl).Ok? <==>
          Unpack(data, ihl, 2).Ok? && Unpack(data, ihl + 2, 2).Ok? && Unpack(data, ihl + 4, 4).Ok?;
      } else if proto == 1 {
        assert ParseTransport(data, proto, ihl).Ok? <==> ihl + 1 < |data|;
      } else {
        assert ParseTransport(data, proto, ihl) == Ok(Other);
      }
    }
  }

  /** Two bytes at offset as a 16-bit big-endian value. */
  lemma BigEndian16(data: seq<Byte>, offset: nat)
    requires offset + 2 <= |data|
    ensures BigEndian(data[offset..offset + 2]) == data[offset] as int * 256 + data[offset + 1]
  {
    assert data[offset..offset + 2][..1] == [data[offset]];
  }

  /** Four bytes at offset as a 32-bit big-endian value. */
  lemma BigEndian32(data: seq<Byte>, offset: nat)
    requires offset + 4 <= |data|
    ensures BigEndian(data[offset..offset + 4]) ==
      data[offset] as int * 0x100_0000 + data[offset + 1] as int * 0x1_0000 + data[offset + 2] as int * 0x100 + data[offset + 3]
  {
    var s := data[offset..offset + 4];
    var s3 := data[offset..offset + 3];
    assert s[..3] == s3 && s[3] == data[offset + 3];
    assert s3[..2] == data[offset..offset + 2] && s3[2] == data[offset + 2];
    BigEndian16(data, offset);
    assert BigEndian(s3) == BigEndian(s3[..2]) * 256 + data[offset + 2];
  }

  /**
   * The fields of a parsed packet sit at the offsets of the IPv4 header
   * (section 3.1 of RFC 791) and of the transport header after it: ICMP
   * type and code (RFC 792), TCP ports and flags (section 3.1 of RFC 793),
   * UDP ports (RFC 768), SCTP ports and verification tag (section 3.1 of
   * RFC 4960).
   */
  lemma ParsedFields(data: seq<Byte>)
    requires ParsePacketCustom(data).Ok?
    ensures var p := ParsePacketCustom(data).value; var ihl := HeaderLength(data);
      && p.ttl == data[8] && p.proto == data[9]
      && p.src == [data[12], data[13], data[14], data[15]]
      && p.dst == [data[16], data[17], data[18], data[19]]
      && (data[9] == 1 <==> p.transport.Icmp?)
      && (data[9] == 6 <==> p.transport.Tcp?)
      && (data[9] == 17 <==> p.transport.Udp?)
      && (data[9] == 132 <==> p.transport.Sctp?)
      && (p.transport.Icmp? ==> p.transport.icmpType == data[ihl] && p.transport.icmpCode == data[ihl + 1])
      && (p.transport.Tcp? || p.transport.Udp? || p.transport.Sctp? ==>
            p.transport.sport == data[ihl] as int * 256 + data[ihl + 1]
            && p.transport.dport == data[ihl + 2] as int * 256 + data[ihl + 3])
      && (p.transport.Tcp? ==> p.transport.tcpFlags == data[ihl + 13])
      && (p.transport.Sctp? ==>
            p.transport.sctpTag == data[ihl + 4] as int * 0x100_0000 + data[ihl + 5] as int * 0x1_0000 + data[ihl + 6] as int * 0x100 + data[ihl + 7])
  {
    var ihl := HeaderLength(data);
    var proto := data[9];
    if proto == 6 || proto == 17 || proto == 132 {
      BigEndian16(data, ihl);
      BigEndian16(data, ihl + 2);
      if proto == 6 {
        assert data[ihl + 13..ihl + 14][..0] == [];
      }
      if proto == 132 {
        BigEndian32(data, ihl + 4);
      }
    }
  }

  // ---------------------------------------------------------------------
  // ipaddr_to_int / int_to_ipaddr
  // ---------------------------------------------------------------------

  /** The exceptions of the address conversions. */
  datatype AddressError =
    | UnsupportedFamily(family: int) // socket.error
    | OutOfRange(value: int)         // struct.error of struct.pack

  /** The packed length of an address of a supported family. */
  function PackedLength(family: int): nat {
    if family == AF_INET then 4 else 16
  }

  /**
   * `ipaddr_to_int(ipaddr, family)` given the bytes inet_pton packs ipaddr
   * into: one big-endian 32-bit word for IPv4, and for IPv6 two 64-bit
   * words a and b combined as (a << 64) | b, which is a * 2^64 + b because b
   * has no bit at or above 64.
   */
  function IpaddrToInt(packed: seq<Byte>, family: int): (r: Result<nat, AddressError>)
    requires family == AF_INET || family == AF_INET6 ==> |packed| == PackedLength(family)
    ensures r.Err? <==> family != AF_INET && family != AF_INET6
    ensures r.Err? ==> r.error == UnsupportedFamily(family)
    ensures r.Ok? && family == AF_INET ==> r.value < TWO_TO_32
  {
    assert Pow256(4) == TWO_TO_32;
    if family == AF_INET then Ok(BigEndian(packed))
    else if family == AF_INET6 then
      var a := BigEndian(packed[..8]);
      var b := BigEndian(packed[8..]);
      Ok(a * TWO_TO_64 + b)
    else Err(UnsupportedFamily(family))
  }

  /**
   * `int_to_ipaddr(ipaddr, family)` up to the bytes handed to inet_ntop: for
   * IPv6 the value is split into x >> 64 and x & (2^64 - 1), which for
   * Python's unbounded integers are the floor quotient and the non-negative
   * remainder by 2^64; struct.pack rejects a word out of its unsigned range.
   */
  function IntToIpaddr(x: int, family: int): (r: Result<seq<Byte>, AddressError>)
    ensures r.Ok? ==> |r.value| == PackedLength(family)
    ensures family != AF_INET && family != AF_INET6 ==> r == Err(UnsupportedFamily(family))
    ensures family == AF_INET ==> (r.Ok? <==> 0 <= x < TWO_TO_32)
  {
    if family == AF_INET then
      if 0 <= x < Pow256(4) then Ok(ToBigEndian(x, 4)) else Err(OutOfRange(x))
    else if family == AF_INET6 then
      var a := x / TWO_TO_64;
      var b := x % TWO_TO_64;
      assert TWO_TO_64 == Pow256(8);
      if 0 <= a < Pow256(8) then Ok(ToBigEndian(a, 8) + ToBigEndian(b, 8)) else Err(OutOfRange(a))
    else Err(UnsupportedFamily(family))
  }

  /** An IPv6 integer is the big-endian value of all sixteen packed bytes. */
  lemma Ipv6IsBigEndian(packed: seq<Byte>)
    requires |packed| == 16
    ensures IpaddrToInt(packed, AF_INET6) == Ok(BigEndian(packed))
  {
    assert packed == packed[..8] + packed[8..];
    BigEndianAppend(packed[..8], packed[8..]);
    assert Pow256(8) == TWO_TO_64;
  }

  /** The integer of an address always lies below 2^32 (IPv4) or 2^128 (IPv6). */
  lemma IpaddrToIntBound(packed: seq<Byte>, family: int)
    requires family == AF_INET || family == AF_INET6
    requires |packed| == PackedLength(family)
    ensures IpaddrToInt(packed, family).value < Pow256(PackedLength(family))
  {
    if family == AF_INET6 {
      Ipv6IsBigEndian(packed);
    }
  }

  /** IPv6 packing fails exactly outside 0 <= x < 2^128. */
  lemma IntToIpv6Range(x: int)
    ensures IntToIpaddr(x, AF_INET6).Ok? <==> 0 <= x < Pow256(16)
    ensures IntToIpaddr(x, AF_INET6).Err? ==> IntToIpaddr(x, AF_INET6).error == OutOfRange(x / TWO_TO_64)
  {
    Pow256Add(8, 8);
    assert Pow256(8) == TWO_TO_64;
  }

  /** Every integer in range packs and converts back to itself. */
  lemma IntRoundTrip(x: int, family: int)
    requires family == AF_INET || family == AF_INET6
    requires 0 <= x < Pow256(PackedLength(family))
    ensures IntToIpaddr(x, family).Ok?
    ensures IpaddrToInt(IntToIpaddr(x, family).value, family) == Ok(x)
  {
    if family == AF_INET {
      DecodeEncode(x, 4);
    } else {
      IntToIpv6Range(x);
      Ipv6RoundTrip(x);
    }
  }

  /** The IPv6 half of IntRoundTrip: the two 64-bit halves decode to their own values. */
  lemma Ipv6RoundTrip(x: int)
    requires IntToIpaddr(x, AF_INET6).Ok?
    ensures IpaddrToInt(IntToIpaddr(x, AF_INET6).value, AF_INET6) == Ok(x)
  {
    assert Pow256(8) == TWO_TO_64;
    var a, b := x / TWO_TO_64, x % TWO_TO_64;
    assert x == a * TWO_TO_64 + b;
    var packed := ToBigEndian(a, 8) + ToBigEndian(b, 8);
    assert IntToIpaddr(x, AF_INET6).value == packed;
    assert packed[..8] == ToBigEndian(a, 8) && packed[8..] == ToBigEndian(b, 8);
    DecodeEncode(a, 8);
    DecodeEncode(b, 8);
  }

  /** Every packed address converts to an integer and packs back to the same bytes. */
  lemma PackedRoundTrip(packed: seq<Byte>, family: int)
    requires family == AF_INET || family == AF_INET6
    requires |packed| == PackedLength(family)
    ensures IntToIpaddr(IpaddrToInt(packed, family).value, family) == Ok(packed)
  {
    var x := IpaddrToInt(packed, family).value;
    IpaddrToIntBound(packed, family);
    if family == AF_INET {
      EncodeDecode(packed);
    } else {
      assert Pow256(8) == TWO_TO_64;
      var a, b := BigEndian(packed[..8]), BigEndian(packed[8..]);
      assert x / TWO_TO_64 == a && x % TWO_TO_64 == b;
      EncodeDecode(packed[..8]);
      EncodeDecode(packed[8..]);
      assert packed == packed[..8] + packed[8..];
    }
  }
}
