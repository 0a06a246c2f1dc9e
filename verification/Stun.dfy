/** The STUN binding-response parser: a byte-level walk over padded attributes
    (sections 5, 14, 14.1 and 14.2 of RFC 8489). */
module Stun {
  import opened Common

  type Byte = n: int | 0 <= n < 0x100

  const BINDING_SUCCESS: nat := 0x0101
  const MAPPED_ADDRESS: nat := 0x0001
  const XOR_MAPPED_ADDRESS: nat := 0x0020
  const COOKIE: nat := 0x2112A442
  const COOKIE_HIGH: nat := 0x2112

  // ------------------------------------------------------------ numbers as bytes

  /** binary.BigEndian.Uint16. */
  function U16(a: Byte, b: Byte): (n: nat)
    ensures n < 0x1_0000
  {
    a * 0x100 + b
  }

  /** binary.BigEndian.Uint32. */
  function U32(a: Byte, b: Byte, c: Byte, d: Byte): (n: nat)
    ensures n < 0x1_0000_0000
  {
    U16(a, b) * 0x1_0000 + U16(c, d)
  }

  function Bytes16(n: nat): (s: seq<Byte>)
    requires n < 0x1_0000
    ensures |s| == 2 && U16(s[0], s[1]) == n
  {
    [n / 0x100, n % 0x100]
  }

  function Bytes32(n: nat): (s: seq<Byte>)
    requires n < 0x1_0000_0000
    ensures |s| == 4 && U32(s[0], s[1], s[2], s[3]) == n
  {
    Bytes16(n / 0x1_0000) + Bytes16(n % 0x1_0000)
  }

  /** Bitwise exclusive or of the lowest `bits` bits. */
  function Xor(a: nat, b: nat, bits: nat): nat {
    if bits == 0 then 0 else 2 * Xor(a / 2, b / 2, bits - 1) + (a + b) % 2
  }

  /** Applying the same mask twice gives the number back, and stays in range. */
  lemma {:induction false} XorUndone(a: nat, b: nat, bits: nat)
    requires a < Pow2(bits)
    ensures Xor(a, b, bits) < Pow2(bits)
    ensures Xor(Xor(a, b, bits), b, bits) == a
  {
    if bits > 0 {
      XorUndone(a / 2, b / 2, bits - 1);
      HalvesOf(Xor(a / 2, b / 2, bits - 1), a, b);
    }
  }

  lemma HalvesOf(high: nat, a: nat, b: nat)
    ensures var x := 2 * high + (a + b) % 2;
            x / 2 == high && (x + b) % 2 == a % 2
  {
  }

  lemma PowersOfTwo()
    ensures Pow2(16) == 0x1_0000 && Pow2(32) == 0x1_0000_0000
  {
    assert Pow2(8) == 0x100 && Pow2(16) == 0x1_0000 && Pow2(24) == 0x100_0000;
  }

  // -------------------------------------------------------------- the parser

  datatype Endpoint = Endpoint(ip: nat, port: nat)

  /** parseAddressAttribute. */
  function Decode(kind: nat, value: seq<Byte>): Option<Endpoint> {
    if |value| < 8 || value[1] != 1 then None
    else
      var port := U16(value[2], value[3]);
      var ip := U32(value[4], value[5], value[6], value[7]);
      if kind == XOR_MAPPED_ADDRESS then Some(Endpoint(Xor(ip, COOKIE, 32), Xor(port, COOKIE_HIGH, 16)))
      else if kind == MAPPED_ADDRESS then Some(Endpoint(ip, port))
      else None
  }

  function KindAt(p: seq<Byte>, offset: nat): nat
    requires offset + 4 <= |p|
  {
    U16(p[offset], p[offset + 1])
  }

  function EndAt(p: seq<Byte>, offset: nat): (end: nat)
    requires offset + 4 <= |p|
    ensures end >= offset + 4
  {
    offset + 4 + U16(p[offset + 2], p[offset + 3])
  }

  /** The next multiple of four. */
  function Aligned(n: nat): (r: nat)
    ensures n <= r < n + 4 && r % 4 == 0
  {
    if n % 4 == 0 then n else n + (4 - n % 4)
  }

  /** An attribute header and value that end by the limit. */
  predicate Fits(p: seq<Byte>, offset: nat, limit: nat)
    requires limit <= |p|
  {
    offset + 4 <= limit && EndAt(p, offset) <= limit
  }

  function DecodeAt(p: seq<Byte>, offset: nat): Option<Endpoint>
    requires offset + 4 <= |p| && EndAt(p, offset) <= |p|
  {
    Decode(KindAt(p, offset), p[offset + 4..EndAt(p, offset)])
  }

  /** Attribute by attribute from `offset` up to `limit`. */
  function Walk(p: seq<Byte>, offset: nat, limit: nat): Option<Endpoint>
    requires limit <= |p|
    decreases limit - offset
  {
    if !Fits(p, offset, limit) then None
    else if DecodeAt(p, offset).Some? then DecodeAt(p, offset)
    else Walk(p, Aligned(EndAt(p, offset)), limit)
  }

  /** The fixed header of a success response that fits its declared length. */
  predicate HeaderOk(p: seq<Byte>) {
    && |p| >= 20
    && U16(p[0], p[1]) == BINDING_SUCCESS
    && U32(p[4], p[5], p[6], p[7]) == COOKIE
    && U16(p[2], p[3]) + 20 <= |p|
  }

  datatype Parsed = Parsed(transaction: seq<Byte>, endpoint: Endpoint)

  /** parseBindingResponse, with its success flag as Some. */
  function Parse(p: seq<Byte>): Option<Parsed> {
    if !HeaderOk(p) then None
    else
      match Walk(p, 20, 20 + U16(p[2], p[3]))
      case None => None
      case Some(e) => Some(Parsed(p[8..20], e))
  }

  /** The code's own loop over a moving offset; every index it uses is inside the packet. */
  method ParseBindingResponse(packet: seq<Byte>) returns (result: Option<Parsed>)
    ensures result == Parse(packet)
  {
    if |packet| < 20 {
      return None;
    }
    if U16(packet[0], packet[1]) != BINDING_SUCCESS {
      return None;
    }
    if U32(packet[4], packet[5], packet[6], packet[7]) != COOKIE {
      return None;
    }
    var msgLen := U16(packet[2], packet[3]);
    if msgLen + 20 > |packet| {
      return None;
    }
    var transaction := packet[8..20];
    var offset, limit := 20, 20 + msgLen;
    while offset + 4 <= limit
      invariant Walk(packet, 20, limit) == Walk(packet, offset, limit)
      decreases limit - offset
    {
      var attrType := U16(packet[offset], packet[offset + 1]);
      var attrLen := U16(packet[offset + 2], packet[offset + 3]);
      var valueStart := offset + 4;
      var valueEnd := valueStart + attrLen;
      assert valueEnd == EndAt(packet, offset);
      if valueEnd > limit {
        return None;
      }
      ghost var next := Aligned(valueEnd);
      var endpoint := Decode(attrType, packet[valueStart..valueEnd]);
      if endpoint.Some? {
        return Some(Parsed(transaction, endpoint.value));
      }
      offset := valueEnd;
      var rem := offset % 4;
      if rem != 0 {
        offset := offset + 4 - rem;
      }
      assert offset == next;
    }
    return None;
  }

  // --------------------------------------------------------------- soundness

  /** `offs` lists the offsets of consecutive padded attributes inside the limit, of
      which only the last is a decodable address. */
  ghost predicate Chain(p: seq<Byte>, limit: nat, offs: seq<nat>)
    requires limit <= |p|
  {
    && |offs| > 0 && Fits(p, offs[0], limit)
    && (if |offs| == 1 then DecodeAt(p, offs[0]).Some?
        else DecodeAt(p, offs[0]).None? && offs[1] == Aligned(EndAt(p, offs[0])) && Chain(p, limit, offs[1..]))
  }

  /** What a chain found: the address its last attribute decodes to. */
  ghost function Found(p: seq<Byte>, limit: nat, offs: seq<nat>): Endpoint
    requires limit <= |p| && Chain(p, limit, offs)
  {
    if |offs| == 1 then DecodeAt(p, offs[0]).value else Found(p, limit, offs[1..])
  }

  lemma {:induction false} WalkSound(p: seq<Byte>, offset: nat, limit: nat) returns (offs: seq<nat>)
    requires limit <= |p| && Walk(p, offset, limit).Some?
    ensures Chain(p, limit, offs) && offs[0] == offset && Walk(p, offset, limit) == Some(Found(p, limit, offs))
    decreases limit - offset
  {
    offs := [offset];
    if DecodeAt(p, offset).None? {
      var rest := WalkSound(p, Aligned(EndAt(p, offset)), limit);
      offs := [offset] + rest;
      assert offs[1..] == rest;
    }
  }

  lemma {:induction false} WalkComplete(p: seq<Byte>, limit: nat, offs: seq<nat>)
    requires limit <= |p| && Chain(p, limit, offs)
    ensures Walk(p, offs[0], limit) == Some(Found(p, limit, offs))
    decreases |offs|
  {
    if |offs| > 1 {
      WalkComplete(p, limit, offs[1..]);
    }
  }

  /** The parser succeeds exactly when a good header is followed by a chain of in-bounds
      padded attributes ending in the first decodable address, and returns that one. */
  lemma ParseSoundAndComplete(p: seq<Byte>, r: Parsed)
    ensures Parse(p) == Some(r) <==>
            HeaderOk(p) && r.transaction == p[8..20] &&
            exists offs :: Chain(p, 20 + U16(p[2], p[3]), offs) && offs[0] == 20
                           && Found(p, 20 + U16(p[2], p[3]), offs) == r.endpoint
  {
    if HeaderOk(p) {
      var limit := 20 + U16(p[2], p[3]);
      if Walk(p, 20, limit).Some? {
        var offs := WalkSound(p, 20, limit);
      }
      forall offs | Chain(p, limit, offs) && offs[0] == 20
        ensures Walk(p, 20, limit) == Some(Found(p, limit, offs))
      {
        WalkComplete(p, limit, offs);
      }
    }
  }

  lemma SameSlice(p: seq<Byte>, q: seq<Byte>, limit: nat, from: nat, to: nat)
    requires from <= to <= limit <= |p| && limit <= |q| && p[..limit] == q[..limit]
    ensures p[from..to] == q[from..to]
  {
    assert p[from..to] == p[..limit][from..to];
    assert q[from..to] == q[..limit][from..to];
  }

  lemma SameByte(p: seq<Byte>, q: seq<Byte>, limit: nat, i: nat)
    requires i < limit <= |p| && limit <= |q| && p[..limit] == q[..limit]
    ensures p[i] == q[i]
  {
    assert p[i] == p[..limit][i] && q[i] == q[..limit][i];
  }

  lemma SameAttribute(p: seq<Byte>, q: seq<Byte>, offset: nat, limit: nat)
    requires limit <= |p| && limit <= |q| && p[..limit] == q[..limit] && offset + 4 <= limit
    ensures KindAt(p, offset) == KindAt(q, offset) && EndAt(p, offset) == EndAt(q, offset)
    ensures EndAt(p, offset) <= limit ==> DecodeAt(p, offset) == DecodeAt(q, offset)
  {
    SameByte(p, q, limit, offset);
    SameByte(p, q, limit, offset + 1);
    SameByte(p, q, limit, offset + 2);
    SameByte(p, q, limit, offset + 3);
    if EndAt(p, offset) <= limit {
      SameSlice(p, q, limit, offset + 4, EndAt(p, offset));
    }
  }

  lemma {:induction false} WalkLocal(p: seq<Byte>, q: seq<Byte>, offset: nat, limit: nat)
    requires limit <= |p| && limit <= |q| && p[..limit] == q[..limit]
    ensures Walk(p, offset, limit) == Walk(q, offset, limit)
    decreases limit - offset
  {
    if offset + 4 <= limit {
      SameAttribute(p, q, offset, limit);
      if Fits(p, offset, limit) {
        WalkLocal(p, q, Aligned(EndAt(p, offset)), limit);
      }
    }
  }

  /** Bytes after the declared length do not matter. */
  lemma ParseLocal(p: seq<Byte>, q: seq<Byte>)
    requires HeaderOk(p) && 20 + U16(p[2], p[3]) <= |q|
    requires p[..20 + U16(p[2], p[3])] == q[..20 + U16(p[2], p[3])]
    ensures Parse(p) == Parse(q)
  {
    var limit := 20 + U16(p[2], p[3]);
    assert forall i :: 0 <= i < limit ==> p[i] == p[..limit][i] == q[i];
    assert p[8..20] == q[8..20];
    WalkLocal(p, q, 20, limit);
  }

  // -------------------------------------------------------------- round trip

  /** An attribute as it is sent; the padding bytes may be anything. */
  datatype Attribute = Attribute(kind: nat, value: seq<Byte>, padding: seq<Byte>) {
    ghost predicate Valid() {
      kind < 0x1_0000 && |value| < 0x1_0000 && |padding| == Aligned(|value|) - |value|
    }
  }

  function Encode(a: Attribute): (s: seq<Byte>)
    requires a.kind < 0x1_0000 && |a.value| < 0x1_0000
  {
    Bytes16(a.kind) + Bytes16(|a.value|) + a.value + a.padding
  }

  ghost predicate AllValid(attrs: seq<Attribute>) {
    forall i :: 0 <= i < |attrs| ==> attrs[i].Valid()
  }

  ghost function Body(attrs: seq<Attribute>): seq<Byte>
    requires AllValid(attrs)
  {
    if attrs == [] then [] else Encode(attrs[0]) + Body(attrs[1..])
  }

  ghost function Message(transaction: seq<Byte>, attrs: seq<Attribute>): seq<Byte>
    requires AllValid(attrs) && |Body(attrs)| < 0x1_0000
  {
    Header(transaction, |Body(attrs)|) + Body(attrs)
  }

  function Header(transaction: seq<Byte>, length: nat): seq<Byte>
    requires length < 0x1_0000
  {
    Bytes16(BINDING_SUCCESS) + Bytes16(length) + Bytes32(COOKIE) + transaction
  }

  /** The first attribute that decodes to an IPv4 address. */
  function FirstAddress(attrs: seq<Attribute>): Option<Endpoint> {
    if attrs == [] then None
    else
      var found := Decode(attrs[0].kind, attrs[0].value);
      if found.Some? then found else FirstAddress(attrs[1..])
  }

  lemma EncodedParts(p: seq<Byte>, offset: nat, head: seq<Byte>, value: seq<Byte>, padding: seq<Byte>)
    requires offset + |head| + |value| + |padding| <= |p|
    requires p[offset..offset + |head| + |value| + |padding|] == head + value + padding
    ensures p[offset..offset + |head|] == head
    ensures p[offset + |head|..offset + |head| + |value|] == value
  {
    SliceOfConcat(p, offset, head + value, padding);
    SliceOfConcat(p, offset, head, value);
  }

  lemma EncodedLength(a: Attribute)
    requires a.Valid()
    ensures |Encode(a)| == 4 + |a.value| + |a.padding| == 4 + Aligned(|a.value|)
  {
  }

  /** Reading back one attribute that starts at an aligned offset. */
  lemma ReadAttribute(p: seq<Byte>, offset: nat, a: Attribute)
    requires a.Valid() && offset % 4 == 0 && offset + |Encode(a)| <= |p|
    requires p[offset..offset + |Encode(a)|] == Encode(a)
    ensures |Encode(a)| == 4 + |a.value| + |a.padding|
    ensures KindAt(p, offset) == a.kind && EndAt(p, offset) == offset + 4 + |a.value|
    ensures p[offset + 4..offset + 4 + |a.value|] == a.value
    ensures Aligned(offset + 4 + |a.value|) == offset + |Encode(a)|
  {
    EncodedLength(a);
    AlignedShift(offset + 4, |a.value|);
    EncodedSlice(p, offset, a);
  }

  lemma EncodedSlice(p: seq<Byte>, offset: nat, a: Attribute)
    requires a.kind < 0x1_0000 && |a.value| < 0x1_0000 && offset + |Encode(a)| <= |p|
    requires p[offset..offset + |Encode(a)|] == Encode(a)
    ensures |Encode(a)| == 4 + |a.value| + |a.padding|
    ensures KindAt(p, offset) == a.kind && EndAt(p, offset) == offset + 4 + |a.value|
    ensures p[offset + 4..offset + 4 + |a.value|] == a.value
  {
    EncodedParts(p, offset, Bytes16(a.kind) + Bytes16(|a.value|), a.value, a.padding);
    HeadBytes(p, offset, a.kind, |a.value|);
  }

  lemma HeadBytes(p: seq<Byte>, offset: nat, kind: nat, length: nat)
    requires kind < 0x1_0000 && length < 0x1_0000 && offset + 4 <= |p|
    requires p[offset..offset + 4] == Bytes16(kind) + Bytes16(length)
    ensures KindAt(p, offset) == kind && EndAt(p, offset) == offset + 4 + length
  {
    var head := p[offset..offset + 4];
    assert p[offset] == head[0] && p[offset + 1] == head[1] && p[offset + 2] == head[2] && p[offset + 3] == head[3];
  }

  lemma AlignedShift(base: nat, n: nat)
    requires base % 4 == 0
    ensures Aligned(base + n) == base + Aligned(n)
  {
    assert (base + n) % 4 == n % 4;
  }

  lemma SliceOfConcat(p: seq<Byte>, offset: nat, a: seq<Byte>, b: seq<Byte>)
    requires offset + |a| + |b| <= |p| && p[offset..offset + |a| + |b|] == a + b
    ensures p[offset..offset + |a|] == a && p[offset + |a|..offset + |a| + |b|] == b
  {
    var whole := p[offset..offset + |a| + |b|];
    assert p[offset..offset + |a|] == whole[..|a|];
    assert p[offset + |a|..offset + |a| + |b|] == whole[|a|..];
  }

  /** What the walk does at an attribute it has read. */
  lemma WalkUnfold(p: seq<Byte>, offset: nat, limit: nat, kind: nat, value: seq<Byte>, next: nat)
    requires next <= limit <= |p| && offset + 4 + |value| <= next
    requires KindAt(p, offset) == kind && EndAt(p, offset) == offset + 4 + |value|
    requires p[offset + 4..offset + 4 + |value|] == value && Aligned(offset + 4 + |value|) == next
    ensures Walk(p, offset, limit) ==
            if Decode(kind, value).Some? then Decode(kind, value) else Walk(p, next, limit)
  {
  }

  /** One attribute of the walk, with the rest of the body behind it. */
  lemma WalkAttribute(p: seq<Byte>, offset: nat, limit: nat, a: Attribute, rest: seq<Byte>)
    requires a.Valid() && offset % 4 == 0 && offset + |Encode(a)| + |rest| == limit <= |p|
    requires p[offset..limit] == Encode(a) + rest
    ensures var next := offset + |Encode(a)|;
            && next % 4 == 0 && next <= limit && p[next..limit] == rest
            && Walk(p, offset, limit) ==
               if Decode(a.kind, a.value).Some? then Decode(a.kind, a.value) else Walk(p, next, limit)
  {
    SliceOfConcat(p, offset, Encode(a), rest);
    ReadAttribute(p, offset, a);
    WalkUnfold(p, offset, limit, a.kind, a.value, offset + |Encode(a)|);
  }

  lemma WalkEnd(p: seq<Byte>, limit: nat)
    requires limit <= |p|
    ensures Walk(p, limit, limit) == None
  {
  }

  lemma BodyFirst(attrs: seq<Attribute>)
    requires AllValid(attrs) && attrs != []
    ensures attrs[0].Valid() && AllValid(attrs[1..]) && Body(attrs) == Encode(attrs[0]) + Body(attrs[1..])
  {
  }

  lemma {:induction false} WalkBody(p: seq<Byte>, offset: nat, limit: nat, attrs: seq<Attribute>)
    requires AllValid(attrs) && offset % 4 == 0 && offset + |Body(attrs)| == limit <= |p|
    requires p[offset..limit] == Body(attrs)
    ensures Walk(p, offset, limit) == FirstAddress(attrs)
    decreases |attrs|
  {
    if attrs == [] {
      WalkEnd(p, limit);
    } else {
      BodyFirst(attrs);
      WalkAttribute(p, offset, limit, attrs[0], Body(attrs[1..]));
      WalkBody(p, offset + |Encode(attrs[0])|, limit, attrs[1..]);
    }
  }

  lemma HeaderReads(p: seq<Byte>, transaction: seq<Byte>, length: nat)
    requires |transaction| == 12 && length < 0x1_0000 && |p| >= 20 + length
    requires p[..20] == Header(transaction, length)
    ensures HeaderOk(p) && U16(p[2], p[3]) == length && p[8..20] == transaction
  {
    var h := Header(transaction, length);
    assert forall i :: 0 <= i < 20 ==> p[i] == p[..20][i] == h[i];
    assert h[..2] == Bytes16(BINDING_SUCCESS) && h[2..4] == Bytes16(length);
    assert h[4..8] == Bytes32(COOKIE) && h[8..20] == transaction;
    assert h[0] == h[..2][0] && h[1] == h[..2][1];
    assert h[2] == h[2..4][0] && h[3] == h[2..4][1];
    assert h[4] == h[4..8][0] && h[5] == h[4..8][1] && h[6] == h[4..8][2] && h[7] == h[4..8][3];
  }

  lemma MessageShape(header: seq<Byte>, body: seq<Byte>, trailing: seq<Byte>)
    ensures var p := header + body + trailing;
            p[..|header|] == header && p[|header|..|header| + |body|] == body
  {
  }

  /** Round trip: for every transaction id and every list of padded attributes that fits
      the length field, parsing the serialised response, whatever follows it in the
      datagram, yields that id and the first decodable address, and fails exactly when
      there is none. */
  lemma RoundTrip(transaction: seq<Byte>, attrs: seq<Attribute>, trailing: seq<Byte>)
    requires |transaction| == 12 && AllValid(attrs) && |Body(attrs)| < 0x1_0000
    ensures Parse(Message(transaction, attrs) + trailing) ==
            match FirstAddress(attrs)
            case None => None
            case Some(e) => Some(Parsed(transaction, e))
  {
    var p, body := Message(transaction, attrs) + trailing, Body(attrs);
    MessageShape(Header(transaction, |body|), body, trailing);
    HeaderReads(p, transaction, |body|);
    WalkBody(p, 20, 20 + |body|, attrs);
  }

  // ------------------------------------------------------- address attributes

  /** The value of a MAPPED-ADDRESS or XOR-MAPPED-ADDRESS attribute for an endpoint. */
  function AddressValue(e: Endpoint, xor: bool): seq<Byte>
    requires e.ip < 0x1_0000_0000 && e.port < 0x1_0000
  {
    if xor then
      PowersOfTwo(); XorUndone(e.port, COOKIE_HIGH, 16); XorUndone(e.ip, COOKIE, 32);
      [0, 1] + Bytes16(Xor(e.port, COOKIE_HIGH, 16)) + Bytes32(Xor(e.ip, COOKIE, 32))
    else [0, 1] + Bytes16(e.port) + Bytes32(e.ip)
  }

  /** Both forms decode to the endpoint they were made from: the mask is undone exactly. */
  lemma AddressDecodes(e: Endpoint, xor: bool, rest: seq<Byte>)
    requires e.ip < 0x1_0000_0000 && e.port < 0x1_0000
    ensures Decode(if xor then XOR_MAPPED_ADDRESS else MAPPED_ADDRESS, AddressValue(e, xor) + rest) == Some(e)
  {
    PowersOfTwo();
    XorUndone(e.port, COOKIE_HIGH, 16);
    XorUndone(e.ip, COOKIE, 32);
    var port := if xor then Xor(e.port, COOKIE_HIGH, 16) else e.port;
    var ip := if xor then Xor(e.ip, COOKIE, 32) else e.ip;
    var v := AddressValue(e, xor) + rest;
    assert v == [0, 1] + Bytes16(port) + Bytes32(ip) + rest;
    assert v[2..4] == Bytes16(port) && v[4..8] == Bytes32(ip);
    assert v[2] == v[2..4][0] && v[3] == v[2..4][1];
    assert v[4] == v[4..8][0] && v[5] == v[4..8][1] && v[6] == v[4..8][2] && v[7] == v[4..8][3];
  }

  // ---------------------------------------------------- against bits and literals

  /** The i-th binary digit. */
  function BinaryDigit(n: nat, i: nat): nat {
    n / Pow2(i) % 2
  }

  lemma NextDigit(n: nat, i: nat)
    ensures BinaryDigit(n, i + 1) == BinaryDigit(n / 2, i) && BinaryDigit(n, 0) == n % 2
  {
    HalfThenQuotient(n, Pow2(i));
  }

  lemma XorHalf(a: nat, b: nat, bits: nat)
    requires bits > 0
    ensures Xor(a, b, bits) / 2 == Xor(a / 2, b / 2, bits - 1)
    ensures Xor(a, b, bits) % 2 == 1 <==> a % 2 != b % 2
  {
    assert Xor(a, b, bits) == 2 * Xor(a / 2, b / 2, bits - 1) + (a + b) % 2;
  }

  /** Xor is exclusive or: a digit of the result is 1 exactly if the digits differ. */
  lemma {:induction false} XorDigit(a: nat, b: nat, bits: nat, i: nat)
    requires i < bits
    ensures BinaryDigit(Xor(a, b, bits), i) == 1 <==> BinaryDigit(a, i) != BinaryDigit(b, i)
    decreases i
  {
    XorHalf(a, b, bits);
    if i > 0 {
      XorDigit(a / 2, b / 2, bits - 1, i - 1);
      NextDigit(Xor(a, b, bits), i - 1);
      NextDigit(a, i - 1);
      NextDigit(b, i - 1);
    } else {
      NextDigit(Xor(a, b, bits), 0);
      NextDigit(a, 0);
      NextDigit(b, 0);
    }
  }

  lemma {:induction false} XorInRange(a: nat, b: nat, bits: nat)
    ensures Xor(a, b, bits) < Pow2(bits)
  {
    if bits > 0 {
      XorInRange(a / 2, b / 2, bits - 1);
    }
  }

  /** The header test, byte by byte. */
  lemma HeaderBytes(p: seq<Byte>)
    ensures HeaderOk(p) <==>
            && |p| >= 20 && p[0] == 0x01 && p[1] == 0x01
            && p[4] == 0x21 && p[5] == 0x12 && p[6] == 0xA4 && p[7] == 0x42
            && 20 + 0x100 * p[2] + p[3] <= |p|
  {
  }

  /** The number some bytes spell, most significant first. */
  function Spelled(bytes: seq<Byte>): nat {
    if bytes == [] then 0 else 0x100 * Spelled(bytes[..|bytes| - 1]) + bytes[|bytes| - 1]
  }

  lemma SpelledTwo(s: seq<Byte>)
    requires |s| == 2
    ensures Spelled(s) == U16(s[0], s[1])
  {
    assert s[..1] == [s[0]] && s[..1][..0] == [];
    assert Spelled(s[..1]) == s[0];
  }

  lemma SpelledFour(s: seq<Byte>)
    requires |s| == 4
    ensures Spelled(s) == U32(s[0], s[1], s[2], s[3])
  {
    assert s[..3][..2] == s[..2];
    SpelledTwo(s[..2]);
    assert Spelled(s[..3]) == 0x100 * U16(s[0], s[1]) + s[2];
  }

  /** Which attributes decode, and what a plain one decodes to. */
  lemma DecodesIff(kind: nat, v: seq<Byte>)
    ensures Decode(kind, v).Some? <==> |v| >= 8 && v[1] == 0x01 && (kind == 0x0001 || kind == 0x0020)
    ensures |v| >= 8 && v[1] == 0x01 && kind == 0x0001 ==>
              Decode(kind, v) == Some(Endpoint(Spelled(v[4..8]), Spelled(v[2..4])))
  {
    if |v| >= 8 {
      SpelledFour(v[4..8]);
      SpelledTwo(v[2..4]);
    }
  }

  /** And what a masked one decodes to, digit by digit against the magic cookie. */
  lemma MaskedDigit(v: seq<Byte>, i: nat)
    requires |v| >= 8 && v[1] == 0x01 && i < 32
    ensures Decode(0x0020, v).Some?
    ensures var e := Decode(0x0020, v).value;
            && e.ip < Pow2(32) && e.port < Pow2(16)
            && (BinaryDigit(e.ip, i) == 1 <==> BinaryDigit(Spelled(v[4..8]), i) != BinaryDigit(0x2112A442, i))
            && (i < 16 ==>
                  (BinaryDigit(e.port, i) == 1 <==> BinaryDigit(Spelled(v[2..4]), i) != BinaryDigit(0x2112, i)))
  {
    SpelledFour(v[4..8]);
    SpelledTwo(v[2..4]);
    var ip, port := Spelled(v[4..8]), Spelled(v[2..4]);
    XorInRange(ip, COOKIE, 32);
    XorInRange(port, COOKIE_HIGH, 16);
    XorDigit(ip, COOKIE, 32, i);
    if i < 16 {
      XorDigit(port, COOKIE_HIGH, 16, i);
    }
  }

  // Exclusive or of bytes, up from binary digits.

  lemma XorLow(a: nat, x: nat, b: nat, y: nat, bits: nat)
    requires x < 2 && y < 2
    ensures Xor(2 * a + x, 2 * b + y, bits + 1) == 2 * Xor(a, b, bits) + (x + y) % 2
  {
    Halve(a, x, b, y);
  }

  lemma Halve(a: nat, x: nat, b: nat, y: nat)
    requires x < 2 && y < 2
    ensures (2 * a + x) / 2 == a && (2 * b + y) / 2 == b && (2 * a + x + (2 * b + y)) % 2 == (x + y) % 2
  {
  }

  lemma XorTwo(a: nat, x1: nat, x0: nat, b: nat, y1: nat, y0: nat, bits: nat)
    requires x1 < 2 && x0 < 2 && y1 < 2 && y0 < 2
    ensures Xor(4 * a + 2 * x1 + x0, 4 * b + 2 * y1 + y0, bits + 2)
            == 4 * Xor(a, b, bits) + 2 * ((x1 + y1) % 2) + (x0 + y0) % 2
  {
    XorLow(a, x1, b, y1, bits);
    XorLow(2 * a + x1, x0, 2 * b + y1, y0, bits + 1);
  }

  /** Two binary digits at a time, in base four. */
  lemma XorBaseFour(a: nat, x: nat, b: nat, y: nat, bits: nat)
    requires x < 4 && y < 4
    ensures Xor(4 * a + x, 4 * b + y, bits + 2) == 4 * Xor(a, b, bits) + Xor(x, y, 2)
  {
    XorTwo(a, x / 2, x % 2, b, y / 2, y % 2, bits);
    XorTwo(0, x / 2, x % 2, 0, y / 2, y % 2, 0);
  }

  lemma XorBaseSixteen(a: nat, x: nat, b: nat, y: nat, bits: nat)
    requires x < 16 && y < 16
    ensures Xor(16 * a + x, 16 * b + y, bits + 4) == 16 * Xor(a, b, bits) + Xor(x, y, 4)
  {
    XorBaseFour(a, x / 4, b, y / 4, bits);
    XorBaseFour(4 * a + x / 4, x % 4, 4 * b + y / 4, y % 4, bits + 2);
    XorBaseFour(x / 4, x % 4, y / 4, y % 4, 2);
  }

  lemma XorBytes(a: nat, x: Byte, b: nat, y: Byte, bits: nat)
    ensures Xor(0x100 * a + x, 0x100 * b + y, bits + 8) == 0x100 * Xor(a, b, bits) + Xor(x, y, 8)
  {
    XorBaseSixteen(a, x / 16, b, y / 16, bits);
    XorBaseSixteen(16 * a + x / 16, x % 16, 16 * b + y / 16, y % 16, bits + 4);
    XorBaseSixteen(x / 16, x % 16, y / 16, y % 16, 4);
  }

  /** Byte by byte. */
  lemma {:induction false} XorSpelled(a: seq<Byte>, b: seq<Byte>, x: seq<Byte>)
    requires |a| == |b| == |x| && forall i :: 0 <= i < |a| ==> Xor(a[i], b[i], 8) == x[i]
    ensures Xor(Spelled(a), Spelled(b), 8 * |a|) == Spelled(x)
  {
    if a != [] {
      var n := |a| - 1;
      XorSpelled(a[..n], b[..n], x[..n]);
      XorBytes(Spelled(a[..n]), a[n], Spelled(b[..n]), b[n], 8 * n);
    }
  }

  lemma XorHex(a1: nat, a0: nat, b1: nat, b0: nat)
    requires a1 < 16 && a0 < 16 && b1 < 16 && b0 < 16
    ensures Xor(16 * a1 + a0, 16 * b1 + b0, 8) == 16 * Xor(a1, b1, 4) + Xor(a0, b0, 4)
  {
    XorBaseSixteen(a1, a0, b1, b0, 4);
  }

  lemma XorBinary(x3: nat, x2: nat, x1: nat, x0: nat, y3: nat, y2: nat, y1: nat, y0: nat)
    requires x3 < 2 && x2 < 2 && x1 < 2 && x0 < 2 && y3 < 2 && y2 < 2 && y1 < 2 && y0 < 2
    ensures Xor(8 * x3 + 4 * x2 + 2 * x1 + x0, 8 * y3 + 4 * y2 + 2 * y1 + y0, 4)
            == 8 * ((x3 + y3) % 2) + 4 * ((x2 + y2) % 2) + 2 * ((x1 + y1) % 2) + (x0 + y0) % 2
  {
    XorTwo(0, x3, x2, 0, y3, y2, 0);
    XorTwo(2 * x3 + x2, x1, x0, 2 * y3 + y2, y1, y0, 2);
  }

  lemma SampleNibbles()
    ensures Xor(0xa, 0x2, 4) == 0x8 && Xor(0x1, 0x1, 4) == 0x0 && Xor(0x4, 0x1, 4) == 0x5 && Xor(0x7, 0x2, 4) == 0x5
    ensures Xor(0xe, 0x2, 4) == 0xC && Xor(0x2, 0x2, 4) == 0x0 && Xor(0xa, 0xa, 4) == 0x0 && Xor(0x6, 0x4, 4) == 0x2
    ensures Xor(0x4, 0x4, 4) == 0x0 && Xor(0x3, 0x2, 4) == 0x1
  {
    XorBinary(1, 0, 1, 0, 0, 0, 1, 0);
    XorBinary(0, 0, 0, 1, 0, 0, 0, 1);
    XorBinary(0, 1, 0, 0, 0, 0, 0, 1);
    XorBinary(0, 1, 1, 1, 0, 0, 1, 0);
    XorBinary(1, 1, 1, 0, 0, 0, 1, 0);
    XorBinary(0, 0, 1, 0, 0, 0, 1, 0);
    XorBinary(1, 0, 1, 0, 1, 0, 1, 0);
    XorBinary(0, 1, 1, 0, 0, 1, 0, 0);
    XorBinary(0, 1, 0, 0, 0, 1, 0, 0);
    XorBinary(0, 0, 1, 1, 0, 0, 1, 0);
  }

  /** The bytes of the sample, masked by those of the magic cookie. */
  lemma SampleBytes()
    ensures Xor(0xa1, 0x21, 8) == 0x80 && Xor(0x47, 0x12, 8) == 0x55
    ensures Xor(0xe1, 0x21, 8) == 0xC0 && Xor(0x12, 0x12, 8) == 0x00
    ensures Xor(0xa6, 0xa4, 8) == 0x02 && Xor(0x43, 0x42, 8) == 0x01
  {
    SampleNibbles();
    XorHex(0xa, 0x1, 0x2, 0x1);
    XorHex(0x4, 0x7, 0x1, 0x2);
    XorHex(0xe, 0x1, 0x2, 0x1);
    XorHex(0x1, 0x2, 0x1, 0x2);
    XorHex(0xa, 0x6, 0xa, 0x4);
    XorHex(0x4, 0x3, 0x4, 0x2);
  }

  lemma SampleIP(v: seq<Byte>)
    requires v == [0xe1, 0x12, 0xa6, 0x43]
    ensures Xor(U32(v[0], v[1], v[2], v[3]), COOKIE, 32) == 0xC000_0201
  {
    var cookie: seq<Byte> := [0x21, 0x12, 0xa4, 0x42];
    var ip: seq<Byte> := [0xC0, 0x00, 0x02, 0x01];
    SampleBytes();
    XorSpelled(v, cookie, ip);
    SpelledFour(v);
    SpelledFour(cookie);
    SpelledFour(ip);
  }

  lemma SamplePort(v: seq<Byte>)
    requires v == [0xa1, 0x47]
    ensures Xor(U16(v[0], v[1]), COOKIE_HIGH, 16) == 32853
  {
    var cookie: seq<Byte> := [0x21, 0x12];
    var port: seq<Byte> := [0x80, 0x55];
    SampleBytes();
    XorSpelled(v, cookie, port);
    SpelledTwo(v);
    SpelledTwo(cookie);
    SpelledTwo(port);
  }

  lemma SampleAddress(v: seq<Byte>)
    requires v == [0x00, 0x01, 0xa1, 0x47, 0xe1, 0x12, 0xa6, 0x43]
    ensures Decode(0x0020, v) == Some(Endpoint(0xC000_0201, 32853))
  {
    SamplePort(v[2..4]);
    SampleIP(v[4..8]);
  }

  /** The sample IPv4 response of section 2.2 of RFC 5769, as far as a reader of addresses
      looks at it: its length, the cookie, a padded 11-byte attribute at offset 20 and the
      XOR-MAPPED-ADDRESS at offset 36. */
  ghost predicate IsSample(p: seq<Byte>) {
    && |p| == 80
    && p[0..4] == [0x01, 0x01, 0x00, 0x3c] && p[4..8] == [0x21, 0x12, 0xa4, 0x42]
    && p[20..24] == [0x80, 0x22, 0x00, 0x0b]
    && p[36..40] == [0x00, 0x20, 0x00, 0x08] && p[40..48] == [0x00, 0x01, 0xa1, 0x47, 0xe1, 0x12, 0xa6, 0x43]
  }

  lemma SampleOffsets(p: seq<Byte>)
    requires IsSample(p)
    ensures HeaderOk(p) && U16(p[2], p[3]) == 60
    ensures KindAt(p, 20) == 0x8022 && EndAt(p, 20) == 35
    ensures KindAt(p, 36) == 0x0020 && EndAt(p, 36) == 48
  {
    assert p[0] == p[0..4][0] && p[1] == p[0..4][1] && p[2] == p[0..4][2] && p[3] == p[0..4][3];
    assert p[4] == p[4..8][0] && p[5] == p[4..8][1] && p[6] == p[4..8][2] && p[7] == p[4..8][3];
    assert p[20] == p[20..24][0] && p[21] == p[20..24][1] && p[22] == p[20..24][2] && p[23] == p[20..24][3];
    assert p[36] == p[36..40][0] && p[37] == p[36..40][1] && p[38] == p[36..40][2] && p[39] == p[36..40][3];
  }

  lemma SampleFirst(p: seq<Byte>)
    requires IsSample(p)
    ensures Walk(p, 20, 80) == Walk(p, 36, 80)
  {
    SampleOffsets(p);
    DecodesIff(0x8022, p[24..35]);
    WalkUnfold(p, 20, 80, 0x8022, p[24..35], 36);
  }

  lemma SampleSecond(p: seq<Byte>)
    requires IsSample(p)
    ensures Walk(p, 36, 80) == Some(Endpoint(0xC000_0201, 32853))
  {
    SampleOffsets(p);
    SampleAddress(p[40..48]);
    WalkUnfold(p, 36, 80, 0x0020, p[40..48], 48);
  }

  lemma ParsesTo(p: seq<Byte>, length: nat, e: Endpoint)
    requires HeaderOk(p) && U16(p[2], p[3]) == length && Walk(p, 20, 20 + length) == Some(e)
    ensures Parse(p) == Some(Parsed(p[8..20], e))
  {
  }

  /** It parses to 192.0.2.1, port 32853, past the padded attribute before the address. */
  lemma SampleParses(p: seq<Byte>)
    requires IsSample(p)
    ensures Parse(p) == Some(Parsed(p[8..20], Endpoint(0xC000_0201, 32853)))
  {
    SampleOffsets(p);
    SampleFirst(p);
    SampleSecond(p);
    ParsesTo(p, 60, Endpoint(0xC000_0201, 32853));
  }
}
