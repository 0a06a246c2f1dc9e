/** The address allocator: first fit over an IPv4 subnet, with a map keyed by
    dotted-quad text as its only state. The text form is tied to 32-bit numbers,
    which is what the rest of the model uses. */
module Ipam {
  import opened Common

  // ---------------------------------------------------------------- subnets

  /** The lowest `bits` bits of `n` are zero. */
  predicate Masked(n: nat, bits: nat) {
    bits == 0 || (n % 2 == 0 && Masked(n / 2, bits - 1))
  }

  /** A masked IPv4 network, as net.ParseCIDR returns it: the host bits are zero. */
  datatype Subnet = Subnet(network: Addr, ones: nat) {
    ghost predicate Valid() {
      ones <= 32 && Masked(network, 32 - ones)
    }

    function Size(): (r: nat)
      requires ones <= 32
      ensures r >= 1
    {
      Pow2(32 - ones)
    }

    /** Strictly between network and broadcast address. */
    ghost predicate IsHost(a: int)
      requires ones <= 32
    {
      network < a < network + Size() - 1
    }

    /** net.IPNet.Contains. */
    predicate Contains(a: Addr)
      requires ones <= 32
    {
      network <= a < network + Size()
    }
  }

  /** A masked block never runs past the end of the address space. */
  lemma {:induction false} MaskedFits(n: nat, bits: nat, rest: nat)
    requires Masked(n, bits) && n < Pow2(bits + rest)
    ensures n + Pow2(bits) <= Pow2(bits + rest)
  {
    if bits > 0 {
      MaskedFits(n / 2, bits - 1, rest);
    }
  }

  lemma {:induction false} BlockOf(n: nat, a: nat, bits: nat)
    requires Masked(n, bits)
    ensures n <= a < n + Pow2(bits) <==> a / Pow2(bits) == n / Pow2(bits)
  {
    if bits > 0 {
      BlockOf(n / 2, a / 2, bits - 1);
      HalfThenQuotient(n, Pow2(bits - 1));
      HalfThenQuotient(a, Pow2(bits - 1));
    }
  }

  /** A subnet contains exactly the addresses that agree with its network in the first
      `ones` bits. */
  lemma ContainsIff(net: Subnet, a: Addr)
    requires net.Valid()
    ensures net.Contains(a) <==> a / Pow2(32 - net.ones) == net.network / Pow2(32 - net.ones)
  {
    BlockOf(net.network, a, 32 - net.ones);
  }

  lemma NoWrap(net: Subnet)
    requires net.Valid()
    ensures net.network + net.Size() <= 0x1_0000_0000
  {
    assert Pow2(8) == 0x100 && Pow2(16) == 0x1_0000 && Pow2(24) == 0x100_0000;
    assert Pow2(32) == 0x1_0000_0000;
    MaskedFits(net.network, 32 - net.ones, net.ones);
  }

  // ------------------------------------------------------------ dotted quads

  function Digit(n: nat): (c: char)
    requires n < 10
    ensures c != '.'
  {
    '0' + n as char
  }

  function Decimal(n: nat): (s: string)
    ensures |s| > 0
    ensures '.' !in s
    decreases n
  {
    if n < 10 then [Digit(n)] else Decimal(n / 10) + [Digit(n % 10)]
  }

  lemma {:induction false} DecimalInjective(m: nat, n: nat)
    requires Decimal(m) == Decimal(n)
    ensures m == n
    decreases m
  {
    var s := Decimal(m);
    assert s[|s| - 1] == Digit(m % 10) == Digit(n % 10);
    assert m < 10 <==> |Decimal(m)| == 1;
    assert n < 10 <==> |Decimal(n)| == 1;
    if m >= 10 {
      assert s[..|s| - 1] == Decimal(m / 10) == Decimal(n / 10);
      DecimalInjective(m / 10, n / 10);
    }
  }

  datatype Quad = Quad(b0: nat, b1: nat, b2: nat, b3: nat)

  /** The four bytes of a 32-bit number, most significant first. */
  function ToQuad(a: Addr): (q: Quad)
    ensures a == q.b0 * 0x100_0000 + q.b1 * 0x1_0000 + q.b2 * 0x100 + q.b3
    ensures q.b0 < 0x100 && q.b1 < 0x100 && q.b2 < 0x100 && q.b3 < 0x100
  {
    var high, low := a / 0x1_0000, a % 0x1_0000;
    Quad(high / 0x100, high % 0x100, low / 0x100, low % 0x100)
  }

  function QuadText(q: Quad): string {
    Decimal(q.b0) + "." + (Decimal(q.b1) + "." + (Decimal(q.b2) + "." + Decimal(q.b3)))
  }

  /** net.IP{...}.String() of the four bytes of a 32-bit number. */
  function Format(a: Addr): string {
    QuadText(ToQuad(a))
  }

  /** Two texts that agree and have no dot before their first dot agree piecewise. */
  lemma {:induction false} SplitAtDot(x: string, y: string, x': string, y': string)
    requires '.' !in x && '.' !in x'
    requires x + "." + y == x' + "." + y'
    ensures x == x' && y == y'
  {
    var s := x + "." + y;
    assert s[|x|] == '.' && s[|x'|] == '.';
    assert forall i | 0 <= i < |x| :: s[i] == x[i] && s[i] != '.';
    assert forall i | 0 <= i < |x'| :: s[i] == x'[i] && s[i] != '.';
    assert |x| == |x'|;
    assert x == s[..|x|] && x' == s[..|x'|];
    assert y == s[|x| + 1..] && y' == s[|x'| + 1..];
  }

  lemma QuadTextInjective(p: Quad, q: Quad)
    requires QuadText(p) == QuadText(q)
    ensures p == q
  {
    var p1, q1 := Decimal(p.b1), Decimal(q.b1);
    var p2, q2 := Decimal(p.b2), Decimal(q.b2);
    var p3, q3 := Decimal(p.b3), Decimal(q.b3);
    SplitAtDot(Decimal(p.b0), p1 + "." + (p2 + "." + p3), Decimal(q.b0), q1 + "." + (q2 + "." + q3));
    SplitAtDot(p1, p2 + "." + p3, q1, q2 + "." + q3);
    SplitAtDot(p2, p3, q2, q3);
    DecimalInjective(p.b0, q.b0);
    DecimalInjective(p.b1, q.b1);
    DecimalInjective(p.b2, q.b2);
    DecimalInjective(p.b3, q.b3);
  }

  /** Distinct addresses have distinct texts, so the string-keyed map is a set of numbers. */
  lemma FormatInjective(a: Addr, b: Addr)
    requires Format(a) == Format(b)
    ensures a == b
  {
    QuadTextInjective(ToQuad(a), ToQuad(b));
  }

  lemma FormatInjectiveForAll()
    ensures forall a: Addr, b: Addr :: Format(a) == Format(b) ==> a == b
  {
    forall a: Addr, b: Addr | Format(a) == Format(b)
      ensures a == b
    {
      FormatInjective(a, b);
    }
  }

  /** The address 192.0.2.1. */
  lemma FormatSample()
    ensures Format(0xC000_0201) == "192.0.2.1"
  {
    assert ToQuad(0xC000_0201) == Quad(192, 0, 2, 1);
    assert Decimal(1) == "1" && Decimal(2) == "2" && Decimal(0) == "0";
    assert Decimal(19) == Decimal(1) + [Digit(9)] && Digit(9) == '9';
    assert Decimal(192) == Decimal(19) + [Digit(2)] && Digit(2) == '2';
    assert Decimal(192) == "192";
  }

  // --------------------------------------------------------- reading them back

  /** The value of a decimal numeral without leading zeros. */
  function ReadDecimal(f: string): Option<nat> {
    if f == "" || !('0' <= f[|f| - 1] <= '9') then None
    else
      var digit := f[|f| - 1] as int - '0' as int;
      if |f| == 1 then Some(digit)
      else
        match ReadDecimal(f[..|f| - 1])
        case None => None
        case Some(high) => if high == 0 then None else Some(10 * high + digit)
  }

  /** It reads exactly the texts Decimal writes. */
  lemma {:induction false} ReadDecimalIff(f: string, n: nat)
    ensures ReadDecimal(f) == Some(n) <==> f == Decimal(n)
    decreases |f|
  {
    if |f| > 1 {
      var init := f[..|f| - 1];
      assert f == init + [f[|f| - 1]];
      ReadDecimalIff(init, n / 10);
    } else {
      OneDigit(f, n);
    }
  }

  lemma OneDigit(f: string, n: nat)
    requires |f| <= 1
    ensures ReadDecimal(f) == Some(n) <==> f == Decimal(n)
  {
  }

  /** The pieces between the dots. */
  function Fields(s: string): (fields: seq<string>)
    ensures |fields| >= 1
  {
    if s == "" then [""]
    else
      var rest := Fields(s[1..]);
      if s[0] == '.' then [""] + rest else [[s[0]] + rest[0]] + rest[1..]
  }

  lemma {:induction false} FieldsAfter(x: string, y: string)
    requires '.' !in x
    ensures Fields(x + "." + y) == [x] + Fields(y)
    ensures Fields(x) == [x]
  {
    if x == "" {
      assert x + "." + y == "." + y;
    } else {
      FieldsAfter(x[1..], y);
      assert (x + "." + y)[1..] == x[1..] + "." + y;
      assert [x[0]] + x[1..] == x;
    }
  }

  /** A text is its first piece, or its first piece, a dot and the text of the rest. */
  ghost predicate Begins(s: string, fields: seq<string>, rest: string)
    requires fields != []
  {
    if |fields| == 1 then s == fields[0] else s == fields[0] + "." + rest && Fields(rest) == fields[1..]
  }

  lemma BeginsWithMore(c: char, s: string, fields: seq<string>, rest: string)
    requires fields != [] && Begins(s, fields, rest)
    ensures Begins([c] + s, [[c] + fields[0]] + fields[1..], rest)
  {
    if |fields| > 1 {
      assert [c] + (fields[0] + "." + rest) == ([c] + fields[0]) + "." + rest;
    }
  }

  lemma {:induction false} FirstField(s: string) returns (rest: string)
    ensures Begins(s, Fields(s), rest)
  {
    rest := "";
    if s != "" {
      assert s == [s[0]] + s[1..];
      if s[0] == '.' {
        rest := s[1..];
        assert s == "" + "." + rest;
      } else {
        rest := FirstField(s[1..]);
        BeginsWithMore(s[0], s[1..], Fields(s[1..]), rest);
      }
    }
  }

  /** A field that reads as a byte. */
  function ReadByte(f: string): (r: Option<nat>)
    ensures r.Some? ==> r.value < 0x100
  {
    match ReadDecimal(f)
    case Some(n) => if n < 0x100 then Some(n) else None
    case None => None
  }

  predicate IsQuad(q: Quad) {
    q.b0 < 0x100 && q.b1 < 0x100 && q.b2 < 0x100 && q.b3 < 0x100
  }

  function ReadQuad(s: string): (r: Option<Quad>)
    ensures r.Some? ==> IsQuad(r.value)
  {
    var f := Fields(s);
    if |f| != 4 then None
    else
      var b0, b1, b2, b3 := ReadByte(f[0]), ReadByte(f[1]), ReadByte(f[2]), ReadByte(f[3]);
      if b0.Some? && b1.Some? && b2.Some? && b3.Some? then Some(Quad(b0.value, b1.value, b2.value, b3.value))
      else None
  }

  lemma FourFields(w: string, x: string, y: string, z: string)
    requires '.' !in w && '.' !in x && '.' !in y && '.' !in z
    ensures Fields(w + "." + (x + "." + (y + "." + z))) == [w, x, y, z]
  {
    FieldsAfter(z, "");
    FieldsAfter(y, z);
    FieldsAfter(x, y + "." + z);
    FieldsAfter(w, x + "." + (y + "." + z));
    assert [w] + ([x] + ([y] + [z])) == [w, x, y, z];
  }

  /** The reader undoes QuadText on bytes. */
  lemma ReadQuadText(q: Quad)
    requires IsQuad(q)
    ensures ReadQuad(QuadText(q)) == Some(q)
  {
    FourFields(Decimal(q.b0), Decimal(q.b1), Decimal(q.b2), Decimal(q.b3));
    ReadDecimalIff(Decimal(q.b0), q.b0);
    ReadDecimalIff(Decimal(q.b1), q.b1);
    ReadDecimalIff(Decimal(q.b2), q.b2);
    ReadDecimalIff(Decimal(q.b3), q.b3);
  }

  /** And accepts nothing else. */
  lemma ReadQuadOnly(s: string)
    requires ReadQuad(s).Some?
    ensures s == QuadText(ReadQuad(s).value)
  {
    var f, q := Fields(s), ReadQuad(s).value;
    var t1 := FirstField(s);
    var t2 := FirstField(t1);
    var t3 := FirstField(t2);
    var t4 := FirstField(t3);
    assert f[1] == Fields(t1)[0] && f[2] == Fields(t2)[0] && f[3] == Fields(t3)[0] == t3;
    ReadDecimalIff(f[0], q.b0);
    ReadDecimalIff(f[1], q.b1);
    ReadDecimalIff(f[2], q.b2);
    ReadDecimalIff(f[3], q.b3);
  }

  function FromQuad(q: Quad): (a: Addr)
    requires IsQuad(q)
    ensures ToQuad(a) == q
  {
    q.b0 * 0x100_0000 + q.b1 * 0x1_0000 + q.b2 * 0x100 + q.b3
  }

  lemma ReadIsInverse(s: string, a: Addr)
    ensures Format(a) == s <==> ReadQuad(s).Some? && FromQuad(ReadQuad(s).value) == a
  {
    if ReadQuad(s).Some? {
      ReadQuadOnly(s);
    }
    if Format(a) == s {
      ReadQuadText(ToQuad(a));
    }
  }

  /** net.ParseIP on IPv4 text: four numerals up to 255 without leading zeros, between
      three dots. It accepts exactly the canonical dotted quads. */
  function Parse(s: string): (r: Option<Addr>)
    ensures forall a: Addr :: Format(a) == s <==> r == Some(a)
  {
    assert forall a: Addr :: Format(a) == s <==> ReadQuad(s).Some? && FromQuad(ReadQuad(s).value) == a by {
      forall a: Addr
        ensures Format(a) == s <==> ReadQuad(s).Some? && FromQuad(ReadQuad(s).value) == a
      {
        ReadIsInverse(s, a);
      }
    }
    match ReadQuad(s)
    case None => None
    case Some(q) => Some(FromQuad(q))
  }

  // --------------------------------------------------------------- allocation

  /** The least usable host address not in `used`, at or after offset `idx`. */
  ghost function FirstFreeFrom(net: Subnet, used: set<Addr>, idx: nat): (r: Option<Addr>)
    requires net.Valid() && idx >= 1
    ensures r.Some? ==> net.IsHost(r.value) && r.value !in used && r.value >= net.network + idx
    decreases net.Size() - idx
  {
    NoWrap(net);
    if idx >= net.Size() - 1 then None
    else if net.network + idx !in used then Some(net.network + idx)
    else FirstFreeFrom(net, used, idx + 1)
  }

  ghost function FirstFree(net: Subnet, used: set<Addr>): (r: Option<Addr>)
    requires net.Valid()
    ensures r.Some? ==> net.IsHost(r.value) && r.value !in used
  {
    FirstFreeFrom(net, used, 1)
  }

  lemma {:induction false} FirstFreeFromIsLeast(net: Subnet, used: set<Addr>, idx: nat)
    requires net.Valid() && idx >= 1
    ensures var r := FirstFreeFrom(net, used, idx);
            forall b: Addr :: net.network + idx <= b && net.IsHost(b) && b !in used ==>
              r.Some? && r.value <= b
    decreases net.Size() - idx
  {
    NoWrap(net);
    if idx < net.Size() - 1 && net.network + idx in used {
      FirstFreeFromIsLeast(net, used, idx + 1);
    }
  }

  /** The allocator's answer, said without its loop: the least free host address, and
      none exactly when every address strictly between network and broadcast is taken. */
  lemma FirstFreeIsLeast(net: Subnet, used: set<Addr>)
    requires net.Valid()
    ensures var r := FirstFree(net, used);
            && (r.Some? ==> net.IsHost(r.value) && r.value !in used
                            && forall b: Addr :: net.IsHost(b) && b !in used ==> r.value <= b)
            && (r.None? <==> forall b: Addr :: net.IsHost(b) ==> b in used)
  {
    FirstFreeFromIsLeast(net, used, 1);
  }

  /** uint32 addition, which wraps. */
  function U32Sum(a: Addr, b: nat): (r: Addr)
    ensures a + b < 0x1_0000_0000 ==> r == a + b
  {
    (a + b % 0x1_0000_0000) % 0x1_0000_0000
  }

  ghost function TakenIn(used: map<string, bool>): set<Addr> {
    set a: Addr | Format(a) in used
  }

  class Allocator {
    const subnet: Subnet
    var used: map<string, bool>

    ghost predicate Valid()
      reads this
    {
      subnet.Valid() && forall ip :: ip in used ==> used[ip]
    }

    /** The allocator's state as a set of 32-bit numbers. */
    ghost function Taken(): set<Addr>
      reads this
    {
      TakenIn(used)
    }

    constructor (net: Subnet)
      requires net.Valid()
      ensures Valid() && subnet == net && Taken() == {}
    {
      subnet := net;
      used := map[];
    }

    /** The map lookup, by the text of the address. */
    method InUse(a: Addr) returns (b: bool)
      requires Valid()
      ensures b <==> a in Taken()
    {
      var text := Format(a);
      b := text in used && used[text];
    }

    /** The counting loop of Allocate: first offset whose address is not in the map. */
    method Search() returns (found: Option<Addr>)
      requires Valid()
      ensures found == FirstFree(subnet, Taken())
    {
      NoWrap(subnet);
      ghost var taken := Taken();
      var hostBits := 32 - subnet.ones;
      var totalHosts: int := Pow2(hostBits);
      var idx: int := 1;
      while idx < totalHosts - 1
        invariant 1 <= idx
        invariant FirstFree(subnet, taken) == FirstFreeFrom(subnet, taken, idx)
        decreases totalHosts - idx
      {
        var ipNum := U32Sum(subnet.network, idx);
        var inUse := InUse(ipNum);
        if !inUse {
          return Some(ipNum);
        }
        idx := idx + 1;
      }
      return None;
    }

    /** Hands out the least free host address as text; fails exactly when there is none. */
    method Allocate() returns (ip: Option<string>)
      requires Valid()
      modifies this
      ensures Valid()
      ensures match FirstFree(subnet, old(Taken()))
              case None => ip.None? && Taken() == old(Taken())
              case Some(a) => ip == Some(Format(a)) && Taken() == old(Taken()) + {a}
    {
      var found := Search();
      if found.None? {
        return None;
      }
      TakenAfterAdd(used, found.value);
      used := used[Format(found.value) := true];
      return Some(Format(found.value));
    }

    /** Frees the address a text denotes; any other text changes nothing. */
    method Release(ip: string)
      requires Valid()
      modifies this
      ensures Valid()
      ensures Taken() == match Parse(ip) case Some(a) => old(Taken()) - {a} case None => old(Taken())
    {
      used := used - {ip};
      assert forall a: Addr :: Format(a) == ip <==> Parse(ip) == Some(a);
    }

    /** Marks an address as taken; rejects non-addresses and addresses outside the subnet. */
    method Reserve(ip: string) returns (ok: bool)
      requires Valid()
      modifies this
      ensures Valid()
      ensures ok <==> Parse(ip).Some? && subnet.Contains(Parse(ip).value)
      ensures Taken() == if ok then old(Taken()) + {Parse(ip).value} else old(Taken())
    {
      var parsed := Parse(ip);
      if parsed.None? {
        return false;
      }
      if !subnet.Contains(parsed.value) {
        return false;
      }
      used := used[Format(parsed.value) := true];
      TakenAfterAdd(old(used), parsed.value);
      return true;
    }
  }

  lemma TakenAfterAdd(used: map<string, bool>, a: Addr)
    ensures TakenIn(used[Format(a) := true]) == TakenIn(used) + {a}
  {
    FormatInjectiveForAll();
  }
}
