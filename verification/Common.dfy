/** Small shared vocabulary. */
module Common {

  datatype Option<+T> = None | Some(value: T)

  /** An IPv4 address or any other unsigned 32-bit number. */
  type Addr = n: int | 0 <= n < 0x1_0000_0000

  /** WireGuard keys, row ids and user ids are opaque: only equality is used. */
  type Key = int
  type PeerId = int
  type UserId = int

  /** Any element: the iteration order of a Go map, or of SQL rows without ORDER BY. */
  method PickAny<T>(s: set<T>) returns (x: T)
    requires s != {}
    ensures x in s
  {
    x :| x in s;
  }

  function Pow2(n: nat): (r: nat)
    ensures r >= 1
  {
    if n == 0 then 1 else 2 * Pow2(n - 1)
  }

  /** A number not yet in use. */
  lemma NewNumber(used: set<int>) returns (n: int)
    ensures n !in used && forall u :: u in used ==> u < n
    decreases used
  {
    n := 0;
    if u :| u in used {
      var above := NewNumber(used - {u});
      n := if above > u then above else u + 1;
      assert forall v :: v in used ==> v == u || v in used - {u};
    }
  }

  lemma SmallMultiple(x: int, d: int)
    requires -d < x * d && x * d < d
    ensures x == 0
  {
  }

  lemma QuotientIs(n: nat, d: nat, q: nat, r: nat)
    requires n == q * d + r && r < d
    ensures n / d == q
  {
    var k := n / d;
    assert n == k * d + n % d;
    assert (k - q) * d == r - n % d;
    SmallMultiple(k - q, d);
  }

  lemma HalfThenQuotient(n: nat, m: nat)
    requires m >= 1
    ensures n / (2 * m) == (n / 2) / m
  {
    var q, r := (n / 2) / m, (n / 2) % m;
    assert n / 2 == q * m + r;
    assert n == q * (2 * m) + (2 * r + n % 2);
    QuotientIs(n, 2 * m, q, 2 * r + n % 2);
  }
}
