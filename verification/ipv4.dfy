/**
  IPv4 addresses as four octets, rendered the way net.IP.String() renders a
  four-byte address: the octets in decimal, joined by dots.
 */
module IPv4Address {

  import Decimal
  import Separated

  type Octet = x: int | 0 <= x < 256

  datatype IPv4 = IPv4(a: Octet, b: Octet, c: Octet, d: Octet)

  /** The decimal components of an address, most significant octet first. */
  function Components(ip: IPv4): (parts: seq<string>)
    ensures |parts| == 4 && Separated.Free(parts, '.')
  {
    [Decimal.NatToDecimal(ip.a), Decimal.NatToDecimal(ip.b),
     Decimal.NatToDecimal(ip.c), Decimal.NatToDecimal(ip.d)]
  }

  /** Dotted-quad text of an address (net.IP.String() on a four-byte IP). */
  function ToString(ip: IPv4): (s: string)
    ensures Separated.Split(s, '.') == Components(ip)
    ensures Separated.Count(s, '.') == 3
  {
    Separated.SplitJoin(Components(ip), '.');
    Separated.Join(Components(ip), '.')
  }

  /** The address with its octets in the opposite order. */
  function Reversed(ip: IPv4): (r: IPv4)
    ensures Components(r) == [Components(ip)[3], Components(ip)[2], Components(ip)[1], Components(ip)[0]]
  {
    IPv4(ip.d, ip.c, ip.b, ip.a)
  }

  /** Reversing twice gives the address back. */
  lemma ReversedTwice(ip: IPv4)
    ensures Reversed(Reversed(ip)) == ip
  {
  }

  /** Distinct addresses have distinct dotted-quad texts. */
  lemma ToStringInjective(x: IPv4, y: IPv4)
    requires ToString(x) == ToString(y)
    ensures x == y
  {
    assert Components(x) == Components(y);
    Decimal.NatToDecimalInjective(x.a, y.a);
    Decimal.NatToDecimalInjective(x.b, y.b);
    Decimal.NatToDecimalInjective(x.c, y.c);
    Decimal.NatToDecimalInjective(x.d, y.d);
  }
}
