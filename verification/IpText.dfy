/** ipUint32ToString and the backend_info extractor of reader_modules/mod_fields/field_registry.go,
    with parsers that recover what was printed. */
module IpText {
  import opened Sequences

  type Uint32 = x: int | 0 <= x < 0x1_0000_0000

  /** %d of a non-negative number. */
  function Decimal(n: nat): (s: string)
    ensures s != [] && forall c :: c in s ==> '0' <= c <= '9'
  {
    if n < 10 then [('0' as int + n) as char] else Decimal(n / 10) + Decimal(n % 10)
  }

  function ParseDecimal(s: string): (r: Option<nat>) {
    if s == [] then Some(0)
    else
      var last := s[|s| - 1];
      match ParseDecimal(s[..|s| - 1])
      case None => None
      case Some(n) => if '0' <= last <= '9' then Some(10 * n + (last as int - '0' as int)) else None
  }

  lemma {:induction false} DecimalParses(n: nat)
    ensures ParseDecimal(Decimal(n)) == Some(n)
  {
    if n < 10 {
      assert Decimal(n)[..0] == [];
    } else {
      DecimalParses(n / 10);
      var last := [('0' as int + n % 10) as char];
      assert Decimal(n) == Decimal(n / 10) + last;
      assert (Decimal(n / 10) + last)[..|Decimal(n / 10)|] == Decimal(n / 10);
    }
  }

  /** The four octets in dotted decimal; 0 prints as the empty string. */
  function IpUint32ToString(ip: Uint32): string {
    if ip == 0 then ""
    else
      Decimal(ip / 0x100_0000 % 256) + "." + Decimal(ip / 0x1_0000 % 256) + "."
      + Decimal(ip / 0x100 % 256) + "." + Decimal(ip % 256)
  }

  /** Splits a string before and after the first occurrence of c. */
  function Split(s: string, c: char): Option<(string, string)> {
    if s == [] then None
    else if s[0] == c then Some(([], s[1..]))
    else match Split(s[1..], c)
      case None => None
      case Some(parts) => Some(([s[0]] + parts.0, parts.1))
  }

  lemma {:induction false} SplitFindsFirst(a: string, c: char, b: string)
    requires c !in a
    ensures Split(a + [c] + b, c) == Some((a, b))
  {
    var s := a + [c] + b;
    if a == [] {
      assert s == [c] + b;
    } else {
      assert s[1..] == a[1..] + [c] + b;
      SplitFindsFirst(a[1..], c, b);
      assert [a[0]] + a[1..] == a;
    }
  }

  function ParseIp(s: string): Option<nat> {
    match Split(s, '.')
    case None => if s == "" then Some(0) else None
    case Some(p) =>
      match Split(p.1, '.')
      case None => None
      case Some(q) =>
        match Split(q.1, '.')
        case None => None
        case Some(r) =>
          match (ParseDecimal(p.0), ParseDecimal(q.0), ParseDecimal(r.0), ParseDecimal(r.1))
          case (Some(a), Some(b), Some(c), Some(d)) => Some(0x100_0000 * a + 0x1_0000 * b + 0x100 * c + d)
          case _ => None
  }

  lemma OctetsMakeTheAddress(ip: Uint32)
    ensures 0x100_0000 * (ip / 0x100_0000 % 256) + 0x1_0000 * (ip / 0x1_0000 % 256)
          + 0x100 * (ip / 0x100 % 256) + ip % 256 == ip
  {
    assert ip / 0x1_0000 == ip / 0x100 / 0x100 && ip / 0x100_0000 == ip / 0x1_0000 / 0x100;
  }

  /** Printing loses nothing: the address can be read back from the text, for all 2^32 of them. */
  lemma PrintedAddressParsesBack(ip: Uint32)
    ensures ParseIp(IpUint32ToString(ip)) == Some(ip)
    ensures IpUint32ToString(ip) == "" <==> ip == 0
  {
    if ip != 0 {
      var a, b := Decimal(ip / 0x100_0000 % 256), Decimal(ip / 0x1_0000 % 256);
      var c, d := Decimal(ip / 0x100 % 256), Decimal(ip % 256);
      var s := IpUint32ToString(ip);
      assert s == a + ['.'] + (b + ['.'] + (c + ['.'] + d));
      SplitFindsFirst(a, '.', b + ['.'] + (c + ['.'] + d));
      SplitFindsFirst(b, '.', c + ['.'] + d);
      SplitFindsFirst(c, '.', d);
      DecimalParses(ip / 0x100_0000 % 256);
      DecimalParses(ip / 0x1_0000 % 256);
      DecimalParses(ip / 0x100 % 256);
      DecimalParses(ip % 256);
      OctetsMakeTheAddress(ip);
    }
  }

  /** backend_info: "%s:%d" of address and port. */
  function BackendInfo(ip: Uint32, port: Uint32): string {
    IpUint32ToString(ip) + ":" + Decimal(port)
  }

  /** The text determines address and port. */
  lemma BackendInfoParsesBack(ip: Uint32, port: Uint32)
    ensures var parts := Split(BackendInfo(ip, port), ':');
      && parts.Some?
      && ParseIp(parts.value.0) == Some(ip) && ParseDecimal(parts.value.1) == Some(port)
  {
    assert ':' !in IpUint32ToString(ip);
    assert BackendInfo(ip, port) == IpUint32ToString(ip) + [':'] + Decimal(port);
    SplitFindsFirst(IpUint32ToString(ip), ':', Decimal(port));
    PrintedAddressParsesBack(ip);
    DecimalParses(port);
  }
}
