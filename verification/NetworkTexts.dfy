/** The text of networks: which text is read as one, and what is printed for one. */
module NetworkTexts {
  import opened Wrappers
  import opened Values
  import opened Schemas

  /** The number that decimal digits write, the last one counting once. */
  ghost function NumberWritten(digits: string): nat
    requires forall c | c in digits :: '0' <= c <= '9'
  {
    if digits == "" then 0
    else
      var last := |digits| - 1;
      assert digits[last] in digits && forall c | c in digits[..last] :: c in digits;
      10 * NumberWritten(digits[..last]) + (digits[last] as int - '0' as int)
  }

  /** Digits, after a plus sign if need be, that write a number. */
  ghost predicate Writes(s: string, n: nat) {
    exists digits: string ::
      && (s == digits || s == "+" + digits)
      && digits != "" && (forall c | c in digits :: '0' <= c <= '9')
      && NumberWritten(digits) == n
  }

  /** The text of a network: an address, a slash, and a prefix length that its family allows. */
  ghost predicate IsNetworkText(text: IpText, s: string, addr: IpAddr, prefix: nat) {
    && prefix <= (if addr.V4? then 32 else 128)
    && exists address: string, length: string ::
         && '/' !in address && s == address + "/" + length
         && text.parse(address) == Some(addr) && Writes(length, prefix)
  }

  ghost predicate IsIpv4NetworkText(text: IpText, s: string) {
    exists addr: IpAddr, prefix: nat | addr.V4? :: IsNetworkText(text, s, addr, prefix)
  }

  // ---------------------------------------------------------------- numbers

  lemma {:induction false} DigitsExtend(s: string, d: char, value: u8)
    requires '0' <= d <= '9'
    ensures ParseDigits(s + [d], value) ==
            match ParseDigits(s, value)
            case None => None
            case Some(v) =>
              var next := v * 10 + (d as int - '0' as int);
              if next > 255 then None else Some(next)
    decreases |s|
  {
    if s == "" {
      assert (s + [d])[1..] == "";
    } else {
      assert (s + [d])[1..] == s[1..] + [d];
      var first := DigitValue(s[0]);
      if first.Some? && value * 10 + first.value <= 255 {
        DigitsExtend(s[1..], d, value * 10 + first.value);
      }
    }
  }

  lemma {:induction false} DigitsMean(s: string)
    requires forall c | c in s :: '0' <= c <= '9'
    ensures ParseDigits(s, 0) == if NumberWritten(s) <= 255 then Some(NumberWritten(s)) else None
    decreases |s|
  {
    if s != "" {
      var last := |s| - 1;
      assert s[last] in s && forall c | c in s[..last] :: c in s;
      DigitsMean(s[..last]);
      DigitsExtend(s[..last], s[last], 0);
      assert s == s[..last] + [s[last]];
    }
  }

  lemma {:induction false} OnlyDigits(s: string, value: u8)
    requires ParseDigits(s, value).Some?
    ensures forall c | c in s :: '0' <= c <= '9'
    decreases |s|
  {
    if s != "" {
      OnlyDigits(s[1..], value * 10 + DigitValue(s[0]).value);
      assert s == [s[0]] + s[1..];
    }
  }

  /** A prefix length is read exactly from the text that writes it. */
  lemma PrefixTextMeans(s: string, n: u8)
    ensures ParseU8(s) == Some(n) <==> Writes(s, n)
  {
    var digits := if s != "" && s[0] == '+' then s[1..] else s;
    assert s == digits || s == "+" + digits;
    if ParseU8(s).Some? {
      OnlyDigits(digits, 0);
      DigitsMean(digits);
    }
    if d: string :| && (s == d || s == "+" + d) && d != "" && (forall c | c in d :: '0' <= c <= '9')
                    && NumberWritten(d) == n
    {
      assert d[0] in d;
      assert s == "+" + d ==> s[1..] == d;
      assert d == digits;
      DigitsMean(digits);
    }
  }

  /** Decimal text writes its number, without leading zeros. */
  lemma {:induction false} DecimalWrites(n: nat)
    ensures forall c | c in Decimal(n) :: '0' <= c <= '9'
    ensures NumberWritten(Decimal(n)) == n
    ensures n > 0 ==> Decimal(n)[0] != '0'
    ensures n == 0 ==> Decimal(n) == "0"
    decreases n
  {
    var last := Digit(n % 10);
    assert '0' <= last <= '9' && last as int - '0' as int == n % 10;
    if n < 10 {
      assert Decimal(n) == [last] && [last][..0] == "";
    } else {
      DecimalWrites(n / 10);
      assert Decimal(n) == Decimal(n / 10) + [last];
      assert Decimal(n)[..|Decimal(n)| - 1] == Decimal(n / 10);
    }
  }

  // ---------------------------------------------------------------- networks

  lemma {:induction false} SplitParts(s: string, separator: char)
    ensures match SplitOnce(s, separator)
            case None => separator !in s
            case Some((a, b)) => separator !in a && s == a + [separator] + b
  {
    if s != "" {
      SplitParts(s[1..], separator);
      assert s == [s[0]] + s[1..];
      if s[0] != separator && SplitOnce(s[1..], separator).Some? {
        var (a, b) := SplitOnce(s[1..], separator).value;
        assert s == ([s[0]] + a) + [separator] + b;
      }
    }
  }

  /** Text is read as a network exactly if it is the text of that network. */
  lemma NetworkTextMeans(text: IpText, s: string, addr: IpAddr, prefix: u8)
    ensures ParseIpNetwork(text, s) == Some((addr, prefix)) <==> IsNetworkText(text, s, addr, prefix)
  {
    hide ParseU8, Writes;
    SplitParts(s, '/');
    if SplitOnce(s, '/').Some? {
      var (a, b) := SplitOnce(s, '/').value;
      PrefixTextMeans(b, prefix);
      assert a + "/" + b == s;
    }
    if address: string, length: string :|
         && '/' !in address && s == address + "/" + length
         && text.parse(address) == Some(addr) && Writes(length, prefix)
    {
      assert address + ['/'] + length == s;
      SplitOnceAt(address, length, '/');
      PrefixTextMeans(length, prefix);
    }
  }

  /** Text passes as an IPv4 network exactly if it is the text of one. */
  lemma Ipv4NetworkTextMeans(text: IpText, s: string)
    ensures IsIpv4Cidr(text, String(s)) <==> IsIpv4NetworkText(text, s)
  {
    hide ParseIpNetwork, IsNetworkText;
    var network := ParseIpNetwork(text, s);
    if network.Some? {
      NetworkTextMeans(text, s, network.value.0, network.value.1);
    }
    if addr: IpAddr, prefix: nat :| addr.V4? && IsNetworkText(text, s, addr, prefix) {
      PrefixFits(text, s, addr, prefix);
      NetworkTextMeans(text, s, addr, prefix);
    }
  }

  lemma PrefixFits(text: IpText, s: string, addr: IpAddr, prefix: nat)
    requires IsNetworkText(text, s, addr, prefix)
    ensures prefix <= if addr.V4? then 32 else 128
  {
  }
}
