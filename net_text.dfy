/**
 * The pieces of Go's `strings` and `net` packages the range parser relies
 * on, for dotted-quad IPv4 text only: splitting on a separator, decimal
 * digits, `net.ParseIP`, `net.ParseCIDR` and `IP.String`.
 */
module NetText {
  import opened Outcomes
  import opened Address
  import opened Arith

  /* ---------------- strings.Split and friends ---------------- */

  /** `strings.Split(s, sep)` for a one-character separator: never empty; "" gives [""]. */
  function Split(s: string, sep: char): (parts: seq<string>)
    ensures |parts| >= 1
    decreases |s|
  {
    if s == [] then [[]]
    else
      var rest := Split(s[1..], sep);
      if s[0] == sep then [[]] + rest
      else [[s[0]] + rest[0]] + rest[1..]
  }

  /** The number of occurrences of `c` in `s`. */
  function Count(s: string, c: char): nat
  {
    if s == [] then 0 else (if s[0] == c then 1 else 0) + Count(s[1..], c)
  }

  /** Glues parts together with `sep` between neighbours (`strings.Join`). */
  function Join(parts: seq<string>, sep: char): string
    requires |parts| >= 1
  {
    if |parts| == 1 then parts[0] else parts[0] + [sep] + Join(parts[1..], sep)
  }

  /** Split yields one more part than there are separators. */
  lemma {:induction false} SplitCount(s: string, sep: char)
    ensures |Split(s, sep)| == Count(s, sep) + 1
    decreases |s|
  {
    if s != [] {
      SplitCount(s[1..], sep);
    }
  }

  /** Joining the parts again restores the text. */
  lemma {:induction false} JoinSplit(s: string, sep: char)
    ensures Join(Split(s, sep), sep) == s
    decreases |s|
  {
    if s != [] {
      var rest := Split(s[1..], sep);
      JoinSplit(s[1..], sep);
      if s[0] == sep {
        assert ([[]] + rest)[1..] == rest;
      } else if |rest| > 1 {
        assert ([[s[0]] + rest[0]] + rest[1..])[1..] == rest[1..];
        assert Join(rest, sep) == rest[0] + [sep] + Join(rest[1..], sep);
        assert s == [s[0]] + s[1..];
      } else {
        assert s == [s[0]] + s[1..];
      }
    }
  }

  /** A separator-free prefix ends up at the front of the first part. */
  lemma {:induction false} SplitFreePrefix(x: string, y: string, sep: char)
    requires sep !in x
    ensures Split(x + y, sep) == [x + Split(y, sep)[0]] + Split(y, sep)[1..]
    decreases |x|
  {
    var ys := Split(y, sep);
    if x == [] {
      assert x + y == y && x + ys[0] == ys[0];
      assert ys == [ys[0]] + ys[1..];
    } else {
      SplitFreePrefix(x[1..], y, sep);
      var s := x + y;
      assert s[0] == x[0] && s[0] != sep;
      assert s[1..] == x[1..] + y;
      var rest := Split(x[1..] + y, sep);
      assert Split(s, sep) == [[s[0]] + rest[0]] + rest[1..];
      assert [x[0]] + (x[1..] + ys[0]) == x + ys[0];
    }
  }

  /** A separator-free text is one part. */
  lemma SplitFree(x: string, sep: char)
    requires sep !in x
    ensures Split(x, sep) == [x]
  {
    SplitFreePrefix(x, [], sep);
    assert x + [] == x;
  }

  /** A separator-free text followed by the separator is split off as the first part. */
  lemma SplitAt(x: string, y: string, sep: char)
    requires sep !in x
    ensures Split(x + [sep] + y, sep) == [x] + Split(y, sep)
  {
    var t := [sep] + y;
    SplitFreePrefix(x, t, sep);
    assert x + [sep] + y == x + t;
    assert t[0] == sep && t[1..] == y;
    assert Split(t, sep) == [[]] + Split(y, sep);
    assert x + [] == x;
  }

  /** Splitting a join of separator-free parts gives the parts back. */
  lemma {:induction false} SplitJoin(parts: seq<string>, sep: char)
    requires |parts| >= 1
    requires forall i :: 0 <= i < |parts| ==> sep !in parts[i]
    ensures Split(Join(parts, sep), sep) == parts
    decreases |parts|
  {
    if |parts| == 1 {
      SplitFree(parts[0], sep);
    } else {
      SplitJoin(parts[1..], sep);
      SplitAt(parts[0], Join(parts[1..], sep), sep);
      assert parts == [parts[0]] + parts[1..];
    }
  }

  /**
   * The text before and after the first `sep`, or None when there is none
   * (the `byteIndex` cut in net.ParseCIDR).
   */
  function SplitFirst(s: string, sep: char): (r: Option<(string, string)>)
    ensures r.None? <==> sep !in s
    ensures r.Some? ==> sep !in r.value.0 && s == r.value.0 + [sep] + r.value.1
    decreases |s|
  {
    if s == [] then None
    else if s[0] == sep then Some(([], s[1..]))
    else
      match SplitFirst(s[1..], sep)
      case None => None
      case Some((a, b)) => Some(([s[0]] + a, b))
  }

  /** The first separator is the one after a separator-free prefix. */
  lemma {:induction false} SplitFirstAt(x: string, y: string, sep: char)
    requires sep !in x
    ensures SplitFirst(x + [sep] + y, sep) == Some((x, y))
    decreases |x|
  {
    if x == [] {
      assert x + [sep] + y == [sep] + y;
    } else {
      SplitFirstAt(x[1..], y, sep);
      assert (x + [sep] + y)[1..] == x[1..] + [sep] + y;
      assert x == [x[0]] + x[1..];
    }
  }

  /* ---------------- decimal digits ---------------- */

  predicate IsDigit(c: char) { '0' <= c <= '9' }

  predicate AllDigits(s: string) { forall i :: 0 <= i < |s| ==> IsDigit(s[i]) }

  /** The number a string of decimal digits denotes (Go's `dtoi`, without its overflow cut-off). */
  function DigitsValue(s: string): nat
    requires AllDigits(s)
  {
    if s == [] then 0 else DigitsValue(s[..|s| - 1]) * 10 + (s[|s| - 1] as int - '0' as int)
  }

  /** The decimal text of n, without leading zeros, as Go's `itoa` prints it. */
  function DecimalText(n: nat): (s: string)
    ensures AllDigits(s) && |s| >= 1
  {
    if n < 10 then [('0' as int + n) as char]
    else DecimalText(n / 10) + [('0' as int + n % 10) as char]
  }

  /** Printing a number in decimal and reading it back gives the number. */
  lemma {:induction false} DecimalRoundTrip(n: nat)
    ensures DigitsValue(DecimalText(n)) == n
  {
    if n >= 10 {
      DecimalRoundTrip(n / 10);
      var t := DecimalText(n);
      assert t[..|t| - 1] == DecimalText(n / 10);
    }
  }

  /** Digits never include the separators the parsers look for. */
  lemma DigitsFree(s: string, c: char)
    requires AllDigits(s) && !IsDigit(c)
    ensures c !in s
  {
  }

  /* ---------------- net.ParseIP, IP.String ---------------- */

  /** One dotted-quad field: a non-empty run of decimal digits of value at most 255. */
  function ParseOctet(s: string): (r: Option<byte>)
  {
    if s != [] && AllDigits(s) && DigitsValue(s) <= 255 then Some(DigitsValue(s)) else None
  }

  /** A number printed in decimal reads back as an octet exactly when it is at most 255. */
  lemma OctetText(n: nat)
    ensures ParseOctet(DecimalText(n)) == if n <= 255 then Some(n) else None
  {
    DecimalRoundTrip(n);
  }

  /** `net.ParseIP` on dotted-quad text: exactly four fields separated by '.'. */
  function ParseIP(s: string): (r: Option<IPv4>)
    ensures r.Some? ==> Count(s, '.') == 3
  {
    var parts := Split(s, '.');
    SplitCount(s, '.');
    if |parts| == 4
       && ParseOctet(parts[0]).Some? && ParseOctet(parts[1]).Some?
       && ParseOctet(parts[2]).Some? && ParseOctet(parts[3]).Some?
    then Some([ParseOctet(parts[0]).value, ParseOctet(parts[1]).value,
               ParseOctet(parts[2]).value, ParseOctet(parts[3]).value])
    else None
  }

  /** The four fields of an address's dotted-quad text. */
  function Fields(a: IPv4): seq<string>
  {
    [DecimalText(a[0]), DecimalText(a[1]), DecimalText(a[2]), DecimalText(a[3])]
  }

  /** `IP.String` for an IPv4 address: dotted-quad decimal. */
  function IPText(a: IPv4): string
  {
    Join(Fields(a), '.')
  }

  /** A four-part join spelled out. */
  lemma JoinFour(p: string, q: string, r: string, t: string, sep: char)
    ensures Join([p, q, r, t], sep) == p + [sep] + (q + [sep] + (r + [sep] + t))
  {
    assert [p, q, r, t][1..] == [q, r, t];
    assert [q, r, t][1..] == [r, t];
    assert [r, t][1..] == [t];
    assert Join([r, t], sep) == r + [sep] + t;
    assert Join([q, r, t], sep) == q + [sep] + Join([r, t], sep);
  }

  /** Every character of an address's text is a digit or a dot. */
  lemma IPTextChars(a: IPv4, c: char)
    requires c != '.' && !IsDigit(c)
    ensures c !in IPText(a)
  {
    var f := Fields(a);
    JoinFour(f[0], f[1], f[2], f[3], '.');
    assert f == [f[0], f[1], f[2], f[3]];
    DigitsFree(f[0], c);
    DigitsFree(f[1], c);
    DigitsFree(f[2], c);
    DigitsFree(f[3], c);
  }

  /** Printing an address and parsing it back gives the address. */
  lemma ParseIPText(a: IPv4)
    ensures ParseIP(IPText(a)) == Some(a)
  {
    var f := Fields(a);
    forall i | 0 <= i < 4 ensures '.' !in f[i] && ParseOctet(f[i]) == Some(a[i]) {
      DigitsFree(f[i], '.');
      DecimalRoundTrip(a[i]);
    }
    SplitJoin(f, '.');
    assert a == [a[0], a[1], a[2], a[3]];
  }

  /* ---------------- net.ParseCIDR ---------------- */

  /** An IPv4 network block: its (masked) network address and its prefix length. */
  datatype IPNet = IPNet(network: IPv4, prefixLen: nat)

  /** How many leading bits of octet `i` a /n mask keeps. */
  function KeptBits(n: nat, i: nat): (k: nat)
    ensures k <= 8
  {
    if n <= 8 * i then 0 else if n - 8 * i >= 8 then 8 else n - 8 * i
  }

  /** `b` with its low `k` bits cleared. */
  function ClearLow(b: nat, k: nat): (r: nat)
    ensures r <= b
  {
    if k == 0 then b else 2 * ClearLow(b / 2, k - 1)
  }

  /** An octet with all but its `kept` leading bits cleared (`b & mask`). */
  function MaskOctet(b: byte, kept: nat): byte
    requires kept <= 8
  {
    ClearLow(b, 8 - kept)
  }

  /** `ip.Mask(CIDRMask(n, 32))` paired with n: the block a /n address belongs to. */
  function Network(a: IPv4, n: nat): IPNet
  {
    IPNet([MaskOctet(a[0], KeptBits(n, 0)), MaskOctet(a[1], KeptBits(n, 1)),
           MaskOctet(a[2], KeptBits(n, 2)), MaskOctet(a[3], KeptBits(n, 3))], n)
  }

  /** `sub.Contains(a)`: a's leading prefixLen bits are the network's. */
  predicate Contains(sub: IPNet, a: IPv4)
  {
    Network(a, sub.prefixLen).network == sub.network
  }

  /** Clearing low bits twice is clearing them once. */
  lemma {:induction false} ClearLowTwice(b: nat, k: nat)
    ensures ClearLow(ClearLow(b, k), k) == ClearLow(b, k)
  {
    if k > 0 {
      ClearLowTwice(b / 2, k - 1);
      assert ClearLow(b, k) / 2 == ClearLow(b / 2, k - 1);
    }
  }

  /**
   * A block contains every address it was computed from and its own network
   * address; and for a prefix length of at most 32, the block of `a`
   * contains exactly the addresses that share a's leading n bits.
   */
  lemma NetworkContains(a: IPv4, n: nat)
    ensures Contains(Network(a, n), a)
    ensures Contains(Network(a, n), Network(a, n).network)
    ensures n <= 32 ==> forall b: IPv4 :: Contains(Network(a, n), b) <==>
                                        Value(b) / Pow2(32 - n) == Value(a) / Pow2(32 - n)
  {
    var m := Network(a, n).network;
    forall i | 0 <= i < 4 ensures MaskOctet(m[i], KeptBits(n, i)) == m[i] {
      ClearLowTwice(a[i], 8 - KeptBits(n, i));
    }
    if n <= 32 {
      var P := Pow2(32 - n);
      forall b: IPv4
        ensures Contains(Network(a, n), b) <==> Value(b) / P == Value(a) / P
      {
        ContainsValue(Network(a, n), b);
        NetworkValue(a, n);
        if Value(b) / P * P == Value(a) / P * P {
          MulCancel(Value(b) / P, Value(a) / P, P);
        }
      }
    }
  }

  /** Clearing the low k bits rounds down to a multiple of 2^k. */
  lemma {:induction false} ClearLowValue(b: nat, k: nat)
    ensures ClearLow(b, k) == b / Pow2(k) * Pow2(k)
  {
    if k > 0 {
      var P := Pow2(k - 1);
      ClearLowValue(b / 2, k - 1);
      DivHalf(b, P);
      var d := b / Pow2(k);
      assert b / 2 / P == d;
      MulTwo(d, P);
    }
  }

  /** Clearing at most j low bits of x * 2^j + b touches only b. */
  lemma {:induction false} ClearLowLow(x: nat, b: nat, j: nat, k: nat)
    requires k <= j && b < Pow2(j)
    ensures ClearLow(x * Pow2(j) + b, k) == x * Pow2(j) + ClearLow(b, k)
  {
    if k > 0 {
      var y := x * Pow2(j - 1);
      MulTwo(x, Pow2(j - 1));
      assert x * Pow2(j) == 2 * y;
      assert (2 * y + b) / 2 == y + b / 2;
      ClearLowLow(x, b / 2, j - 1, k - 1);
      assert ClearLow(2 * y + b, k) == 2 * ClearLow(y + b / 2, k - 1);
    }
  }

  /** Clearing at least j low bits of x * 2^j + b clears all of b and k - j bits of x. */
  lemma {:induction false} ClearLowHigh(x: nat, b: nat, j: nat, k: nat)
    requires j <= k && b < Pow2(j)
    ensures ClearLow(x * Pow2(j) + b, k) == ClearLow(x, k - j) * Pow2(j)
  {
    if j == 0 {
      assert x * Pow2(j) + b == x;
    } else {
      var y := x * Pow2(j - 1);
      MulTwo(x, Pow2(j - 1));
      assert x * Pow2(j) == 2 * y;
      assert (2 * y + b) / 2 == y + b / 2;
      ClearLowHigh(x, b / 2, j - 1, k - 1);
      assert ClearLow(2 * y + b, k) == 2 * ClearLow(y + b / 2, k - 1);
      MulTwo(ClearLow(x, k - j), Pow2(j - 1));
    }
  }

  /**
   * Clearing m low bits of v * 256 + b: the last byte loses KeptBits(m, 0)
   * of its bits and the carry-over m - 8, if any, falls on v.
   */
  lemma ClearLowAppend(v: nat, b: byte, m: nat)
    ensures ClearLow(v * 256 + b, m) ==
            ClearLow(v, if m >= 8 then m - 8 else 0) * 256 + ClearLow(b, KeptBits(m, 0))
  {
    assert Pow2(8) == 256;
    if m <= 8 {
      ClearLowLow(v, b, 8, m);
    } else {
      ClearLowHigh(v, b, 8, m);
      ClearLowHigh(0, b, 8, 8);
    }
  }

  /** The bytes before the last see the count of cleared bits shifted by one byte. */
  lemma KeptBitsShift(m: nat, j: nat)
    ensures KeptBits(m, j + 1) == KeptBits(if m >= 8 then m - 8 else 0, j)
  {
  }

  /** t is s with, in the byte j places from the end, KeptBits(m, j) low bits cleared. */
  predicate ClearedFrom(s: seq<byte>, t: seq<byte>, m: nat)
  {
    |t| == |s| && forall i :: 0 <= i < |s| ==> t[i] == ClearLow(s[i], KeptBits(m, |s| - 1 - i))
  }

  /** Dropping the last byte leaves the rest cleared by m - 8 bits (none when m < 8). */
  lemma ClearedFromPrefix(s: seq<byte>, t: seq<byte>, m: nat)
    requires ClearedFrom(s, t, m) && s != []
    ensures ClearedFrom(s[..|s| - 1], t[..|s| - 1], if m >= 8 then m - 8 else 0)
  {
    var n := |s| - 1;
    forall i | 0 <= i < n
      ensures t[..n][i] == ClearLow(s[..n][i], KeptBits(if m >= 8 then m - 8 else 0, n - 1 - i))
    {
      KeptBitsShift(m, n - 1 - i);
    }
  }

  /**
   * Clearing the low m bits of a byte string's value clears, in the byte j
   * places from the end, KeptBits(m, j) of its low bits: the same count a
   * /m mask keeps in octet j from the front.
   */
  lemma {:induction false} ValueClearLow(s: seq<byte>, t: seq<byte>, m: nat)
    requires ClearedFrom(s, t, m) && m <= 8 * |s|
    ensures Value(t) == ClearLow(Value(s), m)
    decreases |s|
  {
    if s != [] {
      var n := |s| - 1;
      ClearedFromPrefix(s, t, m);
      ValueClearLow(s[..n], t[..n], if m >= 8 then m - 8 else 0);
      assert Value(s) == Value(s[..n]) * 256 + s[n];
      assert Value(t) == Value(t[..n]) * 256 + t[n];
      ClearLowAppend(Value(s[..n]), s[n], m);
    }
  }

  /**
   * The network address of a /n block keeps exactly the leading n bits of
   * the address: its value is the address's rounded down to a multiple of
   * 2^(32-n), so the block is the 2^(32-n) addresses starting there.
   */
  lemma NetworkValue(a: IPv4, n: nat)
    requires n <= 32
    ensures Value(Network(a, n).network) == Value(a) / Pow2(32 - n) * Pow2(32 - n)
    ensures Value(Network(a, n).network) <= Value(a) < Value(Network(a, n).network) + Pow2(32 - n)
  {
    NetworkOctets(a, n);
    ValueClearLow(a, Network(a, n).network, 32 - n);
    ClearLowValue(Value(a), 32 - n);
    RoundDown(Value(a), Pow2(32 - n));
  }

  /** Octet i of a /n network clears the low bits that fall within the last 32 - n. */
  lemma NetworkOctets(a: IPv4, n: nat)
    requires n <= 32
    ensures ClearedFrom(a, Network(a, n).network, 32 - n)
  {
    var net := Network(a, n).network;
    assert net[0] == ClearLow(a[0], KeptBits(32 - n, 3));
    assert net[1] == ClearLow(a[1], KeptBits(32 - n, 2));
    assert net[2] == ClearLow(a[2], KeptBits(32 - n, 1));
    assert net[3] == ClearLow(a[3], KeptBits(32 - n, 0));
    forall i | 0 <= i < 4
      ensures net[i] == ClearLow(a[i], KeptBits(32 - n, |a| - 1 - i))
    {
      if i == 0 {
      } else if i == 1 {
      } else if i == 2 {
      }
    }
  }

  /**
   * An address lies in a block of prefix length at most 32 exactly when it
   * agrees with the block's network address on the leading prefixLen bits.
   */
  lemma ContainsValue(sub: IPNet, a: IPv4)
    requires sub.prefixLen <= 32
    ensures Contains(sub, a) <==>
            Value(a) / Pow2(32 - sub.prefixLen) * Pow2(32 - sub.prefixLen) == Value(sub.network)
  {
    NetworkValue(a, sub.prefixLen);
    if Value(Network(a, sub.prefixLen).network) == Value(sub.network) {
      ValueInjective(Network(a, sub.prefixLen).network, sub.network);
    }
  }

  /**
   * `net.ParseCIDR` on "<dotted quad>/<prefix>": cut at the first '/', the
   * address must parse and the prefix must be decimal digits of value at
   * most 32. None stands for Go's `*ParseError{Type: "CIDR address"}`.
   */
  function ParseCIDR(s: string): (r: Option<(IPv4, IPNet)>)
    ensures r.Some? ==> '/' in s
    ensures r.Some? ==> r.value.1.prefixLen <= 32 && Contains(r.value.1, r.value.0)
    ensures r.Some? ==>
              var (ip, sub) := r.value;
              Value(sub.network) == Value(ip) / Pow2(32 - sub.prefixLen) * Pow2(32 - sub.prefixLen)
  {
    match SplitFirst(s, '/')
    case None => None
    case Some((addr, mask)) =>
      match ParseIP(addr)
      case None => None
      case Some(ip) =>
        if mask != [] && AllDigits(mask) && DigitsValue(mask) <= 32
        then
          NetworkContains(ip, DigitsValue(mask));
          NetworkValue(ip, DigitsValue(mask));
          Some((ip, Network(ip, DigitsValue(mask))))
        else None
  }

  /** The CIDR text "<address>/<n>". */
  function CIDRText(a: IPv4, n: nat): string
  {
    IPText(a) + "/" + DecimalText(n)
  }

  /** Printing an address with a prefix of at most 32 and parsing it back gives both. */
  lemma ParseCIDRText(a: IPv4, n: nat)
    requires n <= 32
    ensures ParseCIDR(CIDRText(a, n)) == Some((a, Network(a, n)))
  {
    IPTextChars(a, '/');
    SplitFirstAt(IPText(a), DecimalText(n), '/');
    ParseIPText(a);
    DecimalRoundTrip(n);
  }

  /** A prefix longer than 32 is rejected, whatever the address. */
  lemma ParseCIDRTextTooLong(a: IPv4, n: nat)
    requires n > 32
    ensures ParseCIDR(CIDRText(a, n)) == None
  {
    IPTextChars(a, '/');
    SplitFirstAt(IPText(a), DecimalText(n), '/');
    ParseIPText(a);
    DecimalRoundTrip(n);
  }

  /** The text of a CIDR holds no dash. */
  lemma CIDRTextNoDash(a: IPv4, n: nat)
    ensures '-' !in CIDRText(a, n)
  {
    IPTextChars(a, '-');
    DigitsFree(DecimalText(n), '-');
  }
}
