/**
 * `parseSubnetRange`: turns "A/n" or "A-B/n" into the start, end and
 * subnet the allocator scans.
 */
module SubnetRanges {
  import opened Outcomes
  import opened Address
  import opened NetText

  /**
   * The bounds of one allocation. `start` is None when the text before the
   * dash is not an address: the range form does not check it.
   */
  datatype SubnetRange = SubnetRange(start: Option<IPv4>, end: IPv4, subnet: IPNet)

  /** The range-form text "A-B/n". */
  function RangeText(a: IPv4, b: IPv4, n: nat): string
  {
    IPText(a) + "-" + CIDRText(b, n)
  }

  /** `parseSubnetRange`. */
  function Parse(spec: string): (r: Result<SubnetRange>)
    ensures r.Ok? ==> '/' in spec
  {
    var parts := Split(spec, '-');
    JoinSplit(spec, '-');
    if |parts| == 1 then
      match ParseCIDR(parts[0])
      case None => Err(CidrParseError(parts[0]))
      case Some((ip, sub)) =>
        // the end is a copy of the start with its last octet forced to 254
        Ok(SubnetRange(Some(ip), ip[3 := 254], sub))
    else if |parts| > 2 || '/' !in spec then
      Err(RangeFormatError)
    else
      var s := ParseIP(parts[0]);
      match ParseCIDR(parts[1])
      case None => Err(CidrParseError(parts[1]))
      case Some((e, sub)) => Ok(SubnetRange(s, e, sub))
  }

  /**
   * A spec without a dash is a CIDR: it parses exactly when ParseCIDR
   * accepts it, starts at the address, ends at the same address with last
   * octet 254, and its subnet is the CIDR block. Otherwise the error is
   * the CIDR parse error on the whole spec.
   */
  lemma ParseCidrOnly(spec: string)
    requires '-' !in spec
    ensures Parse(spec).Ok? <==> ParseCIDR(spec).Some?
    ensures Parse(spec).Ok? ==>
      var (ip, sub) := ParseCIDR(spec).value;
      var r := Parse(spec).value;
      && r.start == Some(ip) && r.subnet == sub
      && r.end[..3] == ip[..3] && r.end[3] == 254
    ensures ParseCIDR(spec).None? ==> Parse(spec) == Err(CidrParseError(spec))
  {
    SplitFree(spec, '-');
  }

  /** Every "A/n" with n <= 32 parses to start A, end A with last octet 254, subnet A/n. */
  lemma ParseCidrText(a: IPv4, n: nat)
    requires n <= 32
    ensures Parse(CIDRText(a, n)) == Ok(SubnetRange(Some(a), a[3 := 254], Network(a, n)))
  {
    CIDRTextNoDash(a, n);
    SplitFree(CIDRText(a, n), '-');
    ParseCIDRText(a, n);
  }

  /** Every "A-B/n" with n <= 32 parses to start A, end B, subnet B/n. */
  lemma ParseRangeText(a: IPv4, b: IPv4, n: nat)
    requires n <= 32
    ensures Parse(RangeText(a, b, n)) == Ok(SubnetRange(Some(a), b, Network(b, n)))
  {
    var spec := RangeText(a, b, n);
    IPTextChars(a, '-');
    CIDRTextNoDash(b, n);
    SplitAt(IPText(a), CIDRText(b, n), '-');
    SplitFree(CIDRText(b, n), '-');
    assert spec == IPText(a) + ['-'] + CIDRText(b, n);
    assert Split(spec, '-') == [IPText(a), CIDRText(b, n)];
    assert CIDRText(b, n) == IPText(b) + ['/'] + DecimalText(n);
    assert '/' in spec;
    ParseIPText(a);
    ParseCIDRText(b, n);
  }

  /**
   * A spec with exactly one dash and a '/' somewhere is the range form: it
   * fails with the CIDR parse error exactly when the text after the dash is
   * not a CIDR, and otherwise its start is whatever ParseIP makes of the
   * text before the dash.
   */
  lemma ParseRangeForm(x: string, y: string)
    requires '-' !in x && '-' !in y && '/' in x + "-" + y
    ensures Parse(x + "-" + y) ==
            match ParseCIDR(y)
            case None => Err(CidrParseError(y))
            case Some((e, sub)) => Ok(SubnetRange(ParseIP(x), e, sub))
  {
    SplitAt(x, y, '-');
    SplitFree(y, '-');
    assert x + "-" + y == x + ['-'] + y;
  }

  /** More than one dash is a format error, whatever else the text holds. */
  lemma ParseTooManyDashes(spec: string)
    requires Count(spec, '-') >= 2
    ensures Parse(spec) == Err(RangeFormatError)
  {
    SplitCount(spec, '-');
  }

  /** A dash without any '/' is a format error. */
  lemma ParseRangeNeedsSlash(spec: string)
    requires '-' in spec && '/' !in spec
    ensures Parse(spec) == Err(RangeFormatError)
  {
    var i :| 0 <= i < |spec| && spec[i] == '-';
    assert spec == spec[..i] + ([spec[i]] + spec[i + 1..]);
    CountSplit(spec[..i], [spec[i]] + spec[i + 1..], '-');
    SplitCount(spec, '-');
  }

  lemma {:induction false} CountSplit(x: string, y: string, c: char)
    ensures Count(x + y, c) == Count(x, c) + Count(y, c)
    decreases |x|
  {
    if x != [] {
      CountSplit(x[1..], y, c);
      assert (x + y)[1..] == x[1..] + y;
    } else {
      assert x + y == y;
    }
  }

  /**
   * In the range form only the text after the dash is checked as a CIDR:
   * an unparsable start still yields a range, with no start address.
   */
  lemma ParseRangeUnparsedStart(x: string, b: IPv4, n: nat)
    requires '-' !in x && ParseIP(x).None?
    requires n <= 32
    ensures Parse(x + "-" + CIDRText(b, n)) == Ok(SubnetRange(None, b, Network(b, n)))
  {
    var spec := x + "-" + CIDRText(b, n);
    CIDRTextNoDash(b, n);
    SplitAt(x, CIDRText(b, n), '-');
    SplitFree(CIDRText(b, n), '-');
    assert spec == x + ['-'] + CIDRText(b, n);
    assert Split(spec, '-') == [x, CIDRText(b, n)];
    assert CIDRText(b, n) == IPText(b) + ['/'] + DecimalText(n);
    assert '/' in spec;
    ParseCIDRText(b, n);
  }

  /* ---------------- the cases of main_test.go ---------------- */

  lemma DecimalExamples()
    ensures DecimalText(0) == "0" && DecimalText(1) == "1" && DecimalText(10) == "10"
    ensures DecimalText(24) == "24" && DecimalText(100) == "100" && DecimalText(200) == "200"
  {
  }

  lemma IPTextExample(a: IPv4, last: nat)
    requires last == 1 || last == 100 || last == 200
    requires a == [10, 100, 0, last]
    ensures IPText(a) == "10.100.0." + DecimalText(last)
  {
    DecimalExamples();
    assert Fields(a) == ["10", "100", "0", DecimalText(last)];
    JoinFour("10", "100", "0", DecimalText(last), '.');
  }

  /** "10.100.0.1/24" starts at 10.100.0.1 and ends at 10.100.0.254. */
  lemma ParseExampleCidr(spec: string)
    requires spec == "10.100.0.1/24"
    ensures Parse(spec) == Ok(SubnetRange(Some([10, 100, 0, 1]), [10, 100, 0, 254], Network([10, 100, 0, 1], 24)))
  {
    var a: IPv4 := [10, 100, 0, 1];
    IPTextExample(a, 1);
    DecimalExamples();
    assert CIDRText(a, 24) == spec;
    ParseCidrText(a, 24);
    assert a[3 := 254] == [10, 100, 0, 254];
  }

  lemma RangeTextExample(a: IPv4, b: IPv4)
    requires a == [10, 100, 0, 100] && b == [10, 100, 0, 200]
    ensures RangeText(a, b, 24) == "10.100.0.100-10.100.0.200/24"
  {
    IPTextExample(a, 100);
    IPTextExample(b, 200);
    DecimalExamples();
  }

  /** "10.100.0.100-10.100.0.200/24" runs from 10.100.0.100 to 10.100.0.200. */
  lemma ParseExampleRange(spec: string)
    requires spec == "10.100.0.100-10.100.0.200/24"
    ensures Parse(spec) == Ok(SubnetRange(Some([10, 100, 0, 100]), [10, 100, 0, 200], Network([10, 100, 0, 200], 24)))
  {
    var a: IPv4 := [10, 100, 0, 100];
    var b: IPv4 := [10, 100, 0, 200];
    RangeTextExample(a, b);
    ParseRangeText(a, b, 24);
  }

  lemma ParseCIDRExampleShortEnd(s: string)
    requires s == "254/24"
    ensures ParseCIDR(s) == None
  {
    assert s == "254" + ['/'] + "24";
    SplitFirstAt("254", "24", '/');
    SplitFree("254", '.');
  }

  /** "1.2.3.4-254/24" is rejected: "254" before the prefix is not an address. */
  lemma ParseExampleShortEnd(spec: string)
    requires spec == "1.2.3.4-254/24"
    ensures Parse(spec) == Err(CidrParseError("254/24"))
  {
    var x, y := "1.2.3.4", "254/24";
    assert spec == x + "-" + y;
    assert y[3] == '/';
    ParseRangeForm(x, y);
    ParseCIDRExampleShortEnd(y);
  }
}
