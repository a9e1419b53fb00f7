/**
 * IPv4 addresses as byte strings: their big-endian reading as numbers, the
 * in-place increment with carry (`nextIP`), the reserved-suffix filter
 * (`validIP`) and the scan positions the allocator visits.
 */
module Address {
  import opened Arith

  /** Go's `byte`: an unsigned 8-bit value. */
  type byte = x: int | 0 <= x < 256

  /** An IPv4 address, most significant octet first. */
  type IPv4 = s: seq<byte> | |s| == 4 witness [0, 0, 0, 0]

  /** The number of IPv4 addresses, 2^32. */
  const AddressCount: nat := 0x1_0000_0000

  /** 256^n, the number of distinct byte strings of length n. */
  function Pow256(n: nat): (r: nat)
    ensures r >= 1
  {
    if n == 0 then 1 else 256 * Pow256(n - 1)
  }

  /** The unsigned number a byte string denotes, read big-endian. */
  function Value(s: seq<byte>): (v: nat)
    ensures v < Pow256(|s|)
  {
    if s == [] then 0 else Value(s[..|s| - 1]) * 256 + s[|s| - 1]
  }

  lemma ValueAppend(s: seq<byte>, b: byte)
    ensures Value(s + [b]) == Value(s) * 256 + b
  {
    assert (s + [b])[..|s|] == s;
  }

  /** Reading big-endian loses nothing: equal lengths and equal values mean equal strings. */
  lemma {:induction false} ValueInjective(a: seq<byte>, b: seq<byte>)
    requires |a| == |b| && Value(a) == Value(b)
    ensures a == b
  {
    if a != [] {
      var n := |a| - 1;
      assert Value(a) == Value(a[..n]) * 256 + a[n];
      assert Value(b) == Value(b[..n]) * 256 + b[n];
      DivUnique(Value(a), 256, Value(a[..n]), a[n]);
      DivUnique(Value(b), 256, Value(b[..n]), b[n]);
      ValueInjective(a[..n], b[..n]);
      assert a == a[..n] + [a[n]] && b == b[..n] + [b[n]];
    }
  }

  /**
   * The byte string one greater, carrying from the last byte towards the
   * first; a string of 255s wraps to zeros. This is what `nextIP` leaves in
   * its argument.
   */
  function Increment(s: seq<byte>): (r: seq<byte>)
    ensures |r| == |s|
  {
    if s == [] then []
    else if s[|s| - 1] < 255 then s[..|s| - 1] + [s[|s| - 1] + 1]
    else Increment(s[..|s| - 1]) + [0]
  }

  /** Increment adds one to the big-endian value, wrapping to 0 past the largest value. */
  lemma {:induction false} IncrementValue(s: seq<byte>)
    ensures Value(Increment(s)) == if Value(s) + 1 == Pow256(|s|) then 0 else Value(s) + 1
  {
    if s != [] {
      var n := |s| - 1;
      var p := s[..n];
      assert s == p + [s[n]];
      ValueAppend(p, s[n]);
      if s[n] < 255 {
        ValueAppend(p, s[n] + 1);
      } else {
        IncrementValue(p);
        ValueAppend(Increment(p), 0);
      }
    }
  }

  /** Every byte 255 wraps to every byte 0. */
  lemma {:induction false} IncrementAllOnes(s: seq<byte>)
    requires forall i :: 0 <= i < |s| ==> s[i] == 255
    ensures forall i :: 0 <= i < |s| ==> Increment(s)[i] == 0
  {
    if s != [] {
      IncrementAllOnes(s[..|s| - 1]);
    }
  }

  /**
   * Increment byte by byte: when byte j is below 255 and every byte after it
   * is 255, the bytes before j are kept, byte j goes up by one and the bytes
   * after it wrap to 0.
   */
  lemma {:induction false} IncrementAt(s: seq<byte>, j: nat)
    requires j < |s| && s[j] < 255
    requires forall i :: j < i < |s| ==> s[i] == 255
    ensures forall i :: 0 <= i < |s| ==>
              Increment(s)[i] == if i < j then s[i] else if i == j then s[j] + 1 else 0
  {
    var n := |s| - 1;
    if j < n {
      IncrementAt(s[..n], j);
    }
  }

  /**
   * `nextIP`: increments the address in place, big-endian with carry,
   * stopping at the first byte that does not wrap to zero.
   */
  method NextIP(ip: array<byte>)
    modifies ip
    ensures ip[..] == Increment(old(ip[..]))
  {
    ghost var s := ip[..];
    var j := ip.Length - 1;
    while j >= 0
      invariant -1 <= j < ip.Length
      invariant forall i :: 0 <= i <= j ==> ip[i] == s[i]
      invariant forall i :: j < i < ip.Length ==> s[i] == 255 && ip[i] == 0
      decreases j
    {
      ip[j] := (ip[j] as int + 1) % 256;
      if ip[j] > 0 {
        IncrementAt(s, j);
        break;
      }
      j := j - 1;
    }
    if j < 0 {
      IncrementAllOnes(s);
    }
  }

  /**
   * `validIP`: false for the network, gateway and broadcast convention,
   * that is when the last octet is 0, 1 or 255.
   */
  predicate ValidIP(ip: IPv4)
    ensures ValidIP(ip) <==> Value(ip) % 256 !in {0, 1, 255}
  {
    assert Value(ip) == Value(ip[..3]) * 256 + ip[3];
    ip[3] != 0 && ip[3] != 1 && ip[3] != 255
  }

  /** The address reached from `ip` after `k` increments. */
  function Nth(ip: IPv4, k: nat): IPv4
    decreases k
  {
    if k == 0 then ip else Nth(Increment(ip), k - 1)
  }

  /** How many increments lead from `a` to `b`: (b - a) mod 2^32. */
  function Dist(a: IPv4, b: IPv4): (d: nat)
    ensures d < AddressCount
    ensures d == 0 <==> a == b
  {
    Pow256Four();
    if Value(a) == Value(b) then ValueInjective(a, b); 0
    else if Value(a) < Value(b) then Value(b) - Value(a)
    else AddressCount - (Value(a) - Value(b))
  }

  lemma Pow256Four()
    ensures Pow256(4) == AddressCount
  {
    assert Pow256(2) == 65536;
  }

  /** Each increment brings a different address one step closer to `b`. */
  lemma DistStep(a: IPv4, b: IPv4)
    requires a != b
    ensures Dist(Increment(a), b) == Dist(a, b) - 1
  {
    IncrementValue(a);
    Pow256Four();
  }

  /** The k-th scan position is the start's value plus k, modulo 2^32. */
  lemma {:induction false} NthValue(ip: IPv4, k: nat)
    requires k < AddressCount
    ensures Value(Nth(ip, k)) ==
            if Value(ip) + k < AddressCount then Value(ip) + k else Value(ip) + k - AddressCount
    decreases k
  {
    if k > 0 {
      NthValue(Increment(ip), k - 1);
      IncrementValue(ip);
      Pow256Four();
    }
  }

  /** Fewer than 2^32 steps never revisit an address. */
  lemma NthDistinct(ip: IPv4, j: nat, k: nat)
    requires j < k < AddressCount
    ensures Nth(ip, j) != Nth(ip, k)
  {
    NthValue(ip, j);
    NthValue(ip, k);
  }

  /** When `a` is not above `b`, the distance is the plain difference of values. */
  lemma DistOrdered(a: IPv4, b: IPv4)
    requires Value(a) <= Value(b)
    ensures Dist(a, b) == Value(b) - Value(a)
  {
    Pow256Four();
  }

  /** Scanning up from `a` reaches every address `x` not below it, after Value(x) - Value(a) steps. */
  lemma NthReaches(a: IPv4, x: IPv4)
    requires Value(a) <= Value(x)
    ensures Nth(a, Value(x) - Value(a)) == x
  {
    var k: nat := Value(x) - Value(a);
    assert k < AddressCount by {
      Pow256Four();
    }
    NthValue(a, k);
    assert Value(Nth(a, k)) == Value(x);
    ValueInjective(Nth(a, k), x);
  }

  /** Within the distance to `b`, the scan never reaches `b` itself. */
  lemma NthBeforeEnd(a: IPv4, b: IPv4, k: nat)
    requires k < Dist(a, b)
    ensures Nth(a, k) != b
  {
    NthValue(a, k);
  }
}
