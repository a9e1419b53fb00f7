/**
 * The lease table and the allocator working on it: `getIP`, `allocateIP`,
 * `getOrAllocateIP` and `releaseIP`. The Redis hash `stellarproject.io/ips`
 * is a map field: HGETALL reads it, HSET and HDEL update it.
 */
module Allocator {
  import opened Outcomes
  import opened Address
  import opened NetText
  import opened SubnetRanges

  /** Container id to leased address. */
  type Leases = map<string, IPv4>

  /** An address the scan may hand out: not reserved by `validIP` and held by nobody. */
  predicate Eligible(ip: IPv4, held: set<IPv4>)
  {
    ValidIP(ip) && ip !in held
  }

  /** No two ids hold the same address. */
  ghost predicate Distinct(t: Leases)
  {
    forall x, y :: x in t && y in t && x != y ==> t[x] != t[y]
  }

  /* ---------------- the first-fit scan ---------------- */

  /**
   * The scan of `allocateIP`: from `ip` upwards, one increment at a time,
   * stopping before `end`; the first eligible address, if any.
   */
  function FirstFit(ip: IPv4, end: IPv4, held: set<IPv4>): (r: Option<IPv4>)
    ensures r.Some? ==> r.value != end && Eligible(r.value, held)
    decreases Dist(ip, end)
  {
    if ip == end then None
    else if Eligible(ip, held) then Some(ip)
    else DistStep(ip, end); FirstFit(Increment(ip), end, held)
  }

  /**
   * A found address is the k-th scan position for some k before the end,
   * and every earlier position is reserved or held.
   */
  lemma {:induction false} FirstFitSound(ip: IPv4, end: IPv4, held: set<IPv4>) returns (k: nat)
    requires FirstFit(ip, end, held).Some?
    ensures k < Dist(ip, end) && Nth(ip, k) == FirstFit(ip, end, held).value
    ensures forall j: nat :: j < k ==> !Eligible(Nth(ip, j), held)
    decreases Dist(ip, end)
  {
    if Eligible(ip, held) {
      k := 0;
    } else {
      DistStep(ip, end);
      var next := Increment(ip);
      assert FirstFit(ip, end, held) == FirstFit(next, end, held);
      var k' := FirstFitSound(next, end, held);
      k := k' + 1;
      assert Nth(ip, k) == Nth(next, k');
      forall j: nat | j < k
        ensures !Eligible(Nth(ip, j), held)
      {
        if j > 0 {
          assert Nth(ip, j) == Nth(next, j - 1);
        }
      }
    }
  }

  /** Conversely, the first eligible scan position before the end is what the scan finds. */
  lemma {:induction false} FirstFitAt(ip: IPv4, end: IPv4, held: set<IPv4>, k: nat)
    requires k < Dist(ip, end)
    requires Eligible(Nth(ip, k), held)
    requires forall j: nat :: j < k ==> !Eligible(Nth(ip, j), held)
    ensures FirstFit(ip, end, held) == Some(Nth(ip, k))
    decreases k
  {
    if k > 0 {
      assert !Eligible(Nth(ip, 0), held);
      DistStep(ip, end);
      var next := Increment(ip);
      forall j: nat | j < k - 1
        ensures !Eligible(Nth(next, j), held)
      {
        assert Nth(ip, j + 1) == Nth(next, j);
      }
      FirstFitAt(next, end, held, k - 1);
    }
  }

  /** The scan finds nothing exactly when every position before the end is reserved or held. */
  lemma {:induction false} FirstFitNone(ip: IPv4, end: IPv4, held: set<IPv4>)
    ensures FirstFit(ip, end, held).None? <==>
            forall k: nat :: k < Dist(ip, end) ==> !Eligible(Nth(ip, k), held)
    decreases Dist(ip, end)
  {
    if ip != end {
      if Eligible(ip, held) {
        assert FirstFit(ip, end, held) == Some(ip);
        assert Nth(ip, 0) == ip;
        assert 0 < Dist(ip, end);
        assert Eligible(Nth(ip, 0), held);
        assert !(forall k: nat :: k < Dist(ip, end) ==> !Eligible(Nth(ip, k), held));
      } else {
        DistStep(ip, end);
        var next := Increment(ip);
        assert FirstFit(ip, end, held) == FirstFit(next, end, held);
        FirstFitNone(next, end, held);
        if FirstFit(ip, end, held).None? {
          forall k: nat | k < Dist(ip, end)
            ensures !Eligible(Nth(ip, k), held)
          {
            if k > 0 {
              assert Nth(ip, k) == Nth(next, k - 1);
              assert k - 1 < Dist(next, end);
              assert !Eligible(Nth(next, k - 1), held);
            } else {
              assert Nth(ip, k) == ip;
            }
          }
        } else {
          var k := FirstFitSound(ip, end, held);
          assert Eligible(Nth(ip, k), held);
        }
      }
    }
  }

  /* ---------------- allocateIP, getOrAllocateIP, releaseIP on values ---------------- */

  /**
   * What `allocateIP` returns and leaves in the table `t`: an id with a
   * lease gets it back; otherwise the first-fit address of the range is
   * recorded under the id.
   */
  function Allocate(t: Leases, id: string, r: SubnetRange): (o: (Result<IPv4>, Leases))
    ensures o.0.Ok? ==> o.1 == t[id := o.0.value]
    ensures o.0.Err? ==> o.1 == t
    ensures id in t ==> o.0 == Ok(t[id])
    ensures id !in t && o.0.Ok? ==> Eligible(o.0.value, t.Values) && o.0.value != r.end
  {
    if id in t then
      assert t[id := t[id]] == t;
      (Ok(t[id]), t)
    else
      match r.start
      case None => (Err(InvalidStart), t)
      case Some(s) =>
        match FirstFit(s, r.end, t.Values)
        case Some(ip) => (Ok(ip), t[id := ip])
        case None => (Err(NoAvailableIPs), t)
  }

  /**
   * A new lease is the first address, counting up from the range's start,
   * that is neither reserved nor held, and it comes before the end.
   */
  lemma AllocateFirstFit(t: Leases, id: string, r: SubnetRange)
    requires id !in t && Allocate(t, id, r).0.Ok?
    ensures r.start.Some?
    ensures exists k: nat :: k < Dist(r.start.value, r.end)
                             && Nth(r.start.value, k) == Allocate(t, id, r).0.value
                             && forall j: nat :: j < k ==> !Eligible(Nth(r.start.value, j), t.Values)
  {
    var k := FirstFitSound(r.start.value, r.end, t.Values);
  }

  /**
   * When `ip` is not above `end`, the scan is in ascending order: what it
   * finds lies in [ip, end) and is the lowest eligible address there.
   */
  lemma FirstFitLowest(ip: IPv4, end: IPv4, held: set<IPv4>)
    requires FirstFit(ip, end, held).Some? && Value(ip) <= Value(end)
    ensures var a := FirstFit(ip, end, held).value;
            && Value(ip) <= Value(a) < Value(end)
            && forall b: IPv4 :: Value(ip) <= Value(b) < Value(a) ==> !Eligible(b, held)
  {
    var k := FirstFitSound(ip, end, held);
    DistOrdered(ip, end);
    Pow256Four();
    NthValue(ip, k);
    assert Value(Nth(ip, k)) == Value(ip) + k;
    forall b: IPv4 | Value(ip) <= Value(b) < Value(Nth(ip, k))
      ensures !Eligible(b, held)
    {
      var j: nat := Value(b) - Value(ip);
      NthReaches(ip, b);
      assert j < k && Nth(ip, j) == b;
    }
  }

  /**
   * When the start is not above the end, a new lease lies in [start, end)
   * and is the lowest address there that is neither reserved nor held.
   */
  lemma AllocateLowest(t: Leases, id: string, r: SubnetRange)
    requires id !in t && Allocate(t, id, r).0.Ok?
    requires r.start.Some? && Value(r.start.value) <= Value(r.end)
    ensures var a := Allocate(t, id, r).0.value;
            && Value(r.start.value) <= Value(a) < Value(r.end)
            && forall b: IPv4 :: Value(r.start.value) <= Value(b) < Value(a) ==> !Eligible(b, t.Values)
  {
    FirstFitLowest(r.start.value, r.end, t.Values);
  }

  /**
   * Without a lease and without a start address (the range form's start is
   * not checked), allocation fails with InvalidStart and changes nothing.
   */
  lemma AllocateNilStart(t: Leases, id: string, r: SubnetRange)
    requires id !in t && r.start.None?
    ensures Allocate(t, id, r) == (Err(InvalidStart), t)
  {
  }

  /**
   * Without a lease and with a start address, allocation fails with
   * "no available IPs" exactly when every address before the end is reserved or held.
   */
  lemma AllocateExhausted(t: Leases, id: string, r: SubnetRange)
    requires id !in t && r.start.Some?
    ensures Allocate(t, id, r).0 == Err(NoAvailableIPs) <==>
            forall k: nat :: k < Dist(r.start.value, r.end) ==> !Eligible(Nth(r.start.value, k), t.Values)
  {
    FirstFitNone(r.start.value, r.end, t.Values);
  }

  /**
   * A /30 from 10.0.0.0 up to 10.0.0.3: 10.0.0.0 and 10.0.0.1 are reserved,
   * so once another id holds 10.0.0.2 the range is exhausted.
   */
  lemma AllocateExhaustedExample(t: Leases, id: string, r: SubnetRange)
    requires r.start == Some([10, 0, 0, 0]) && r.end == [10, 0, 0, 3]
    requires id !in t && [10, 0, 0, 2] in t.Values
    ensures Allocate(t, id, r) == (Err(NoAvailableIPs), t)
  {
    var held := t.Values;
    assert Increment([10, 0, 0, 0]) == [10, 0, 0, 1];
    assert Increment([10, 0, 0, 1]) == [10, 0, 0, 2];
    assert Increment([10, 0, 0, 2]) == [10, 0, 0, 3];
    assert FirstFit([10, 0, 0, 2], [10, 0, 0, 3], held) == None;
    assert FirstFit([10, 0, 0, 1], [10, 0, 0, 3], held) == None;
    assert FirstFit([10, 0, 0, 0], [10, 0, 0, 3], held) == None;
  }

  /** An empty range (start equal to end) never yields a new lease. */
  lemma AllocateEmptyRange(t: Leases, id: string, r: SubnetRange)
    requires id !in t && r.start == Some(r.end)
    ensures Allocate(t, id, r) == (Err(NoAvailableIPs), t)
  {
  }

  /** A second allocation for the same id, over any range, returns the same address and writes nothing. */
  lemma AllocateIdempotent(t: Leases, id: string, r: SubnetRange, r2: SubnetRange)
    requires Allocate(t, id, r).0.Ok?
    ensures Allocate(Allocate(t, id, r).1, id, r2) == Allocate(t, id, r)
  {
  }

  /** Allocation never makes two ids share an address. */
  lemma AllocateKeepsDistinct(t: Leases, id: string, r: SubnetRange)
    ensures Distinct(t) ==> Distinct(Allocate(t, id, r).1)
  {
    var o := Allocate(t, id, r);
    if Distinct(t) && o.0.Ok? && id !in t {
      forall x | x in t
        ensures t[x] != o.0.value
      {
        assert t[x] in t.Values;
      }
    }
  }

  /** What `releaseIP` leaves in the table: the id's entry is gone and every other entry is kept. */
  function Release(t: Leases, id: string): (t': Leases)
    ensures id !in t'
    ensures forall x :: x in t' <==> x in t && x != id
    ensures forall x :: x in t' ==> t'[x] == t[x]
  {
    if id in t then t - {id} else t
  }

  /** Release never makes two ids share an address. */
  lemma ReleaseKeepsDistinct(t: Leases, id: string)
    ensures Distinct(t) ==> Distinct(Release(t, id))
  {
  }

  /** Releasing an id without a lease changes nothing. */
  lemma ReleaseAbsent(t: Leases, id: string)
    requires id !in t
    ensures Release(t, id) == t
  {
  }

  /** Releasing twice is releasing once. */
  lemma ReleaseIdempotent(t: Leases, id: string)
    ensures Release(Release(t, id), id) == Release(t, id)
  {
  }

  /** When no two ids share an address, release frees the id's address for everyone. */
  lemma ReleaseFrees(t: Leases, id: string)
    requires Distinct(t) && id in t
    ensures Release(t, id).Values == t.Values - {t[id]}
  {
    var t' := Release(t, id);
    forall a | a in t.Values - {t[id]}
      ensures a in t'.Values
    {
      var x :| x in t && t[x] == a;
      assert x != id && t'[x] == a;
    }
  }

  /**
   * Release then reallocate: if the released address is the first scan
   * position of the range that was not reserved or held, a different id
   * that allocates next gets exactly that address.
   */
  lemma ReleaseThenReallocate(t: Leases, id: string, other: string, r: SubnetRange, k: nat)
    requires Distinct(t) && id in t && other !in t
    requires r.start.Some? && k < Dist(r.start.value, r.end)
    requires Nth(r.start.value, k) == t[id] && ValidIP(t[id])
    requires forall j: nat :: j < k ==> !Eligible(Nth(r.start.value, j), t.Values)
    ensures Allocate(Release(t, id), other, r) == (Ok(t[id]), Release(t, id)[other := t[id]])
  {
    var s, a := r.start.value, t[id];
    var t' := Release(t, id);
    ReleaseFrees(t, id);
    forall j: nat | j < k
      ensures !Eligible(Nth(s, j), t'.Values)
    {
      NthDistinct(s, j, k);
    }
    FirstFitAt(s, r.end, t'.Values, k);
  }

  /**
   * What `getOrAllocateIP` returns and leaves in the table: the range is
   * parsed first, an existing lease is returned with the parsed subnet,
   * and otherwise `allocateIP` decides.
   */
  function GetOrAllocate(t: Leases, id: string, spec: string): (o: (Result<(IPv4, IPNet)>, Leases))
    ensures o.0.Ok? ==> o.1 == t[id := o.0.value.0]
    ensures o.0.Err? ==> o.1 == t
    ensures o.0.Ok? ==> Parse(spec).Ok? && o.0.value.1 == Parse(spec).value.subnet
  {
    match Parse(spec)
    case Err(e) => (Err(e), t)
    case Ok(r) =>
      if id in t then (Ok((t[id], r.subnet)), t)
      else
        match Allocate(t, id, r)
        case (Err(e), t') => (Err(e), t')
        case (Ok(ip), t') => (Ok((ip, r.subnet)), t')
  }

  /** A range that does not parse is reported before the table is read or written. */
  lemma GetOrAllocateParseFirst(t: Leases, id: string, spec: string)
    requires Parse(spec).Err?
    ensures GetOrAllocate(t, id, spec) == (Err(Parse(spec).error), t)
  {
  }

  /**
   * Once the range parses, getOrAllocateIP returns what allocateIP returns,
   * paired with the parsed subnet, and leaves the same table: its own
   * check for an existing lease changes nothing.
   */
  lemma GetOrAllocateIsAllocate(t: Leases, id: string, spec: string)
    requires Parse(spec).Ok?
    ensures var o := Allocate(t, id, Parse(spec).value);
            GetOrAllocate(t, id, spec).1 == o.1
            && (GetOrAllocate(t, id, spec).0.Ok? <==> o.0.Ok?)
            && (o.0.Ok? ==> GetOrAllocate(t, id, spec).0.value == (o.0.value, Parse(spec).value.subnet))
            && (o.0.Err? ==> GetOrAllocate(t, id, spec).0.error == o.0.error)
  {
  }

  /** Calling getOrAllocateIP again for the same id returns the same lease and writes nothing. */
  lemma GetOrAllocateIdempotent(t: Leases, id: string, spec: string)
    requires GetOrAllocate(t, id, spec).0.Ok?
    ensures GetOrAllocate(GetOrAllocate(t, id, spec).1, id, spec) == (GetOrAllocate(t, id, spec).0, GetOrAllocate(t, id, spec).1)
  {
    GetOrAllocateIsAllocate(t, id, spec);
  }

  /* ---------------- the code itself ---------------- */

  /**
   * The address-to-id lookup `allocateIP` builds from the table, one entry
   * at a time in the map's (unspecified) iteration order: its keys are the
   * held addresses and each maps back to an id holding it.
   */
  method InvertLeases(t: Leases) returns (lookup: map<IPv4, string>)
    ensures lookup.Keys == t.Values
    ensures forall a :: a in lookup ==> lookup[a] in t && t[lookup[a]] == a
  {
    lookup := map[];
    var todo := t.Keys;
    while todo != {}
      invariant todo <= t.Keys
      invariant lookup.Keys == set x | x in t.Keys - todo :: t[x]
      invariant forall a :: a in lookup ==> lookup[a] in t && t[lookup[a]] == a
      decreases todo
    {
      var x :| x in todo;
      lookup := lookup[t[x] := x];
      todo := todo - {x};
    }
    assert t.Keys - todo == t.Keys;
  }

  /** The lease table, with the operations of main.go that read and write it. */
  class LeaseTable {
    var leases: Leases

    constructor (initial: Leases)
      ensures leases == initial
    {
      leases := initial;
    }

    /** `getIP`: the id's address, or None (Go's nil, not an error) when it has no lease. */
    method GetIP(id: string) returns (ip: Option<IPv4>)
      ensures ip.Some? <==> id in leases
      ensures ip.Some? ==> ip.value == leases[id]
    {
      var all := leases;
      if id in all {
        return Some(all[id]);
      }
      return None;
    }

    /**
     * `allocateIP`: returns the id's lease if it has one; otherwise scans
     * from the range's start up to (not including) its end, skipping
     * reserved and held addresses, and records the first survivor.
     */
    method AllocateIP(id: string, r: SubnetRange) returns (res: Result<IPv4>)
      modifies this
      ensures (res, leases) == Allocate(old(leases), id, r)
      ensures Distinct(old(leases)) ==> Distinct(leases)
    {
      var reserved := leases;
      if id in reserved {
        return Ok(reserved[id]);
      }
      var lookup := InvertLeases(reserved);
      if r.start.None? {
        // Go calls validIP on a nil address here and panics
        return Err(InvalidStart);
      }
      var start := r.start.value;
      var ip := new byte[4](i requires 0 <= i < 4 => start[i]);
      assert ip[..] == start;
      while ip[..] != r.end
        invariant ip.Length == 4 && leases == reserved
        invariant FirstFit(start, r.end, reserved.Values) == FirstFit(ip[..], r.end, reserved.Values)
        decreases Dist(ip[..], r.end)
      {
        if ValidIP(ip[..]) && ip[..] !in lookup {
          leases := leases[id := ip[..]];
          AllocateKeepsDistinct(reserved, id, r);
          return Ok(ip[..]);
        }
        DistStep(ip[..], r.end);
        NextIP(ip);
      }
      return Err(NoAvailableIPs);
    }

    /**
     * `getOrAllocateIP`: parses the range, returns an existing lease with
     * the parsed subnet, or allocates one.
     */
    method GetOrAllocateIP(id: string, spec: string) returns (res: Result<(IPv4, IPNet)>)
      modifies this
      ensures (res, leases) == GetOrAllocate(old(leases), id, spec)
      ensures Distinct(old(leases)) ==> Distinct(leases)
    {
      var parsed := Parse(spec);
      if parsed.Err? {
        return Err(parsed.error);
      }
      var r := parsed.value;
      var existing := GetIP(id);
      if existing.Some? {
        return Ok((existing.value, r.subnet));
      }
      var ip := AllocateIP(id, r);
      if ip.Err? {
        return Err(ip.error);
      }
      return Ok((ip.value, r.subnet));
    }

    /** `releaseIP`: deletes the id's entry if it has one; otherwise does nothing. */
    method ReleaseIP(id: string)
      modifies this
      ensures leases == Release(old(leases), id)
      ensures Distinct(old(leases)) ==> Distinct(leases)
    {
      var ip := GetIP(id);
      if ip.Some? {
        leases := leases - {id};
      }
      ReleaseKeepsDistinct(old(leases), id);
    }
  }
}
