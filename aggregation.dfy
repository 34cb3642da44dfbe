/** The aggregation store of passive-dns-cluster.py: the two module-level indices
      domain_to_asn : domain -> asn -> ip -> count
      asn_to_domain : asn -> set(domain)
    and the one update a scanned record makes to both of them. */
module Aggregation {
  import opened PyDict

  type Domain = string
  type Asn = string
  type Ip = string

  /** ip -> count */
  type IpCounts = Dict<Ip, nat>
  /** asn -> ip -> count */
  type AsnIps = Dict<Asn, IpCounts>

  /** The value of both indices together. */
  datatype Aggregate = Aggregate(domainToAsn: Dict<Domain, AsnIps>, asnToDomain: Dict<Asn, set<Domain>>)

  /** Both indices as they are created at start-up: empty. */
  function Initial(): (a: Aggregate)
    ensures Consistent(a) && Total(a) == 0
  {
    Aggregate(Empty(), Empty())
  }

  // ----- Readings that create nothing (unlike Python's defaultdict) -----

  /** `asn` is a key under `domain_to_asn[domain]`. */
  predicate HasAsn(a: Aggregate, d: Domain, s: Asn) {
    d in a.domainToAsn.m && s in a.domainToAsn.m[d].m
  }

  /** `ip` is a key under `domain_to_asn[domain][asn]`. */
  predicate Stored(a: Aggregate, d: Domain, s: Asn, i: Ip) {
    HasAsn(a, d, s) && i in a.domainToAsn.m[d].m[s].m
  }

  /** `domain_to_asn[domain][asn][ip]`, 0 where a key is missing. */
  function Count(a: Aggregate, d: Domain, s: Asn, i: Ip): nat {
    if Stored(a, d, s, i) then a.domainToAsn.m[d].m[s].m[i] else 0
  }

  /** `domain in asn_to_domain[asn]` */
  predicate Lists(a: Aggregate, s: Asn, d: Domain) {
    s in a.asnToDomain.m && d in a.asnToDomain.m[s]
  }

  /** The iteration order of `domain_to_asn[domain]`. */
  function AsnKeys(a: Aggregate, d: Domain): seq<Asn> {
    if d in a.domainToAsn.m then a.domainToAsn.m[d].keys else []
  }

  /** The iteration order of `domain_to_asn[domain][asn]`. */
  function IpKeys(a: Aggregate, d: Domain, s: Asn): seq<Ip> {
    if HasAsn(a, d, s) then a.domainToAsn.m[d].m[s].keys else []
  }

  // ----- The invariant -----

  /** Every dict at every level lists its keys once, in insertion order. */
  ghost predicate Shaped(a: Aggregate) {
    && Valid(a.domainToAsn)
    && Valid(a.asnToDomain)
    && (forall d :: d in a.domainToAsn.m ==> Valid(a.domainToAsn.m[d]))
    && (forall d, s :: HasAsn(a, d, s) ==> Valid(a.domainToAsn.m[d].m[s]))
  }

  /** Nothing is stored that no record put there: no empty inner dict or set, no zero count. */
  ghost predicate NoneEmpty(a: Aggregate) {
    && (forall d :: d in a.domainToAsn.m ==> a.domainToAsn.m[d].m != map[])
    && (forall d, s :: HasAsn(a, d, s) ==> a.domainToAsn.m[d].m[s].m != map[])
    && (forall d, s, i :: Stored(a, d, s, i) ==> Count(a, d, s, i) >= 1)
    && (forall s :: s in a.asnToDomain.m ==> a.asnToDomain.m[s] != {})
  }

  /** The two indices are two views of the same records. */
  ghost predicate Agree(a: Aggregate) {
    forall d, s :: HasAsn(a, d, s) <==> Lists(a, s, d)
  }

  ghost predicate Consistent(a: Aggregate) {
    Shaped(a) && NoneEmpty(a) && Agree(a)
  }

  // ----- The update -----

  /** `domain_to_asn[domain][asn][ip] += 1` on the nested defaultdicts: a missing domain, asn or
      ip is first created (empty, empty, 0) at the end of its dict. */
  function Bumped(d2a: Dict<Domain, AsnIps>, d: Domain, s: Asn, i: Ip): Dict<Domain, AsnIps> {
    var asns := Get(d2a, d, Empty());
    var ips := Get(asns, s, Empty());
    Put(d2a, d, Put(asns, s, Put(ips, i, Get(ips, i, 0) + 1)))
  }

  /** `asn_to_domain[asn].add(domain)`: a missing asn is first created with the empty set. */
  function Added(a2d: Dict<Asn, set<Domain>>, s: Asn, d: Domain): Dict<Asn, set<Domain>> {
    Put(a2d, s, Get(a2d, s, {}) + {d})
  }

  /** Both writes one accepted record makes (passive-dns-cluster.py:96-99). The lemmas below
      show that exactly one count goes up by one, exactly one membership is added, a key met
      for the first time goes last in its dict, and nothing else changes. */
  function Recorded(a: Aggregate, d: Domain, s: Asn, i: Ip): Aggregate {
    Aggregate(Bumped(a.domainToAsn, d, s, i), Added(a.asnToDomain, s, d))
  }

  /** The update keeps every dict at every level well formed. */
  lemma {:induction false} RecordedShaped(a: Aggregate, d: Domain, s: Asn, i: Ip)
    requires Shaped(a)
    ensures Shaped(Recorded(a, d, s, i))
  {
    var asns := Get(a.domainToAsn, d, Empty());
    var ips := Get(asns, s, Empty());
    ShapedInner(a, d, s);
    var ips' := Put(ips, i, Get(ips, i, 0) + 1);
    PutValid(ips, i, Get(ips, i, 0) + 1);
    PutValid(asns, s, ips');
    PutValid(a.domainToAsn, d, Put(asns, s, ips'));
    PutValid(a.asnToDomain, s, Get(a.asnToDomain, s, {}) + {d});
    var r := Recorded(a, d, s, i);
    forall d' | d' in r.domainToAsn.m ensures Valid(r.domainToAsn.m[d']) {
      if d' != d { assert r.domainToAsn.m[d'] == a.domainToAsn.m[d']; }
    }
    forall d', s' | HasAsn(r, d', s') ensures Valid(r.domainToAsn.m[d'].m[s']) {
      if d' != d || s' != s { assert HasAsn(a, d', s'); }
    }
  }

  /** Exactly the record's own count goes up, by one. */
  lemma {:induction false} RecordedCounts(a: Aggregate, d: Domain, s: Asn, i: Ip)
    ensures var r := Recorded(a, d, s, i);
      forall d', s', i' :: Count(r, d', s', i') ==
        Count(a, d', s', i') + if d' == d && s' == s && i' == i then 1 else 0
  {
  }

  /** Exactly the record's own (domain, asn, ip) key path is added. */
  lemma {:induction false} RecordedStored(a: Aggregate, d: Domain, s: Asn, i: Ip)
    ensures var r := Recorded(a, d, s, i);
      forall d', s', i' :: Stored(r, d', s', i') <==> Stored(a, d', s', i') || (d' == d && s' == s && i' == i)
  {
  }

  /** Exactly the record's own (domain, asn) pair is added to `domain_to_asn`. */
  lemma {:induction false} RecordedHasAsn(a: Aggregate, d: Domain, s: Asn, i: Ip)
    ensures var r := Recorded(a, d, s, i);
      forall d', s' :: HasAsn(r, d', s') <==> HasAsn(a, d', s') || (d' == d && s' == s)
  {
  }

  /** Exactly the record's domain is added to the record's asn in `asn_to_domain`. */
  lemma {:induction false} RecordedLists(a: Aggregate, d: Domain, s: Asn, i: Ip)
    ensures var r := Recorded(a, d, s, i);
      forall s', d' :: Lists(r, s', d') <==> Lists(a, s', d') || (s' == s && d' == d)
  {
  }

  /** The outer keys: a domain or asn met for the first time goes last. */
  lemma {:induction false} RecordedOuterOrder(a: Aggregate, d: Domain, s: Asn, i: Ip)
    ensures var r := Recorded(a, d, s, i);
      && r.domainToAsn.keys == (if d in a.domainToAsn.m then a.domainToAsn.keys else a.domainToAsn.keys + [d])
      && r.asnToDomain.keys == (if s in a.asnToDomain.m then a.asnToDomain.keys else a.asnToDomain.keys + [s])
  {
  }

  /** The asns under each domain: only the record's domain can gain one, at the end. */
  lemma {:induction false} RecordedAsnOrder(a: Aggregate, d: Domain, s: Asn, i: Ip)
    ensures var r := Recorded(a, d, s, i);
      forall d' :: AsnKeys(r, d') ==
        if d' != d then AsnKeys(a, d')
        else if HasAsn(a, d, s) then AsnKeys(a, d) else AsnKeys(a, d) + [s]
  {
  }

  /** The ips under each (domain, asn): only the record's pair can gain one, at the end. */
  lemma {:induction false} RecordedIpOrder(a: Aggregate, d: Domain, s: Asn, i: Ip)
    ensures var r := Recorded(a, d, s, i);
      forall d', s' :: IpKeys(r, d', s') ==
        if d' != d || s' != s then IpKeys(a, d', s')
        else if Stored(a, d, s, i) then IpKeys(a, d, s) else IpKeys(a, d, s) + [i]
  {
  }

  /** The update keeps the invariant. */
  lemma {:induction false} RecordedConsistent(a: Aggregate, d: Domain, s: Asn, i: Ip)
    requires Consistent(a)
    ensures Consistent(Recorded(a, d, s, i))
  {
    RecordedShaped(a, d, s, i);
    RecordedAgree(a, d, s, i);
    RecordedNoneEmpty(a, d, s, i);
  }

  lemma {:induction false} RecordedAgree(a: Aggregate, d: Domain, s: Asn, i: Ip)
    requires Agree(a)
    ensures Agree(Recorded(a, d, s, i))
  {
    RecordedHasAsn(a, d, s, i);
    RecordedLists(a, d, s, i);
  }

  lemma {:induction false} RecordedNoneEmpty(a: Aggregate, d: Domain, s: Asn, i: Ip)
    requires NoneEmpty(a)
    ensures NoneEmpty(Recorded(a, d, s, i))
  {
    var r := Recorded(a, d, s, i);
    RecordedCounts(a, d, s, i);
    RecordedStored(a, d, s, i);
    RecordedHasAsn(a, d, s, i);
    RecordedLists(a, d, s, i);
    forall d', s' | HasAsn(r, d', s') ensures r.domainToAsn.m[d'].m[s'].m != map[] {
      if d' == d && s' == s {
        assert Stored(r, d, s, i);
      } else {
        assert HasAsn(a, d', s');
        var i' :| i' in a.domainToAsn.m[d'].m[s'].m;
        assert Stored(r, d', s', i');
      }
    }
    forall d' | d' in r.domainToAsn.m ensures r.domainToAsn.m[d'].m != map[] {
      if d' == d {
        assert HasAsn(r, d, s);
      } else {
        var s' :| s' in a.domainToAsn.m[d'].m;
        assert HasAsn(r, d', s');
      }
    }
    forall s' | s' in r.asnToDomain.m ensures r.asnToDomain.m[s'] != {} {
      if s' == s {
        assert Lists(r, s, d);
      } else {
        var d' :| d' in a.asnToDomain.m[s'];
        assert Lists(r, s', d');
      }
    }
  }

  // ----- Totals -----

  /** Sum of the counts under one (domain, asn). */
  function IpTotal(ips: IpCounts): nat {
    Sum(ips, (n: nat) => n)
  }

  /** Sum of the counts under one domain. */
  function AsnTotal(asns: AsnIps): nat {
    Sum(asns, IpTotal)
  }

  /** Sum of the counts under every domain. */
  function DomainTotal(d2a: Dict<Domain, AsnIps>): nat {
    Sum(d2a, AsnTotal)
  }

  /** Sum of every count in `domain_to_asn`. */
  function Total(a: Aggregate): nat {
    DomainTotal(a.domainToAsn)
  }

  /** The dicts one update reads are well formed. */
  lemma {:induction false} ShapedInner(a: Aggregate, d: Domain, s: Asn)
    requires Shaped(a)
    ensures Valid(Get(a.domainToAsn, d, Empty()))
    ensures Valid(Get(Get(a.domainToAsn, d, Empty()), s, Empty()))
  {
    if d in a.domainToAsn.m && s in a.domainToAsn.m[d].m {
      assert HasAsn(a, d, s);
    }
  }

  /** Bumping one count of well-formed dicts adds one to the sum, level by level. */
  lemma {:induction false} BumpTotal(d2a: Dict<Domain, AsnIps>, d: Domain, s: Asn, i: Ip)
    requires Valid(d2a)
    requires Valid(Get(d2a, d, Empty()))
    requires Valid(Get(Get(d2a, d, Empty()), s, Empty()))
    ensures DomainTotal(Bumped(d2a, d, s, i)) == DomainTotal(d2a) + 1
  {
    var asns := Get(d2a, d, Empty());
    var ips := Get(asns, s, Empty());
    var ips' := Put(ips, i, Get(ips, i, 0) + 1);
    IpTotalBumped(ips, i);
    var asns' := Put(asns, s, ips');
    AsnTotalPut(asns, s, ips');
    DomainTotalPut(d2a, d, asns');
  }

  lemma {:induction false} IpTotalBumped(ips: IpCounts, i: Ip)
    requires Valid(ips)
    ensures IpTotal(Put(ips, i, Get(ips, i, 0) + 1)) == IpTotal(ips) + 1
  {
    SumAfterPut(ips, i, Get(ips, i, 0) + 1, (n: nat) => n);
  }

  lemma {:induction false} AsnTotalPut(asns: AsnIps, s: Asn, v: IpCounts)
    requires Valid(asns)
    ensures AsnTotal(Put(asns, s, v)) + IpTotal(Get(asns, s, Empty())) == AsnTotal(asns) + IpTotal(v)
  {
    SumAfterPut(asns, s, v, IpTotal);
  }

  lemma {:induction false} DomainTotalPut(d2a: Dict<Domain, AsnIps>, d: Domain, v: AsnIps)
    requires Valid(d2a)
    ensures DomainTotal(Put(d2a, d, v)) + AsnTotal(Get(d2a, d, Empty())) == DomainTotal(d2a) + AsnTotal(v)
  {
    SumAfterPut(d2a, d, v, AsnTotal);
  }

  /** One update adds exactly one to the sum of all counts. */
  lemma {:induction false} RecordedTotal(a: Aggregate, d: Domain, s: Asn, i: Ip)
    requires Shaped(a)
    ensures Total(Recorded(a, d, s, i)) == Total(a) + 1
  {
    ShapedInner(a, d, s);
    BumpTotal(a.domainToAsn, d, s, i);
  }

  // ----- The store object -----

  /** The two global defaultdicts, owned by one object whose only mutator is `Record`. */
  class Store {
    var domainToAsn: Dict<Domain, AsnIps>
    var asnToDomain: Dict<Asn, set<Domain>>

    function Value(): Aggregate
      reads this
    {
      Aggregate(domainToAsn, asnToDomain)
    }

    ghost predicate Valid()
      reads this
    {
      Consistent(Value())
    }

    constructor ()
      ensures Valid() && Value() == Initial()
    {
      domainToAsn := Empty();
      asnToDomain := Empty();
    }

    /** passive-dns-cluster.py:96-99, the one place either index is written. */
    method Record(domain: Domain, asn: Asn, ip: Ip)
      requires Valid()
      modifies this
      ensures Valid()
      ensures Value() == Recorded(old(Value()), domain, asn, ip)
    {
      RecordedConsistent(Value(), domain, asn, ip);
      domainToAsn := Bumped(domainToAsn, domain, asn, ip);
      asnToDomain := Added(asnToDomain, asn, domain);
    }
  }
}
