/** The report `__main__` of passive-dns-cluster.py prints once every file is scanned
    (passive-dns-cluster.py:125-139). */
module Report {
  import opened Text
  import opened PyDict
  import opened Aggregation

  const DomainHeader: string := "# ----- DOMAIN TO ASN ----- #"
  const AsnHeader: string := "# ----- ASN TO DOMAIN ----- #"

  /** `'  {}'.format(x)` */
  function Indent2(x: string): string {
    "  " + x
  }

  /** `'    {} = {}'.format(ip, count)` */
  function IpLine(ip: Ip, n: nat): string {
    "    " + ip + " = " + Decimal(n)
  }

  /** The ip lines under one (domain, asn), for the ips `ks` in that order. */
  function IpLines(ips: IpCounts, ks: seq<Ip>): seq<string> {
    if ks == [] then []
    else
      var i := ks[|ks| - 1];
      IpLines(ips, ks[..|ks| - 1]) + [IpLine(i, Get(ips, i, 0))]
  }

  /** The asn lines under one domain, each followed by its ip lines. */
  function AsnLines(asns: AsnIps, ks: seq<Asn>): seq<string> {
    if ks == [] then []
    else
      var s := ks[|ks| - 1];
      var ips := Get(asns, s, Empty());
      AsnLines(asns, ks[..|ks| - 1]) + [Indent2(s)] + IpLines(ips, ips.keys)
  }

  /** One domain's block: its line, its asns, then a blank line. */
  function DomainBlock(d2a: Dict<Domain, AsnIps>, d: Domain): seq<string> {
    var asns := Get(d2a, d, Empty());
    [d] + AsnLines(asns, asns.keys) + [""]
  }

  function DomainBlocks(d2a: Dict<Domain, AsnIps>, ks: seq<Domain>): seq<string> {
    if ks == [] then [] else DomainBlocks(d2a, ks[..|ks| - 1]) + DomainBlock(d2a, ks[|ks| - 1])
  }

  /** The domain lines under one asn, in the order the set was iterated. */
  function MemberLines(ds: seq<Domain>): seq<string> {
    if ds == [] then [] else MemberLines(ds[..|ds| - 1]) + [Indent2(ds[|ds| - 1])]
  }

  /** One asn's block: its line, its domains in iteration order, then a blank line. */
  function AsnBlock(s: Asn, order: seq<Domain>): seq<string> {
    [s] + MemberLines(order) + [""]
  }

  /** The asn blocks for the asns `ks`, the `j`-th set iterated in `orders[j]`. */
  function AsnBlocks(ks: seq<Asn>, orders: seq<seq<Domain>>): seq<string>
    requires |orders| == |ks|
  {
    if ks == [] then []
    else AsnBlocks(ks[..|ks| - 1], orders[..|ks| - 1]) + AsnBlock(ks[|ks| - 1], orders[|ks| - 1])
  }

  /** Everything the report prints, line by line, when the sets of `asn_to_domain` are
      iterated in `orders`. */
  function ReportLines(a: Aggregate, orders: seq<seq<Domain>>): seq<string>
    requires |orders| == |a.asnToDomain.keys|
  {
    [DomainHeader, ""] + DomainBlocks(a.domainToAsn, a.domainToAsn.keys)
    + [AsnHeader, ""] + AsnBlocks(a.asnToDomain.keys, orders)
  }

  /** The two print loops (passive-dns-cluster.py:125-139). Dict keys come out in insertion
      order; each set comes out in whatever order iterating it gives, recorded in `orders`. */
  method EmitReport(a: Aggregate) returns (lines: seq<string>, ghost orders: seq<seq<Domain>>)
    ensures IterationOrders(a.asnToDomain, orders)
    ensures lines == ReportLines(a, orders)
  {
    var d2a := a.domainToAsn;
    var domainBlocks := [];
    var i := 0;
    while i < |d2a.keys|
      invariant 0 <= i <= |d2a.keys|
      invariant domainBlocks == DomainBlocks(d2a, d2a.keys[..i])
    {
      var block := EmitDomain(d2a, d2a.keys[i]);
      assert d2a.keys[..i + 1][..i] == d2a.keys[..i];
      domainBlocks := domainBlocks + block;
      i := i + 1;
    }
    assert d2a.keys[..i] == d2a.keys;
    var a2d := a.asnToDomain;
    var asnBlocks := [];
    orders := [];
    var j := 0;
    while j < |a2d.keys|
      invariant 0 <= j <= |a2d.keys| && |orders| == j
      invariant asnBlocks == AsnBlocks(a2d.keys[..j], orders)
      invariant forall k :: 0 <= k < j ==> Enumerates(orders[k], Get(a2d, a2d.keys[k], {}))
    {
      var asn := a2d.keys[j];
      ghost var order;
      var members;
      members, order := EmitMembers(Get(a2d, asn, {}));
      assert a2d.keys[..j + 1][..j] == a2d.keys[..j];
      assert (orders + [order])[..j] == orders;
      asnBlocks := asnBlocks + ([asn] + members + [""]);
      orders := orders + [order];
      j := j + 1;
    }
    assert a2d.keys[..j] == a2d.keys;
    lines := [DomainHeader, ""] + domainBlocks + [AsnHeader, ""] + asnBlocks;
  }

  /** `for domain in asn_to_domain[asn]: print('  {}'.format(domain))` */
  method EmitMembers(members: set<Domain>) returns (lines: seq<string>, ghost order: seq<Domain>)
    ensures Enumerates(order, members)
    ensures lines == MemberLines(order)
  {
    lines, order := [], [];
    var rest := members;
    while rest != {}
      invariant rest <= members
      invariant Distinct(order)
      invariant forall x :: x in order <==> x in members && x !in rest
      invariant lines == MemberLines(order)
      decreases |rest|
    {
      var d :| d in rest;
      DistinctAppend(order, d);
      assert (order + [d])[..|order|] == order;
      lines := lines + [Indent2(d)];
      order := order + [d];
      rest := rest - {d};
    }
  }

  /** One pass of the outer loop over `domain_to_asn`: the domain, then for each asn its line
      and its ip lines, then the blank line of the closing `print()`. */
  method EmitDomain(d2a: Dict<Domain, AsnIps>, domain: Domain) returns (block: seq<string>)
    ensures block == DomainBlock(d2a, domain)
  {
    var asns := Get(d2a, domain, Empty());
    var body := [];
    var j := 0;
    while j < |asns.keys|
      invariant 0 <= j <= |asns.keys|
      invariant body == AsnLines(asns, asns.keys[..j])
    {
      var asn := asns.keys[j];
      var ipLines := EmitIps(Get(asns, asn, Empty()));
      assert asns.keys[..j + 1][..j] == asns.keys[..j];
      body := body + [Indent2(asn)] + ipLines;
      j := j + 1;
    }
    assert asns.keys[..j] == asns.keys;
    block := [domain] + body + [""];
  }

  /** `for ip in domain_to_asn[domain][asn]: print('    {} = {}'.format(ip, count))` */
  method EmitIps(ips: IpCounts) returns (lines: seq<string>)
    ensures lines == IpLines(ips, ips.keys)
  {
    lines := [];
    var k := 0;
    while k < |ips.keys|
      invariant 0 <= k <= |ips.keys|
      invariant lines == IpLines(ips, ips.keys[..k])
    {
      var ip := ips.keys[k];
      assert ips.keys[..k + 1][..k] == ips.keys[..k];
      lines := lines + [IpLine(ip, Get(ips, ip, 0))];
      k := k + 1;
    }
    assert ips.keys[..k] == ips.keys;
  }
}
