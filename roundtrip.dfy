/** The pipeline end to end: what cluster-to-sfdp.py reads back (cluster-to-sfdp.py:14-54)
    from the report passive-dns-cluster.py prints (passive-dns-cluster.py:125-139). */
module RoundTrip {
  import opened Wrappers
  import opened Text
  import opened PyDict
  import opened Aggregation
  import opened Report
  import opened SfdpParse

  // ----- Names the report can carry -----

  /** No line break inside: reading text line by line splits at `\n` and at `\r`. */
  predicate OneLine(x: string) {
    forall k :: 0 <= k < |x| ==> x[k] != '\n' && x[k] != '\r'
  }

  /** A name that comes back unchanged from being printed on a line of its own and read with
      `strip`, and that neither passes for a comment nor ends the first section: non-empty,
      no whitespace at either end, no leading `#`, no marker and no line break inside. */
  predicate Clean(x: string) {
    && x != [] && x[0] != '#'
    && !IsSpace(x[0]) && !IsSpace(x[|x| - 1])
    && !Contains(x, Marker)
    && OneLine(x)
  }

  /** Every domain and asn in the store is clean, and no ip holds the marker or a line break. */
  ghost predicate Printable(a: Aggregate) {
    && (forall d :: d in a.domainToAsn.m ==> Clean(d))
    && (forall d, s :: HasAsn(a, d, s) ==> Clean(s))
    && (forall d, s, i :: Stored(a, d, s, i) ==> !Contains(i, Marker) && OneLine(i))
  }

  // ----- How each kind of report line is read -----

  /** A domain or asn printed at indent 0 is read as an unindented line carrying the name. */
  lemma NameLine(x: string)
    requires Clean(x)
    ensures Kind1(x) == Heading(x) && Kind2(x) == Heading(x)
  {
    StripKeeps(x, IsSpace);
    assert !StartsWith(x, "#") && !StartsWith(x, "  ") && !StartsWith(x, "    ");
  }

  /** A name printed at indent 2 is read as an indented line carrying the name. */
  lemma IndentedLine(x: string)
    requires Clean(x)
    ensures Kind1(Indent2(x)) == Indented(x) && Kind2(Indent2(x)) == Indented(x)
  {
    IndentShape(x);
  }

  /** The tests both loops make, on a clean name at indent 2. */
  lemma IndentShape(x: string)
    requires Clean(x)
    ensures var line := Indent2(x);
      && StripSpace(line) == x
      && !StartsWith(line, "#") && StartsWith(line, "  ") && !StartsWith(line, "    ")
  {
    IndentStrip(x);
    var line := Indent2(x);
    assert line[..1] == " " && line[..2] == "  ";
    assert line[2] == x[0];
  }

  lemma IndentStrip(x: string)
    requires Clean(x)
    ensures StripSpace(Indent2(x)) == x
  {
    assert forall k :: 0 <= k < 2 ==> IsSpace("  "[k]);
    StripAfterPrefix("  ", x, IsSpace);
    StripKeeps(x, IsSpace);
  }

  /** An `ip = count` line is ignored by the first loop, whatever the ip. */
  lemma IpLineIgnored(ip: Ip, n: nat)
    ensures Kind1(IpLine(ip, n)) == Ignored
  {
    assert IpLine(ip, n)[..4] == "    ";
  }

  /** Blank lines and the first header are ignored. */
  lemma SpacingIgnored()
    ensures Kind1("") == Ignored && Kind2("") == Ignored && Kind1(DomainHeader) == Ignored
  {
    assert DomainHeader[..1] == "#";
  }

  // ----- Where the first section ends -----

  /** No line holds the marker. */
  ghost predicate Unmarked(lines: seq<string>) {
    forall j :: 0 <= j < |lines| ==> !Contains(lines[j], Marker)
  }

  lemma UnmarkedAppend(xs: seq<string>, ys: seq<string>)
    requires Unmarked(xs) && Unmarked(ys)
    ensures Unmarked(xs + ys)
  {
    forall j | 0 <= j < |xs + ys| ensures !Contains((xs + ys)[j], Marker) {
      if j < |xs| { assert (xs + ys)[j] == xs[j]; } else { assert (xs + ys)[j] == ys[j - |xs|]; }
    }
  }

  /** The first header does not hold the marker: its only `A` before the last twelve
      characters is followed by `I`, not `S`. */
  lemma DomainHeaderUnmarked()
    ensures !Contains(DomainHeader, Marker)
  {
    var pre, mid, post := "# ----- DOM", "AIN TO ASN", " ----- #";
    assert DomainHeader == pre + (mid + post);
    if Contains(DomainHeader, Marker) {
      ContainsAfterPrefix(pre, mid + post, Marker);
      ContainsBeforeSuffix(mid, post, Marker);
    }
  }

  /** The second header holds the marker. */
  lemma AsnHeaderMarked()
    ensures Contains(AsnHeader, Marker)
  {
    assert AsnHeader == "# ----- " + Marker + " ----- #";
    assert AsnHeader[8..8 + |Marker|] == Marker;
    assert SliceAt(AsnHeader, Marker, 8);
  }

  /** Indenting a name adds no marker. */
  lemma UnmarkedIndent(x: string)
    requires !Contains(x, Marker)
    ensures !Contains(Indent2(x), Marker)
  {
    if Contains(Indent2(x), Marker) {
      ContainsAfterPrefix("  ", x, Marker);
    }
  }

  /** An `ip = count` line holds the marker only if the ip does. */
  lemma UnmarkedIpLine(ip: Ip, n: nat)
    requires !Contains(ip, Marker)
    ensures !Contains(IpLine(ip, n), Marker)
  {
    var digits := Decimal(n);
    var line := IpLine(ip, n);
    if Contains(line, Marker) {
      assert line == "    " + (ip + " = " + digits);
      ContainsAfterPrefix("    ", ip + " = " + digits, Marker);
      assert ip + " = " + digits == ip + (" = " + digits);
      forall k | 0 <= k < |" = " + digits| ensures (" = " + digits)[k] != 'N' {
        if k >= 3 { assert (" = " + digits)[k] == digits[k - 3]; }
      }
      ContainsBeforeSuffix(ip, " = " + digits, Marker);
    }
  }

  lemma {:induction false} UnmarkedIpLines(ips: IpCounts, ks: seq<Ip>)
    requires forall i :: i in ks ==> !Contains(i, Marker)
    ensures Unmarked(IpLines(ips, ks))
  {
    if ks != [] {
      var n := |ks| - 1;
      assert forall i :: i in ks[..n] ==> i in ks;
      UnmarkedIpLines(ips, ks[..n]);
      UnmarkedIpLine(ks[n], Get(ips, ks[n], 0));
      UnmarkedAppend(IpLines(ips, ks[..n]), [IpLine(ks[n], Get(ips, ks[n], 0))]);
    }
  }

  /** An asn block is printable: the asn is clean and none of its ips holds the marker or a
      line break. */
  ghost predicate AsnPrintable(s: Asn, ips: IpCounts) {
    Clean(s) && forall i :: i in ips.keys ==> !Contains(i, Marker) && OneLine(i)
  }

  lemma {:induction false} UnmarkedAsnLines(asns: AsnIps, ks: seq<Asn>)
    requires forall s :: s in ks ==> AsnPrintable(s, Get(asns, s, Empty()))
    ensures Unmarked(AsnLines(asns, ks))
  {
    if ks != [] {
      var n := |ks| - 1;
      var ips := Get(asns, ks[n], Empty());
      assert forall s :: s in ks[..n] ==> s in ks;
      UnmarkedAsnLines(asns, ks[..n]);
      UnmarkedIndent(ks[n]);
      UnmarkedIpLines(ips, ips.keys);
      UnmarkedAppend(AsnLines(asns, ks[..n]), [Indent2(ks[n])]);
      UnmarkedAppend(AsnLines(asns, ks[..n]) + [Indent2(ks[n])], IpLines(ips, ips.keys));
    }
  }

  /** A domain's block is printable: the domain is clean, it has at least one asn, and each
      of its asn blocks is printable. */
  ghost predicate BlockPrintable(d: Domain, asns: AsnIps) {
    && Clean(d) && Valid(asns) && asns.keys != []
    && forall s :: s in asns.keys ==> AsnPrintable(s, Get(asns, s, Empty()))
  }

  lemma {:induction false} UnmarkedDomainBlocks(d2a: Dict<Domain, AsnIps>, ks: seq<Domain>)
    requires forall d :: d in ks ==> BlockPrintable(d, Get(d2a, d, Empty()))
    ensures Unmarked(DomainBlocks(d2a, ks))
  {
    if ks != [] {
      var n := |ks| - 1;
      var d := ks[n];
      var asns := Get(d2a, d, Empty());
      assert forall x :: x in ks[..n] ==> x in ks;
      UnmarkedDomainBlocks(d2a, ks[..n]);
      UnmarkedAsnLines(asns, asns.keys);
      UnmarkedAppend([d], AsnLines(asns, asns.keys));
      UnmarkedAppend([d] + AsnLines(asns, asns.keys), [""]);
      UnmarkedAppend(DomainBlocks(d2a, ks[..n]), DomainBlock(d2a, d));
    }
  }

  // ----- What each loop builds from the report -----

  /** `index[key].add(x)` for each `x` of `xs` in turn. */
  function AddAll(index: Index, key: Key, xs: seq<string>): Index {
    if xs == [] then index else AddTo(AddAll(index, key, xs[..|xs| - 1]), key, xs[|xs| - 1])
  }

  /** Adding a non-empty run of names under a new key creates that key, last, holding them. */
  lemma {:induction false} AddAllNew(index: Index, key: Key, xs: seq<string>)
    requires key !in index.m && xs != []
    ensures AddAll(index, key, xs) == Put(index, key, set x | x in xs)
  {
    var n := |xs| - 1;
    if n == 0 {
      assert xs[..n] == [];
      assert Get(index, key, {}) + {xs[0]} == {xs[0]} == (set x | x in xs);
    } else {
      AddAllNew(index, key, xs[..n]);
      var before := set x | x in xs[..n];
      assert Get(Put(index, key, before), key, {}) == before;
      PutPut(index, key, before, before + {xs[n]});
      assert (set x | x in xs) == before + {xs[n]} by {
        assert xs == xs[..n] + [xs[n]];
      }
    }
  }

  /** The dict `{Some(k): value(k) for k in ks}`, keys inserted in the order of `ks`. */
  function Rekeyed(ks: seq<string>, value: string -> set<string>): (r: Index)
    ensures forall k :: k in r.m <==> k.Some? && k.value in ks
    ensures forall x :: x in ks ==> Some(x) in r.m && r.m[Some(x)] == value(x)
  {
    if ks == [] then Empty()
    else Put(Rekeyed(ks[..|ks| - 1], value), Some(ks[|ks| - 1]), value(ks[|ks| - 1]))
  }

  /** `ks` with every element wrapped in `Some`. */
  function Somes(ks: seq<string>): (r: seq<Key>)
    ensures |r| == |ks| && forall j :: 0 <= j < |ks| ==> r[j] == Some(ks[j])
  {
    if ks == [] then [] else Somes(ks[..|ks| - 1]) + [Some(ks[|ks| - 1])]
  }

  /** Built from distinct keys, the dict is well formed and lists its keys in their order. */
  lemma {:induction false} RekeyedKeys(ks: seq<string>, value: string -> set<string>)
    requires Distinct(ks)
    ensures Valid(Rekeyed(ks, value)) && Rekeyed(ks, value).keys == Somes(ks)
  {
    if ks != [] {
      var n := |ks| - 1;
      DistinctInit(ks);
      RekeyedKeys(ks[..n], value);
      PutValid(Rekeyed(ks[..n], value), Some(ks[n]), value(ks[n]));
    }
  }

  /** The asns under each domain of `domain_to_asn`, as a set. */
  function AsnsOf(d2a: Dict<Domain, AsnIps>): Domain -> set<Asn> {
    d => Get(d2a, d, Empty()).m.Keys
  }

  /** The domains under each asn of `asn_to_domain`. */
  function MembersOf(a2d: Dict<Asn, set<Domain>>): Asn -> set<Domain> {
    s => Get(a2d, s, {})
  }

  lemma Run1Snoc(r: Reader, xs: seq<string>, line: string)
    ensures Run1(r, xs + [line]) == Step1(Run1(r, xs), line)
  {
    assert (xs + [line])[..|xs|] == xs;
  }

  lemma Run2Snoc(r: Reader, xs: seq<string>, line: string)
    ensures Run2(r, xs + [line]) == Step2(Run2(r, xs), line)
  {
    assert (xs + [line])[..|xs|] == xs;
  }

  /** The first loop passes over ip lines. */
  lemma {:induction false} IpLinesRead(r: Reader, ips: IpCounts, ks: seq<Ip>)
    ensures Run1(r, IpLines(ips, ks)) == r
  {
    if ks != [] {
      var n := |ks| - 1;
      IpLinesRead(r, ips, ks[..n]);
      Run1Snoc(r, IpLines(ips, ks[..n]), IpLine(ks[n], Get(ips, ks[n], 0)));
      IpLineIgnored(ks[n], Get(ips, ks[n], 0));
    }
  }

  /** The first loop adds each asn of a domain's block under the current domain. */
  lemma {:induction false} AsnLinesRead(r: Reader, asns: AsnIps, ks: seq<Asn>)
    requires forall s :: s in ks ==> Clean(s)
    ensures var r' := Run1(r, AsnLines(asns, ks));
      && r'.currentDomain == r.currentDomain && r'.asToDomain == r.asToDomain
      && r'.domainToAs == AddAll(r.domainToAs, r.currentDomain, ks)
  {
    if ks != [] {
      var n := |ks| - 1;
      var s := ks[n];
      var ips := Get(asns, s, Empty());
      var front := AsnLines(asns, ks[..n]);
      assert forall x :: x in ks[..n] ==> x in ks;
      AsnLinesRead(r, asns, ks[..n]);
      Run1Snoc(r, front, Indent2(s));
      IndentedLine(s);
      Run1Append(r, front + [Indent2(s)], IpLines(ips, ips.keys));
      IpLinesRead(Run1(r, front + [Indent2(s)]), ips, ips.keys);
    }
  }

  /** The first loop reads a domain's block as that domain's asns. */
  lemma DomainBlockRead(r: Reader, d2a: Dict<Domain, AsnIps>, d: Domain)
    requires BlockPrintable(d, Get(d2a, d, Empty()))
    ensures var r' := Run1(r, DomainBlock(d2a, d)); var asns := Get(d2a, d, Empty());
      && r'.asToDomain == r.asToDomain
      && r'.domainToAs == AddAll(r.domainToAs, Some(d), asns.keys)
  {
    var asns := Get(d2a, d, Empty());
    var body := AsnLines(asns, asns.keys);
    Run1Snoc(r, [], d);
    NameLine(d);
    Run1Append(r, [d], body);
    AsnLinesRead(Run1(r, [d]), asns, asns.keys);
    Run1Snoc(r, [d] + body, "");
    SpacingIgnored();
  }

  /** The first loop rebuilds `{domain: set(asns)}` from the domain blocks. */
  lemma {:induction false} DomainBlocksRead(r: Reader, d2a: Dict<Domain, AsnIps>, ks: seq<Domain>)
    requires r.domainToAs == Empty() && Distinct(ks)
    requires forall d :: d in ks ==> BlockPrintable(d, Get(d2a, d, Empty()))
    ensures var r' := Run1(r, DomainBlocks(d2a, ks));
      r'.asToDomain == r.asToDomain && r'.domainToAs == Rekeyed(ks, AsnsOf(d2a))
  {
    if ks != [] {
      var n := |ks| - 1;
      var d := ks[n];
      var asns := Get(d2a, d, Empty());
      DistinctInit(ks);
      assert forall x :: x in ks[..n] ==> x in ks;
      DomainBlocksRead(r, d2a, ks[..n]);
      var before := Run1(r, DomainBlocks(d2a, ks[..n]));
      Run1Append(r, DomainBlocks(d2a, ks[..n]), DomainBlock(d2a, d));
      DomainBlockRead(before, d2a, d);
      AddAllNew(before.domainToAs, Some(d), asns.keys);
      KeySet(asns);
    }
  }

  /** An asn's block prints: the asn is clean, and `order` is a non-empty iteration order of
      its domains, all clean. */
  ghost predicate AsnPrinted(a2d: Dict<Asn, set<Domain>>, s: Asn, order: seq<Domain>) {
    && Clean(s) && order != [] && Enumerates(order, Get(a2d, s, {}))
    && forall d :: d in order ==> Clean(d)
  }

  /** The second loop adds each domain of an asn's block under the current asn. */
  lemma {:induction false} MemberLinesRead(r: Reader, ds: seq<Domain>)
    requires forall d :: d in ds ==> Clean(d)
    ensures var r' := Run2(r, MemberLines(ds));
      && r'.currentAs == r.currentAs && r'.domainToAs == r.domainToAs
      && r'.asToDomain == AddAll(r.asToDomain, r.currentAs, ds)
  {
    if ds != [] {
      var n := |ds| - 1;
      assert forall x :: x in ds[..n] ==> x in ds;
      MemberLinesRead(r, ds[..n]);
      Run2Snoc(r, MemberLines(ds[..n]), Indent2(ds[n]));
      IndentedLine(ds[n]);
    }
  }

  /** The second loop reads an asn's block as that asn's domains. */
  lemma AsnBlockRead(r: Reader, s: Asn, order: seq<Domain>)
    requires Clean(s) && forall d :: d in order ==> Clean(d)
    ensures var r' := Run2(r, AsnBlock(s, order));
      && r'.domainToAs == r.domainToAs
      && r'.asToDomain == AddAll(r.asToDomain, Some(s), order)
  {
    var body := MemberLines(order);
    Run2Snoc(r, [], s);
    NameLine(s);
    Run2Append(r, [s], body);
    MemberLinesRead(Run2(r, [s]), order);
    Run2Snoc(r, [s] + body, "");
    SpacingIgnored();
  }

  /** The second loop rebuilds `asn_to_domain` from the asn blocks. */
  lemma {:induction false} AsnBlocksRead(r: Reader, a2d: Dict<Asn, set<Domain>>, ks: seq<Asn>, orders: seq<seq<Domain>>)
    requires r.asToDomain == Empty() && Distinct(ks) && |orders| == |ks|
    requires forall j :: 0 <= j < |ks| ==> AsnPrinted(a2d, ks[j], orders[j])
    ensures var r' := Run2(r, AsnBlocks(ks, orders));
      r'.domainToAs == r.domainToAs && r'.asToDomain == Rekeyed(ks, MembersOf(a2d))
  {
    if ks != [] {
      var n := |ks| - 1;
      var s, order := ks[n], orders[n];
      DistinctInit(ks);
      assert forall j :: 0 <= j < n ==> ks[..n][j] == ks[j] && orders[..n][j] == orders[j];
      AsnBlocksRead(r, a2d, ks[..n], orders[..n]);
      var before := Run2(r, AsnBlocks(ks[..n], orders[..n]));
      Run2Append(r, AsnBlocks(ks[..n], orders[..n]), AsnBlock(s, order));
      assert AsnPrinted(a2d, s, order);
      AsnBlockRead(before, s, order);
      AddAllNew(before.asToDomain, Some(s), order);
      assert (set x | x in order) == Get(a2d, s, {});
    }
  }

  // ----- The round trip -----

  /** In a consistent store with clean names, every domain block prints. */
  lemma DomainsPrintable(a: Aggregate)
    requires Consistent(a) && Printable(a)
    ensures forall d :: d in a.domainToAsn.keys ==> BlockPrintable(d, Get(a.domainToAsn, d, Empty()))
  {
    forall d | d in a.domainToAsn.keys ensures BlockPrintable(d, Get(a.domainToAsn, d, Empty())) {
      var asns := a.domainToAsn.m[d];
      var s0 :| s0 in asns.m;
      assert s0 in asns.keys;
      forall s | s in asns.keys ensures AsnPrintable(s, Get(asns, s, Empty())) {
        assert HasAsn(a, d, s);
        var ips := asns.m[s];
        forall i | i in ips.keys ensures !Contains(i, Marker) && OneLine(i) {
          assert Stored(a, d, s, i);
        }
      }
    }
  }

  /** In a consistent store with clean names, every asn block prints, whatever the order its
      set is iterated in. */
  lemma AsnsPrintable(a: Aggregate, orders: seq<seq<Domain>>)
    requires Consistent(a) && Printable(a) && IterationOrders(a.asnToDomain, orders)
    ensures forall j :: 0 <= j < |a.asnToDomain.keys| ==>
      AsnPrinted(a.asnToDomain, a.asnToDomain.keys[j], orders[j])
  {
    var a2d := a.asnToDomain;
    forall j | 0 <= j < |a2d.keys| ensures AsnPrinted(a2d, a2d.keys[j], orders[j]) {
      var s := a2d.keys[j];
      var d0 :| d0 in a2d.m[s];
      assert Lists(a, s, d0) && HasAsn(a, d0, s);
      assert d0 in orders[j];
      forall d | d in orders[j] ensures Clean(d) {
        assert Lists(a, s, d) && HasAsn(a, d, s);
      }
    }
  }

  /** The report splits at its second header: the first loop reads the header, blank line
      and domain blocks before it, the second loop the blank line and asn blocks after it. */
  lemma ReportSplit(a: Aggregate, orders: seq<seq<Domain>>)
    requires |orders| == |a.asnToDomain.keys|
    requires forall d :: d in a.domainToAsn.keys ==> BlockPrintable(d, Get(a.domainToAsn, d, Empty()))
    ensures Parse(ReportLines(a, orders))
         == Run2(Reset(Run1(Start(), [DomainHeader, ""] + DomainBlocks(a.domainToAsn, a.domainToAsn.keys))),
                 [""] + AsnBlocks(a.asnToDomain.keys, orders))
  {
    var blocks := DomainBlocks(a.domainToAsn, a.domainToAsn.keys);
    var pre := [DomainHeader, ""] + blocks;
    var post := [""] + AsnBlocks(a.asnToDomain.keys, orders);
    assert ReportLines(a, orders) == pre + [AsnHeader] + post;
    DomainHeaderUnmarked();
    AsnHeaderMarked();
    UnmarkedDomainBlocks(a.domainToAsn, a.domainToAsn.keys);
    assert !Contains("", Marker);
    UnmarkedAppend([DomainHeader, ""], blocks);
    ParseAtMarker(pre, AsnHeader, post);
  }

  /** The first section of the report reads back as `domain_to_asn`'s asn sets. */
  lemma FirstSectionRead(d2a: Dict<Domain, AsnIps>)
    requires Distinct(d2a.keys)
    requires forall d :: d in d2a.keys ==> BlockPrintable(d, Get(d2a, d, Empty()))
    ensures var r := Run1(Start(), [DomainHeader, ""] + DomainBlocks(d2a, d2a.keys));
      r.domainToAs == Rekeyed(d2a.keys, AsnsOf(d2a)) && r.asToDomain == Empty()
  {
    SpacingIgnored();
    Run1Snoc(Start(), [], DomainHeader);
    Run1Snoc(Start(), [DomainHeader], "");
    assert [DomainHeader] + [""] == [DomainHeader, ""];
    Run1Append(Start(), [DomainHeader, ""], DomainBlocks(d2a, d2a.keys));
    DomainBlocksRead(Start(), d2a, d2a.keys);
  }

  /** The second section of the report reads back as `asn_to_domain`. */
  lemma SecondSectionRead(r: Reader, a2d: Dict<Asn, set<Domain>>, orders: seq<seq<Domain>>)
    requires r.asToDomain == Empty() && Distinct(a2d.keys) && |orders| == |a2d.keys|
    requires forall j :: 0 <= j < |a2d.keys| ==> AsnPrinted(a2d, a2d.keys[j], orders[j])
    ensures var r' := Run2(r, [""] + AsnBlocks(a2d.keys, orders));
      r'.domainToAs == r.domainToAs && r'.asToDomain == Rekeyed(a2d.keys, MembersOf(a2d))
  {
    SpacingIgnored();
    Run2Snoc(r, [], "");
    Run2Append(r, [""], AsnBlocks(a2d.keys, orders));
    AsnBlocksRead(Run2(r, [""]), a2d, a2d.keys, orders);
  }

  /** The converter reads back from the report exactly the two indices, their keys wrapped in
      `Some`: for each domain the set of its asns, for each asn the set of its domains. */
  lemma RoundTripRekeyed(a: Aggregate, orders: seq<seq<Domain>>)
    requires Consistent(a) && Printable(a) && IterationOrders(a.asnToDomain, orders)
    ensures var p := Parse(ReportLines(a, orders));
      && p.domainToAs == Rekeyed(a.domainToAsn.keys, AsnsOf(a.domainToAsn))
      && p.asToDomain == Rekeyed(a.asnToDomain.keys, MembersOf(a.asnToDomain))
  {
    DomainsPrintable(a);
    AsnsPrintable(a, orders);
    ReadBack(a, orders);
  }

  lemma ReadBack(a: Aggregate, orders: seq<seq<Domain>>)
    requires Distinct(a.domainToAsn.keys) && Distinct(a.asnToDomain.keys)
    requires |orders| == |a.asnToDomain.keys|
    requires forall d :: d in a.domainToAsn.keys ==> BlockPrintable(d, Get(a.domainToAsn, d, Empty()))
    requires forall j :: 0 <= j < |a.asnToDomain.keys| ==> AsnPrinted(a.asnToDomain, a.asnToDomain.keys[j], orders[j])
    ensures var p := Parse(ReportLines(a, orders));
      && p.domainToAs == Rekeyed(a.domainToAsn.keys, AsnsOf(a.domainToAsn))
      && p.asToDomain == Rekeyed(a.asnToDomain.keys, MembersOf(a.asnToDomain))
  {
    ReportSplit(a, orders);
    FirstSectionRead(a.domainToAsn);
    var r := Reset(Run1(Start(), [DomainHeader, ""] + DomainBlocks(a.domainToAsn, a.domainToAsn.keys)));
    SecondSectionRead(r, a.asnToDomain, orders);
  }

  /** Round trip (passive-dns-cluster.py:125-139 read by cluster-to-sfdp.py:14-54): the
      converter's `domain_to_as` lists the domains of `domain_to_asn` in their order, each
      holding the set of its asns, and its `as_to_domain` lists the asns of `asn_to_domain` in
      their order, each holding the same set of domains. */
  lemma RoundTrip(a: Aggregate, orders: seq<seq<Domain>>)
    requires Consistent(a) && Printable(a) && IterationOrders(a.asnToDomain, orders)
    ensures var p := Parse(ReportLines(a, orders));
      && Valid(p.domainToAs) && p.domainToAs.keys == Somes(a.domainToAsn.keys)
      && (forall d :: d in a.domainToAsn.m ==>
            Some(d) in p.domainToAs.m && p.domainToAs.m[Some(d)] == a.domainToAsn.m[d].m.Keys)
      && Valid(p.asToDomain) && p.asToDomain.keys == Somes(a.asnToDomain.keys)
      && (forall s :: s in a.asnToDomain.m ==>
            Some(s) in p.asToDomain.m && p.asToDomain.m[Some(s)] == a.asnToDomain.m[s])
  {
    RoundTripRekeyed(a, orders);
    RekeyedKeys(a.domainToAsn.keys, AsnsOf(a.domainToAsn));
    RekeyedKeys(a.asnToDomain.keys, MembersOf(a.asnToDomain));
  }

  /** The two indices the converter reads back are two views of the same (domain, asn) pairs,
      as they were in the store. */
  lemma RoundTripAgrees(a: Aggregate, orders: seq<seq<Domain>>, d: Domain, s: Asn)
    requires Consistent(a) && Printable(a) && IterationOrders(a.asnToDomain, orders)
    ensures var p := Parse(ReportLines(a, orders));
      s in Get(p.domainToAs, Some(d), {}) <==> d in Get(p.asToDomain, Some(s), {})
  {
    RoundTripRekeyed(a, orders);
    RekeyedAgree(a, d, s);
  }

  lemma RekeyedAgree(a: Aggregate, d: Domain, s: Asn)
    requires Valid(a.domainToAsn) && Valid(a.asnToDomain) && Agree(a)
    ensures var asns, members := Rekeyed(a.domainToAsn.keys, AsnsOf(a.domainToAsn)),
                                 Rekeyed(a.asnToDomain.keys, MembersOf(a.asnToDomain));
      s in Get(asns, Some(d), {}) <==> d in Get(members, Some(s), {})
  {
    assert HasAsn(a, d, s) <==> Lists(a, s, d);
  }

  // ----- Each string printed is one line of the report -----

  /** No printed string holds a line break, so the converter reads back exactly these lines. */
  ghost predicate SingleLines(lines: seq<string>) {
    forall j :: 0 <= j < |lines| ==> OneLine(lines[j])
  }

  lemma SingleLinesAppend(xs: seq<string>, ys: seq<string>)
    requires SingleLines(xs) && SingleLines(ys)
    ensures SingleLines(xs + ys)
  {
    forall j | 0 <= j < |xs + ys| ensures OneLine((xs + ys)[j]) {
      if j < |xs| { assert (xs + ys)[j] == xs[j]; } else { assert (xs + ys)[j] == ys[j - |xs|]; }
    }
  }

  lemma OneLineIndent(x: string)
    requires OneLine(x)
    ensures OneLine(Indent2(x))
  {
    forall k | 2 <= k < |Indent2(x)| ensures Indent2(x)[k] == x[k - 2] { }
  }

  /** An `ip = count` line is one line when the ip is: the count is all digits. */
  lemma OneLineIpLine(ip: Ip, n: nat)
    requires OneLine(ip)
    ensures OneLine(IpLine(ip, n))
  {
    var digits := Decimal(n);
    var line := IpLine(ip, n);
    assert line == "    " + ip + " = " + digits;
    forall k | 0 <= k < |line| ensures line[k] != '\n' && line[k] != '\r' {
      if 4 <= k < 4 + |ip| {
        assert line[k] == ip[k - 4];
      } else if 7 + |ip| <= k {
        assert line[k] == digits[k - 7 - |ip|];
      }
    }
  }

  lemma {:induction false} SingleLinesIpLines(ips: IpCounts, ks: seq<Ip>)
    requires forall i :: i in ks ==> OneLine(i)
    ensures SingleLines(IpLines(ips, ks))
  {
    if ks != [] {
      var n := |ks| - 1;
      assert forall i :: i in ks[..n] ==> i in ks;
      SingleLinesIpLines(ips, ks[..n]);
      OneLineIpLine(ks[n], Get(ips, ks[n], 0));
      SingleLinesAppend(IpLines(ips, ks[..n]), [IpLine(ks[n], Get(ips, ks[n], 0))]);
    }
  }

  lemma {:induction false} SingleLinesAsnLines(asns: AsnIps, ks: seq<Asn>)
    requires forall s :: s in ks ==> AsnPrintable(s, Get(asns, s, Empty()))
    ensures SingleLines(AsnLines(asns, ks))
  {
    if ks != [] {
      var n := |ks| - 1;
      var ips := Get(asns, ks[n], Empty());
      assert forall s :: s in ks[..n] ==> s in ks;
      SingleLinesAsnLines(asns, ks[..n]);
      OneLineIndent(ks[n]);
      SingleLinesIpLines(ips, ips.keys);
      SingleLinesAppend(AsnLines(asns, ks[..n]), [Indent2(ks[n])]);
      SingleLinesAppend(AsnLines(asns, ks[..n]) + [Indent2(ks[n])], IpLines(ips, ips.keys));
    }
  }

  lemma {:induction false} SingleLinesDomainBlocks(d2a: Dict<Domain, AsnIps>, ks: seq<Domain>)
    requires forall d :: d in ks ==> BlockPrintable(d, Get(d2a, d, Empty()))
    ensures SingleLines(DomainBlocks(d2a, ks))
  {
    if ks != [] {
      var n := |ks| - 1;
      var d := ks[n];
      var asns := Get(d2a, d, Empty());
      assert forall x :: x in ks[..n] ==> x in ks;
      SingleLinesDomainBlocks(d2a, ks[..n]);
      SingleLinesAsnLines(asns, asns.keys);
      SingleLinesAppend([d], AsnLines(asns, asns.keys));
      SingleLinesAppend([d] + AsnLines(asns, asns.keys), [""]);
      SingleLinesAppend(DomainBlocks(d2a, ks[..n]), DomainBlock(d2a, d));
    }
  }

  lemma {:induction false} SingleLinesMemberLines(ds: seq<Domain>)
    requires forall d :: d in ds ==> Clean(d)
    ensures SingleLines(MemberLines(ds))
  {
    if ds != [] {
      var n := |ds| - 1;
      assert forall x :: x in ds[..n] ==> x in ds;
      SingleLinesMemberLines(ds[..n]);
      assert ds[n] in ds;
      OneLineIndent(ds[n]);
      SingleLinesAppend(MemberLines(ds[..n]), [Indent2(ds[n])]);
    }
  }

  lemma {:induction false} SingleLinesAsnBlocks(a2d: Dict<Asn, set<Domain>>, ks: seq<Asn>, orders: seq<seq<Domain>>)
    requires |orders| == |ks|
    requires forall j :: 0 <= j < |ks| ==> AsnPrinted(a2d, ks[j], orders[j])
    ensures SingleLines(AsnBlocks(ks, orders))
  {
    if ks != [] {
      var n := |ks| - 1;
      assert forall j :: 0 <= j < n ==> ks[..n][j] == ks[j] && orders[..n][j] == orders[j];
      SingleLinesAsnBlocks(a2d, ks[..n], orders[..n]);
      assert AsnPrinted(a2d, ks[n], orders[n]);
      SingleLinesMemberLines(orders[n]);
      SingleLinesAppend([ks[n]], MemberLines(orders[n]));
      SingleLinesAppend([ks[n]] + MemberLines(orders[n]), [""]);
      SingleLinesAppend(AsnBlocks(ks[..n], orders[..n]), AsnBlock(ks[n], orders[n]));
    }
  }

  /** When no stored name or ip holds a line break, every string the report prints is one
      line, so the report the converter reads is exactly the sequence of strings printed. */
  lemma ReportSingleLines(a: Aggregate, orders: seq<seq<Domain>>)
    requires Consistent(a) && Printable(a) && IterationOrders(a.asnToDomain, orders)
    ensures SingleLines(ReportLines(a, orders))
  {
    DomainsPrintable(a);
    AsnsPrintable(a, orders);
    BlocksSingleLines(a, orders);
  }

  lemma HeadersOneLine()
    ensures OneLine(DomainHeader) && OneLine(AsnHeader)
  {
  }

  lemma BlocksSingleLines(a: Aggregate, orders: seq<seq<Domain>>)
    requires |orders| == |a.asnToDomain.keys|
    requires forall d :: d in a.domainToAsn.keys ==> BlockPrintable(d, Get(a.domainToAsn, d, Empty()))
    requires forall j :: 0 <= j < |a.asnToDomain.keys| ==>
      AsnPrinted(a.asnToDomain, a.asnToDomain.keys[j], orders[j])
    ensures SingleLines(ReportLines(a, orders))
  {
    HeadersOneLine();
    SingleLinesDomainBlocks(a.domainToAsn, a.domainToAsn.keys);
    SingleLinesAsnBlocks(a.asnToDomain, a.asnToDomain.keys, orders);
    assert SingleLines([DomainHeader, ""]) && SingleLines([AsnHeader, ""]);
    SingleLinesAppend([DomainHeader, ""], DomainBlocks(a.domainToAsn, a.domainToAsn.keys));
    SingleLinesAppend([DomainHeader, ""] + DomainBlocks(a.domainToAsn, a.domainToAsn.keys), [AsnHeader, ""]);
    SingleLinesAppend([DomainHeader, ""] + DomainBlocks(a.domainToAsn, a.domainToAsn.keys) + [AsnHeader, ""],
      AsnBlocks(a.asnToDomain.keys, orders));
  }
}
