/** `scan` of passive-dns-cluster.py: which decoded records reach the store, what aborts the
    scan, and the loop that feeds the store. */
module Scanner {
  import opened Wrappers
  import opened Text
  import opened PyDict
  import opened Normalize
  import opened Aggregation

  /** `FILTER_TOP_DOMAINS` */
  const TopDomains: nat := 1000

  /** The only packet type whose records are kept. */
  const AcceptedType: string := "UDP_QUERY_RESPONSE"

  /** The fields `scan` reads from one decoded JSON object; `None` where the key is absent. */
  datatype DnsRecord = DnsRecord(
    packetType: Option<string>,
    queryType: Option<int>,
    qname: Option<string>,
    responseIp: Option<string>)

  /** One input line: a decoded object, or text `json.loads` rejects. */
  datatype Line = Decoded(record: DnsRecord) | Undecodable

  /** The exceptions `scan` lets escape: a `ValueError` from `json.loads`, or a `KeyError`. */
  datatype ScanError = NotJson | MissingQname | MissingResponseIp

  /** The three foreign modules: `etld.split`, `ip2asn.ip2asn` and `alexa.is_top_n`. */
  datatype Env = Env(split: string -> seq<string>, ip2asn: string -> Asn, isTopN: (string, nat) -> bool)

  /** What the loop body does with one line. */
  datatype Verdict = Accept(domain: Domain, asn: Asn, ip: Ip) | Skip | Abort(error: ScanError)

  /** `packet_type == 'UDP_QUERY_RESPONSE' and query_type == 1` */
  predicate IsARecord(r: DnsRecord) {
    r.packetType == Some(AcceptedType) && r.queryType == Some(1)
  }

  /** The domain a query name stands for: `'.'.join(etld.split(fix_url(qname)))`. */
  function DomainOf(qname: string, env: Env): Domain {
    Join(env.split(FixUrl(qname)), ".")
  }

  /** The body of the `for line in fin` loop (passive-dns-cluster.py:62-99), in its own order:
      decode, test the type, read `qname`, split, read `response_ip`, test for a dot, look up
      the asn, test the ranking. */
  function Classify(line: Line, env: Env): Verdict {
    match line
    case Undecodable => Abort(NotJson)
    case Decoded(r) =>
      if !IsARecord(r) then Skip
      else if r.qname.None? then Abort(MissingQname)
      else if env.split(FixUrl(r.qname.value)) == [] then Skip
      else if r.responseIp.None? then Abort(MissingResponseIp)
      else if !Contains(r.responseIp.value, ".") then Skip
      else
        var domain := DomainOf(r.qname.value, env);
        var ip := r.responseIp.value;
        if !env.isTopN(domain, TopDomains) then Skip
        else Accept(domain, env.ip2asn(ip), ip)
  }

  /** A line is accepted exactly when every filter passes, and then the store receives the
      joined domain, the asn of the response address and that address. */
  lemma ClassifyAccepts(line: Line, env: Env, d: Domain, s: Asn, i: Ip)
    ensures Classify(line, env) == Accept(d, s, i) <==>
      && line.Decoded?
      && IsARecord(line.record)
      && line.record.qname.Some?
      && env.split(FixUrl(line.record.qname.value)) != []
      && line.record.responseIp == Some(i)
      && Contains(i, ".")
      && d == DomainOf(line.record.qname.value, env)
      && env.isTopN(d, TopDomains)
      && s == env.ip2asn(i)
  {
  }

  /** A line aborts the scan exactly when it is not JSON, or when it is an A record whose
      `qname` is missing, or whose name splits and whose `response_ip` is missing. */
  lemma ClassifyAborts(line: Line, env: Env)
    ensures Classify(line, env).Abort? <==>
      || line.Undecodable?
      || (IsARecord(line.record) && line.record.qname.None?)
      || (&& IsARecord(line.record) && line.record.qname.Some?
          && env.split(FixUrl(line.record.qname.value)) != []
          && line.record.responseIp.None?)
  {
  }

  /** Where the scan ends: the indices, and the exception that ended it, if any. */
  datatype Scanned = Scanned(agg: Aggregate, error: Option<ScanError>)

  /** The whole `for` loop of `scan` over one file. An exception stops the loop with the
      records before it already stored. */
  function ScanLines(a: Aggregate, lines: seq<Line>, env: Env): Scanned
    decreases |lines|
  {
    if lines == [] then Scanned(a, None)
    else
      match Classify(lines[0], env)
      case Accept(d, s, i) => ScanLines(Recorded(a, d, s, i), lines[1..], env)
      case Skip => ScanLines(a, lines[1..], env)
      case Abort(e) => Scanned(a, Some(e))
  }

  /** The records a scan stores, in order: those accepted before the first abort. */
  function Accepted(lines: seq<Line>, env: Env): seq<(Domain, Asn, Ip)> {
    if lines == [] then []
    else
      match Classify(lines[0], env)
      case Accept(d, s, i) => [(d, s, i)] + Accepted(lines[1..], env)
      case Skip => Accepted(lines[1..], env)
      case Abort(_) => []
  }

  /** Storing a sequence of records one after another. */
  function RecordAll(a: Aggregate, ts: seq<(Domain, Asn, Ip)>): Aggregate
    decreases |ts|
  {
    if ts == [] then a else RecordAll(Recorded(a, ts[0].0, ts[0].1, ts[0].2), ts[1..])
  }

  /** The indices after a scan are the accepted records stored in order. */
  lemma {:induction false} ScanStoresAccepted(a: Aggregate, lines: seq<Line>, env: Env)
    ensures ScanLines(a, lines, env).agg == RecordAll(a, Accepted(lines, env))
    decreases |lines|
  {
    if lines != [] {
      match Classify(lines[0], env)
      case Accept(d, s, i) =>
        ScanStoresAccepted(Recorded(a, d, s, i), lines[1..], env);
        assert ([(d, s, i)] + Accepted(lines[1..], env))[1..] == Accepted(lines[1..], env);
      case Skip =>
        ScanStoresAccepted(a, lines[1..], env);
      case Abort(_) =>
    }
  }

  /** Storing records keeps the invariant. */
  lemma {:induction false} RecordAllConsistent(a: Aggregate, ts: seq<(Domain, Asn, Ip)>)
    requires Consistent(a)
    ensures Consistent(RecordAll(a, ts))
    decreases |ts|
  {
    if ts != [] {
      RecordedConsistent(a, ts[0].0, ts[0].1, ts[0].2);
      RecordAllConsistent(Recorded(a, ts[0].0, ts[0].1, ts[0].2), ts[1..]);
    }
  }

  /** Each count grows by the number of times its (domain, asn, ip) was stored. */
  lemma {:induction false} RecordAllCount(a: Aggregate, ts: seq<(Domain, Asn, Ip)>, d: Domain, s: Asn, i: Ip)
    ensures Count(RecordAll(a, ts), d, s, i) == Count(a, d, s, i) + multiset(ts)[(d, s, i)]
    decreases |ts|
  {
    if ts != [] {
      var t := ts[0];
      RecordedCounts(a, t.0, t.1, t.2);
      RecordAllCount(Recorded(a, t.0, t.1, t.2), ts[1..], d, s, i);
      assert ts == [t] + ts[1..];
      assert multiset(ts) == multiset([t]) + multiset(ts[1..]);
    }
  }

  /** Each stored record adds one to the sum of all counts. */
  lemma {:induction false} RecordAllTotal(a: Aggregate, ts: seq<(Domain, Asn, Ip)>)
    requires Shaped(a)
    ensures Total(RecordAll(a, ts)) == Total(a) + |ts|
    decreases |ts|
  {
    if ts != [] {
      RecordedTotal(a, ts[0].0, ts[0].1, ts[0].2);
      RecordedShaped(a, ts[0].0, ts[0].1, ts[0].2);
      RecordAllTotal(Recorded(a, ts[0].0, ts[0].1, ts[0].2), ts[1..]);
    }
  }

  /** Counts never go down during a scan. */
  lemma ScanMonotone(a: Aggregate, lines: seq<Line>, env: Env, d: Domain, s: Asn, i: Ip)
    ensures Count(a, d, s, i) <= Count(ScanLines(a, lines, env).agg, d, s, i)
  {
    ScanStoresAccepted(a, lines, env);
    RecordAllCount(a, Accepted(lines, env), d, s, i);
  }

  /** A scan keeps the invariant, whether it finishes or aborts. */
  lemma ScanConsistent(a: Aggregate, lines: seq<Line>, env: Env)
    requires Consistent(a)
    ensures Consistent(ScanLines(a, lines, env).agg)
  {
    ScanStoresAccepted(a, lines, env);
    RecordAllConsistent(a, Accepted(lines, env));
  }

  /** Scanning from empty indices: every count is the number of accepted records carrying its
      (domain, asn, ip), and the counts sum to the number of accepted records. */
  lemma ScanFromEmpty(lines: seq<Line>, env: Env, d: Domain, s: Asn, i: Ip)
    ensures var r := ScanLines(Initial(), lines, env).agg;
      && Count(r, d, s, i) == multiset(Accepted(lines, env))[(d, s, i)]
      && Total(r) == |Accepted(lines, env)|
  {
    ScanStoresAccepted(Initial(), lines, env);
    RecordAllCount(Initial(), Accepted(lines, env), d, s, i);
    RecordAllTotal(Initial(), Accepted(lines, env));
  }

  /** Scanning two pieces one after the other is scanning their concatenation; an abort in the
      first piece means the second is never read. */
  lemma {:induction false} ScanLinesAppend(a: Aggregate, xs: seq<Line>, ys: seq<Line>, env: Env)
    ensures var first := ScanLines(a, xs, env);
      ScanLines(a, xs + ys, env) == if first.error.Some? then first else ScanLines(first.agg, ys, env)
    decreases |xs|
  {
    if xs == [] {
      assert xs + ys == ys;
    } else {
      assert (xs + ys)[0] == xs[0];
      assert (xs + ys)[1..] == xs[1..] + ys;
      match Classify(xs[0], env)
      case Accept(d, s, i) => ScanLinesAppend(Recorded(a, d, s, i), xs[1..], ys, env);
      case Skip => ScanLinesAppend(a, xs[1..], ys, env);
      case Abort(_) =>
    }
  }

  /** `for arg in sys.argv[1:]: ... scan(fin)`: the files are scanned in turn into the same
      indices, and an exception in one file ends the program. */
  function ScanFiles(a: Aggregate, files: seq<seq<Line>>, env: Env): Scanned
    decreases |files|
  {
    if files == [] then Scanned(a, None)
    else
      var first := ScanLines(a, files[0], env);
      if first.error.Some? then first else ScanFiles(first.agg, files[1..], env)
  }

  function Concat<T>(xss: seq<seq<T>>): seq<T> {
    if xss == [] then [] else xss[0] + Concat(xss[1..])
  }

  /** Scanning several files is scanning their lines end to end. */
  lemma {:induction false} ScanFilesConcat(a: Aggregate, files: seq<seq<Line>>, env: Env)
    ensures ScanFiles(a, files, env) == ScanLines(a, Concat(files), env)
    decreases |files|
  {
    if files != [] {
      ScanLinesAppend(a, files[0], Concat(files[1..]), env);
      var first := ScanLines(a, files[0], env);
      if first.error.None? {
        ScanFilesConcat(first.agg, files[1..], env);
      }
    }
  }

  /** Counts never go down from one file to the next. */
  lemma ScanFilesMonotone(a: Aggregate, files: seq<seq<Line>>, env: Env, d: Domain, s: Asn, i: Ip)
    ensures Count(a, d, s, i) <= Count(ScanFiles(a, files, env).agg, d, s, i)
  {
    ScanFilesConcat(a, files, env);
    ScanMonotone(a, Concat(files), env, d, s, i);
  }

  /** The file loop keeps the invariant. */
  lemma ScanFilesConsistent(a: Aggregate, files: seq<seq<Line>>, env: Env)
    requires Consistent(a)
    ensures Consistent(ScanFiles(a, files, env).agg)
  {
    ScanFilesConcat(a, files, env);
    ScanConsistent(a, Concat(files), env);
  }

  /** Starting from empty indices, after all files each count is the number of accepted records
      carrying it among all lines end to end, and the counts sum to the number of accepted
      records. */
  lemma ScanFilesFromEmpty(files: seq<seq<Line>>, env: Env, d: Domain, s: Asn, i: Ip)
    ensures var r := ScanFiles(Initial(), files, env).agg;
      && Count(r, d, s, i) == multiset(Accepted(Concat(files), env))[(d, s, i)]
      && Total(r) == |Accepted(Concat(files), env)|
  {
    ScanFilesConcat(Initial(), files, env);
    ScanFromEmpty(Concat(files), env, d, s, i);
  }

  /** The `for line in fin` loop of `scan`, writing into the store. On an exception the loop
      stops and the exception is returned; what was stored before it stays stored. */
  method Scan(store: Store, lines: seq<Line>, env: Env) returns (error: Option<ScanError>)
    requires store.Valid()
    modifies store
    ensures store.Valid()
    ensures Scanned(store.Value(), error) == ScanLines(old(store.Value()), lines, env)
  {
    var i := 0;
    while i < |lines|
      invariant 0 <= i <= |lines|
      invariant store.Valid()
      invariant ScanLines(store.Value(), lines[i..], env) == ScanLines(old(store.Value()), lines, env)
    {
      assert lines[i..][0] == lines[i] && lines[i..][1..] == lines[i + 1..];
      match Classify(lines[i], env) {
        case Accept(domain, asn, ip) =>
          store.Record(domain, asn, ip);
        case Skip =>
        case Abort(e) =>
          return Some(e);
      }
      i := i + 1;
    }
    return None;
  }

  /** The file loop of `__main__`: every file in turn, stopping at the first exception. */
  method ScanAll(store: Store, files: seq<seq<Line>>, env: Env) returns (error: Option<ScanError>)
    requires store.Valid()
    modifies store
    ensures store.Valid()
    ensures Scanned(store.Value(), error) == ScanFiles(old(store.Value()), files, env)
  {
    var k := 0;
    while k < |files|
      invariant 0 <= k <= |files|
      invariant store.Valid()
      invariant ScanFiles(store.Value(), files[k..], env) == ScanFiles(old(store.Value()), files, env)
    {
      assert files[k..][0] == files[k] && files[k..][1..] == files[k + 1..];
      error := Scan(store, files[k], env);
      if error.Some? {
        return;
      }
      k := k + 1;
    }
    return None;
  }
}
