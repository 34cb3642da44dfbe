/** `__main__` of passive-dns-cluster.py as a whole: scan every file into fresh indices, then
    print the report (passive-dns-cluster.py:102-139). */
module Pipeline {
  import opened Wrappers
  import opened PyDict
  import opened Aggregation
  import opened Scanner
  import opened Report

  /** What the program prints for `files`: nothing when an exception escapes the scan, which
      ends the program before the report, and otherwise the report of the indices all files
      built, its sets iterated in the orders returned. */
  method Run(files: seq<seq<Line>>, env: Env) returns (out: Option<seq<string>>, ghost orders: seq<seq<Domain>>)
    ensures out.None? <==> ScanFiles(Initial(), files, env).error.Some?
    ensures out.Some? ==>
      var a := ScanFiles(Initial(), files, env).agg;
      && Consistent(a)
      && IterationOrders(a.asnToDomain, orders)
      && out.value == ReportLines(a, orders)
  {
    var store := new Store();
    var error := ScanAll(store, files, env);
    if error.Some? {
      return None, [];
    }
    var lines;
    lines, orders := EmitReport(store.Value());
    out := Some(lines);
  }
}
