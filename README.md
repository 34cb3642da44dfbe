# Passive DNS clustering, modelled in Dafny

The pipeline has two programs, and this project models both.

- **`passive-dns-cluster.py`** reads passive DNS records, one JSON object per line. It keeps the A-record answers whose domain is among the top 1000. It counts them in two indices:
  - `domain_to_asn`: domain → asn → ip → count;
  - `asn_to_domain`: asn → set of domains.
  It then prints both indices as a two-section text report.
- **`cluster-to-sfdp.py`** reads that report back. Two indentation-driven loops rebuild `domain_to_as` and `as_to_domain`. It then prints a Graphviz digraph with a blue node per domain, a green node per asn, and an edge per (domain, asn) pair.

Modules, one file each:

| file | module | what it models |
|---|---|---|
| `wrappers.dfy` | `Wrappers` | `Option` |
| `text.dfy` | `Text` | the Python `str` behaviour relied on: `isspace`, `strip`, `startswith`, substring `in`, `'.'.join`, decimal formatting of a count |
| `pydict.dfy` | `PyDict` | Python's insertion-ordered `dict` (a key sequence plus a map), `d[k] = v`, `d.get`, sums over values, and the orders in which a Python set may be iterated |
| `normalize.dfy` | `Normalize` | `fix_url` |
| `aggregation.dfy` | `Aggregation` | the two indices as one value (`Aggregate`), the update one accepted record makes (`Recorded`), the invariant linking the indices (`Consistent`), the sum of all counts, and the store as a class (`Store`) whose `Record` method makes the update in place |
| `scanner.dfy` | `Scanner` | one line's fate (`Classify`: accept, skip or abort), the `scan` loop (`ScanLines` and the method `Scan`), and the loop over files (`ScanFiles` and `ScanAll`) |
| `pipeline.dfy` | `Pipeline` | `__main__` as a whole: scan every file into fresh indices, then print the report unless an exception escaped |
| `report.dfy` | `Report` | the report the aggregator prints (`ReportLines`) and the print loops (`EmitReport`) |
| `sfdp_parse.dfy` | `SfdpParse` | the converter's two reading loops (`Parse` and the method `ReadReport`) and what each kind of line does to the cursors and the indices |
| `sfdp_emit.dfy` | `SfdpEmit` | the digraph the converter prints (`GraphLines`) and its print loops (`EmitGraph`) |
| `roundtrip.dfy` | `RoundTrip` | reading the aggregator's report with the converter gives back both indices |

### How the model represents the source

- **Dict order.** Python dicts iterate in insertion order, and the model keeps that order: `PyDict.Dict` has a `keys` sequence. A `defaultdict` entry created by `d[k]` goes last, as in Python.
- **Set order.** The order in which a Python set is iterated is not fixed. The print methods pick members one at a time with `:|` and return the order they used as a ghost out-parameter. Every property is stated for any such order (`PyDict.IterationOrders`).
- **Foreign modules.** `etld.split`, `ip2asn.ip2asn` and `alexa.is_top_n` are the fields of `Scanner.Env`, taken as arbitrary total functions.
- **JSON input.** A JSON line is a `Scanner.Line`: either a decoded `DnsRecord` with optional fields, or text that `json.loads` rejects.
- **Uncaught exceptions.** An exception that `scan` does not catch is a `Scanner.ScanError`. It ends the scan, and therefore the run, so no report is printed (`Pipeline.Run`).
- **The store.** The store is a class because the source updates its two module-level dicts in place. `Store.Record` is proved against the value-level function `Recorded`. `Scan` and `ScanAll` are proved against `ScanLines` and `ScanFiles`.
- **Print loops.** The print loops are methods proved against the functions that list the printed lines.

### Where the documentation and the code disagree, the model follows the code

- **Packet type.** The accepted packet type is the literal `'UDP_QUERY_RESPONSE'` (passive-dns-cluster.py:71). A record with any other `type`, such as `query-response`, is skipped.
- **Aborting lines.** A malformed line, or an A record missing `qname` or `response_ip`, is not skipped. Three cases raise out of `scan`, which ends the program before the report is printed:
  - a `json.loads` failure (passive-dns-cluster.py:63-65);
  - a missing `qname` on an A record (line 73);
  - a missing `response_ip` on an A record whose name splits (line 82).
  `Scanner.ClassifyAborts` states exactly when this happens.
- **Repeated dots.** The docstring of `fix_url` says it "removes multiple dots" (passive-dns-cluster.py:40). The code only replaces characters and strips dots at both ends (line 44). `Normalize.FixUrlKeepsRepeatedDots` shows that a run of dots survives.
- **Collaborator failures.** A failure inside `ip2asn` or `etld` is not caught either. The model takes the collaborators as total functions (see Left out).

## Model

| member | source | states |
|---|---|---|
| Normalize.DotOthers | passive-dns-cluster.py:44 | the per-character step keeps the length; each alphanumeric or `-~_.` character stays in its place and every other character becomes exactly one `.` |
| Normalize.FixUrl | passive-dns-cluster.py:44 | `fix_url(s)` is no longer than `s`, and does not start or end with `.` |
| Normalize.FixUrlCharset | passive-dns-cluster.py:44 | every character of `fix_url(s)` is alphanumeric or one of `-~_.` |
| Normalize.FixUrlWindow | passive-dns-cluster.py:40-44 | `fix_url(s)` is a contiguous window of the dotted string, and everything cut off on either side is a dot |
| Normalize.DotOthersKeeps | passive-dns-cluster.py:44 | a string made only of kept characters passes the replacement step unchanged |
| Normalize.FixUrlOfClean | passive-dns-cluster.py:44 | a string of kept characters with no dot at either end is a fixed point of `fix_url` |
| Normalize.FixUrlIdempotent | passive-dns-cluster.py:44 | `fix_url(fix_url(s)) == fix_url(s)` for every `s` |
| Normalize.FixUrlKeepsRepeatedDots | passive-dns-cluster.py:40-44 | `fix_url("a!!b") == "a..b"`: runs of dots are not collapsed, contrary to the docstring |
| Normalize.FixUrlDropsTrailingJunk | passive-dns-cluster.py:44 | a clean host name followed by characters that are not url characters (say `!!`) comes back as the host name alone |
| Aggregation.Initial | passive-dns-cluster.py:29-33 | the two empty indices satisfy the invariant, and their counts sum to 0 |
| Aggregation.RecordedCounts | passive-dns-cluster.py:96 | an accepted record raises exactly `domain_to_asn[domain][asn][ip]` by one; every other count is unchanged |
| Aggregation.RecordedStored | passive-dns-cluster.py:96 | exactly the record's (domain, asn, ip) key path is added; no other is created or removed |
| Aggregation.RecordedHasAsn | passive-dns-cluster.py:96 | exactly the pair (domain, asn) is added to `domain_to_asn` |
| Aggregation.RecordedLists | passive-dns-cluster.py:99 | exactly `domain` is added to `asn_to_domain[asn]`; no other membership changes |
| Aggregation.RecordedOuterOrder | passive-dns-cluster.py:96-99 | a domain or asn met for the first time goes last among the outer keys; otherwise the key order is unchanged |
| Aggregation.RecordedAsnOrder | passive-dns-cluster.py:96 | only the record's domain can gain an asn key, and it goes last |
| Aggregation.RecordedIpOrder | passive-dns-cluster.py:96 | only the record's (domain, asn) can gain an ip key, and it goes last |
| Aggregation.RecordedShaped | passive-dns-cluster.py:96-99 | the update keeps every dict at every level well formed (each key listed once) |
| Aggregation.RecordedAgree | passive-dns-cluster.py:96-99 | the update keeps `asn in domain_to_asn[domain]` if and only if `domain in asn_to_domain[asn]` |
| Aggregation.RecordedNoneEmpty | passive-dns-cluster.py:96-99 | the update keeps every inner dict and set non-empty and every count at least 1 |
| Aggregation.RecordedConsistent | passive-dns-cluster.py:96-99 | the update preserves the whole invariant (well formed, two views of the same pairs, nothing empty) |
| Aggregation.ShapedInner | passive-dns-cluster.py:96 | in a well-formed store, the inner dicts the update reads are well formed, including those the defaultdicts create |
| Aggregation.BumpTotal | passive-dns-cluster.py:96 | the nested increment adds exactly one to the sum of all counts |
| Aggregation.RecordedTotal | passive-dns-cluster.py:96-99 | one accepted record adds exactly one to the sum of all counts |
| Aggregation.Store.constructor | passive-dns-cluster.py:29-33 | the store starts as two empty indices satisfying the invariant |
| Aggregation.Store.Record | passive-dns-cluster.py:96-99 | the two in-place writes leave the store equal to `Recorded` of its old value, and keep the invariant |
| Scanner.ClassifyAccepts | passive-dns-cluster.py:62-91 | a line is stored as (d, s, i) exactly when it decodes, is a `UDP_QUERY_RESPONSE` with qtype 1, has a qname whose `fix_url` splits non-empty, has a response_ip `i` containing `.`, `d` is the joined split and is in the top 1000, and `s` is `ip2asn(i)` |
| Scanner.ClassifyAborts | passive-dns-cluster.py:62-82 | a line ends the scan exactly when it is not JSON, or is an A record without `qname`, or is an A record whose name splits but has no `response_ip` |
| Scanner.ScanStoresAccepted | passive-dns-cluster.py:57-99 | the indices after a scan are the accepted records, up to the first abort, stored in order |
| Scanner.RecordAllCount | passive-dns-cluster.py:96 | storing records raises each count by the number of times its (domain, asn, ip) occurs among them |
| Scanner.RecordAllConsistent | passive-dns-cluster.py:96-99 | storing any records preserves the invariant |
| Scanner.RecordAllTotal | passive-dns-cluster.py:96 | storing `n` records adds exactly `n` to the sum of all counts |
| Scanner.ScanMonotone | passive-dns-cluster.py:57-99 | no count decreases during a scan, whether it finishes or aborts |
| Scanner.ScanConsistent | passive-dns-cluster.py:57-99 | a scan preserves the invariant |
| Scanner.ScanFromEmpty | passive-dns-cluster.py:57-99 | starting from empty indices, each count is the number of accepted records carrying it, and the counts sum to the number of accepted records |
| Scanner.ScanLinesAppend | passive-dns-cluster.py:57-99 | scanning `xs + ys` is scanning `xs` and then, unless `xs` aborted, scanning `ys` from the result |
| Scanner.ScanFilesConcat | passive-dns-cluster.py:102-119 | scanning several files into the same indices is scanning their lines end to end, so counts only grow across files |
| Scanner.ScanFilesMonotone | passive-dns-cluster.py:102-119 | no count decreases from one file to the next |
| Scanner.ScanFilesConsistent | passive-dns-cluster.py:102-119 | the file loop preserves the invariant |
| Scanner.ScanFilesFromEmpty | passive-dns-cluster.py:102-119 | from empty indices, after all files each count is the number of accepted records carrying it across all files, and the counts sum to the number of accepted records |
| Pipeline.Run | passive-dns-cluster.py:102-139 | the program prints nothing exactly when an exception escapes the scan of some file; otherwise it prints the report of the indices scanned from empty, which satisfy the invariant, its sets in some iteration order |
| Scanner.Scan | passive-dns-cluster.py:57-99 | the loop over one file leaves the store at `ScanLines` of its old value and returns the exception that stopped it, if any; the invariant is kept |
| Scanner.ScanAll | passive-dns-cluster.py:102-119 | the loop over the files leaves the store at `ScanFiles` of its old value, stopping at the first exception |
| Report.EmitReport | passive-dns-cluster.py:125-139 | the printed lines are the `DOMAIN TO ASN` header and a blank line; then each domain in key order, its asns at indent 2 each followed by its `ip = count` lines at indent 4, then a blank line; then the `ASN TO DOMAIN` header and a blank line; then each asn with its domains at indent 2, in some iteration order of its set, then a blank line |
| Report.EmitDomain | passive-dns-cluster.py:126-132 | one domain's block: the domain, each asn at indent 2 with its ip lines, then a blank line |
| Report.EmitIps | passive-dns-cluster.py:130-131 | one `    ip = count` line per ip, in insertion order |
| Report.EmitMembers | passive-dns-cluster.py:137-138 | one line at indent 2 per member of the set, each member once, in the order returned |
| SfdpParse.MarkerAt | cluster-to-sfdp.py:14-17 | the first loop stops at the first line containing `ASN TO DOMAIN`: no earlier line contains it |
| SfdpParse.MarkerAtIs | cluster-to-sfdp.py:14-17 | the stopping line is determined by the two conditions above |
| SfdpParse.ParseAtMarker | cluster-to-sfdp.py:14-41 | the marker line is consumed by neither loop, whatever else it says; the second loop starts from both cursors reset to None and reads the lines after it |
| SfdpParse.ReadReport | cluster-to-sfdp.py:7-54 | the two loops, the first left by `break`, with the cursors reset between them, build exactly the indices of `Parse` |
| SfdpParse.ReadFirstSection | cluster-to-sfdp.py:14-34 | the first loop stops at the first line holding the marker and leaves the cursors and indices that `Run1` gives for the lines before it |
| SfdpParse.ReadSecondSection | cluster-to-sfdp.py:41-54 | the second loop, continued from any state, leaves the state `Run2` gives for the remaining lines |
| SfdpParse.Run1Append | cluster-to-sfdp.py:14-34 | the first loop over two pieces of input is the loop over their concatenation |
| SfdpParse.Run2Append | cluster-to-sfdp.py:41-54 | the same for the second loop |
| SfdpParse.Run1Ignores | cluster-to-sfdp.py:19-25 | in section 1, a comment, a blank line or a four-space line inserted anywhere changes nothing |
| SfdpParse.Run2Ignores | cluster-to-sfdp.py:43-45 | in section 2, a comment or a blank line inserted anywhere changes nothing |
| SfdpParse.Kinds1 | cluster-to-sfdp.py:19-34 | how the first loop classifies each line: ignored, unindented (a domain) or indented by two (an asn), with its stripped text |
| SfdpParse.Run1Kinds | cluster-to-sfdp.py:14-34 | the first loop depends on each line only through that classification |
| SfdpParse.Fold1Cursor | cluster-to-sfdp.py:32-34 | `current_domain` is the text of the most recent unindented line, or is unchanged if there is none |
| SfdpParse.Fold1Members | cluster-to-sfdp.py:27-30 | an asn is in `domain_to_as[key]` if and only if it already was, or a two-space line carrying it was read while `current_domain` was `key` |
| SfdpParse.Fold1Keys | cluster-to-sfdp.py:27-34 | a value becomes a key of `domain_to_as` only when a two-space line is read while the cursor holds it, so a domain with no following asn line never becomes a key |
| SfdpParse.Kinds2 | cluster-to-sfdp.py:43-54 | how the second loop classifies each line: ignored, unindented (an asn) or indented (a domain) |
| SfdpParse.Run2Kinds | cluster-to-sfdp.py:41-54 | the second loop depends on each line only through that classification |
| SfdpParse.Fold2Members | cluster-to-sfdp.py:47-54 | a domain is in `as_to_domain[key]` if and only if it already was, or an indented line carrying it was read while `current_as` was `key`; `domain_to_as` is left untouched |
| SfdpParse.Fold2Cursor | cluster-to-sfdp.py:52-54 | `current_as` is the text of the most recent unindented line of the second section, or is unchanged if there is none |
| SfdpParse.Fold2Keys | cluster-to-sfdp.py:47-54 | a value becomes a key of `as_to_domain` only when an indented line is read while `current_as` holds it, so an asn with no following domain line never becomes a key |
| SfdpParse.ParseValid | cluster-to-sfdp.py:7-54 | for any input, both indices the converter builds list each key once |
| SfdpEmit.NodeLines | cluster-to-sfdp.py:59-63 | one node line per key, in key order, with the key printed (`None` for an unset cursor) and the given colour |
| SfdpEmit.EdgeLinesAre | cluster-to-sfdp.py:66-68 | one edge line per visited (domain, asn) pair, in order |
| SfdpEmit.EmitGraph | cluster-to-sfdp.py:56-71 | the output is the opening line, blue nodes for `domain_to_as`, green nodes for `as_to_domain`, the edges of `domain_to_as` with each set in some iteration order, and the closing brace |
| SfdpEmit.EmitNodes | cluster-to-sfdp.py:60-63 | a node loop prints one line per key, in key order |
| SfdpEmit.EmitAllEdges | cluster-to-sfdp.py:66-68 | the nested edge loops print the lines of the visited pairs, in the orders returned |
| SfdpEmit.EmitEdges | cluster-to-sfdp.py:67-68 | the inner edge loop visits each member of the set once |
| SfdpEmit.PairsMembers | cluster-to-sfdp.py:67-68 | the inner loop for a key visits exactly the pairs (key, member) |
| SfdpEmit.EdgesMembers | cluster-to-sfdp.py:66-68 | a pair is visited if and only if its asn is in the iteration order of its domain's set |
| SfdpEmit.EdgesDistinct | cluster-to-sfdp.py:66-68 | with keys listed once and sets iterated without repeats, no pair is visited twice |
| SfdpEmit.EdgesExactly | cluster-to-sfdp.py:66-68 | the edge loops visit each (key, member) pair of `domain_to_as` exactly once: no duplicate edge and no missing one |
| SfdpEmit.ParsedEdgesExactly | cluster-to-sfdp.py:7-71 | for any input the converter reads, its edge loops print each (domain, asn) pair of `domain_to_as` exactly once |
| RoundTrip.NameLine | cluster-to-sfdp.py:32-34 | a clean name printed at indent 0 is read by either loop as an unindented line carrying that name |
| RoundTrip.IndentedLine | cluster-to-sfdp.py:27-30 | a clean name printed at indent 2 is read by either loop as an indented line carrying that name |
| RoundTrip.IpLineIgnored | cluster-to-sfdp.py:23-25 | every `    ip = count` line is ignored by the first loop |
| RoundTrip.SpacingIgnored | cluster-to-sfdp.py:19-21 | blank lines and the first header are ignored |
| RoundTrip.DomainHeaderUnmarked | cluster-to-sfdp.py:16 | the `DOMAIN TO ASN` header does not end the first section |
| RoundTrip.AsnHeaderMarked | cluster-to-sfdp.py:16 | the `ASN TO DOMAIN` header ends it |
| RoundTrip.UnmarkedIpLine | cluster-to-sfdp.py:16 | an `ip = count` line contains the marker only if the ip does |
| RoundTrip.ReportSplit | cluster-to-sfdp.py:14-41 | when the stored names are clean, the printed report splits at its second header, so the first loop reads exactly section 1 and the second loop exactly section 2 |
| RoundTrip.DomainBlocksRead | cluster-to-sfdp.py:14-34 | the first loop reads the domain blocks as `{domain: set of its asns}`, in domain order |
| RoundTrip.AsnBlocksRead | cluster-to-sfdp.py:41-54 | the second loop reads the asn blocks as `{asn: set of its domains}`, in asn order, whatever order each set was printed in |
| RoundTrip.RoundTripRekeyed | cluster-to-sfdp.py:14-54 | parsing the printed report gives `domain_to_as = {domain: asns}` and `as_to_domain = asn_to_domain`, with keys wrapped as non-None values |
| RoundTrip.RoundTrip | cluster-to-sfdp.py:14-54 | for a store satisfying the invariant with clean names: `domain_to_as` lists the domains of `domain_to_asn` in order, each holding exactly the set of its asns; `as_to_domain` lists the asns of `asn_to_domain` in order, each holding exactly its set of domains |
| RoundTrip.ReportSingleLines | passive-dns-cluster.py:125-139 | when no stored name or ip holds a line break, no printed string holds one, so the converter's input lines are exactly the strings printed |
| RoundTrip.RoundTripAgrees | cluster-to-sfdp.py:30-50 | in what the converter reads back, `asn in domain_to_as[domain]` if and only if `domain in as_to_domain[asn]` |

## Left out

- File, gzip and stdin opening, the `Could not read` message and `fin.close()` (passive-dns-cluster.py:102-121) are I/O. Each file is given as its sequence of lines, and so is the converter's stdin.
- Pipeline.Run: every argument is taken as a readable file, so the `Could not read` line printed for a missing file (passive-dns-cluster.py:120-121) is not part of its output.
- The progress log, `line_count`, `DEBUG_INTERVAL` and the elapsed-time format (passive-dns-cluster.py:17-22, 54-60) write only to stderr and use floating point.
- JSON decoding is a library call; the model's input is already decoded. These cases are left out:
  - bytes lines from gzip that are not valid UTF-8;
  - a JSON value that is not an object;
  - field values that are not strings or integers;
  - Python's `True == 1` and `1.0 == 1` in the qtype test.
- The internals of `etld`, `ip2asn` and `alexa` are not part of this model. An exception raised inside one of them is not modelled.
- Normalize.IsAlnum: `str.isalnum` is restricted to ASCII letters and digits; Unicode letters and digits are treated as non-url characters.
- Lines are modelled without their trailing newline. This does not change `strip`, `startswith` or `in` for the converter's tests.
- The sets' iteration order is not computed; it is a ghost enumeration that every property quantifies over.
- The DOT output is modelled as text lines. Quoting of names containing `"` is not examined.
