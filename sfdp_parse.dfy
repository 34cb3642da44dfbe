/** The reading half of cluster-to-sfdp.py: two passes over the report's lines, driven by
    indentation, that rebuild `domain_to_as` and `as_to_domain` (cluster-to-sfdp.py:7-54). */
module SfdpParse {
  import opened Wrappers
  import opened Text
  import opened PyDict

  /** The text whose presence ends the first section. */
  const Marker: string := "ASN TO DOMAIN"

  /** A cursor: `None` until a line sets it. */
  type Key = Option<string>

  /** A `defaultdict(set)` keyed by a cursor value. */
  type Index = Dict<Key, set<string>>

  /** The program's state: the two cursors and the two indices. */
  datatype Reader = Reader(currentDomain: Key, currentAs: Key, domainToAs: Index, asToDomain: Index)

  function Start(): Reader {
    Reader(None, None, Empty(), Empty())
  }

  /** `index[key].add(x)` */
  function AddTo(index: Index, key: Key, x: string): Index {
    Put(index, key, Get(index, key, {}) + {x})
  }

  /** `line.startswith('#') or not line.strip()`: comments and blank lines. */
  predicate Skippable(line: string) {
    StartsWith(line, "#") || StripSpace(line) == []
  }

  /** How a loop reads one line: not at all, as an unindented line, or as an indented one;
      the text kept is the stripped line. */
  datatype Kind = Ignored | Heading(name: string) | Indented(name: string)

  /** The tests of the first loop (cluster-to-sfdp.py:19-34): comments, blank lines and
      four-space lines are ignored, two-space lines hold an asn, other lines a domain. */
  function Kind1(line: string): Kind {
    if Skippable(line) then Ignored
    else if StartsWith(line, "    ") then Ignored
    else if StartsWith(line, "  ") then Indented(StripSpace(line))
    else Heading(StripSpace(line))
  }

  /** The tests of the second loop (cluster-to-sfdp.py:43-54): comments and blank lines are
      ignored, indented lines hold a domain, other lines an asn. */
  function Kind2(line: string): Kind {
    if Skippable(line) then Ignored
    else if StartsWith(line, "  ") then Indented(StripSpace(line))
    else Heading(StripSpace(line))
  }

  /** What the first loop does with a line of each kind. */
  function Apply1(r: Reader, k: Kind): Reader {
    match k
    case Ignored => r
    case Heading(domain) => r.(currentDomain := Some(domain))
    case Indented(asn) => r.(currentAs := Some(asn), domainToAs := AddTo(r.domainToAs, r.currentDomain, asn))
  }

  /** What the second loop does with a line of each kind. */
  function Apply2(r: Reader, k: Kind): Reader {
    match k
    case Ignored => r
    case Heading(asn) => r.(currentAs := Some(asn))
    case Indented(domain) => r.(currentDomain := Some(domain), asToDomain := AddTo(r.asToDomain, r.currentAs, domain))
  }

  /** One line of the first loop, once it is known not to hold the marker. */
  function Step1(r: Reader, line: string): Reader {
    Apply1(r, Kind1(line))
  }

  /** One line of the second loop. */
  function Step2(r: Reader, line: string): Reader {
    Apply2(r, Kind2(line))
  }

  function Run1(r: Reader, lines: seq<string>): Reader {
    if lines == [] then r else Step1(Run1(r, lines[..|lines| - 1]), lines[|lines| - 1])
  }

  function Run2(r: Reader, lines: seq<string>): Reader {
    if lines == [] then r else Step2(Run2(r, lines[..|lines| - 1]), lines[|lines| - 1])
  }

  /** The index of the first line holding the marker, or the number of lines if none does. */
  function MarkerAt(lines: seq<string>): (k: nat)
    ensures k <= |lines|
    ensures forall j :: 0 <= j < k ==> !Contains(lines[j], Marker)
    ensures k < |lines| ==> Contains(lines[k], Marker)
  {
    if lines == [] || Contains(lines[0], Marker) then 0 else 1 + MarkerAt(lines[1..])
  }

  /** `current_domain = None; current_as = None` between the loops. */
  function Reset(r: Reader): Reader {
    r.(currentDomain := None, currentAs := None)
  }

  /** The whole reading half. The first loop runs up to the first line holding the marker and
      consumes it; the second loop reads the rest of the same input. */
  function Parse(lines: seq<string>): Reader {
    var k := MarkerAt(lines);
    var rest := if k < |lines| then lines[k + 1..] else [];
    Run2(Reset(Run1(Start(), lines[..k])), rest)
  }

  /** The marker is found at `k` exactly when no earlier line holds it and line `k` does (or
      there is no line `k`). */
  lemma {:induction false} MarkerAtIs(lines: seq<string>, k: nat)
    requires k <= |lines|
    requires forall j :: 0 <= j < k ==> !Contains(lines[j], Marker)
    requires k < |lines| ==> Contains(lines[k], Marker)
    ensures MarkerAt(lines) == k
  {
    if k > 0 {
      MarkerAtIs(lines[1..], k - 1);
    }
  }

  /** The reading half as written: the first loop, left by `break` at the marker; the cursors
      reset; then the second loop over the remaining lines. */
  method ReadReport(lines: seq<string>) returns (domainToAs: Index, asToDomain: Index)
    ensures domainToAs == Parse(lines).domainToAs && asToDomain == Parse(lines).asToDomain
  {
    var i, currentDomain, currentAs;
    i, currentDomain, currentAs, domainToAs, asToDomain := ReadFirstSection(lines);
    currentDomain, currentAs := None, None;
    var rest := if i < |lines| then lines[i + 1..] else [];
    currentDomain, currentAs, domainToAs, asToDomain :=
      ReadSecondSection(rest, currentDomain, currentAs, domainToAs, asToDomain);
  }

  /** The first loop (cluster-to-sfdp.py:14-34), from the empty state, up to and including
      the first line holding the marker. */
  method ReadFirstSection(lines: seq<string>)
    returns (i: nat, currentDomain: Key, currentAs: Key, domainToAs: Index, asToDomain: Index)
    ensures i == MarkerAt(lines)
    ensures Reader(currentDomain, currentAs, domainToAs, asToDomain) == Run1(Start(), lines[..i])
  {
    currentDomain, currentAs := None, None;
    domainToAs, asToDomain := Empty(), Empty();
    i := 0;
    while i < |lines|
      invariant i <= MarkerAt(lines)
      invariant Reader(currentDomain, currentAs, domainToAs, asToDomain) == Run1(Start(), lines[..i])
    {
      var line := lines[i];
      if Contains(line, Marker) {
        break;
      }
      if StartsWith(line, "#") || StripSpace(line) == [] {
      } else if StartsWith(line, "    ") {
      } else if StartsWith(line, "  ") {
        currentAs := Some(StripSpace(line));
        domainToAs := AddTo(domainToAs, currentDomain, StripSpace(line));
      } else {
        currentDomain := Some(StripSpace(line));
      }
      assert lines[..i + 1][..i] == lines[..i];
      i := i + 1;
    }
  }

  /** The second loop (cluster-to-sfdp.py:41-54), continuing from the given state. */
  method ReadSecondSection(rest: seq<string>, domain0: Key, as0: Key, d2a0: Index, a2d0: Index)
    returns (currentDomain: Key, currentAs: Key, domainToAs: Index, asToDomain: Index)
    ensures Reader(currentDomain, currentAs, domainToAs, asToDomain) == Run2(Reader(domain0, as0, d2a0, a2d0), rest)
  {
    currentDomain, currentAs, domainToAs, asToDomain := domain0, as0, d2a0, a2d0;
    var j := 0;
    while j < |rest|
      invariant 0 <= j <= |rest|
      invariant Reader(currentDomain, currentAs, domainToAs, asToDomain)
             == Run2(Reader(domain0, as0, d2a0, a2d0), rest[..j])
    {
      var line := rest[j];
      if StartsWith(line, "#") || StripSpace(line) == [] {
      } else if StartsWith(line, "  ") {
        currentDomain := Some(StripSpace(line));
        asToDomain := AddTo(asToDomain, currentAs, StripSpace(line));
      } else {
        currentAs := Some(StripSpace(line));
      }
      assert rest[..j + 1][..j] == rest[..j];
      j := j + 1;
    }
    assert rest[..j] == rest;
  }

  /** Feeding two pieces of input to a loop is feeding their concatenation. */
  lemma {:induction false} Run1Append(r: Reader, xs: seq<string>, ys: seq<string>)
    ensures Run1(r, xs + ys) == Run1(Run1(r, xs), ys)
  {
    if ys == [] {
      assert xs + ys == xs;
    } else {
      assert (xs + ys)[..|xs + ys| - 1] == xs + ys[..|ys| - 1];
      Run1Append(r, xs, ys[..|ys| - 1]);
    }
  }

  lemma {:induction false} Run2Append(r: Reader, xs: seq<string>, ys: seq<string>)
    ensures Run2(r, xs + ys) == Run2(Run2(r, xs), ys)
  {
    if ys == [] {
      assert xs + ys == xs;
    } else {
      assert (xs + ys)[..|xs + ys| - 1] == xs + ys[..|ys| - 1];
      Run2Append(r, xs, ys[..|ys| - 1]);
    }
  }

  /** In the first section, comments, blank lines and four-space (ip) lines can be inserted
      anywhere without changing anything. */
  lemma Run1Ignores(r: Reader, xs: seq<string>, line: string, ys: seq<string>)
    requires Skippable(line) || StartsWith(line, "    ")
    ensures Run1(r, xs + [line] + ys) == Run1(r, xs + ys)
  {
    Run1Append(r, xs + [line], ys);
    Run1Append(r, xs, [line]);
    Run1Append(r, xs, ys);
    assert [line][..0] == [];
  }

  /** In the second section, comments and blank lines can be inserted anywhere without changing
      anything. */
  lemma Run2Ignores(r: Reader, xs: seq<string>, line: string, ys: seq<string>)
    requires Skippable(line)
    ensures Run2(r, xs + [line] + ys) == Run2(r, xs + ys)
  {
    Run2Append(r, xs + [line], ys);
    Run2Append(r, xs, [line]);
    Run2Append(r, xs, ys);
    assert [line][..0] == [];
  }

  /** The first line holding the marker ends the first section and is itself read by neither
      loop, whatever else it says. */
  lemma ParseAtMarker(pre: seq<string>, line: string, post: seq<string>)
    requires forall j :: 0 <= j < |pre| ==> !Contains(pre[j], Marker)
    requires Contains(line, Marker)
    ensures Parse(pre + [line] + post) == Run2(Reset(Run1(Start(), pre)), post)
  {
    var lines := pre + [line] + post;
    assert forall j :: 0 <= j < |pre| ==> lines[j] == pre[j];
    assert lines[|pre|] == line;
    MarkerAtIs(lines, |pre|);
    assert lines[..|pre|] == pre;
    assert lines[|pre| + 1..] == post;
  }

  /** The kinds of a sequence of lines, as the first loop sees them. */
  function Kinds1(lines: seq<string>): (ks: seq<Kind>)
    ensures |ks| == |lines|
    ensures forall j :: 0 <= j < |lines| ==> ks[j] == Kind1(lines[j])
  {
    if lines == [] then [] else Kinds1(lines[..|lines| - 1]) + [Kind1(lines[|lines| - 1])]
  }

  /** The first loop over lines of known kinds. */
  function Fold1(r: Reader, ks: seq<Kind>): Reader {
    if ks == [] then r else Apply1(Fold1(r, ks[..|ks| - 1]), ks[|ks| - 1])
  }

  /** The first loop depends on a line only through its kind. */
  lemma {:induction false} Run1Kinds(r: Reader, lines: seq<string>)
    ensures Run1(r, lines) == Fold1(r, Kinds1(lines))
  {
    if lines != [] {
      Run1Kinds(r, lines[..|lines| - 1]);
      assert Kinds1(lines)[..|lines| - 1] == Kinds1(lines[..|lines| - 1]);
    }
  }

  /** `current_domain` is the name on the most recent unindented line, or is unchanged if
      there is none. */
  lemma {:induction false} Fold1Cursor(r: Reader, ks: seq<Kind>)
    ensures var c := Fold1(r, ks).currentDomain;
      || (c == r.currentDomain && forall j :: 0 <= j < |ks| ==> !ks[j].Heading?)
      || (exists j :: && 0 <= j < |ks| && ks[j].Heading? && c == Some(ks[j].name)
                       && forall k :: j < k < |ks| ==> !ks[k].Heading?)
  {
    if ks != [] {
      var init, last := ks[..|ks| - 1], ks[|ks| - 1];
      var before := Fold1(r, init);
      var c := Fold1(r, ks).currentDomain;
      if last.Heading? {
        var j := |ks| - 1;
        assert ks[j].Heading? && c == Some(ks[j].name);
      } else {
        assert c == before.currentDomain;
        Fold1Cursor(r, init);
        if before.currentDomain == r.currentDomain && forall j :: 0 <= j < |init| ==> !init[j].Heading? {
          forall j | 0 <= j < |ks| ensures !ks[j].Heading? {
            if j < |init| { assert ks[j] == init[j]; }
          }
        } else {
          var j :| && 0 <= j < |init| && init[j].Heading? && before.currentDomain == Some(init[j].name)
                   && forall k :: j < k < |init| ==> !init[k].Heading?;
          assert ks[j] == init[j];
          forall k | j < k < |ks| ensures !ks[k].Heading? {
            if k < |init| { assert ks[k] == init[k]; }
          }
        }
      }
    }
  }

  /** An asn is in `domain_to_as[key]` exactly when it already was, or some indented line
      carrying it was read while the cursor held `key`. */
  lemma {:induction false} Fold1Members(r: Reader, ks: seq<Kind>, key: Key, asn: string)
    ensures asn in Get(Fold1(r, ks).domainToAs, key, {}) <==>
      || asn in Get(r.domainToAs, key, {})
      || exists j :: 0 <= j < |ks| && ks[j] == Indented(asn) && Fold1(r, ks[..j]).currentDomain == key
  {
    if ks != [] {
      var init, last := ks[..|ks| - 1], ks[|ks| - 1];
      var before := Fold1(r, init);
      Fold1Members(r, init, key, asn);
      assert ks[..|init|] == init;
      if asn in Get(Fold1(r, ks).domainToAs, key, {}) && asn !in Get(r.domainToAs, key, {}) {
        if asn in Get(before.domainToAs, key, {}) {
          var j :| 0 <= j < |init| && init[j] == Indented(asn) && Fold1(r, init[..j]).currentDomain == key;
          assert ks[j] == init[j] && ks[..j] == init[..j];
        } else {
          assert ks[|init|] == Indented(asn) && Fold1(r, ks[..|init|]).currentDomain == key;
        }
      }
      if exists j :: 0 <= j < |ks| && ks[j] == Indented(asn) && Fold1(r, ks[..j]).currentDomain == key {
        var j :| 0 <= j < |ks| && ks[j] == Indented(asn) && Fold1(r, ks[..j]).currentDomain == key;
        if j < |init| {
          assert init[j] == ks[j] && init[..j] == ks[..j];
        }
      }
    }
  }

  /** A cursor value is a key of `domain_to_as` exactly when it already was, or some indented
      line was read while the cursor held it: a domain with no asn line after it never
      becomes a key. */
  lemma {:induction false} Fold1Keys(r: Reader, ks: seq<Kind>, key: Key)
    ensures key in Fold1(r, ks).domainToAs.m <==>
      || key in r.domainToAs.m
      || exists j :: 0 <= j < |ks| && ks[j].Indented? && Fold1(r, ks[..j]).currentDomain == key
  {
    if ks != [] {
      var init, last := ks[..|ks| - 1], ks[|ks| - 1];
      var before := Fold1(r, init);
      Fold1Keys(r, init, key);
      assert ks[..|init|] == init;
      if key in Fold1(r, ks).domainToAs.m && key !in r.domainToAs.m {
        if key in before.domainToAs.m {
          var j :| 0 <= j < |init| && init[j].Indented? && Fold1(r, init[..j]).currentDomain == key;
          assert ks[j] == init[j] && ks[..j] == init[..j];
        } else {
          assert ks[|init|].Indented? && Fold1(r, ks[..|init|]).currentDomain == key;
        }
      }
      if exists j :: 0 <= j < |ks| && ks[j].Indented? && Fold1(r, ks[..j]).currentDomain == key {
        var j :| 0 <= j < |ks| && ks[j].Indented? && Fold1(r, ks[..j]).currentDomain == key;
        if j < |init| {
          assert init[j] == ks[j] && init[..j] == ks[..j];
        }
      }
    }
  }

  /** The kinds of a sequence of lines, as the second loop sees them. */
  function Kinds2(lines: seq<string>): (ks: seq<Kind>)
    ensures |ks| == |lines|
    ensures forall j :: 0 <= j < |lines| ==> ks[j] == Kind2(lines[j])
  {
    if lines == [] then [] else Kinds2(lines[..|lines| - 1]) + [Kind2(lines[|lines| - 1])]
  }

  /** The second loop over lines of known kinds. */
  function Fold2(r: Reader, ks: seq<Kind>): Reader {
    if ks == [] then r else Apply2(Fold2(r, ks[..|ks| - 1]), ks[|ks| - 1])
  }

  /** The second loop depends on a line only through its kind. */
  lemma {:induction false} Run2Kinds(r: Reader, lines: seq<string>)
    ensures Run2(r, lines) == Fold2(r, Kinds2(lines))
  {
    if lines != [] {
      Run2Kinds(r, lines[..|lines| - 1]);
      assert Kinds2(lines)[..|lines| - 1] == Kinds2(lines[..|lines| - 1]);
    }
  }

  /** A domain is in `as_to_domain[key]` exactly when it already was, or some indented line
      carrying it was read while the asn cursor held `key`; the second loop never touches
      `domain_to_as`. */
  lemma {:induction false} Fold2Members(r: Reader, ks: seq<Kind>, key: Key, domain: string)
    ensures Fold2(r, ks).domainToAs == r.domainToAs
    ensures domain in Get(Fold2(r, ks).asToDomain, key, {}) <==>
      || domain in Get(r.asToDomain, key, {})
      || exists j :: 0 <= j < |ks| && ks[j] == Indented(domain) && Fold2(r, ks[..j]).currentAs == key
  {
    if ks != [] {
      var init := ks[..|ks| - 1];
      var before := Fold2(r, init);
      Fold2Members(r, init, key, domain);
      assert ks[..|init|] == init;
      if domain in Get(Fold2(r, ks).asToDomain, key, {}) && domain !in Get(r.asToDomain, key, {}) {
        if domain in Get(before.asToDomain, key, {}) {
          var j :| 0 <= j < |init| && init[j] == Indented(domain) && Fold2(r, init[..j]).currentAs == key;
          assert ks[j] == init[j] && ks[..j] == init[..j];
        } else {
          assert ks[|init|] == Indented(domain) && Fold2(r, ks[..|init|]).currentAs == key;
        }
      }
      if exists j :: 0 <= j < |ks| && ks[j] == Indented(domain) && Fold2(r, ks[..j]).currentAs == key {
        var j :| 0 <= j < |ks| && ks[j] == Indented(domain) && Fold2(r, ks[..j]).currentAs == key;
        if j < |init| {
          assert init[j] == ks[j] && init[..j] == ks[..j];
        }
      }
    }
  }

  /** The second loop mirrors the first: a cursor value becomes a key of `as_to_domain` exactly
      when some indented line is read while `current_as` holds it, so an asn with no domain
      line after it never becomes a key. */
  lemma {:induction false} Fold2Keys(r: Reader, ks: seq<Kind>, key: Key)
    ensures key in Fold2(r, ks).asToDomain.m <==>
      || key in r.asToDomain.m
      || exists j :: 0 <= j < |ks| && ks[j].Indented? && Fold2(r, ks[..j]).currentAs == key
  {
    if ks != [] {
      var init := ks[..|ks| - 1];
      var before := Fold2(r, init);
      Fold2Keys(r, init, key);
      assert ks[..|init|] == init;
      if key in Fold2(r, ks).asToDomain.m && key !in r.asToDomain.m {
        if key in before.asToDomain.m {
          var j :| 0 <= j < |init| && init[j].Indented? && Fold2(r, init[..j]).currentAs == key;
          assert ks[j] == init[j] && ks[..j] == init[..j];
        } else {
          assert ks[|init|].Indented? && Fold2(r, ks[..|init|]).currentAs == key;
        }
      }
      if exists j :: 0 <= j < |ks| && ks[j].Indented? && Fold2(r, ks[..j]).currentAs == key {
        var j :| 0 <= j < |ks| && ks[j].Indented? && Fold2(r, ks[..j]).currentAs == key;
        if j < |init| {
          assert init[j] == ks[j] && init[..j] == ks[..j];
        }
      }
    }
  }

  /** `current_as` is the name on the most recent unindented line of the second section, or is
      unchanged if there is none. */
  lemma {:induction false} Fold2Cursor(r: Reader, ks: seq<Kind>)
    ensures var c := Fold2(r, ks).currentAs;
      || (c == r.currentAs && forall j :: 0 <= j < |ks| ==> !ks[j].Heading?)
      || (exists j :: && 0 <= j < |ks| && ks[j].Heading? && c == Some(ks[j].name)
                       && forall k :: j < k < |ks| ==> !ks[k].Heading?)
  {
    if ks != [] {
      var init, last := ks[..|ks| - 1], ks[|ks| - 1];
      var before := Fold2(r, init);
      var c := Fold2(r, ks).currentAs;
      if last.Heading? {
        var j := |ks| - 1;
        assert ks[j].Heading? && c == Some(ks[j].name);
      } else {
        assert c == before.currentAs;
        Fold2Cursor(r, init);
        if before.currentAs == r.currentAs && forall j :: 0 <= j < |init| ==> !init[j].Heading? {
          forall j | 0 <= j < |ks| ensures !ks[j].Heading? {
            if j < |init| { assert ks[j] == init[j]; }
          }
        } else {
          var j :| && 0 <= j < |init| && init[j].Heading? && before.currentAs == Some(init[j].name)
                   && forall k :: j < k < |init| ==> !init[k].Heading?;
          assert ks[j] == init[j];
          forall k | j < k < |ks| ensures !ks[k].Heading? {
            if k < |init| { assert ks[k] == init[k]; }
          }
        }
      }
    }
  }

  /** Both indices of a reader are well-formed dicts (each key listed once). */
  ghost predicate WellFormed(r: Reader) {
    Valid(r.domainToAs) && Valid(r.asToDomain)
  }

  /** `index[key].add(x)` keeps a dict well formed. */
  lemma AddToValid(index: Index, key: Key, x: string)
    requires Valid(index)
    ensures Valid(AddTo(index, key, x))
  {
    PutValid(index, key, Get(index, key, {}) + {x});
  }

  lemma {:induction false} Run1WellFormed(r: Reader, lines: seq<string>)
    requires WellFormed(r)
    ensures WellFormed(Run1(r, lines))
  {
    if lines != [] {
      var before := Run1(r, lines[..|lines| - 1]);
      Run1WellFormed(r, lines[..|lines| - 1]);
      match Kind1(lines[|lines| - 1])
      case Indented(asn) => AddToValid(before.domainToAs, before.currentDomain, asn);
      case _ =>
    }
  }

  lemma {:induction false} Run2WellFormed(r: Reader, lines: seq<string>)
    requires WellFormed(r)
    ensures WellFormed(Run2(r, lines))
  {
    if lines != [] {
      var before := Run2(r, lines[..|lines| - 1]);
      Run2WellFormed(r, lines[..|lines| - 1]);
      match Kind2(lines[|lines| - 1])
      case Indented(domain) => AddToValid(before.asToDomain, before.currentAs, domain);
      case _ =>
    }
  }

  /** Whatever the input, the two indices the converter builds list each key once. */
  lemma ParseValid(lines: seq<string>)
    ensures Valid(Parse(lines).domainToAs) && Valid(Parse(lines).asToDomain)
  {
    var k := MarkerAt(lines);
    var rest := if k < |lines| then lines[k + 1..] else [];
    Run1WellFormed(Start(), lines[..k]);
    Run2WellFormed(Reset(Run1(Start(), lines[..k])), rest);
  }
}
