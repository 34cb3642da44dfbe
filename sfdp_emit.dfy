/** The writing half of cluster-to-sfdp.py: the digraph it prints from the two indices it read
    (cluster-to-sfdp.py:56-71). */
module SfdpEmit {
  import opened Wrappers
  import opened PyDict
  import opened SfdpParse

  const Opening: string := "digraph G_component_0 {"
  const Closing: string := "}"

  /** `'{}'.format(key)`: a cursor that was never set prints as `None`. */
  function Show(k: Key): string {
    match k
    case None => "None"
    case Some(x) => x
  }

  /** One node statement, filled with `color`. */
  function NodeLine(name: string, color: string): string {
    "\t\"" + name + "\" [label=\"" + name + "\", shape=box, style=filled, color=" + color + "];"
  }

  /** One edge statement from a domain to an asn. */
  function EdgeLine(domain: string, asn: string): string {
    "\t\"" + domain + "\" -> \"" + asn + "\" [label=\" \", color=black, arrowhead=dot];"
  }

  /** A node line for each key, in order. */
  function NodeLines(ks: seq<Key>, color: string): (r: seq<string>)
    ensures |r| == |ks|
    ensures forall j :: 0 <= j < |ks| ==> r[j] == NodeLine(Show(ks[j]), color)
  {
    if ks == [] then [] else NodeLines(ks[..|ks| - 1], color) + [NodeLine(Show(ks[|ks| - 1]), color)]
  }

  /** The pairs the inner edge loop visits for one key, members in the order `xs`. */
  function Pairs(k: Key, xs: seq<string>): seq<(Key, string)> {
    if xs == [] then [] else Pairs(k, xs[..|xs| - 1]) + [(k, xs[|xs| - 1])]
  }

  /** The pairs both edge loops visit: keys in order, the `j`-th set in `orders[j]`. */
  function Edges(ks: seq<Key>, orders: seq<seq<string>>): seq<(Key, string)>
    requires |orders| == |ks|
  {
    if ks == [] then []
    else Edges(ks[..|ks| - 1], orders[..|ks| - 1]) + Pairs(ks[|ks| - 1], orders[|ks| - 1])
  }

  /** An edge line per pair, in order. */
  function EdgeLines(es: seq<(Key, string)>): seq<string> {
    if es == [] then [] else EdgeLines(es[..|es| - 1]) + [EdgeLine(Show(es[|es| - 1].0), es[|es| - 1].1)]
  }

  /** Everything printed: the opening line, a blue node per key of `domain_to_as`, a green node
      per key of `as_to_domain`, an edge per pair of `domain_to_as`, the closing brace. */
  function GraphLines(domainToAs: Index, asToDomain: Index, orders: seq<seq<string>>): seq<string>
    requires |orders| == |domainToAs.keys|
  {
    [Opening] + NodeLines(domainToAs.keys, "blue") + NodeLines(asToDomain.keys, "green")
    + EdgeLines(Edges(domainToAs.keys, orders)) + [Closing]
  }

  /** The print loops of cluster-to-sfdp.py:57-71. Dict keys come out in insertion order; each
      set comes out in whatever order iterating it gives, recorded in `orders`. */
  method EmitGraph(domainToAs: Index, asToDomain: Index) returns (lines: seq<string>, ghost orders: seq<seq<string>>)
    ensures IterationOrders(domainToAs, orders)
    ensures lines == GraphLines(domainToAs, asToDomain, orders)
  {
    var blue := EmitNodes(domainToAs.keys, "blue");
    var green := EmitNodes(asToDomain.keys, "green");
    var edges;
    edges, orders := EmitAllEdges(domainToAs);
    lines := [Opening] + blue + green + edges + [Closing];
  }

  /** `for key in index: print(<node line>)` */
  method EmitNodes(ks: seq<Key>, color: string) returns (lines: seq<string>)
    ensures lines == NodeLines(ks, color)
  {
    lines := [];
    for i := 0 to |ks|
      invariant lines == NodeLines(ks[..i], color)
    {
      assert ks[..i + 1][..i] == ks[..i];
      lines := lines + [NodeLine(Show(ks[i]), color)];
    }
    assert ks[..|ks|] == ks;
  }

  /** The nested edge loops of cluster-to-sfdp.py:66-68. */
  method EmitAllEdges(domainToAs: Index) returns (lines: seq<string>, ghost orders: seq<seq<string>>)
    ensures IterationOrders(domainToAs, orders)
    ensures lines == EdgeLines(Edges(domainToAs.keys, orders))
  {
    var ks := domainToAs.keys;
    lines, orders := [], [];
    for i := 0 to |ks|
      invariant |orders| == i
      invariant lines == EdgeLines(Edges(ks[..i], orders))
      invariant OrdersSoFar(domainToAs, orders)
    {
      ghost var order;
      var block;
      block, order := EmitEdges(ks[i], Get(domainToAs, ks[i], {}));
      EdgesSnoc(ks, orders, order);
      OrdersSnoc(domainToAs, orders, order);
      EdgeLinesAppend(Edges(ks[..i], orders), Pairs(ks[i], order));
      lines := lines + block;
      orders := orders + [order];
    }
    assert ks[..|ks|] == ks;
  }

  /** `for asn in domain_to_as[domain]: print(...)` */
  method EmitEdges(key: Key, members: set<string>) returns (lines: seq<string>, ghost order: seq<string>)
    ensures Enumerates(order, members)
    ensures lines == EdgeLines(Pairs(key, order))
  {
    lines, order := [], [];
    var rest := members;
    while rest != {}
      invariant rest <= members
      invariant Distinct(order)
      invariant forall x :: x in order <==> x in members && x !in rest
      invariant lines == EdgeLines(Pairs(key, order))
      decreases |rest|
    {
      var x :| x in rest;
      DistinctAppend(order, x);
      assert (order + [x])[..|order|] == order;
      EdgeLinesAppend(Pairs(key, order), [(key, x)]);
      lines := lines + [EdgeLine(Show(key), x)];
      order := order + [x];
      rest := rest - {x};
    }
  }

  /** `orders` are iteration orders of the sets under the first `|orders|` keys. */
  ghost predicate OrdersSoFar(d: Index, orders: seq<seq<string>>) {
    && |orders| <= |d.keys|
    && forall j :: 0 <= j < |orders| ==> Enumerates(orders[j], Get(d, d.keys[j], {}))
  }

  lemma OrdersSnoc(d: Index, orders: seq<seq<string>>, order: seq<string>)
    requires OrdersSoFar(d, orders) && |orders| < |d.keys|
    requires Enumerates(order, Get(d, d.keys[|orders|], {}))
    ensures OrdersSoFar(d, orders + [order])
  {
    var os := orders + [order];
    forall j | 0 <= j < |os| ensures Enumerates(os[j], Get(d, d.keys[j], {})) {
      if j < |orders| { assert os[j] == orders[j]; }
    }
  }

  /** One more turn of the outer edge loop adds the pairs of the next key. */
  lemma EdgesSnoc(ks: seq<Key>, orders: seq<seq<string>>, order: seq<string>)
    requires |orders| < |ks|
    ensures var i := |orders|;
      Edges(ks[..i + 1], orders + [order]) == Edges(ks[..i], orders) + Pairs(ks[i], order)
  {
    var i := |orders|;
    assert ks[..i + 1][..i] == ks[..i] && (orders + [order])[..i] == orders;
  }

  /** The edge lines of a concatenation are the lines of each part, in order. */
  lemma {:induction false} EdgeLinesAppend(xs: seq<(Key, string)>, ys: seq<(Key, string)>)
    ensures EdgeLines(xs + ys) == EdgeLines(xs) + EdgeLines(ys)
  {
    if ys == [] {
      assert xs + ys == xs;
    } else {
      var n := |ys| - 1;
      assert (xs + ys)[..|xs + ys| - 1] == xs + ys[..n];
      EdgeLinesAppend(xs, ys[..n]);
    }
  }

  /** An edge line for each pair, in order. */
  lemma {:induction false} EdgeLinesAre(es: seq<(Key, string)>)
    ensures |EdgeLines(es)| == |es|
    ensures forall j :: 0 <= j < |es| ==> EdgeLines(es)[j] == EdgeLine(Show(es[j].0), es[j].1)
  {
    if es != [] {
      EdgeLinesAre(es[..|es| - 1]);
    }
  }

  /** The pairs for one key are that key with each member, each once. */
  lemma {:induction false} PairsAre(k: Key, xs: seq<string>)
    ensures |Pairs(k, xs)| == |xs|
    ensures forall j :: 0 <= j < |xs| ==> Pairs(k, xs)[j] == (k, xs[j])
  {
    if xs != [] {
      PairsAre(k, xs[..|xs| - 1]);
    }
  }

  /** A pair is among the pairs for one key exactly when it carries that key and a member. */
  lemma PairsMembers(k: Key, xs: seq<string>, k': Key, x: string)
    ensures (k', x) in Pairs(k, xs) <==> k' == k && x in xs
  {
    PairsAre(k, xs);
    if k' == k && x in xs {
      var i :| 0 <= i < |xs| && xs[i] == x;
      assert Pairs(k, xs)[i] == (k', x);
    }
  }

  /** A pair is visited exactly when its asn is a member of its domain's set. */
  lemma {:induction false} EdgesMembers(ks: seq<Key>, orders: seq<seq<string>>, k: Key, x: string)
    requires |orders| == |ks|
    ensures (k, x) in Edges(ks, orders) <==> exists j :: 0 <= j < |ks| && ks[j] == k && x in orders[j]
  {
    if ks != [] {
      var n := |ks| - 1;
      var ks', orders' := ks[..n], orders[..n];
      EdgesMembers(ks', orders', k, x);
      PairsMembers(ks[n], orders[n], k, x);
      assert Edges(ks, orders) == Edges(ks', orders') + Pairs(ks[n], orders[n]);
      if exists j :: 0 <= j < n && ks[j] == k && x in orders[j] {
        var j :| 0 <= j < n && ks[j] == k && x in orders[j];
        assert ks'[j] == k && x in orders'[j];
      }
      if exists j :: 0 <= j < n && ks'[j] == k && x in orders'[j] {
        var j :| 0 <= j < n && ks'[j] == k && x in orders'[j];
        assert ks[j] == k && x in orders[j];
      }
    }
  }

  /** The pairs for the keys `ks` never repeat when the keys do not, nor any member order. */
  lemma {:induction false} EdgesDistinct(ks: seq<Key>, orders: seq<seq<string>>)
    requires |orders| == |ks| && Distinct(ks)
    requires forall j :: 0 <= j < |ks| ==> Distinct(orders[j])
    ensures Distinct(Edges(ks, orders))
  {
    if ks != [] {
      var n := |ks| - 1;
      var front, back := Edges(ks[..n], orders[..n]), Pairs(ks[n], orders[n]);
      DistinctIndexed(ks);
      DistinctIndexed(ks[..n]);
      EdgesDistinct(ks[..n], orders[..n]);
      PairsAre(ks[n], orders[n]);
      DistinctIndexed(orders[n]);
      DistinctIndexed(front);
      DistinctIndexed(back);
      var es := front + back;
      forall i, j | 0 <= i < j < |es| ensures es[i] != es[j] {
        if j < |front| {
          assert es[i] == front[i] && es[j] == front[j];
        } else if i >= |front| {
          assert es[i] == back[i - |front|] && es[j] == back[j - |front|];
        } else {
          assert es[i] == front[i] && es[j] == back[j - |front|];
          EdgesMembers(ks[..n], orders[..n], front[i].0, front[i].1);
          var m :| 0 <= m < n && ks[..n][m] == front[i].0 && front[i].1 in orders[..n][m];
          assert ks[m] == front[i].0 && ks[m] != ks[n];
        }
      }
      DistinctIndexed(es);
    }
  }

  /** The edge loops visit each (key, member) pair of the index exactly once: no duplicate
      edges, and no missing one. */
  lemma EdgesExactly(index: Index, orders: seq<seq<string>>, k: Key, x: string)
    requires Valid(index) && IterationOrders(index, orders)
    ensures Distinct(Edges(index.keys, orders))
    ensures (k, x) in Edges(index.keys, orders) <==> k in index.m && x in index.m[k]
  {
    EdgesDistinct(index.keys, orders);
    EdgesMembers(index.keys, orders, k, x);
    if k in index.m && x in index.m[k] {
      var j :| 0 <= j < |index.keys| && index.keys[j] == k;
      assert x in orders[j];
    }
  }

  /** For any input the converter reads, its edge loops print each (domain, asn) pair of
      `domain_to_as` exactly once. */
  lemma ParsedEdgesExactly(lines: seq<string>, orders: seq<seq<string>>, k: Key, x: string)
    requires IterationOrders(Parse(lines).domainToAs, orders)
    ensures var index := Parse(lines).domainToAs;
      && Distinct(Edges(index.keys, orders))
      && ((k, x) in Edges(index.keys, orders) <==> k in index.m && x in index.m[k])
  {
    ParseValid(lines);
    EdgesExactly(Parse(lines).domainToAs, orders, k, x);
  }
}
