/**
 * The graph the converter accumulates: a list of `{name, size, imports}` records in order of first
 * appearance, updated once per accepted RECV line.
 */
module Accumulator {

  /** One output record: a node name, its `size` counter and its `imports` list. */
  datatype Node = Node(name: string, size: int, imports: seq<string>)

  type Edge = (string, string)

  function Names(g: seq<Node>): (r: seq<string>)
    ensures |r| == |g| && forall i :: 0 <= i < |g| ==> r[i] == g[i].name
  {
    seq(|g|, i requires 0 <= i < |g| => g[i].name)
  }

  predicate Distinct<T(==)>(s: seq<T>)
  {
    forall i, j :: 0 <= i < j < |s| ==> s[i] != s[j]
  }

  /** What holds of the record list after every line: unique names, `size` counts `imports`, no repeated import. */
  predicate WellFormed(g: seq<Node>)
  {
    && Distinct(Names(g))
    && forall i :: 0 <= i < |g| ==> g[i].size == |g[i].imports| && Distinct(g[i].imports)
  }

  /** The in-place update of one record during the scan for `src` (one iteration of that scan). */
  function AddImport(n: Node, src: string, dst: string): Node
  {
    if n.name == src && dst !in n.imports then Node(n.name, n.size + 1, n.imports + [dst]) else n
  }

  function AddImports(g: seq<Node>, src: string, dst: string): (r: seq<Node>)
    ensures |r| == |g| && Names(r) == Names(g)
  {
    seq(|g|, i requires 0 <= i < |g| => AddImport(g[i], src, dst))
  }

  /** The effect of one accepted line with source name `src` and destination name `dst`. */
  function AddEdge(g: seq<Node>, src: string, dst: string): (r: seq<Node>)
    ensures |g| <= |r| <= |g| + 2
  {
    var g1 := if src in Names(g) then AddImports(g, src, dst) else g + [Node(src, 1, [dst])];
    if dst in Names(g1) then g1 else g1 + [Node(dst, 0, [])]
  }

  lemma NamesAppend(g: seq<Node>, n: Node)
    ensures Names(g + [n]) == Names(g) + [n.name]
  {
  }

  /**
   * Records are only appended: the existing ones keep their place and only `src`'s can change, by
   * gaining `dst`; then come a new `src` record and a new `dst` record, each only if missing.
   */
  lemma AddEdgeShape(g: seq<Node>, src: string, dst: string)
    ensures var r := AddEdge(g, src, dst);
      && |r| >= |g|
      && (forall i :: 0 <= i < |g| ==> r[i] == AddImport(g[i], src, dst))
      && r[|g|..] == (if src in Names(g) then [] else [Node(src, 1, [dst])])
                   + (if dst in Names(g) || dst == src then [] else [Node(dst, 0, [])])
  {
    var g1 := if src in Names(g) then AddImports(g, src, dst) else g + [Node(src, 1, [dst])];
    if src !in Names(g) {
      NamesAppend(g, Node(src, 1, [dst]));
      forall i | 0 <= i < |g| ensures g[i] == AddImport(g[i], src, dst) {
        assert g[i].name == Names(g)[i];
      }
    }
    assert dst in Names(g1) <==> dst in Names(g) || (src !in Names(g) && dst == src);
    if dst !in Names(g1) {
      NamesAppend(g1, Node(dst, 0, []));
    }
  }

  lemma AddEdgeLength(g: seq<Node>, src: string, dst: string)
    ensures |AddEdge(g, src, dst)|
      == |g| + (if src in Names(g) then 0 else 1) + (if dst in Names(g) || dst == src then 0 else 1)
  {
    AddEdgeShape(g, src, dst);
  }

  /** The records appended after the existing ones: `src`'s first, if new, then `dst`'s. */
  lemma AddEdgeAppended(g: seq<Node>, src: string, dst: string, i: nat)
    requires |g| <= i < |AddEdge(g, src, dst)|
    ensures AddEdge(g, src, dst)[i]
      == if i == |g| && src !in Names(g) then Node(src, 1, [dst]) else Node(dst, 0, [])
  {
    var r := AddEdge(g, src, dst);
    AddEdgeShape(g, src, dst);
    assert r[i] == r[|g|..][i - |g|];
  }

  /** Self-loops are not excluded: a new name sending to itself gets one record importing itself. */
  lemma AddEdgeSelfLoop(g: seq<Node>, n: string)
    requires n !in Names(g)
    ensures AddEdge(g, n, n) == g + [Node(n, 1, [n])]
  {
    NamesAppend(g, Node(n, 1, [n]));
  }

  /** Afterwards both `src` and `dst` have a record. */
  lemma AddEdgeHasNames(g: seq<Node>, src: string, dst: string)
    ensures src in Names(AddEdge(g, src, dst)) && dst in Names(AddEdge(g, src, dst))
  {
    var r := AddEdge(g, src, dst);
    var nr := Names(r);
    assert |r| >= |g| && forall i :: 0 <= i < |g| ==> nr[i] == Names(g)[i] by {
      AddEdgeShape(g, src, dst);
    }
    if src in Names(g) {
      var i :| 0 <= i < |g| && Names(g)[i] == src;
      assert nr[i] == src;
    } else {
      AddEdgeAppended(g, src, dst, |g|);
      assert nr[|g|] == src;
    }
    if dst in Names(g) {
      var i :| 0 <= i < |g| && Names(g)[i] == dst;
      assert nr[i] == dst;
    } else if dst != src {
      var k := if src in Names(g) then |g| else |g| + 1;
      AddEdgeLength(g, src, dst);
      AddEdgeAppended(g, src, dst, k);
      assert nr[k] == dst;
    }
  }

  /** Afterwards every `src` record lists `dst` among its imports. */
  lemma AddEdgeSrcImports(g: seq<Node>, src: string, dst: string)
    ensures var r := AddEdge(g, src, dst);
      forall i :: 0 <= i < |r| && r[i].name == src ==> dst in r[i].imports
  {
    var r := AddEdge(g, src, dst);
    forall i | 0 <= i < |r| && r[i].name == src ensures dst in r[i].imports {
      if i < |g| {
        AddEdgeShape(g, src, dst);
      } else {
        AddEdgeLength(g, src, dst);
        AddEdgeAppended(g, src, dst, i);
      }
    }
  }

  /** Adding a fresh import to one record keeps `size == |imports|` and the imports distinct. */
  lemma AddImportWellFormed(n: Node, src: string, dst: string)
    requires n.size == |n.imports| && Distinct(n.imports)
    ensures var m := AddImport(n, src, dst); m.size == |m.imports| && Distinct(m.imports)
  {
    if n.name == src && dst !in n.imports {
      var im := n.imports + [dst];
      forall a, b | 0 <= a < b < |im| ensures im[a] != im[b] {
        if b == |n.imports| { assert im[a] == n.imports[a]; assert n.imports[a] in n.imports; }
      }
    }
  }

  lemma AddEdgeNamesDistinct(g: seq<Node>, src: string, dst: string)
    requires Distinct(Names(g))
    ensures Distinct(Names(AddEdge(g, src, dst)))
  {
    var r := AddEdge(g, src, dst);
    AddEdgeShape(g, src, dst);
    var tail := r[|g|..];
    var nr, ng := Names(r), Names(g);
    forall i | 0 <= i < |g| ensures nr[i] == ng[i] {
      assert r[i] == AddImport(g[i], src, dst);
    }
    forall i, j | 0 <= i < j < |r| ensures nr[i] != nr[j] {
      if j >= |g| {
        assert r[j] == tail[j - |g|];
        if i < |g| {
          assert ng[i] in ng;
        } else {
          assert r[i] == tail[i - |g|];
        }
      }
    }
  }

  /** Every accepted line keeps the record list well formed. */
  lemma AddEdgeWellFormed(g: seq<Node>, src: string, dst: string)
    requires WellFormed(g)
    ensures WellFormed(AddEdge(g, src, dst))
  {
    var r := AddEdge(g, src, dst);
    AddEdgeNamesDistinct(g, src, dst);
    AddEdgeShape(g, src, dst);
    forall i | 0 <= i < |r| ensures r[i].size == |r[i].imports| && Distinct(r[i].imports) {
      if i < |g| {
        AddImportWellFormed(g[i], src, dst);
      } else {
        assert r[i] == r[|g|..][i - |g|];
      }
    }
  }

  /** Processing the same pair again changes nothing. */
  lemma AddEdgeIdempotent(g: seq<Node>, src: string, dst: string)
    ensures AddEdge(AddEdge(g, src, dst), src, dst) == AddEdge(g, src, dst)
  {
    var r := AddEdge(g, src, dst);
    AddEdgeHasNames(g, src, dst);
    AddEdgeSrcImports(g, src, dst);
    var r2 := AddImports(r, src, dst);
    assert r2 == r by {
      forall i | 0 <= i < |r| ensures r2[i] == r[i] {
        if r[i].name == src { assert dst in r[i].imports; }
      }
    }
  }

  // ---------------------------------------------------------------------------------------------
  // The graph built from a sequence of accepted (source, destination) pairs, and a reference
  // description of it that does not mention any update: first-appearance order of all endpoints,
  // and for each node the distinct destinations it sent to, in first-appearance order.

  function Build(edges: seq<Edge>): (r: seq<Node>)
    ensures |r| <= 2 * |edges|
  {
    if edges == [] then []
    else
      var e := edges[|edges| - 1];
      AddEdge(Build(edges[..|edges| - 1]), e.0, e.1)
  }

  /** One more pair is one more update of the records built so far. */
  lemma BuildSnoc(es: seq<Edge>, src: string, dst: string)
    ensures Build(es + [(src, dst)]) == AddEdge(Build(es), src, dst)
  {
    assert (es + [(src, dst)])[..|es|] == es;
  }

  /** Every name mentioned, source then destination, pair after pair. */
  function Endpoints(edges: seq<Edge>): seq<string>
  {
    if edges == [] then []
    else
      var e := edges[|edges| - 1];
      Endpoints(edges[..|edges| - 1]) + [e.0, e.1]
  }

  /** The destinations of the pairs whose source is `n`, repeats included. */
  function Destinations(edges: seq<Edge>, n: string): seq<string>
  {
    if edges == [] then []
    else
      var e := edges[|edges| - 1];
      Destinations(edges[..|edges| - 1], n) + (if e.0 == n then [e.1] else [])
  }

  /** The first occurrence of each element, in order. */
  function Dedup(xs: seq<string>): seq<string>
  {
    if xs == [] then []
    else
      var d := Dedup(xs[..|xs| - 1]);
      var x := xs[|xs| - 1];
      if x in d then d else d + [x]
  }

  /** `Dedup` keeps exactly the elements of its input, each once. */
  lemma {:induction false} DedupFacts(xs: seq<string>)
    ensures Distinct(Dedup(xs))
    ensures forall x :: x in Dedup(xs) <==> x in xs
  {
    if xs != [] {
      var pre, x := xs[..|xs| - 1], xs[|xs| - 1];
      DedupFacts(pre);
      var d := Dedup(pre);
      assert xs == pre + [x];
      if x !in d {
        var r := d + [x];
        forall i, j | 0 <= i < j < |r| ensures r[i] != r[j] {
          if j == |d| { assert r[i] == d[i] && d[i] in d; }
        }
      }
    }
  }

  function ReferenceNode(edges: seq<Edge>, n: string): Node
  {
    var im := Dedup(Destinations(edges, n));
    Node(n, |im|, im)
  }

  function Reference(edges: seq<Edge>): seq<Node>
  {
    var ns := Dedup(Endpoints(edges));
    seq(|ns|, i requires 0 <= i < |ns| => ReferenceNode(edges, ns[i]))
  }

  lemma DedupSnoc(xs: seq<string>, x: string)
    ensures Dedup(xs + [x]) == if x in xs then Dedup(xs) else Dedup(xs) + [x]
  {
    DedupFacts(xs);
    assert (xs + [x])[..|xs|] == xs;
  }

  lemma {:induction false} NoDestinationsOfStranger(edges: seq<Edge>, n: string)
    requires n !in Endpoints(edges)
    ensures Destinations(edges, n) == []
  {
    if edges != [] {
      var pre := edges[..|edges| - 1];
      assert Endpoints(edges) == Endpoints(pre) + [edges[|edges| - 1].0, edges[|edges| - 1].1];
      NoDestinationsOfStranger(pre, n);
    }
  }

  lemma {:induction false} DestinationsAreEndpoints(edges: seq<Edge>, n: string)
    ensures forall d :: d in Destinations(edges, n) ==> d in Endpoints(edges)
  {
    if edges != [] {
      DestinationsAreEndpoints(edges[..|edges| - 1], n);
    }
  }

  /** An already known name's reference record gains the new destination exactly as `AddImport` says. */
  lemma ReferenceNodeStep(edges: seq<Edge>, src: string, dst: string, n: string)
    ensures ReferenceNode(edges + [(src, dst)], n) == AddImport(ReferenceNode(edges, n), src, dst)
  {
    var edges' := edges + [(src, dst)];
    assert edges'[..|edges|] == edges;
    assert Destinations(edges', n) == Destinations(edges, n) + (if src == n then [dst] else []);
    if src == n {
      DedupSnoc(Destinations(edges, n), dst);
    } else {
      assert Destinations(edges', n) == Destinations(edges, n);
    }
  }

  /** The record a new name gets: a sender starts with one import, a receiver with none. */
  function FreshRecord(n: string, src: string, dst: string): Node
  {
    if n == src then Node(src, 1, [dst]) else Node(dst, 0, [])
  }

  /** The reference record of a name first seen in the new pair. */
  lemma ReferenceNodeNew(edges: seq<Edge>, src: string, dst: string, n: string)
    requires n !in Endpoints(edges) && (n == src || n == dst)
    ensures ReferenceNode(edges + [(src, dst)], n) == FreshRecord(n, src, dst)
  {
    var edges' := edges + [(src, dst)];
    assert edges'[..|edges|] == edges;
    NoDestinationsOfStranger(edges, n);
    assert Destinations(edges', n) == if n == src then [dst] else [];
    DedupSnoc([], dst);
    assert [] + [dst] == [dst];
  }

  /** The names `AddEdge` appends, in order: `src` if new, then `dst` if new and distinct. */
  function NewNames(known: seq<string>, src: string, dst: string): seq<string>
  {
    (if src in known then [] else [src]) + (if dst in known || dst == src then [] else [dst])
  }

  lemma NewNamesFacts(known: seq<string>, src: string, dst: string)
    ensures |NewNames(known, src, dst)| <= 2
    ensures forall x :: x in NewNames(known, src, dst) ==> x !in known && (x == src || x == dst)
  {
  }

  /** The names of the reference after a new pair: the old ones, then `src` and `dst` if new. */
  lemma ReferenceNamesStep(edges: seq<Edge>, src: string, dst: string)
    ensures Dedup(Endpoints(edges + [(src, dst)])) == Dedup(Endpoints(edges)) + NewNames(Endpoints(edges), src, dst)
  {
    var edges' := edges + [(src, dst)];
    assert edges'[..|edges|] == edges;
    var E := Endpoints(edges);
    var E1 := E + [src];
    assert Endpoints(edges') == E1 + [dst];
    var A := if src in E then [] else [src];
    var B := if dst in E || dst == src then [] else [dst];
    assert Dedup(E1) == Dedup(E) + A by {
      DedupSnoc(E, src);
    }
    assert Dedup(E1 + [dst]) == Dedup(E1) + B by {
      assert dst in E1 <==> dst in E || dst == src;
      DedupSnoc(E1, dst);
    }
    assert Dedup(E) + A + B == Dedup(E) + NewNames(E, src, dst);
  }

  /** The reference record of each name already known is updated by `AddImport`. */
  lemma ReferenceStepOld(edges: seq<Edge>, src: string, dst: string, i: nat)
    requires i < |Reference(edges)|
    ensures i < |AddEdge(Reference(edges), src, dst)| && i < |Reference(edges + [(src, dst)])|
    ensures AddEdge(Reference(edges), src, dst)[i] == Reference(edges + [(src, dst)])[i]
  {
    var ns := Dedup(Endpoints(edges));
    var g := Reference(edges);
    AddEdgeShape(g, src, dst);
    ReferenceNamesStep(edges, src, dst);
    assert Dedup(Endpoints(edges + [(src, dst)]))[i] == ns[i];
    ReferenceNodeStep(edges, src, dst, ns[i]);
  }

  lemma ReferenceNames(edges: seq<Edge>)
    ensures Names(Reference(edges)) == Dedup(Endpoints(edges))
    ensures forall x :: x in Names(Reference(edges)) <==> x in Endpoints(edges)
  {
    DedupFacts(Endpoints(edges));
  }

  /** Each appended record is the fresh record of the corresponding new name. */
  lemma AddEdgeNewRecord(g: seq<Node>, src: string, dst: string, i: nat)
    requires |g| <= i < |AddEdge(g, src, dst)|
    ensures |AddEdge(g, src, dst)| == |g| + |NewNames(Names(g), src, dst)|
    ensures AddEdge(g, src, dst)[i] == FreshRecord(NewNames(Names(g), src, dst)[i - |g|], src, dst)
  {
    AddEdgeLength(g, src, dst);
    AddEdgeAppended(g, src, dst, i);
  }

  /** The reference has one record per name, in the order of the names. */
  lemma ReferenceAt(edges: seq<Edge>, k: nat)
    requires k < |Dedup(Endpoints(edges))|
    ensures |Reference(edges)| == |Dedup(Endpoints(edges))|
    ensures Reference(edges)[k] == ReferenceNode(edges, Dedup(Endpoints(edges))[k])
  {
  }

  /** The reference records after the known names are those of the new names, in order. */
  lemma ReferenceNewRecord(edges: seq<Edge>, edges': seq<Edge>, src: string, dst: string, k: nat)
    requires edges' == edges + [(src, dst)]
    requires |Dedup(Endpoints(edges))| <= k < |Dedup(Endpoints(edges))| + |NewNames(Endpoints(edges), src, dst)|
    ensures k < |Reference(edges')|
    ensures Reference(edges')[k] == FreshRecord(NewNames(Endpoints(edges), src, dst)[k - |Dedup(Endpoints(edges))|], src, dst)
  {
    var E := Endpoints(edges);
    var N := NewNames(E, src, dst);
    var n := N[k - |Dedup(E)|];
    assert n !in E && (n == src || n == dst) by {
      NewNamesFacts(E, src, dst);
      assert n in N;
    }
    assert k < |Dedup(Endpoints(edges'))| && Dedup(Endpoints(edges'))[k] == n by {
      ReferenceNamesStep(edges, src, dst);
    }
    assert Reference(edges')[k] == ReferenceNode(edges', n) by {
      ReferenceAt(edges', k);
    }
    ReferenceNodeNew(edges, src, dst, n);
  }

  /**
   * A record `AddEdge` appends to any list named like the reference is the reference's record of
   * that new name.
   */
  lemma ReferenceStepAppended(edges: seq<Edge>, g: seq<Node>, src: string, dst: string, i: nat)
    requires Names(g) == Dedup(Endpoints(edges))
    requires |g| <= i < |AddEdge(g, src, dst)|
    ensures i < |Reference(edges + [(src, dst)])|
    ensures AddEdge(g, src, dst)[i] == Reference(edges + [(src, dst)])[i]
  {
    var E := Endpoints(edges);
    assert NewNames(Names(g), src, dst) == NewNames(E, src, dst) by { DedupFacts(E); }
    AddEdgeNewRecord(g, src, dst, i);
    ReferenceNewRecord(edges, edges + [(src, dst)], src, dst, i);
  }

  /** One step of the reference: what appending a pair does to it. */
  lemma ReferenceStep(edges: seq<Edge>, src: string, dst: string)
    ensures Reference(edges + [(src, dst)]) == AddEdge(Reference(edges), src, dst)
  {
    var E := Endpoints(edges);
    var g := Reference(edges);
    var r := AddEdge(g, src, dst);
    var r' := Reference(edges + [(src, dst)]);
    ReferenceNames(edges);
    assert |r| == |r'| by {
      ReferenceNamesStep(edges, src, dst);
      AddEdgeLength(g, src, dst);
    }
    forall i | 0 <= i < |r| ensures r[i] == r'[i] {
      if i < |g| {
        ReferenceStepOld(edges, src, dst, i);
      } else {
        ReferenceStepAppended(edges, g, src, dst, i);
      }
    }
  }

  /**
   * The accumulated graph is exactly the deduplicated adjacency list: one record per name in order
   * of first appearance, listing the distinct destinations of that name in order of first appearance.
   */
  lemma {:induction false} BuildIsReference(edges: seq<Edge>)
    ensures Build(edges) == Reference(edges)
  {
    if edges != [] {
      var pre := edges[..|edges| - 1];
      var e := edges[|edges| - 1];
      calc {
        Build(edges);
        AddEdge(Build(pre), e.0, e.1);
        { BuildIsReference(pre); }
        AddEdge(Reference(pre), e.0, e.1);
        { ReferenceStep(pre, e.0, e.1); }
        Reference(pre + [(e.0, e.1)]);
        { assert pre + [(e.0, e.1)] == edges; }
        Reference(edges);
      }
    }
  }

  /** The invariants hold after any sequence of accepted lines. */
  lemma {:induction false} BuildWellFormed(edges: seq<Edge>)
    ensures WellFormed(Build(edges))
  {
    if edges != [] {
      var e := edges[|edges| - 1];
      BuildWellFormed(edges[..|edges| - 1]);
      AddEdgeWellFormed(Build(edges[..|edges| - 1]), e.0, e.1);
    }
  }

  /**
   * Every name seen appears in exactly one record, and a record's `size` is the number of distinct
   * destinations ever recorded for it.
   */
  lemma BuildMembers(edges: seq<Edge>, n: string)
    ensures n in Names(Build(edges)) <==> n in Endpoints(edges)
    ensures forall i :: 0 <= i < |Build(edges)| && Build(edges)[i].name == n ==>
      Build(edges)[i].size == |Dedup(Destinations(edges, n))|
      && forall d :: d in Build(edges)[i].imports <==> d in Destinations(edges, n)
  {
    BuildIsReference(edges);
    ReferenceNames(edges);
    DedupFacts(Destinations(edges, n));
  }
}
