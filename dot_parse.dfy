/**
 * `parse_dot`: Terraform's DOT graph text to a node set and an ordered edge
 * list. Edge matches with a meta-node endpoint (a name starting with
 * `[root]`) are dropped whole, so neither endpoint of such a match enters the
 * graph through it; declarations of meta-nodes are skipped.
 */
module DotParse {
  import opened Strings
  import opened DotScan

  /** `(src, dst)`: `src` depends on `dst`. */
  type Edge = (string, string)

  datatype Graph = Graph(nodes: set<string>, edges: seq<Edge>)

  const MetaPrefix: string := "[root]"

  /** Terraform's internal meta-nodes. */
  predicate IsMeta(name: string)
  {
    StartsWith(name, MetaPrefix)
  }

  /** An edge match that `parse_dot` keeps. */
  predicate Clean(e: Edge)
  {
    !IsMeta(e.0) && !IsMeta(e.1)
  }

  /** The clean edge matches, in match order, duplicates kept. */
  function KeptEdges(raw: seq<Edge>): seq<Edge>
  {
    if raw == [] then []
    else
      var last := raw[|raw| - 1];
      KeptEdges(raw[..|raw| - 1]) + (if Clean(last) then [last] else [])
  }

  function Sources(edges: seq<Edge>): set<string>
  {
    set e | e in edges :: e.0
  }

  function Targets(edges: seq<Edge>): set<string>
  {
    set e | e in edges :: e.1
  }

  /** Every name an edge mentions. */
  function Endpoints(edges: seq<Edge>): set<string>
  {
    Sources(edges) + Targets(edges)
  }

  /** The declared names that are not meta-nodes. */
  function DeclNames(decls: seq<string>): set<string>
  {
    set d | d in decls && !IsMeta(d)
  }

  /** The graph `parse_dot` returns for `dot`. */
  function ParseGraph(dot: string): (g: Graph)
    ensures forall e :: e in g.edges ==> e.0 in g.nodes && e.1 in g.nodes
    ensures forall v :: v in g.nodes ==> IsName(v) && !IsMeta(v)
  {
    var edges := KeptEdges(EdgeMatches(dot));
    KeptEdgesMembers(EdgeMatches(dot));
    Graph(Endpoints(edges) + DeclNames(DeclMatches(dot)), edges)
  }

  /** `parse_dot`: one pass over the edge matches, one over the declarations. */
  method ParseDot(dot: string) returns (nodes: set<string>, edges: seq<Edge>)
    ensures Graph(nodes, edges) == ParseGraph(dot)
  {
    nodes, edges := {}, [];
    var raw := EdgeMatches(dot);
    for i := 0 to |raw|
      invariant edges == KeptEdges(raw[..i])
      invariant nodes == Endpoints(edges)
    {
      assert raw[..i + 1][..i] == raw[..i];
      var (src, dst) := raw[i];
      if IsMeta(src) || IsMeta(dst) {
        continue;
      }
      nodes := nodes + {src, dst};
      edges := edges + [(src, dst)];
    }
    assert raw[..|raw|] == raw;
    var decls := DeclMatches(dot);
    for i := 0 to |decls|
      invariant nodes == Endpoints(edges) + DeclNames(decls[..i])
    {
      assert decls[..i + 1] == decls[..i] + [decls[i]];
      if !IsMeta(decls[i]) {
        nodes := nodes + {decls[i]};
      }
    }
    assert decls[..|decls|] == decls;
  }

  /* ---------- properties of the parse ---------- */

  /** An edge is kept exactly when it is a clean match. */
  lemma {:induction false} KeptEdgesMembers(raw: seq<Edge>)
    ensures forall e :: e in KeptEdges(raw) <==> e in raw && Clean(e)
    decreases |raw|
  {
    if raw != [] {
      var init := raw[..|raw| - 1];
      KeptEdgesMembers(init);
      assert raw == init + [raw[|raw| - 1]];
    }
  }

  /** Filtering distributes over concatenation: kept edges stay in match order. */
  lemma {:induction false} KeptEdgesAppend(a: seq<Edge>, b: seq<Edge>)
    ensures KeptEdges(a + b) == KeptEdges(a) + KeptEdges(b)
    decreases |b|
  {
    if b != [] {
      var init := b[..|b| - 1];
      assert (a + b)[..|a + b| - 1] == a + init;
      KeptEdgesAppend(a, init);
    } else {
      assert a + b == a;
    }
  }

  /** The number of kept edges is the number of match positions holding a clean match. */
  lemma {:induction false} KeptEdgesCount(raw: seq<Edge>)
    ensures |KeptEdges(raw)| == |set i | 0 <= i < |raw| && Clean(raw[i])|
    decreases |raw|
  {
    if raw != [] {
      var n := |raw| - 1;
      var init := raw[..n];
      KeptEdgesCount(init);
      var before := set i | 0 <= i < n && Clean(init[i]);
      var all := set i | 0 <= i < |raw| && Clean(raw[i]);
      if Clean(raw[n]) {
        assert all == before + {n};
      } else {
        assert all == before;
      }
    }
  }

  /** A node comes from a kept edge or from a declaration of a non-meta name, never from elsewhere. */
  lemma NodeOrigin(dot: string, v: string)
    ensures v in ParseGraph(dot).nodes
        <==> (exists e :: e in ParseGraph(dot).edges && (v == e.0 || v == e.1))
             || (v in DeclMatches(dot) && !IsMeta(v))
  {
    var g := ParseGraph(dot);
    if v in Sources(g.edges) {
      var e :| e in g.edges && e.0 == v;
    }
    if v in Targets(g.edges) {
      var e :| e in g.edges && e.1 == v;
    }
  }

  /** An edge match with a meta endpoint contributes nothing: the graph of the text is unchanged when the match is removed from the match list. */
  lemma MetaMatchDropped(before: seq<Edge>, e: Edge, after: seq<Edge>)
    requires IsMeta(e.0) || IsMeta(e.1)
    ensures KeptEdges(before + [e] + after) == KeptEdges(before + after)
  {
    KeptEdgesAppend(before + [e], after);
    KeptEdgesAppend(before, [e]);
    KeptEdgesAppend(before, after);
    assert KeptEdges([e]) == KeptEdges([]) + [];
  }

  /* ---------- one-edge texts ---------- */

  predicate NoNewline(t: string)
  {
    forall k :: 0 <= k < |t| ==> t[k] != '\n'
  }

  /** Without a line break, `^` holds only at position 0. */
  lemma {:induction false} NoDeclAfterStart(s: string, i: nat)
    requires 0 < i <= |s| && NoNewline(s)
    ensures DeclScan(s, i) == []
    decreases |s| - i
  {
    if i < |s| {
      NoDeclAfterStart(s, i + 1);
    }
  }

  /** The one-line text `"a" -> "b"`. */
  function ArrowText(a: string, b: string): string
  {
    Quoted(a) + " -> " + Quoted(b)
  }

  /**
   * The text `"a" -> "b"` parses to the one edge a -> b over the nodes a and
   * b, unless one side is a meta-node: then the match is dropped whole and
   * the graph is empty (the other side is not a node either).
   */
  lemma SingleEdgeText(a: string, b: string)
    requires IsName(a) && IsName(b) && NoNewline(a) && NoNewline(b)
    ensures ParseGraph(ArrowText(a, b))
         == if IsMeta(a) || IsMeta(b) then Graph({}, []) else Graph({a, b}, [(a, b)])
  {
    var s := ArrowText(a, b);
    ArrowTextEdges(a, b);
    ArrowTextDecls(a, b);
    var edges := KeptEdges([(a, b)]);
    OneMatch((a, b));
    assert DeclNames(DeclMatches(s)) == {};
    assert ParseGraph(s) == Graph(Endpoints(edges), edges);
  }

  /** A single match is kept exactly when it is clean, with both its ends as nodes. */
  lemma OneMatch(e: Edge)
    ensures KeptEdges([e]) == if Clean(e) then [e] else []
    ensures Endpoints(KeptEdges([e])) == if Clean(e) then {e.0, e.1} else {}
  {
    assert KeptEdges([e]) == KeptEdges([]) + (if Clean(e) then [e] else []);
  }

  lemma ArrowTextEdges(a: string, b: string)
    requires IsName(a) && IsName(b)
    ensures EdgeMatches(ArrowText(a, b)) == [(a, b)]
  {
    var s := ArrowText(a, b);
    assert s == Quoted(a) + " " + "->" + " " + Quoted(b);
    assert AllSpace(" ");
    assert s[0..|s|] == s;
    EdgeAtComplete(s, 0, |s|, a, b, " ", " ");
    assert EdgeScan(s, 0) == [(a, b)] + EdgeScan(s, |s|);
  }

  lemma ArrowTextDecls(a: string, b: string)
    requires IsName(a) && IsName(b) && NoNewline(a) && NoNewline(b)
    ensures DeclMatches(ArrowText(a, b)) == []
  {
    var s := ArrowText(a, b);
    assert s == Quoted(a) + (" " + "-> " + Quoted(b));
    var k1 := QuotedPrefix(s, 0, |s|, a, " " + "-> " + Quoted(b));
    var p := SpacesPrefix(s, k1, |s|, " ", "-> " + Quoted(b));
    assert s[p] == s[p..|s|][0] == '-';
    assert SkipSpaces(s, 0) == 0;
    assert DeclAt(s, 0).None?;
    ArrowTextOneLine(a, b);
    NoDeclAfterStart(s, 1);
  }

  lemma ArrowTextOneLine(a: string, b: string)
    requires NoNewline(a) && NoNewline(b)
    ensures NoNewline(ArrowText(a, b))
  {
    var s := ArrowText(a, b);
    forall k | 0 <= k < |s| ensures s[k] != '\n' {
      if k < |Quoted(a)| {
        assert s[k] == Quoted(a)[k];
      } else if k < |Quoted(a)| + 4 {
        assert s[k] == " -> "[k - |Quoted(a)|];
      } else {
        assert s[k] == Quoted(b)[k - |Quoted(a)| - 4];
      }
    }
  }

  /** `"a" -> "b"` gives the nodes a and b and the one edge a -> b. */
  lemma OneEdgeScenario()
    ensures ParseGraph("\"a\" -> \"b\"") == Graph({"a", "b"}, [("a", "b")])
  {
    assert ArrowText("a", "b") == "\"a\" -> \"b\"";
    SingleEdgeText("a", "b");
  }

  /** The edge `"[root] module.foo (expand)" -> "module.foo.aws_instance.x"` adds neither an edge nor its other endpoint. */
  lemma MetaEdgeScenario()
    ensures ParseGraph(ArrowText("[root] module.foo (expand)", "module.foo.aws_instance.x"))
         == Graph({}, [])
  {
    MetaEdgeNames();
    SingleEdgeText("[root] module.foo (expand)", "module.foo.aws_instance.x");
  }

  lemma MetaEdgeNames()
    ensures IsMeta("[root] module.foo (expand)")
    ensures IsName("[root] module.foo (expand)") && NoNewline("[root] module.foo (expand)")
    ensures IsName("module.foo.aws_instance.x") && NoNewline("module.foo.aws_instance.x")
  {
    assert "[root] module.foo (expand)"[..6] == "[root]";
  }
}
