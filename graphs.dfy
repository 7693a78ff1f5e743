/** The part of a networkx graph the analysis code uses: nodes kept in
    insertion order without repeats, an optional `title` attribute of type
    `A` per node, and undirected edges, each unordered pair at most once. */
module Graphs {
  import opened Text

  /** The same undirected edge. */
  predicate SameEdge(a: (string, string), b: (string, string)) {
    a == b || (a.0 == b.1 && a.1 == b.0)
  }

  class Graph<A> {
    /** `G.nodes()` */
    var nodes: seq<string>
    /** The `title` attribute of the nodes that have one. */
    var titles: map<string, A>
    /** The edges, in the order they were added. */
    var edges: seq<(string, string)>

    predicate Valid()
      reads this
    {
      && Distinct(nodes)
      && (forall k :: k in titles ==> k in nodes)
      && (forall e :: e in edges ==> e.0 in nodes && e.1 in nodes)
      && (forall i, j :: 0 <= i < j < |edges| ==> !SameEdge(edges[i], edges[j]))
    }

    /** `G.has_edge(u, v)` */
    predicate HasEdge(u: string, v: string)
      reads this
    {
      (u, v) in edges || (v, u) in edges
    }

    /** `nx.Graph()` */
    constructor()
      ensures Valid()
      ensures nodes == [] && titles == map[] && edges == []
    {
      nodes := [];
      titles := map[];
      edges := [];
    }

    /** `G.add_node(n)`: a node already present is left where it is. */
    method AddNode(n: string)
      requires Valid()
      modifies this
      ensures Valid()
      ensures nodes == if n in old(nodes) then old(nodes) else old(nodes) + [n]
      ensures titles == old(titles) && edges == old(edges)
    {
      if n !in nodes {
        nodes := nodes + [n];
      }
    }

    /** `G.add_node(n, title=title)`: adding a node again replaces its title. */
    method AddNodeWithTitle(n: string, title: A)
      requires Valid()
      modifies this
      ensures Valid()
      ensures nodes == if n in old(nodes) then old(nodes) else old(nodes) + [n]
      ensures titles == old(titles)[n := title] && edges == old(edges)
    {
      AddNode(n);
      titles := titles[n := title];
    }

    /** `G.add_edge(u, v)`: missing endpoints are added as nodes, `u` before `v`, and an edge
        already present, in either direction, is not added again. */
    method AddEdge(u: string, v: string)
      requires Valid()
      modifies this
      ensures Valid()
      ensures u in nodes && v in nodes
      ensures nodes == old(nodes) + (if u in old(nodes) then [] else [u])
                                  + (if v in old(nodes) || v == u then [] else [v])
      ensures u in old(nodes) && v in old(nodes) ==> nodes == old(nodes)
      ensures titles == old(titles)
      ensures edges == if old(HasEdge(u, v)) then old(edges) else old(edges) + [(u, v)]
      ensures HasEdge(u, v)
    {
      AddNode(u);
      AddNode(v);
      if !HasEdge(u, v) {
        edges := edges + [(u, v)];
      }
    }
  }
}
