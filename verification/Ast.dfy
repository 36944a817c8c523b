/** The parsed Blueprint (aqueduct/parser/models.py), reduced to what shapes the module graph. */
module Ast {
  import opened Common
  import opened Digraph

  datatype ModuleType =
    Ingress | Channel | Egress | Junction | Funnel | Probe | Regulator | Arcade | Assert

  datatype Module = Module(
    id: Id,
    kind: ModuleType,
    dependsOn: seq<Id>,
    attachTo: Option<Id>,
    spillway: Option<Id>,
    ref: Option<string>,
    contextOverride: map<string, string>)

  datatype Edge = Edge(from: Id, to: Id, port: string, errorTypes: seq<string>)

  function Ids(modules: seq<Module>): (ids: seq<Id>)
    ensures |ids| == |modules| && forall i :: 0 <= i < |ids| ==> ids[i] == modules[i].id
  {
    seq(|modules|, i requires 0 <= i < |modules| => modules[i].id)
  }

  function IdSet(modules: seq<Module>): set<Id> {
    set m | m in modules :: m.id
  }

  /** The pairs (from, to) of the declared edges. */
  function EdgeArcs(edges: seq<Edge>): Arcs {
    set e | e in edges :: (e.from, e.to)
  }

  /** The pairs (dependency, module) of the `depends_on` fields. */
  function DependencyArcs(modules: seq<Module>): Arcs {
    set m, d | m in modules && d in m.dependsOn :: (d, m.id)
  }

  /** Everything the parser's graph check looks at. */
  function AllArcs(modules: seq<Module>, edges: seq<Edge>): Arcs {
    EdgeArcs(edges) + DependencyArcs(modules)
  }

  lemma IdSetOf(modules: seq<Module>)
    ensures Elems(Ids(modules)) == IdSet(modules)
  {
  }
}
