/** The active connections of the NAS, and the sources that a guarded change must not cut off. */
module Connections {
  import opened Text

  datatype Connection = Connection(from: string, who: string, current: bool)

  /** The distinct, non-blank sources of the active connections, in the order they first appear. */
  function Sources(connections: seq<Connection>): seq<string> {
    if connections == [] then []
    else
      var earlier := Sources(connections[..|connections| - 1]);
      var ip := Trim(connections[|connections| - 1].from);
      if ip == "" || ip in earlier then earlier else earlier + [ip]
  }

  method ProtectedSources(connections: seq<Connection>) returns (sources: seq<string>)
    ensures sources == Sources(connections)
  {
    sources := [];
    var seen: set<string> := {};
    for i := 0 to |connections|
      invariant sources == Sources(connections[..i])
      invariant forall ip :: ip in seen <==> ip in sources
    {
      assert connections[..i + 1][..i] == connections[..i];
      var ip := Trim(connections[i].from);
      if ip == "" || ip in seen {
        continue;
      }
      seen := seen + {ip};
      sources := sources + [ip];
    }
    assert connections[..|connections|] == connections;
  }

  /** The sources are exactly the trimmed, non-empty origins of the connections, each once. */
  lemma {:induction false} SourcesAreExact(connections: seq<Connection>)
    ensures forall ip :: ip in Sources(connections) <==>
                         ip != "" && exists c :: c in connections && Trim(c.from) == ip
    ensures forall i, j :: 0 <= i < j < |Sources(connections)| ==> Sources(connections)[i] != Sources(connections)[j]
  {
    if connections != [] {
      var n := |connections| - 1;
      SourcesAreExact(connections[..n]);
      forall ip ensures ip in Sources(connections) <==>
                        ip != "" && exists c :: c in connections && Trim(c.from) == ip {
        assert forall c :: c in connections <==> c in connections[..n] || c == connections[n];
      }
    }
  }

  /** They stand in the order in which they first appear: more connections only add sources at the end. */
  lemma {:induction false} SourcesGrow(connections: seq<Connection>, n: nat)
    requires n <= |connections|
    ensures Sources(connections[..n]) <= Sources(connections)
  {
    if n < |connections| {
      var m := |connections| - 1;
      assert connections[..m][..n] == connections[..n];
      SourcesGrow(connections[..m], n);
    } else {
      assert connections[..n] == connections;
    }
  }
}
