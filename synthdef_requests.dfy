/**
 * Synth definitions are sent to the engine once per render: a synth that
 * starts brings its definition along unless an earlier offset already sent it.
 */
module SynthDefs {
  import opened Entities
  import opened Sorting

  /** The definitions of the starting synths. */
  function DefsOf(startNodes: seq<Node>): set<SynthDef> {
    set n | n in startNodes && IsSynth(n) :: n.kind.synthdef
  }

  predicate NoDuplicates<T(==)>(s: seq<T>) {
    forall i, j :: 0 <= i < j < |s| ==> s[i] != s[j]
  }

  /** The definitions not yet sent, in the order their synths are met. */
  function NewDefs(startNodes: seq<Node>, visited: set<SynthDef>): seq<SynthDef> {
    if startNodes == [] then []
    else
      var n := startNodes[0];
      if IsSynth(n) && n.kind.synthdef !in visited then
        [n.kind.synthdef] + NewDefs(startNodes[1..], visited + {n.kind.synthdef})
      else NewDefs(startNodes[1..], visited)
  }

  /** The unsent definitions are each listed once, and are exactly the starting synths' definitions not yet sent. */
  lemma {:induction false} NewDefsSpec(startNodes: seq<Node>, visited: set<SynthDef>)
    ensures var r := NewDefs(startNodes, visited);
      && NoDuplicates(r)
      && forall d :: d in r <==> d in DefsOf(startNodes) && d !in visited
  {
    if startNodes != [] {
      var n := startNodes[0];
      var rest := startNodes[1..];
      assert forall m :: m in startNodes <==> m == n || m in rest;
      if IsSynth(n) && n.kind.synthdef !in visited {
        var d0 := n.kind.synthdef;
        NewDefsSpec(rest, visited + {d0});
        var later := NewDefs(rest, visited + {d0});
        var r := [d0] + later;
        assert d0 !in later;
        forall i, j | 0 <= i < j < |r| ensures r[i] != r[j] {
          if i == 0 {
            assert r[j] == later[j - 1];
          } else {
            assert r[i] == later[i - 1] && r[j] == later[j - 1];
          }
        }
      } else {
        NewDefsSpec(rest, visited);
      }
    }
  }

  function Digest(d: SynthDef): int {
    d.digest
  }

  /** One receive request per definition, in the given order. */
  function Receives(ds: seq<SynthDef>): (r: seq<Request>)
    ensures |r| == |ds|
    ensures forall i :: 0 <= i < |r| ==> r[i] == SynthDefReceive(ds[i])
  {
    seq(|ds|, i requires 0 <= i < |ds| => SynthDefReceive(ds[i]))
  }

  /** The receive requests at one offset: the new definitions ordered by anonymous name (by digest). */
  function SynthDefRequests(startNodes: seq<Node>, visited: set<SynthDef>): seq<Request> {
    Receives(SortBy(NewDefs(startNodes, visited), Digest))
  }

  /** The receive requests at one offset are receive requests, ascending by digest. */
  lemma SynthDefRequestsOrdered(startNodes: seq<Node>, visited: set<SynthDef>)
    ensures var r := SynthDefRequests(startNodes, visited);
      && (forall i :: 0 <= i < |r| ==> r[i].SynthDefReceive?)
      && (forall i, j :: 0 <= i < j < |r| ==> r[i].synthdef.digest <= r[j].synthdef.digest)
  {
    var sorted := SortBy(NewDefs(startNodes, visited), Digest);
    var r := Receives(sorted);
    forall i, j | 0 <= i < j < |r| ensures r[i].synthdef.digest <= r[j].synthdef.digest {
      assert Digest(sorted[i]) <= Digest(sorted[j]);
    }
  }

  /** No definition is sent twice at one offset. */
  lemma SynthDefRequestsDistinct(startNodes: seq<Node>, visited: set<SynthDef>)
    ensures var r := SynthDefRequests(startNodes, visited);
      forall i, j :: 0 <= i < j < |r| ==> r[i] != r[j]
  {
    var unsent := NewDefs(startNodes, visited);
    NewDefsSpec(startNodes, visited);
    var sorted := SortBy(unsent, Digest);
    var r := Receives(sorted);
    forall i, j | 0 <= i < j < |r| ensures r[i] != r[j] {
      if sorted[i] == sorted[j] {
        TwiceCounted(sorted, i, j);
        MultiplicityOne(unsent, sorted[i]);
      }
    }
  }

  lemma TwiceCounted<T>(s: seq<T>, i: int, j: int)
    requires 0 <= i < j < |s| && s[i] == s[j]
    ensures multiset(s)[s[i]] >= 2
  {
    assert s == s[..i] + [s[i]] + s[i + 1..j] + [s[j]] + s[j + 1..];
  }

  /** The receive requests at one offset send exactly the starting synths' definitions not sent before. */
  lemma SynthDefRequestsSend(startNodes: seq<Node>, visited: set<SynthDef>)
    ensures var r := SynthDefRequests(startNodes, visited);
      forall d :: SynthDefReceive(d) in r <==> d in DefsOf(startNodes) && d !in visited
  {
    var unsent := NewDefs(startNodes, visited);
    NewDefsSpec(startNodes, visited);
    var sorted := SortBy(unsent, Digest);
    var r := Receives(sorted);
    forall d ensures SynthDefReceive(d) in r <==> d in unsent {
      assert d in unsent <==> d in multiset(unsent);
      assert d in sorted <==> d in multiset(sorted);
      if d in sorted {
        var i :| 0 <= i < |sorted| && sorted[i] == d;
        assert r[i] == SynthDefReceive(d);
      }
      if SynthDefReceive(d) in r {
        var i :| 0 <= i < |r| && r[i] == SynthDefReceive(d);
        assert sorted[i] == d;
      }
    }
  }

  /** A duplicate-free sequence holds each of its elements once. */
  lemma {:induction false} MultiplicityOne<T>(s: seq<T>, x: T)
    requires NoDuplicates(s)
    ensures multiset(s)[x] <= 1
  {
    if s != [] {
      assert s == [s[0]] + s[1..];
      assert NoDuplicates(s[1..]) by {
        forall i, j | 0 <= i < j < |s[1..]| ensures s[1..][i] != s[1..][j] {
          assert s[1..][i] == s[i + 1] && s[1..][j] == s[j + 1];
        }
      }
      MultiplicityOne(s[1..], x);
      if s[0] == x {
        assert x !in s[1..] by {
          forall k | 0 <= k < |s[1..]| ensures s[1..][k] != x {
            assert s[1..][k] == s[k + 1];
          }
        }
        assert multiset(s[1..])[x] == 0;
      }
    }
  }

  lemma DefsOfSnoc(s: seq<Node>, n: Node)
    ensures DefsOf(s + [n]) == DefsOf(s) + (if IsSynth(n) then {n.kind.synthdef} else {})
  {
    assert forall m :: m in s + [n] <==> m in s || m == n;
  }

  /** Scanning one more node: its definition is new unless already sent. */
  lemma NewDefsStep(startNodes: seq<Node>, i: nat, visited: set<SynthDef>)
    requires i < |startNodes|
    ensures var n := startNodes[i];
      NewDefs(startNodes[i..], visited)
      == if IsSynth(n) && n.kind.synthdef !in visited
         then [n.kind.synthdef] + NewDefs(startNodes[i + 1..], visited + {n.kind.synthdef})
         else NewDefs(startNodes[i + 1..], if IsSynth(n) then visited + {n.kind.synthdef} else visited)
  {
    var n := startNodes[i];
    assert startNodes[i..][0] == n && startNodes[i..][1..] == startNodes[i + 1..];
    if IsSynth(n) && n.kind.synthdef in visited {
      assert visited + {n.kind.synthdef} == visited;
    }
  }

  /**
   * `_collect_synthdef_requests`: collects the starting synths' unsent
   * definitions, marks them sent, and emits their receive requests.
   */
  method CollectSynthDefRequests(startNodes: seq<Node>, visited: set<SynthDef>)
    returns (r: seq<Request>, visited': set<SynthDef>)
    ensures r == SynthDefRequests(startNodes, visited)
    ensures visited' == visited + DefsOf(startNodes)
  {
    var found: seq<SynthDef> := [];
    visited' := visited;
    var i := 0;
    while i < |startNodes|
      invariant 0 <= i <= |startNodes|
      invariant NewDefs(startNodes, visited) == found + NewDefs(startNodes[i..], visited')
      invariant visited' == visited + DefsOf(startNodes[..i])
    {
      var n := startNodes[i];
      NewDefsStep(startNodes, i, visited');
      assert startNodes[..i + 1] == startNodes[..i] + [n];
      DefsOfSnoc(startNodes[..i], n);
      if IsSynth(n) && n.kind.synthdef !in visited' {
        var later := NewDefs(startNodes[i + 1..], visited' + {n.kind.synthdef});
        assert found + ([n.kind.synthdef] + later) == (found + [n.kind.synthdef]) + later;
        found := found + [n.kind.synthdef];
      }
      if IsSynth(n) {
        visited' := visited' + {n.kind.synthdef};
      }
      i := i + 1;
    }
    assert startNodes[i..] == [] && startNodes[..i] == startNodes;
    assert found + [] == found;
    r := Receives(SortBy(found, Digest));
  }

  /**
   * Across a render, a definition is sent at most once: what one offset sends
   * is never sent again at a later offset that starts from the updated record.
   */
  lemma SentOnce(first: seq<Node>, second: seq<Node>, visited: set<SynthDef>, d: SynthDef)
    requires SynthDefReceive(d) in SynthDefRequests(first, visited)
    ensures SynthDefReceive(d) !in SynthDefRequests(second, visited + DefsOf(first))
  {
    SynthDefRequestsSend(first, visited);
    SynthDefRequestsSend(second, visited + DefsOf(first));
  }
}
