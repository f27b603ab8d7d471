/**
 Every position at which a program can end from a position, in ascending order:
 the question the dissection asks.
 */
module AreEnds {
  import opened Wrappers
  import opened AreSyntax
  import opened AreProgram
  import opened AreFrontier
  import opened AreVisited
  import opened AreSearch

  predicate Ascending(s: seq<nat>) {
    forall j, k :: 0 <= j < k < |s| ==> s[j] < s[k]
  }

  /** `sort_unstable` and `dedup`. */
  method SortDedup(found: seq<nat>) returns (out: seq<nat>)
    ensures Ascending(out)
    ensures forall x :: x in out <==> x in found
  {
    out := [];
    for i := 0 to |found|
      invariant Ascending(out)
      invariant forall x :: x in out <==> x in found[..i]
    {
      var at := 0;
      while at < |out| && out[at] < found[i]
        invariant at <= |out|
        invariant forall k :: 0 <= k < at ==> out[k] < found[i]
      {
        at := at + 1;
      }
      assert found[..i + 1] == found[..i] + [found[i]];
      if at == |out| || out[at] != found[i] {
        ghost var before := out;
        out := out[..at] + [found[i]] + out[at..];
        forall x ensures x in out <==> x in before || x == found[i] {
          assert before == before[..at] + before[at..];
          assert out[at] == found[i];
        }
      }
    }
    assert found[..|found|] == found;
  }

  /** Every position at which `prog` can end when it starts at `from`. */
  method Ends(engine: Engine, prog: seq<Inst>, search: Search, from: nat, caps: seq<Option<nat>>, ghost nodes: seq<Node>, ghost sl: nat)
    returns (outcome: Outcome, ends: seq<nat>)
    requires engine.Valid() && Unit(engine.Img(), prog, nodes, engine.groups, sl) && from <= |search.s.text|
    requires sl + SeqMarks(nodes) <= |caps| && 2 * (engine.groups + 1) <= |caps|
    requires forall k :: sl <= k < sl + SeqMarks(nodes) ==> caps[k] == None
    modifies search
    ensures search.budget <= old(search.budget)
    ensures outcome == Overflow ==> search.budget == 0
    ensures outcome == Done ==> Ascending(ends) && forall j :: j in ends <==> MatchesSeq(search.s, nodes, from, j)
  {
    var scratch := new Option<nat>[|caps|](i requires 0 <= i < |caps| => caps[i]);
    var visited := new Visited.Sparse(|prog|, |search.s.text| + 1);
    EmptyFrontier(engine.TaskOf(search.s, prog, nodes, sl));
    var found;
    outcome, found := engine.Explore(prog, search, from, scratch, visited, false, nodes, sl);
    ends := SortDedup(found);
  }
}
