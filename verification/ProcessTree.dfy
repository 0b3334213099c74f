/** The processes below a root (src-tauri/src/system/process.rs). */
module ProcessTree {

  datatype Record = Record(pid: nat, parent: nat)

  /** A non-empty walk down parent links from root to pid. */
  ghost predicate Walk(records: seq<Record>, root: nat, pid: nat, walk: seq<Record>) {
    && walk != [] && walk[0].parent == root && walk[|walk| - 1].pid == pid
    && (forall i :: 0 <= i < |walk| ==> walk[i] in records)
    && (forall i :: 0 < i < |walk| ==> walk[i].parent == walk[i - 1].pid)
  }

  ghost predicate Descendant(records: seq<Record>, root: nat, pid: nat) {
    exists walk :: Walk(records, root, pid, walk)
  }

  lemma ChildIsDescendant(records: seq<Record>, root: nat, parent: nat, r: Record)
    requires r in records && r.parent == parent && (parent == root || Descendant(records, root, parent))
    ensures Descendant(records, root, r.pid)
  {
    if parent == root {
      assert Walk(records, root, r.pid, [r]);
    } else {
      var walk: seq<Record> :| Walk(records, root, parent, walk);
      assert Walk(records, root, r.pid, walk + [r]);
    }
  }

  /** Everything the records list below `parent`. */
  ghost predicate ChildrenIn(records: seq<Record>, parent: nat, found: set<nat>) {
    forall r :: r in records && r.parent == parent ==> r.pid in found
  }

  lemma {:induction false} ClosedHoldsWalks(
      records: seq<Record>, root: nat, found: set<nat>, pid: nat, walk: seq<Record>)
    requires Walk(records, root, pid, walk)
    requires forall p :: p == root || p in found ==> ChildrenIn(records, p, found)
    ensures pid in found
    decreases |walk|
  {
    var last := walk[|walk| - 1];
    if |walk| > 1 {
      var front := walk[..|walk| - 1];
      ClosedHoldsWalks(records, root, found, last.parent, front);
    }
    assert ChildrenIn(records, last.parent, found);
  }

  /** A descendant's descendants are descendants. */
  lemma DescendantsNest(records: seq<Record>, a: nat, b: nat, c: nat)
    requires Descendant(records, a, b) && Descendant(records, b, c)
    ensures Descendant(records, a, c)
  {
    var up: seq<Record> :| Walk(records, a, b, up);
    var down: seq<Record> :| Walk(records, b, c, down);
    var walk := up + down;
    forall i | 0 < i < |walk| ensures walk[i].parent == walk[i - 1].pid {
      if i > |up| { assert walk[i] == down[i - |up|] && walk[i - 1] == down[i - |up| - 1]; }
    }
    assert Walk(records, a, c, walk);
  }

  /** Between two pops: only descendants were found, and everything found but no longer in the
      frontier has its children found too. */
  ghost predicate Explored(records: seq<Record>, root: nat, found: set<nat>, frontier: seq<nat>) {
    && (forall pid :: pid in found ==> Descendant(records, root, pid))
    && (forall p :: p in frontier ==> p == root || p in found)
    && (forall p :: p == root || p in found ==> p in frontier || ChildrenIn(records, p, found))
  }

  /** Inside a pass over the records for `parent`, with the first i of them seen. */
  ghost predicate Exploring(
      records: seq<Record>, root: nat, found: set<nat>, frontier: seq<nat>, parent: nat, i: nat)
    requires i <= |records|
  {
    && (parent == root || parent in found)
    && (forall pid :: pid in found ==> Descendant(records, root, pid))
    && (forall p :: p in frontier ==> p == root || p in found)
    && (forall p :: p == root || p in found ==> p == parent || p in frontier || ChildrenIn(records, p, found))
    && (forall k :: 0 <= k < i && records[k].parent == parent ==> records[k].pid in found)
  }

  lemma PassBegins(records: seq<Record>, root: nat, found: set<nat>, frontier: seq<nat>)
    requires Explored(records, root, found, frontier) && frontier != []
    ensures Exploring(records, root, found, frontier[..|frontier| - 1], frontier[|frontier| - 1], 0)
  {
    hide Descendant, ChildrenIn;
    var rest, parent := frontier[..|frontier| - 1], frontier[|frontier| - 1];
    assert frontier == rest + [parent];
  }

  lemma RecordSkipped(records: seq<Record>, root: nat, found: set<nat>, frontier: seq<nat>, parent: nat, i: nat)
    requires i < |records| && Exploring(records, root, found, frontier, parent, i)
    requires records[i].parent != parent || records[i].pid in found
    ensures Exploring(records, root, found, frontier, parent, i + 1)
  {
    hide Descendant, ChildrenIn;
  }

  lemma RecordTaken(records: seq<Record>, root: nat, found: set<nat>, frontier: seq<nat>, parent: nat, i: nat)
    requires i < |records| && Exploring(records, root, found, frontier, parent, i)
    requires records[i].parent == parent
    ensures Exploring(records, root, found + {records[i].pid}, frontier + [records[i].pid], parent, i + 1)
  {
    ChildIsDescendant(records, root, parent, records[i]);
    var more := found + {records[i].pid};
    forall p | ChildrenIn(records, p, found) ensures ChildrenIn(records, p, more) {}
    hide Descendant, ChildrenIn;
  }

  lemma PassEnds(records: seq<Record>, root: nat, found: set<nat>, frontier: seq<nat>, parent: nat)
    requires Exploring(records, root, found, frontier, parent, |records|)
    ensures Explored(records, root, found, frontier)
  {
    hide Descendant;
    assert ChildrenIn(records, parent, found);
    hide ChildrenIn;
  }

  lemma NothingLeft(records: seq<Record>, root: nat, found: set<nat>)
    requires Explored(records, root, found, [])
    ensures forall pid :: pid in found <==> Descendant(records, root, pid)
  {
    hide ChildrenIn;
    forall pid | Descendant(records, root, pid) ensures pid in found {
      var walk: seq<Record> :| Walk(records, root, pid, walk);
      ClosedHoldsWalks(records, root, found, pid, walk);
    }
  }

  /** descendant_process_ids. The pop takes the newest frontier entry; a root on a cycle is
      found like any other process. */
  method DescendantProcessIds(records: seq<Record>, root: nat) returns (found: set<nat>)
    ensures forall pid :: pid in found <==> Descendant(records, root, pid)
  {
    hide *;
    found := {};
    var frontier := [root];
    ghost var pids := set r | r in records :: r.pid;
    Start(records, root);
    while frontier != []
      invariant found <= pids
      invariant Explored(records, root, found, frontier)
      decreases |pids - found|, |frontier|
    {
      var parent := frontier[|frontier| - 1];
      PassBegins(records, root, found, frontier);
      ghost var before, size := found, |frontier|;
      frontier := frontier[..|frontier| - 1];
      var i := 0;
      while i < |records|
        invariant 0 <= i <= |records|
        invariant before <= found <= pids
        invariant found == before ==> |frontier| < size
        invariant Exploring(records, root, found, frontier, parent, i)
      {
        var r := records[i];
        if r.parent == parent && r.pid !in found {
          RecordTaken(records, root, found, frontier, parent, i);
          found := found + {r.pid};
          frontier := frontier + [r.pid];
        } else {
          RecordSkipped(records, root, found, frontier, parent, i);
        }
        i := i + 1;
      }
      PassEnds(records, root, found, frontier, parent);
      if found != before { Shrinks(pids, before, found); }
    }
    NothingLeft(records, root, found);
  }

  lemma Start(records: seq<Record>, root: nat)
    ensures Explored(records, root, {}, [root])
  {}

  lemma Shrinks(all: set<nat>, a: set<nat>, b: set<nat>)
    requires a < b <= all
    ensures |all - b| < |all - a|
  {
    var x :| x in b && x !in a;
    Smaller(all - b, (all - a) - {x});
  }

  lemma Smaller(a: set<nat>, b: set<nat>)
    requires a <= b
    ensures |a| <= |b|
  {
    assert b == a + (b - a);
    assert |a + (b - a)| == |a| + |b - a|;
  }
}
