/** parser.py: the loop that marks, in the call graph, the functions through which
    sensitive functions reach untrusted ones. */
module CallGraph {
  type Node = string

  datatype Graph = Graph(nodes: set<Node>, edges: set<(Node, Node)>)

  ghost predicate Walk(g: Graph, p: seq<Node>, s: Node, t: Node) {
    && 0 < |p| && p[0] == s && p[|p| - 1] == t
    && (forall i :: 0 <= i < |p| ==> p[i] in g.nodes)
    && (forall i {:trigger p[i]} :: 0 <= i < |p| - 1 ==> (p[i], p[i + 1]) in g.edges)
  }

  ghost predicate SimplePath(g: Graph, p: seq<Node>, s: Node, t: Node) {
    Walk(g, p, s, t) && forall i, j :: 0 <= i < j < |p| ==> p[i] != p[j]
  }

  ghost predicate Reaches(g: Graph, s: Node, t: Node) {
    exists p :: Walk(g, p, s, t)
  }

  type Paths = (Node, Node) -> seq<seq<Node>>

  /** `networkx.all_simple_paths`: between different nodes it yields exactly the simple
      paths; from a node to itself releases differ, so any closed walks are allowed. */
  ghost predicate YieldsPaths(g: Graph, paths: Paths) {
    && (forall s, t, p :: p in paths(s, t) ==> Walk(g, p, s, t))
    && (forall s, t, p :: s != t && SimplePath(g, p, s, t) ==> p in paths(s, t))
  }

  /** Of the first `n` nodes of `p`, every sensitive one has its successor listed. */
  ghost predicate MarkedTo(p: seq<Node>, sensitive: seq<Node>, listed: seq<Node>, n: nat) {
    forall i :: 0 <= i < n && i + 1 < |p| && p[i] in sensitive ==> p[i + 1] in listed
  }

  /** Every node of `p` directly after a sensitive node is listed. */
  ghost predicate Marked(p: seq<Node>, sensitive: seq<Node>, listed: seq<Node>) {
    MarkedTo(p, sensitive, listed, |p|)
  }

  // ------------------------------------------------- what the loop has to list

  /** For source `s`: all paths to the targets before index `j`, and the first `q` paths
      to target `j`, are marked. */
  ghost predicate MarkedBefore(paths: Paths, s: Node, sensitive: seq<Node>, listed: seq<Node>, j: nat, q: nat)
    requires j < |listed| && q <= |paths(s, listed[j])|
  {
    && (forall l, p :: 0 <= l < j && p in paths(s, listed[l]) ==> Marked(p, sensitive, listed))
    && (forall r :: 0 <= r < q ==> Marked(paths(s, listed[j])[r], sensitive, listed))
  }

  /** Target `j`, path `q`, node `i` is the first place, in the order of the loops, whose
      successor should be listed and is not. */
  ghost predicate FirstGap(paths: Paths, s: Node, sensitive: seq<Node>, listed: seq<Node>, j: nat, q: nat, i: nat) {
    && j < |listed| && q < |paths(s, listed[j])| && MarkedBefore(paths, s, sensitive, listed, j, q)
    && var p := paths(s, listed[j])[q];
      i + 1 < |p| && p[i] in sensitive && p[i + 1] !in listed && MarkedTo(p, sensitive, listed, i)
  }

  /** `x` is the node missing at the first gap. */
  ghost predicate Missing(paths: Paths, s: Node, sensitive: seq<Node>, listed: seq<Node>, x: Node) {
    exists j: nat, q: nat, i: nat ::
      FirstGap(paths, s, sensitive, listed, j, q, i) && paths(s, listed[j])[q][i + 1] == x
  }

  /** `now` extends `before`, one node at a time, each the one missing at the first gap. */
  ghost predicate Grown(paths: Paths, s: Node, sensitive: seq<Node>, before: seq<Node>, now: seq<Node>) {
    before <= now && forall k :: |before| <= k < |now| ==> Missing(paths, s, sensitive, now[..k], now[k])
  }

  /** No gap is left. */
  ghost predicate Closed(paths: Paths, s: Node, sensitive: seq<Node>, listed: seq<Node>) {
    forall j, p :: 0 <= j < |listed| && p in paths(s, listed[j]) ==> Marked(p, sensitive, listed)
  }

  lemma GapUnique(paths: Paths, s: Node, sensitive: seq<Node>, listed: seq<Node>,
                  j: nat, q: nat, i: nat, j': nat, q': nat, i': nat)
    requires FirstGap(paths, s, sensitive, listed, j, q, i) && FirstGap(paths, s, sensitive, listed, j', q', i')
    ensures j == j' && q == q' && i == i'
  {
    var p, p' := paths(s, listed[j])[q], paths(s, listed[j'])[q'];
    assert p in paths(s, listed[j]) && p' in paths(s, listed[j']);
    GapUnmarked(paths, s, sensitive, listed, j, q, i);
    GapUnmarked(paths, s, sensitive, listed, j', q', i');
  }

  lemma GapUnmarked(paths: Paths, s: Node, sensitive: seq<Node>, listed: seq<Node>, j: nat, q: nat, i: nat)
    requires FirstGap(paths, s, sensitive, listed, j, q, i)
    ensures !Marked(paths(s, listed[j])[q], sensitive, listed)
  {
  }

  lemma NoGap(paths: Paths, s: Node, sensitive: seq<Node>, listed: seq<Node>, x: Node)
    requires Closed(paths, s, sensitive, listed)
    ensures !Missing(paths, s, sensitive, listed, x)
  {
    if Missing(paths, s, sensitive, listed, x) {
      var j: nat, q: nat, i: nat :|
        FirstGap(paths, s, sensitive, listed, j, q, i) && paths(s, listed[j])[q][i + 1] == x;
      assert paths(s, listed[j])[q] in paths(s, listed[j]);
      GapUnmarked(paths, s, sensitive, listed, j, q, i);
    }
  }

  /** Filling the first gap until none is left has one result. */
  lemma {:induction false} GrownPrefix(paths: Paths, s: Node, sensitive: seq<Node>, before: seq<Node>,
                                       a: seq<Node>, b: seq<Node>, k: nat)
    requires Grown(paths, s, sensitive, before, a) && Grown(paths, s, sensitive, before, b)
    requires |before| <= k <= |a| && k <= |b|
    ensures a[..k] == b[..k]
    decreases k
  {
    if k > |before| {
      GrownPrefix(paths, s, sensitive, before, a, b, k - 1);
      var l := a[..k - 1];
      MissingUnique(paths, s, sensitive, l, a[k - 1], b[k - 1]);
      assert a[..k] == l + [a[k - 1]] && b[..k] == l + [b[k - 1]];
    }
  }

  lemma MissingUnique(paths: Paths, s: Node, sensitive: seq<Node>, listed: seq<Node>, x: Node, y: Node)
    requires Missing(paths, s, sensitive, listed, x) && Missing(paths, s, sensitive, listed, y)
    ensures x == y
  {
    hide MarkedBefore, MarkedTo;
    var j: nat, q: nat, i: nat :| FirstGap(paths, s, sensitive, listed, j, q, i) && paths(s, listed[j])[q][i + 1] == x;
    var j': nat, q': nat, i': nat :|
      FirstGap(paths, s, sensitive, listed, j', q', i') && paths(s, listed[j'])[q'][i' + 1] == y;
    GapUnique(paths, s, sensitive, listed, j, q, i, j', q', i');
  }

  lemma GrownUnique(paths: Paths, s: Node, sensitive: seq<Node>, before: seq<Node>, a: seq<Node>, b: seq<Node>)
    requires Grown(paths, s, sensitive, before, a) && Closed(paths, s, sensitive, a)
    requires Grown(paths, s, sensitive, before, b) && Closed(paths, s, sensitive, b)
    ensures a == b
  {
    hide Closed, Missing;
    var n := if |a| < |b| then |a| else |b|;
    GrownPrefix(paths, s, sensitive, before, a, b, n);
    if |a| < |b| {
      assert b[..n] == a;
      NoGap(paths, s, sensitive, a, b[n]);
    } else if |b| < |a| {
      assert a[..n] == b;
      NoGap(paths, s, sensitive, b, a[n]);
    }
  }

  lemma GrownTrans(paths: Paths, s: Node, sensitive: seq<Node>, a: seq<Node>, b: seq<Node>, c: seq<Node>)
    requires Grown(paths, s, sensitive, a, b) && Grown(paths, s, sensitive, b, c)
    ensures Grown(paths, s, sensitive, a, c)
  {
    hide Missing;
    forall k | |a| <= k < |c| ensures Missing(paths, s, sensitive, c[..k], c[k]) {
      if k < |b| {
        assert c[..k] == b[..k];
      }
    }
  }

  /** One more node. */
  lemma GrownStep(paths: Paths, s: Node, sensitive: seq<Node>, before: seq<Node>, now: seq<Node>,
                  j: nat, q: nat, i: nat)
    requires Grown(paths, s, sensitive, before, now) && FirstGap(paths, s, sensitive, now, j, q, i)
    ensures Grown(paths, s, sensitive, before, now + [paths(s, now[j])[q][i + 1]])
  {
    var x := paths(s, now[j])[q][i + 1];
    assert Missing(paths, s, sensitive, now, x);
    hide Missing;
    var r := now + [x];
    forall k | |before| <= k < |r| ensures Missing(paths, s, sensitive, r[..k], r[k]) {
      assert r[..k] == now[..k];
      assert now[..|now|] == now;
    }
  }

  /** An added node stands directly after a sensitive node on a path from the source to a
      node listed before it, and was not listed before. */
  ghost predicate Added(paths: Paths, s: Node, sensitive: seq<Node>, listed: seq<Node>, x: Node) {
    && x !in listed
    && exists t, p, i :: t in listed && p in paths(s, t) && 0 <= i < |p| - 1 && p[i] in sensitive && p[i + 1] == x
  }

  ghost predicate AddedBySome(paths: Paths, sensitive: seq<Node>, listed: seq<Node>, x: Node) {
    exists s :: s in sensitive && Added(paths, s, sensitive, listed, x)
  }

  lemma MissingIsAdded(paths: Paths, s: Node, sensitive: seq<Node>, listed: seq<Node>, x: Node)
    requires Missing(paths, s, sensitive, listed, x)
    ensures Added(paths, s, sensitive, listed, x)
  {
    var j: nat, q: nat, i: nat :| FirstGap(paths, s, sensitive, listed, j, q, i) && paths(s, listed[j])[q][i + 1] == x;
    var p := paths(s, listed[j])[q];
    assert listed[j] in listed && p in paths(s, listed[j]) && p[i] in sensitive && p[i + 1] == x;
  }

  ghost function Unlisted(g: Graph, listed: seq<Node>): (r: set<Node>) {
    set x | x in g.nodes && x !in listed
  }

  /** Growing uses up the nodes of the graph. */
  lemma GrownLess(g: Graph, paths: Paths, s: Node, sensitive: seq<Node>, before: seq<Node>, now: seq<Node>)
    requires YieldsPaths(g, paths) && Grown(paths, s, sensitive, before, now)
    ensures now == before || Unlisted(g, now) < Unlisted(g, before)
  {
    if now != before {
      var x := now[|before|];
      assert now[..|before|] == before;
      MissingIsAdded(paths, s, sensitive, before, x);
      var t, p, i :| t in before && p in paths(s, t) && 0 <= i < |p| - 1 && p[i] in sensitive && p[i + 1] == x;
      assert Walk(g, p, s, t);
      hide Grown, Walk;
      assert x in Unlisted(g, before) && x !in Unlisted(g, now);
      assert Unlisted(g, now) <= Unlisted(g, before);
    }
  }

  // ----------------------------------------------------------------- soundness

  /** `x` is called directly by a sensitive function and reaches a function that was
      listed as untrusted in the first place. */
  ghost predicate Justified(g: Graph, sensitive: seq<Node>, initial: seq<Node>, x: Node) {
    && (exists s :: s in sensitive && (s, x) in g.edges)
    && (exists t :: t in initial && Reaches(g, x, t))
  }

  ghost predicate Sound(g: Graph, sensitive: seq<Node>, initial: seq<Node>, listed: seq<Node>) {
    initial <= listed && forall x :: x in listed[|initial|..] ==> Justified(g, sensitive, initial, x)
  }

  lemma JoinWalks(g: Graph, p: seq<Node>, q: seq<Node>, a: Node, b: Node, c: Node)
    requires Walk(g, p, a, b) && Walk(g, q, b, c)
    ensures Walk(g, p + q[1..], a, c)
  {
    var r := p + q[1..];
    forall i | 0 <= i < |r| - 1 ensures (r[i], r[i + 1]) in g.edges {
      if i < |p| - 1 {
        assert (p[i], p[i + 1]) in g.edges;
      } else {
        assert r[i] == q[i - |p| + 1] && r[i + 1] == q[i - |p| + 2];
      }
    }
  }

  lemma Suffix(g: Graph, p: seq<Node>, s: Node, t: Node, i: nat)
    requires Walk(g, p, s, t) && i < |p|
    ensures Walk(g, p[i..], p[i], t)
  {
  }

  /** The node behind a sensitive node on a path to a listed node may be listed. */
  lemma JustifyNext(g: Graph, sensitive: seq<Node>, initial: seq<Node>, listed: seq<Node>,
                    p: seq<Node>, s: Node, t: Node, i: nat)
    requires Sound(g, sensitive, initial, listed) && t in listed
    requires Walk(g, p, s, t) && i + 1 < |p| && p[i] in sensitive
    ensures Justified(g, sensitive, initial, p[i + 1])
  {
    assert (p[i], p[i + 1]) in g.edges;
    Suffix(g, p, s, t, i + 1);
    if t in initial {
      assert Reaches(g, p[i + 1], t);
    } else {
      assert listed == initial + listed[|initial|..];
      assert Justified(g, sensitive, initial, t);
      var u :| u in initial && Reaches(g, t, u);
      var q :| Walk(g, q, t, u);
      JoinWalks(g, p[i + 1..], q, p[i + 1], t, u);
      assert Reaches(g, p[i + 1], u);
    }
  }

  lemma SoundAppend(g: Graph, sensitive: seq<Node>, initial: seq<Node>, listed: seq<Node>, x: Node)
    requires Sound(g, sensitive, initial, listed) && Justified(g, sensitive, initial, x)
    ensures Sound(g, sensitive, initial, listed + [x])
  {
    assert (listed + [x])[|initial|..] == listed[|initial|..] + [x];
  }

  /** Growing keeps the list sound. */
  lemma {:induction false} GrownSound(g: Graph, paths: Paths, s: Node, sensitive: seq<Node>, initial: seq<Node>,
                                      before: seq<Node>, now: seq<Node>)
    requires YieldsPaths(g, paths) && Sound(g, sensitive, initial, before) && Grown(paths, s, sensitive, before, now)
    ensures Sound(g, sensitive, initial, now)
    decreases |now|
  {
    hide Sound, Missing, YieldsPaths, Added, Walk;
    if |now| == |before| {
      assert now == before;
    } else {
      GrownInit(paths, s, sensitive, before, now);
      hide Grown;
      var n := |now| - 1;
      GrownSound(g, paths, s, sensitive, initial, before, now[..n]);
      AddedSound(g, paths, s, sensitive, initial, now[..n], now[n]);
      assert now == now[..n] + [now[n]];
    }
  }

  lemma AddedSound(g: Graph, paths: Paths, s: Node, sensitive: seq<Node>, initial: seq<Node>, l: seq<Node>, x: Node)
    requires YieldsPaths(g, paths) && Sound(g, sensitive, initial, l) && Added(paths, s, sensitive, l, x)
    ensures Sound(g, sensitive, initial, l + [x])
  {
    hide Sound, Walk, Justified, SimplePath;
    var t, p, i :| t in l && p in paths(s, t) && 0 <= i < |p| - 1 && p[i] in sensitive && p[i + 1] == x;
    JustifyNext(g, sensitive, initial, l, p, s, t, i);
    SoundAppend(g, sensitive, initial, l, x);
  }

  lemma GrownInit(paths: Paths, s: Node, sensitive: seq<Node>, before: seq<Node>, now: seq<Node>)
    requires Grown(paths, s, sensitive, before, now) && |before| < |now|
    ensures Grown(paths, s, sensitive, before, now[..|now| - 1])
    ensures Added(paths, s, sensitive, now[..|now| - 1], now[|now| - 1])
  {
    var n := |now| - 1;
    MissingIsAdded(paths, s, sensitive, now[..n], now[n]);
    hide Missing, Added;
    assert forall k :: |before| <= k < n ==> now[..n][..k] == now[..k];
  }

  lemma MarkedStays(p: seq<Node>, sensitive: seq<Node>, before: seq<Node>, now: seq<Node>)
    requires before <= now && Marked(p, sensitive, before)
    ensures Marked(p, sensitive, now)
  {
  }

  lemma MarkedBeforeStays(paths: Paths, s: Node, sensitive: seq<Node>, before: seq<Node>, now: seq<Node>,
                          j: nat, q: nat)
    requires before <= now && j < |before| && q <= |paths(s, before[j])|
    requires MarkedBefore(paths, s, sensitive, before, j, q)
    ensures MarkedBefore(paths, s, sensitive, now, j, q)
  {
    forall p | Marked(p, sensitive, before) ensures Marked(p, sensitive, now) {
      MarkedStays(p, sensitive, before, now);
    }
  }

  // ------------------------------------------------------------------ the code

  /** The innermost loop: walks path `q` to target `j` and lists the nodes behind
      sensitive ones. */
  method MarkPath(path: seq<Node>, sensitive: seq<Node>, before: seq<Node>,
                  ghost paths: Paths, ghost s: Node, ghost j: nat, ghost q: nat)
    returns (listed: seq<Node>)
    requires j < |before| && q < |paths(s, before[j])| && path == paths(s, before[j])[q]
    requires MarkedBefore(paths, s, sensitive, before, j, q)
    ensures Grown(paths, s, sensitive, before, listed)
    ensures MarkedBefore(paths, s, sensitive, listed, j, q + 1)
  {
    hide Grown, MarkedBefore;
    listed := before;
    GrownNone(paths, s, sensitive, before);
    var idx := 0;
    while idx < |path|
      invariant 0 <= idx <= |path| && before <= listed
      invariant Grown(paths, s, sensitive, before, listed) && MarkedTo(path, sensitive, listed, idx)
    {
      MarkedBeforeStays(paths, s, sensitive, before, listed, j, q);
      if path[idx] in sensitive && idx + 1 < |path| {
        if path[idx + 1] !in listed {
          GrownStep(paths, s, sensitive, before, listed, j, q, idx);
          listed := listed + [path[idx + 1]];
        }
      }
      idx := idx + 1;
    }
    MarkedBeforeStays(paths, s, sensitive, before, listed, j, q);
    MarkedBeforeNext(paths, s, sensitive, listed, j, q);
  }

  lemma GrownNone(paths: Paths, s: Node, sensitive: seq<Node>, before: seq<Node>)
    ensures Grown(paths, s, sensitive, before, before)
  {
  }

  lemma MarkedBeforeNext(paths: Paths, s: Node, sensitive: seq<Node>, listed: seq<Node>, j: nat, q: nat)
    requires j < |listed| && q < |paths(s, listed[j])| && MarkedBefore(paths, s, sensitive, listed, j, q)
    requires Marked(paths(s, listed[j])[q], sensitive, listed)
    ensures MarkedBefore(paths, s, sensitive, listed, j, q + 1)
  {
  }

  /** All paths to target `j`. */
  method MarkTarget(ps: seq<seq<Node>>, sensitive: seq<Node>, before: seq<Node>,
                    ghost paths: Paths, ghost s: Node, ghost j: nat)
    returns (listed: seq<Node>)
    requires j < |before| && ps == paths(s, before[j]) && MarkedBefore(paths, s, sensitive, before, j, 0)
    ensures Grown(paths, s, sensitive, before, listed)
    ensures before <= listed && MarkedBefore(paths, s, sensitive, listed, j, |ps|)
  {
    hide Missing, MarkedBefore;
    listed := before;
    for q := 0 to |ps|
      invariant Grown(paths, s, sensitive, before, listed)
      invariant MarkedBefore(paths, s, sensitive, listed, j, q)
    {
      ghost var was := listed;
      listed := MarkPath(ps[q], sensitive, listed, paths, s, j, q);
      GrownTrans(paths, s, sensitive, before, was, listed);
    }
  }

  /** All listed nodes as targets of one sensitive function.  The list grows while it is
      being iterated over; the first gap is filled until there is none. */
  method MarkSource(g: Graph, paths: Paths, s: Node, sensitive: seq<Node>, before: seq<Node>)
    returns (listed: seq<Node>)
    requires YieldsPaths(g, paths)
    ensures Grown(paths, s, sensitive, before, listed) && Closed(paths, s, sensitive, listed)
  {
    hide Walk, SimplePath, Unlisted, Missing, YieldsPaths, Marked;
    listed := before;
    var j := 0;
    while j < |listed|
      invariant 0 <= j <= |listed| && Grown(paths, s, sensitive, before, listed)
      invariant forall l, p :: 0 <= l < j && p in paths(s, listed[l]) ==> Marked(p, sensitive, listed)
      decreases Unlisted(g, listed), |listed| - j
    {
      ghost var was := listed;
      listed := MarkTarget(paths(s, listed[j]), sensitive, listed, paths, s, j);
      GrownTrans(paths, s, sensitive, before, was, listed);
      GrownLess(g, paths, s, sensitive, was, listed);
      j := j + 1;
    }
  }

  /** `phases[i]` is the list before source `i` is treated: for each source in turn the
      first gap is filled until none is left. */
  ghost predicate Marking(paths: Paths, sensitive: seq<Node>, initial: seq<Node>, phases: seq<seq<Node>>) {
    && |phases| == |sensitive| + 1 && phases[0] == initial
    && forall i :: 0 <= i < |sensitive| ==>
      && Grown(paths, sensitive[i], sensitive, phases[i], phases[i + 1])
      && Closed(paths, sensitive[i], sensitive, phases[i + 1])
  }

  /** This determines the list, ids and order. */
  lemma {:induction false} MarkingUnique(paths: Paths, sensitive: seq<Node>, initial: seq<Node>,
                                         a: seq<seq<Node>>, b: seq<seq<Node>>, i: nat)
    requires Marking(paths, sensitive, initial, a) && Marking(paths, sensitive, initial, b) && i <= |sensitive|
    ensures a[i] == b[i]
  {
    if i > 0 {
      hide Grown, Closed;
      MarkingUnique(paths, sensitive, initial, a, b, i - 1);
      GrownUnique(paths, sensitive[i - 1], sensitive, a[i - 1], a[i], b[i]);
    }
  }

  /** Everything that holds of the marking up to phase `n`. */
  lemma {:induction false} MarkingSound(g: Graph, paths: Paths, sensitive: seq<Node>, initial: seq<Node>,
                                        phases: seq<seq<Node>>, n: nat)
    requires YieldsPaths(g, paths) && Marking(paths, sensitive, initial, phases) && n <= |sensitive|
    ensures Sound(g, sensitive, initial, phases[n])
    ensures forall i :: 1 <= i <= n ==> initial <= phases[i] <= phases[n]
    ensures forall k :: |initial| <= k < |phases[n]| ==> AddedBySome(paths, sensitive, phases[n][..k], phases[n][k])
  {
    hide YieldsPaths, Justified, Missing, Added, Closed;
    if n == 0 {
      assert phases[0][|initial|..] == [];
    } else {
      var s, was, now := sensitive[n - 1], phases[n - 1], phases[n];
      MarkingSound(g, paths, sensitive, initial, phases, n - 1);
      GrownSound(g, paths, s, sensitive, initial, was, now);
      forall i | 1 <= i <= n ensures initial <= phases[i] <= now {
        assert i < n ==> phases[i] <= was;
      }
      forall k | |initial| <= k < |now| ensures AddedBySome(paths, sensitive, now[..k], now[k]) {
        if k < |was| {
          assert now[..k] == was[..k];
        } else {
          MissingIsAdded(paths, s, sensitive, now[..k], now[k]);
        }
      }
    }
  }

  /** The marking loop.  It terminates with the list that filling first gaps, source by
      source, determines.  No id is added twice; every added id stands directly after a
      sensitive node on a path from a sensitive function to an id listed before it, is
      called directly by a sensitive function and reaches an initially listed one; and
      every node directly after a sensitive node on a simple path from a sensitive
      function to an initially listed one ends up listed. */
  method MarkUntrusted(g: Graph, paths: Paths, sensitive: seq<Node>, initial: seq<Node>)
    returns (listed: seq<Node>, ghost phases: seq<seq<Node>>)
    requires YieldsPaths(g, paths)
    ensures Marking(paths, sensitive, initial, phases) && listed == phases[|sensitive|]
    ensures initial <= listed
    ensures forall i, j :: 0 <= i < j < |listed| && |initial| <= j ==> listed[i] != listed[j]
    ensures forall k :: |initial| <= k < |listed| ==> AddedBySome(paths, sensitive, listed[..k], listed[k])
    ensures forall x :: x in listed[|initial|..] ==> Justified(g, sensitive, initial, x)
    ensures forall s, t, p :: s in sensitive && t in initial && s != t && SimplePath(g, p, s, t) ==>
      Marked(p, sensitive, listed)
  {
    hide Walk, SimplePath, Grown, Closed, Justified, YieldsPaths, Marked, AddedBySome;
    listed, phases := initial, [initial];
    for i := 0 to |sensitive|
      invariant |phases| == i + 1 && phases[0] == initial && phases[i] == listed
      invariant forall l :: 0 <= l < i ==>
        && Grown(paths, sensitive[l], sensitive, phases[l], phases[l + 1])
        && Closed(paths, sensitive[l], sensitive, phases[l + 1])
    {
      listed := MarkSource(g, paths, sensitive[i], sensitive, listed);
      phases := phases + [listed];
    }
    MarkingSound(g, paths, sensitive, initial, phases, |sensitive|);
    AddedOnce(paths, sensitive, initial, listed);
    forall s, t, p | s in sensitive && t in initial && s != t && SimplePath(g, p, s, t)
      ensures Marked(p, sensitive, listed)
    {
      var i :| 0 <= i < |sensitive| && sensitive[i] == s;
      PathMarked(g, paths, s, t, p, sensitive, phases[i + 1], listed);
    }
  }

  lemma AddedOnce(paths: Paths, sensitive: seq<Node>, initial: seq<Node>, listed: seq<Node>)
    requires initial <= listed
    requires forall k :: |initial| <= k < |listed| ==> AddedBySome(paths, sensitive, listed[..k], listed[k])
    ensures forall i, j :: 0 <= i < j < |listed| && |initial| <= j ==> listed[i] != listed[j]
  {
    forall i, j | 0 <= i < j < |listed| && |initial| <= j ensures listed[i] != listed[j] {
      assert listed[..j][i] == listed[i];
    }
  }

  lemma PathMarked(g: Graph, paths: Paths, s: Node, t: Node, p: seq<Node>, sensitive: seq<Node>,
                   there: seq<Node>, listed: seq<Node>)
    requires YieldsPaths(g, paths) && s != t && SimplePath(g, p, s, t) && t in there && there <= listed
    requires Closed(paths, s, sensitive, there)
    ensures Marked(p, sensitive, listed)
  {
    assert p in paths(s, t);
    var j :| 0 <= j < |there| && there[j] == t;
    MarkedStays(p, sensitive, there, listed);
  }
}
