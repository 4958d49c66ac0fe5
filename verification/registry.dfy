/** The public entry point `suite(namespace, specs)` over the whole state:
    the namespace tree rooted at `_rootSuite`, the host store and the log of
    specs invocations, with the invariant every call preserves. */
module Registry {
  import opened Base
  import opened Host
  import opened Tree
  import opened Materialize
  import opened Namespace

  datatype State = State(root: Node, host: Store, log: seq<Call>)

  /** The root is never described and has no host suite; below it, the tree
      agrees with the store. A first-segment node nests in whatever suite
      was active at its first `describe`, so nothing is required of it. */
  ghost predicate TreeOK(root: Node, suites: map<SuiteId, HostSuite>) {
    && !root.added
    && root.suiteObj.None?
    && ChildrenOK(root.children, None, suites)
  }

  /** Every specs invocation ran against a suite of the store, and no two
      against the same suite. */
  ghost predicate LogOK(log: seq<Call>, h: Store) {
    && (forall i :: 0 <= i < |log| ==> log[i].suite < h.next)
    && (forall i, j :: 0 <= i < j < |log| ==> log[i].suite != log[j].suite)
  }

  /** A first-segment node is created only by `suite()`, which describes it
      at once and leaves it fully materialized: every child of the root is
      settled. */
  ghost predicate RootSettled(root: Node) {
    forall i :: 0 <= i < |root.children| ==> Settled(root.children[i].node)
  }

  ghost predicate Consistent(st: State) {
    && WF(st.host)
    && TreeOK(st.root, st.host.suites)
    && Keyed(st.root, "")
    && LogOK(st.log, st.host)
  }

  ghost predicate Inv(st: State) {
    Consistent(st) && RootSettled(st.root)
  }

  /** The state when the module is loaded: a bare root, Jasmine's top-level
      suite, and no specs run. */
  function Init(): (st: State)
    ensures Inv(st)
    ensures st.root.children == [] && st.log == []
  {
    State(Root(), Host.Init(), [])
  }

  /** `suite(namespace, specs)`: split the namespace, walk it from the root
      creating missing nodes, store `specs` on the last node, and describe
      the first-segment node; the result is that node's host suite. */
  function Suite(st: State, ns: string, specs: Option<Spec>): (r: (State, SuiteId))
    requires Inv(st)
    ensures Inv(r.0)
    ensures Grows(st.host, r.0.host) && r.0.host.active == st.host.active
    ensures |st.log| <= |r.0.log| && r.0.log[..|st.log|] == st.log
    ensures var last := At(r.0.root, "", Split(ns));
      last.Some? && last.value.specs == specs
    ensures var first := At(r.0.root, "", [Split(ns)[0]]);
      && first.Some?
      && first.value.suiteObj == Some(r.1)
      && Settled(first.value)
    ensures r.1 in r.0.host.suites && r.0.host.suites[r.1].description == Split(ns)[0]
  {
    var parts := Split(ns);
    var k := "" + "/" + parts[0];
    var root1 := Resolve(st.root, "", parts, specs);
    ResolveReaches(st.root, "", parts, specs);
    var i := Find(root1.children, k).value;
    var c := root1.children[i];
    ResolveTreeOK(st.root, parts, specs, st.host.suites);
    var d := DescribeNode(c.node, None, st.host, st.log);
    var root2 := root1.(children := root1.children[i := Child(c.key, d.node)]);
    SuiteFacts(st, parts, specs, root1, i, d, root2);
    SuiteSettled(st, parts, specs, root1, i, d.node, root2);
    (State(root2, d.host, d.log), d.node.suiteObj.value)
  }

  /** Resolution keeps the root unmaterialized and the tree in agreement
      with the store: the nodes it creates are fresh and unadded. */
  lemma ResolveTreeOK(root: Node, parts: seq<string>, specs: Option<Spec>, s: map<SuiteId, HostSuite>)
    requires TreeOK(root, s) && |parts| >= 1
    ensures TreeOK(Resolve(root, "", parts, specs), s)
  {
    ResolveChildrenOK(root, "", parts, specs, s);
  }

  lemma {:induction false} ResolveNodeOK(n: Node, key: string, parts: seq<string>, specs: Option<Spec>,
                                         up: Option<SuiteId>, s: map<SuiteId, HostSuite>)
    requires NodeOK(n, up, s)
    ensures NodeOK(Resolve(n, key, parts, specs), up, s)
    decreases parts, 1
  {
    ResolveChildrenOK(n, key, parts, specs, s);
    ResolveAddsUnadded(n, key, parts, specs);
  }

  /** Resolution keeps a node's own label and materialization state, and
      every child it adds is unadded. */
  lemma ResolveAddsUnadded(n: Node, key: string, parts: seq<string>, specs: Option<Spec>)
    ensures var r := Resolve(n, key, parts, specs);
      && r.added == n.added && r.suiteObj == n.suiteObj && r.description == n.description
      && ((forall i :: 0 <= i < |n.children| && n.children[i].node.added ==> n.added) ==>
          (forall i :: 0 <= i < |r.children| && r.children[i].node.added ==> n.added))
    decreases parts
  {
    if |parts| > 0 {
      var k := key + "/" + parts[0];
      var (n1, j) := GetOrCreate(n, k, parts[0]);
      var c := n1.children[j];
      var sub := Resolve(c.node, c.key, parts[1..], specs);
      assert Resolve(n, key, parts, specs) == n1.(children := n1.children[j := Child(k, sub)]);
      ResolveAddsUnadded(c.node, k, parts[1..], specs);
    }
  }

  lemma {:induction false} ResolveChildrenOK(n: Node, key: string, parts: seq<string>, specs: Option<Spec>,
                                             s: map<SuiteId, HostSuite>)
    requires ChildrenOK(n.children, n.suiteObj, s)
    ensures ChildrenOK(Resolve(n, key, parts, specs).children, n.suiteObj, s)
    decreases parts, 0
  {
    if |parts| > 0 {
      var k := key + "/" + parts[0];
      var (n1, j) := GetOrCreate(n, k, parts[0]);
      var c := n1.children[j];
      var sub := Resolve(c.node, c.key, parts[1..], specs);
      assert Resolve(n, key, parts, specs).children == n1.children[j := Child(k, sub)];
      assert ChildrenOK(n1.children, n.suiteObj, s) by {
        if Find(n.children, k).None? {
          assert n1.children == n.children + [Child(k, Fresh(parts[0]))];
        }
      }
      ResolveNodeOK(c.node, k, parts[1..], specs, n.suiteObj, s);
    }
  }

  /** A keyed tree stays keyed when only materialization state changes. */
  lemma KeyedSameShape(n: Node, m: Node, key: string)
    requires Keyed(n, key) && SameShape(n, m)
    ensures Keyed(m, key)
    decreases n
  {
    forall i | 0 <= i < |m.children| ensures Keyed(m.children[i].node, m.children[i].key) {
      KeyedSameShape(n.children[i].node, m.children[i].node, n.children[i].key);
    }
  }

  /** Paths lead to corresponding nodes, with the same specs, in two trees
      of the same shape. */
  lemma {:induction false} AtSameShape(n: Node, m: Node, key: string, parts: seq<string>)
    requires SameShape(n, m)
    ensures At(n, key, parts).Some? <==> At(m, key, parts).Some?
    ensures At(n, key, parts).Some? ==>
      SameShape(At(n, key, parts).value, At(m, key, parts).value)
    decreases parts
  {
    if |parts| > 0 {
      var k := key + "/" + parts[0];
      assert Keys(n.children) == Keys(m.children);
      FindSameKeys(n.children, m.children, k);
      if Find(n.children, k).Some? {
        var i := Find(n.children, k).value;
        AtSameShape(n.children[i].node, m.children[i].node, k, parts[1..]);
      }
    }
  }

  lemma FindSameKeys(cs: seq<Child>, ds: seq<Child>, key: string)
    requires Keys(cs) == Keys(ds)
    ensures Find(cs, key) == Find(ds, key)
  {
    var a := Find(cs, key);
    var b := Find(ds, key);
    assert forall j :: 0 <= j < |cs| ==> cs[j].key == Keys(cs)[j] == Keys(ds)[j] == ds[j].key;
    if a.Some? && b.Some? {
      assert !(a.value < b.value) && !(b.value < a.value);
    }
  }

  /** The bookkeeping behind `Suite`'s contract. */
  lemma SuiteFacts(st: State, parts: seq<string>, specs: Option<Spec>,
                   root1: Node, i: nat, d: Out, root2: Node)
    requires Inv(st) && |parts| >= 1
    requires root1 == Resolve(st.root, "", parts, specs)
    requires TreeOK(root1, st.host.suites)
    requires At(root1, "", parts).Some? && At(root1, "", parts).value.specs == specs
    requires Find(root1.children, "" + "/" + parts[0]) == Some(i)
    requires WF(d.host) && Grows(st.host, d.host)
    requires NodeOK(d.node, None, d.host.suites) && Settled(d.node)
    requires SameShape(root1.children[i].node, d.node)
    requires LogExt(st.log, d.log, st.host.next, d.host.next)
    requires root2 == root1.(children := root1.children[i := Child(root1.children[i].key, d.node)])
    ensures Consistent(State(root2, d.host, d.log))
    ensures var last := At(root2, "", parts);
      last.Some? && last.value.specs == specs
    ensures var first := At(root2, "", [parts[0]]);
      && first.Some?
      && first.value == d.node
    ensures d.node.suiteObj.Some? && d.node.suiteObj.value in d.host.suites
    ensures d.host.suites[d.node.suiteObj.value].description == parts[0]
  {
    SuiteTreeFacts(st, parts, specs, root1, i, d, root2);
    LogOKExt(st.log, st.host, d.log, d.host);
    AtSameShape(root1, root2, "", parts);
    FindUpdate(root1.children, i, "" + "/" + parts[0], d.node);
  }

  /** After a call the tree is still keyed and agrees with the grown store,
      and the first-segment node keeps its label. */
  lemma SuiteTreeFacts(st: State, parts: seq<string>, specs: Option<Spec>,
                       root1: Node, i: nat, d: Out, root2: Node)
    requires Keyed(st.root, "") && |parts| >= 1
    requires root1 == Resolve(st.root, "", parts, specs)
    requires TreeOK(root1, st.host.suites)
    requires Find(root1.children, "" + "/" + parts[0]) == Some(i)
    requires Grows(st.host, d.host)
    requires NodeOK(d.node, None, d.host.suites)
    requires SameShape(root1.children[i].node, d.node)
    requires root2 == root1.(children := root1.children[i := Child(root1.children[i].key, d.node)])
    ensures Keyed(root2, "") && TreeOK(root2, d.host.suites) && SameShape(root1, root2)
    ensures d.node.description == parts[0]
  {
    ResolveKeyed(st.root, "", parts, specs);
    assert Keyed(root1, "");
    // The tree after describing: same shape, still keyed, still agreeing.
    SameShapeReplace(root1, i, d.node);
    KeyedSameShape(root1, root2, "");
    TreeOKReplace(root1, i, d.node, st.host, d.host);
    FirstLabel(root1, parts, i);
  }

  /** Replacing one entry of the root by a node that agrees with a grown
      store keeps the whole tree in agreement with it. */
  lemma TreeOKReplace(root: Node, i: nat, m: Node, h1: Store, h2: Store)
    requires TreeOK(root, h1.suites) && Grows(h1, h2)
    requires i < |root.children| && NodeOK(m, None, h2.suites)
    ensures TreeOK(root.(children := root.children[i := Child(root.children[i].key, m)]), h2.suites)
  {
    ChildrenOKGrows(root.children, None, h1, h2);
  }

  /** The first-segment entry of a keyed root is labelled with the first
      segment. */
  lemma FirstLabel(root: Node, parts: seq<string>, i: nat)
    requires Keyed(root, "") && |parts| >= 1
    requires Find(root.children, "" + "/" + parts[0]) == Some(i)
    ensures root.children[i].node.description == parts[0]
  {
    var c := root.children[i];
    assert c.key == "" + "/" + c.node.description;
    assert c.key == "" + "/" + parts[0];
    assert c.node.description == c.key[1..] == parts[0];
  }

  /** Only the first-segment entry of the root changes in a call, and it
      comes back settled, so every entry stays settled. */
  lemma SuiteSettled(st: State, parts: seq<string>, specs: Option<Spec>,
                     root1: Node, i: nat, m: Node, root2: Node)
    requires Inv(st) && |parts| >= 1
    requires root1 == Resolve(st.root, "", parts, specs)
    requires Find(root1.children, "" + "/" + parts[0]) == Some(i) && i < |root1.children|
    requires Settled(m)
    requires root2 == root1.(children := root1.children[i := Child(root1.children[i].key, m)])
    ensures RootSettled(root2)
  {
    ResolveOthers(st.root, "", parts, specs);
    forall j | 0 <= j < |root2.children|
      ensures Settled(root2.children[j].node)
    {
      if j != i {
        assert root2.children[j] == root1.children[j] == st.root.children[j];
      }
    }
  }

  /** Replacing one child by a version of the same shape keeps the shape of
      the whole node. */
  lemma SameShapeReplace(n: Node, i: nat, m: Node)
    requires i < |n.children| && SameShape(n.children[i].node, m)
    ensures SameShape(n, n.(children := n.children[i := Child(n.children[i].key, m)]))
  {
    var n2 := n.(children := n.children[i := Child(n.children[i].key, m)]);
    forall j | 0 <= j < |n.children|
      ensures SameShape(n.children[j].node, n2.children[j].node)
    {
      if j != i {
        SameShapeRefl(n.children[j].node);
      }
    }
  }

  /** Extending the log with calls against suites created since keeps every
      call against a distinct, existing suite. */
  lemma LogOKExt(log: seq<Call>, h: Store, log2: seq<Call>, h2: Store)
    requires LogOK(log, h) && h.next <= h2.next
    requires LogExt(log, log2, h.next, h2.next)
    ensures LogOK(log2, h2)
  {
    forall a, b | 0 <= a < b < |log2| ensures log2[a].suite != log2[b].suite {
      if b < |log| {
        assert log2[a] == log[a] && log2[b] == log[b];
      } else if a < |log| {
        assert log2[a] == log[a];
      }
    }
    forall a | 0 <= a < |log2| ensures log2[a].suite < h2.next {
      if a < |log| {
        assert log2[a] == log[a];
      }
    }
  }

  /** A second `suite()` with the same namespace and specs changes nothing:
      resolution finds every node, the first-segment node is already fully
      materialized, so no host `describe()` is issued and no specs run, and
      the same host suite is returned. */
  lemma SuiteIdempotent(st: State, ns: string, specs: Option<Spec>)
    requires Inv(st)
    ensures var r := Suite(st, ns, specs);
      Suite(r.0, ns, specs) == r
  {
    var r := Suite(st, ns, specs);
    var st1 := r.0;
    var parts := Split(ns);
    var k := "" + "/" + parts[0];
    ResolvePresent(st1.root, "", parts, specs);
    var i := Find(st1.root.children, k).value;
    var c := st1.root.children[i];
    assert At(st1.root, "", [parts[0]]) == At(c.node, k, []) == Some(c.node);
    DescribeSettled(c.node, None, st1.host, st1.log);
    assert st1.root.children[i := Child(c.key, c.node)] == st1.root.children;
  }

  /** `suite()` in three steps: resolve the path, find the first segment's
      child, describe it. */
  lemma SuiteSteps(st: State, ns: string, specs: Option<Spec>, root1: Node, i: nat, d: Out)
    requires Inv(st)
    requires Resolve(st.root, "", Split(ns), specs) == root1
    requires Find(root1.children, "" + "/" + Split(ns)[0]) == Some(i) && i < |root1.children|
    requires WF(st.host) && NodeOK(root1.children[i].node, None, st.host.suites)
    requires DescribeNode(root1.children[i].node, None, st.host, st.log) == d
    ensures Suite(st, ns, specs)
         == (State(root1.(children := root1.children[i := Child(root1.children[i].key, d.node)]), d.host, d.log),
             d.node.suiteObj.value)
  {
  }

  /** Replacing one child by a later version of it keeps the whole node. */
  lemma KeepsReplace(n: Node, i: nat, m: Node)
    requires i < |n.children| && KeepsSuites(n.children[i].node, m)
    ensures KeepsSuites(n, n.(children := n.children[i := Child(n.children[i].key, m)]))
  {
    var n2 := n.(children := n.children[i := Child(n.children[i].key, m)]);
    forall j | 0 <= j < |n.children|
      ensures KeepsSuites(n.children[j].node, n2.children[j].node)
    {
      if j != i {
        KeepsRefl(n.children[j].node);
      }
    }
  }

  /** Across a `suite()` call every node of the tree stays where it was,
      under the same key, and a node that had a host suite keeps that same
      suite: no node is ever described by the host twice. */
  lemma SuiteKeepsSuites(st: State, ns: string, specs: Option<Spec>)
    requires Inv(st)
    ensures KeepsSuites(st.root, Suite(st, ns, specs).0.root)
  {
    var parts := Split(ns);
    var k := "" + "/" + parts[0];
    var root1 := Resolve(st.root, "", parts, specs);
    ResolveReaches(st.root, "", parts, specs);
    var i := Find(root1.children, k).value;
    var c := root1.children[i];
    ResolveTreeOK(st.root, parts, specs, st.host.suites);
    var d := DescribeNode(c.node, None, st.host, st.log);
    var root2 := root1.(children := root1.children[i := Child(c.key, d.node)]);
    assert Suite(st, ns, specs).0.root == root2;
    ResolveKeepsSuites(st.root, "", parts, specs);
    DescribeKeeps(c.node, None, st.host, st.log);
    KeepsReplace(root1, i, d.node);
    KeepsTrans(st.root, root1, root2);
  }

  /** After `suite(ns, specs)` the specs sit on the entry stored under the
      key '/' followed by the namespace string itself, in the node of all
      but the last segment, which is how the keys '/a', '/a/b', ... of the
      walk accumulate. */
  lemma StoredUnderNamespace(st: State, ns: string, specs: Option<Spec>)
    requires Inv(st)
    ensures var parts := Split(ns);
      var p := At(Suite(st, ns, specs).0.root, "", parts[..|parts| - 1]);
      && p.Some?
      && Find(p.value.children, "/" + ns).Some?
      && p.value.children[Find(p.value.children, "/" + ns).value].node.specs == specs
  {
    var parts := Split(ns);
    var root := Suite(st, ns, specs).0.root;
    var i := |parts| - 1;
    assert parts[..i + 1] == parts;
    AtKey(root, "", parts, i);
    LastKey(ns);
  }

  /** A node below an added node is reached only through added nodes: the
      host describes a child only from inside its parent. */
  lemma {:induction false} AtAddedAncestor(n: Node, up: Option<SuiteId>, s: map<SuiteId, HostSuite>,
                                           key: string, parts: seq<string>)
    requires NodeOK(n, up, s)
    requires At(n, key, parts).Some? && At(n, key, parts).value.added
    ensures n.added
    decreases parts
  {
    if |parts| > 0 {
      var k := key + "/" + parts[0];
      var j := Find(n.children, k).value;
      AtAddedAncestor(n.children[j].node, n.suiteObj, s, k, parts[1..]);
    }
  }

  /** Storing specs on a node that already exists keeps a settled subtree
      settled: the walk creates nothing and only the end node's specs
      change. */
  lemma {:induction false} ResolveSettledPath(n: Node, key: string, parts: seq<string>, spec: Spec)
    requires Settled(n) && At(n, key, parts).Some?
    ensures Settled(Resolve(n, key, parts, Some(spec)))
    decreases parts
  {
    if |parts| > 0 {
      var k := key + "/" + parts[0];
      var j := Find(n.children, k).value;
      var c := n.children[j];
      var sub := Resolve(c.node, k, parts[1..], Some(spec));
      var r := Resolve(n, key, parts, Some(spec));
      assert GetOrCreate(n, k, parts[0]) == (n, j);
      assert r == n.(children := n.children[j := Child(k, sub)]);
      if n.specs.None? {
        ResolveSettledPath(c.node, k, parts[1..], spec);
        assert forall i :: 0 <= i < |r.children| && i != j ==> r.children[i] == n.children[i];
      }
    }
  }

  /** A walk that passes through a node with specs keeps a settled subtree
      settled: whatever it creates lies below that node, whose children
      are never expanded. */
  lemma {:induction false} ResolveSettledLeaf(n: Node, key: string, parts: seq<string>,
                                              specs: Option<Spec>, p: nat)
    requires Settled(n) && p < |parts|
    requires At(n, key, parts[..p]).Some? && At(n, key, parts[..p]).value.specs.Some?
    ensures Settled(Resolve(n, key, parts, specs))
    decreases p
  {
    var k := key + "/" + parts[0];
    var r := Resolve(n, key, parts, specs);
    if p == 0 {
      assert At(n, key, parts[..0]) == Some(n);
    } else if n.specs.None? {
      assert parts[..p][0] == parts[0] && parts[..p][1..] == parts[1..][..p - 1];
      var j := Find(n.children, k).value;
      var c := n.children[j];
      var sub := Resolve(c.node, k, parts[1..], specs);
      assert GetOrCreate(n, k, parts[0]) == (n, j);
      assert r == n.(children := n.children[j := Child(k, sub)]);
      ResolveSettledLeaf(c.node, k, parts[1..], specs, p - 1);
      assert forall i :: 0 <= i < |r.children| && i != j ==> r.children[i] == n.children[i];
    }
  }

  /** The first-segment node of a path to an added node is added, hence
      settled; resolving the path keeps it in the root at the same place. */
  lemma FirstSettled(st: State, parts: seq<string>, q: seq<string>)
    requires Inv(st) && |parts| >= 1 && |q| >= 1 && q[0] == parts[0]
    requires var n := At(st.root, "", q); n.Some? && n.value.added
    ensures var j := Find(st.root.children, "" + "/" + parts[0]);
      j.Some? && Settled(st.root.children[j.value].node)
      && At(st.root, "", q) == At(st.root.children[j.value].node, "" + "/" + parts[0], q[1..])
  {
    var k := "" + "/" + parts[0];
    assert Find(st.root.children, k).Some?;
    var j := Find(st.root.children, k).value;
    var n0 := st.root.children[j].node;
    assert NodeOK(n0, None, st.host.suites);
    AtAddedAncestor(n0, None, st.host.suites, k, q[1..]);
  }

  /** Once a path's node has been described, giving it new specs runs
      nothing and leaves the store as it was, at any depth: the walk only
      replaces the stored specs, the first-segment node is already fully
      materialized, and `_addSpecs` runs specs only while a node is not yet
      added. */
  lemma LateSpecsNeverRun(st: State, ns: string, spec: Spec)
    requires Inv(st)
    requires var n := At(st.root, "", Split(ns)); n.Some? && n.value.added
    ensures var r := Suite(st, ns, Some(spec));
      r.0.log == st.log && r.0.host == st.host
  {
    var parts := Split(ns);
    var k := "" + "/" + parts[0];
    FirstSettled(st, parts, parts);
    var j := Find(st.root.children, k).value;
    var c := st.root.children[j];
    ResolveSettledPath(c.node, k, parts[1..], spec);
    var m := Resolve(c.node, k, parts[1..], Some(spec));
    NeverRuns(st, ns, Some(spec), j, m);
  }

  /** While a described node still holds specs, a deeper namespace under
      it, at any depth, is recorded in the tree but not described: the call
      runs no specs and leaves the store as it was, because `_addSpecs`
      does not expand the children of a node with specs. Clearing the
      node's specs later lifts this (`ClearedLeafExpands`). */
  lemma ChildOfLeafNeverRuns(st: State, ns: string, specs: Option<Spec>, p: nat)
    requires Inv(st) && 1 <= p < |Split(ns)|
    requires var n := At(st.root, "", Split(ns)[..p]);
      n.Some? && n.value.added && n.value.specs.Some?
    ensures var r := Suite(st, ns, specs);
      r.0.log == st.log && r.0.host == st.host
  {
    var parts := Split(ns);
    var k := "" + "/" + parts[0];
    var q := parts[..p];
    assert q[0] == parts[0] && q[1..] == parts[1..][..p - 1];
    FirstSettled(st, parts, q);
    var j := Find(st.root.children, k).value;
    var c := st.root.children[j];
    ResolveSettledLeaf(c.node, k, parts[1..], specs, p - 1);
    var m := Resolve(c.node, k, parts[1..], specs);
    NeverRuns(st, ns, specs, j, m);
  }

  /** A call whose walk leaves the first-segment node settled runs nothing
      and leaves the store as it was. */
  lemma NeverRuns(st: State, ns: string, specs: Option<Spec>, j: nat, m: Node)
    requires Inv(st)
    requires Find(st.root.children, "" + "/" + Split(ns)[0]) == Some(j)
    requires m == Resolve(st.root.children[j].node, "" + "/" + Split(ns)[0], Split(ns)[1..], specs)
    requires Settled(m)
    ensures var r := Suite(st, ns, specs);
      r.0.log == st.log && r.0.host == st.host
  {
    var parts := Split(ns);
    var k := "" + "/" + parts[0];
    var root1 := Resolve(st.root, "", parts, specs);
    assert GetOrCreate(st.root, k, parts[0]) == (st.root, j);
    assert root1 == st.root.(children := st.root.children[j := Child(k, m)]);
    FindUpdate(st.root.children, j, k, m);
    ResolveTreeOK(st.root, parts, specs, st.host.suites);
    assert NodeOK(root1.children[j].node, None, st.host.suites);
    DescribeSettled(m, None, st.host, st.log);
    SuiteSteps(st, ns, specs, root1, j, Out(m, st.host, st.log));
  }

  /** Specs are assigned whatever their value, so `suite(ns)` without specs
      on a top-level node that was described as a leaf turns it back into a
      container: its `describe` now runs `_addSpecs` over the children that
      were deferred under it, and the log grows by exactly what they owe. */
  lemma ClearedLeafExpands(st: State, ns: string)
    requires Inv(st) && |Split(ns)| == 1
    requires var n := At(st.root, "", Split(ns)); n.Some? && n.value.added && n.value.specs.Some?
    ensures var r := Suite(st, ns, None);
      var n := At(st.root, "", Split(ns)).value;
      var m := At(r.0.root, "", Split(ns));
      && m.Some? && m.value.specs.None? && m.value.suiteObj == n.suiteObj
      && |m.value.children| == |n.children|
      && Settled(m.value) && NodeOK(m.value, None, r.0.host.suites)
      && LogExt(st.log, r.0.log, st.host.next, r.0.host.next)
      && r.0.log == st.log + ListCalls(n.children, m.value.children)
  {
    var parts := Split(ns);
    var k := "" + "/" + parts[0];
    var j := Find(st.root.children, k).value;
    var c := st.root.children[j];
    assert GetOrCreate(st.root, k, parts[0]) == (st.root, j);
    var sub := c.node.(specs := None);
    assert c.key == k && parts[1..] == [];
    assert Resolve(c.node, c.key, parts[1..], None) == sub;
    var root1 := Resolve(st.root, "", parts, None);
    assert root1 == st.root.(children := st.root.children[j := Child(k, sub)]);
    FindUpdate(st.root.children, j, k, sub);
    ResolveTreeOK(st.root, parts, None, st.host.suites);
    assert NodeOK(root1.children[j].node, None, st.host.suites);
    var d := DescribeNode(sub, None, st.host, st.log);
    SuiteSteps(st, ns, None, root1, j, d);
    var root2 := root1.(children := root1.children[j := Child(k, d.node)]);
    FindUpdate(root1.children, j, k, d.node);
    assert At(root2, "", parts) == Some(d.node);
  }

  /** The smallest case: a top-level leaf with one child, deferred while
      the leaf held specs. Clearing the leaf's specs describes that child,
      in a new host suite, and runs the child's specs against it once. */
  lemma PendingChildRuns(st: State, ns: string, spec: Spec)
    requires Inv(st) && |Split(ns)| == 1
    requires var n := At(st.root, "", Split(ns));
      && n.Some? && n.value.added && n.value.specs.Some?
      && |n.value.children| == 1
      && !n.value.children[0].node.added && n.value.children[0].node.specs == Some(spec)
    ensures var r := Suite(st, ns, None);
      var m := At(r.0.root, "", Split(ns));
      && m.Some? && |m.value.children| == 1
      && m.value.children[0].node.suiteObj.Some?
      && var t := m.value.children[0].node.suiteObj.value;
         && st.host.next <= t
         && r.0.log == st.log + [Call(spec, t)]
  {
    ClearedLeafExpands(st, ns);
    var r := Suite(st, ns, None);
    var n := At(st.root, "", Split(ns)).value;
    var m := At(r.0.root, "", Split(ns)).value;
    assert Settled(m.children[0].node);
    assert NodeOK(m.children[0].node, m.suiteObj, r.0.host.suites);
    OneChildCalls(n, m, spec);
    assert r.0.log[|st.log|].suite == m.children[0].node.suiteObj.value;
  }

  /** A lone unadded child with specs owes exactly its one call. */
  lemma OneChildCalls(n: Node, m: Node, spec: Spec)
    requires |n.children| == 1 == |m.children|
    requires !n.children[0].node.added && n.children[0].node.specs == Some(spec)
    requires m.children[0].node.suiteObj.Some?
    ensures ListCalls(n.children, m.children) == [Call(spec, m.children[0].node.suiteObj.value)]
  {
    assert ListCalls(n.children, m.children)
        == FreshCalls(n.children[0].node, m.children[0].node) + ListCalls([], []);
  }

  /** No node strictly above the end of `ps` holds specs: every proper
      prefix of the path is absent or a container. */
  ghost predicate NoSpecsAbove(n: Node, key: string, ps: seq<string>) {
    forall p :: 0 <= p < |ps| ==>
      var q := At(n, key, ps[..p]); q.None? || q.value.specs.None?
  }

  /** A subtree from which walking `ps`, storing specs at the end and
      describing the result owes exactly those specs: the walk passes only
      through containers, every node off the path that `_addSpecs` reaches
      is settled, and the end node has not been added. */
  ghost predicate PathReady(n: Node, key: string, ps: seq<string>)
    decreases ps
  {
    if |ps| == 0 then !n.added
    else
      && n.specs.None?
      && match Find(n.children, key + "/" + ps[0])
         case None => forall i :: 0 <= i < |n.children| ==> Settled(n.children[i].node)
         case Some(j) =>
           && (forall i :: 0 <= i < |n.children| && i != j ==> Settled(n.children[i].node))
           && PathReady(n.children[j].node, key + "/" + ps[0], ps[1..])
  }

  /** Below a settled node, a path through containers whose end is absent
      or not yet added is ready. */
  lemma {:induction false} ReadyFromSettled(n: Node, key: string, ps: seq<string>)
    requires Settled(n) && NoSpecsAbove(n, key, ps)
    requires var t := At(n, key, ps); t.None? || !t.value.added
    ensures PathReady(n, key, ps)
    decreases ps
  {
    if |ps| == 0 {
      assert false;
    } else {
      assert ps[..0] == [];
      var k := key + "/" + ps[0];
      match Find(n.children, k)
      case None =>
      case Some(j) =>
        var c := n.children[j].node;
        forall p | 0 <= p < |ps[1..]|
          ensures var q := At(c, k, ps[1..][..p]); q.None? || q.value.specs.None?
        {
          assert ps[..p + 1][0] == ps[0] && ps[..p + 1][1..] == ps[1..][..p];
        }
        ReadyFromSettled(c, k, ps[1..]);
    }
  }

  /** Walking a ready path and describing the result to a settled tree `m`
      owes one invocation: the new specs, against the suite the end node
      has in `m`. */
  lemma {:induction false} PathCalls(n: Node, key: string, ps: seq<string>, spec: Spec,
                                     m: Node, up: Option<SuiteId>, s: map<SuiteId, HostSuite>)
    requires PathReady(n, key, ps)
    requires SameShape(Resolve(n, key, ps, Some(spec)), m) && Settled(m) && NodeOK(m, up, s)
    ensures At(m, key, ps).Some? && At(m, key, ps).value.suiteObj.Some?
    ensures FreshCalls(Resolve(n, key, ps, Some(spec)), m)
         == [Call(spec, At(m, key, ps).value.suiteObj.value)]
    decreases ps
  {
    if |ps| > 0 {
      var r := Resolve(n, key, ps, Some(spec));
      var k := key + "/" + ps[0];
      var (n1, j) := GetOrCreate(n, k, ps[0]);
      ReadyStep(n, key, ps, n1, j);
      var c := n1.children[j];
      var sub := Resolve(c.node, k, ps[1..], Some(spec));
      assert r == n1.(children := n1.children[j := Child(k, sub)]);
      FindUpdate(n1.children, j, k, sub);
      SettledStep(r, m, key, ps, j, up, s);
      PathCalls(c.node, k, ps[1..], spec, m.children[j].node, m.suiteObj, s);
      ListCallsOne(r.children, m.children, j);
    }
  }

  /** One step down a ready path: the entry the walk takes is ready for the
      rest of the path and every other entry is settled. */
  lemma ReadyStep(n: Node, key: string, ps: seq<string>, n1: Node, j: nat)
    requires PathReady(n, key, ps) && |ps| > 0
    requires (n1, j) == GetOrCreate(n, key + "/" + ps[0], ps[0])
    ensures PathReady(n1.children[j].node, key + "/" + ps[0], ps[1..])
    ensures forall i :: 0 <= i < |n1.children| && i != j ==> Settled(n1.children[i].node)
  {
  }

  /** One step down a settled container that has the shape of the walked
      tree: the entry under the same key sits at the same place, is settled
      and agrees with the store, and the rest of the path continues from it. */
  lemma SettledStep(r: Node, m: Node, key: string, ps: seq<string>, j: nat,
                    up: Option<SuiteId>, s: map<SuiteId, HostSuite>)
    requires SameShape(r, m) && Settled(m) && NodeOK(m, up, s) && r.specs.None?
    requires |ps| > 0 && Find(r.children, key + "/" + ps[0]) == Some(j)
    ensures Find(m.children, key + "/" + ps[0]) == Some(j)
    ensures SameShape(r.children[j].node, m.children[j].node)
    ensures Settled(m.children[j].node) && NodeOK(m.children[j].node, m.suiteObj, s)
    ensures At(m, key, ps) == At(m.children[j].node, key + "/" + ps[0], ps[1..])
  {
    assert Keys(r.children) == Keys(m.children);
    FindSameKeys(r.children, m.children, key + "/" + ps[0]);
  }

  /** The first-segment entry the walk starts from is ready: a fresh node,
      or a settled one whose path passes only through containers. */
  lemma FirstReady(root: Node, parts: seq<string>, n1: Node, i: nat)
    requires RootSettled(root) && |parts| >= 1
    requires (n1, i) == GetOrCreate(root, "" + "/" + parts[0], parts[0])
    requires var t := At(root, "", parts); t.None? || !t.value.added
    requires forall p :: 1 <= p < |parts| ==>
      var q := At(root, "", parts[..p]); q.None? || q.value.specs.None?
    ensures PathReady(n1.children[i].node, "" + "/" + parts[0], parts[1..])
  {
    var k := "" + "/" + parts[0];
    if Find(root.children, k).Some? {
      assert n1 == root && Settled(root.children[i].node);
      ExistingReady(root, parts, i);
    } else {
      assert n1.children[i].node == Fresh(parts[0]);
      FreshReady(parts[0], k, parts[1..]);
    }
  }

  lemma ExistingReady(root: Node, parts: seq<string>, j: nat)
    requires |parts| >= 1 && Find(root.children, "" + "/" + parts[0]) == Some(j)
    requires Settled(root.children[j].node)
    requires var t := At(root, "", parts); t.None? || !t.value.added
    requires forall p :: 1 <= p < |parts| ==>
      var q := At(root, "", parts[..p]); q.None? || q.value.specs.None?
    ensures PathReady(root.children[j].node, "" + "/" + parts[0], parts[1..])
  {
    DescendFirst(root, parts, j);
    ReadyFromSettled(root.children[j].node, "" + "/" + parts[0], parts[1..]);
  }

  /** A node just created has nothing off the path and nothing added. */
  lemma FreshReady(d: string, key: string, ps: seq<string>)
    ensures PathReady(Fresh(d), key, ps)
  {
  }

  /** Paths from the root, seen from the first-segment entry they pass
      through. */
  lemma DescendFirst(root: Node, parts: seq<string>, j: nat)
    requires |parts| >= 1 && Find(root.children, "" + "/" + parts[0]) == Some(j)
    requires forall p :: 1 <= p < |parts| ==>
      var q := At(root, "", parts[..p]); q.None? || q.value.specs.None?
    ensures NoSpecsAbove(root.children[j].node, "" + "/" + parts[0], parts[1..])
    ensures At(root, "", parts) == At(root.children[j].node, "" + "/" + parts[0], parts[1..])
  {
    var k := "" + "/" + parts[0];
    var n0 := root.children[j].node;
    forall p | 0 <= p < |parts[1..]|
      ensures var q := At(n0, k, parts[1..][..p]); q.None? || q.value.specs.None?
    {
      assert parts[..p + 1][0] == parts[0] && parts[..p + 1][1..] == parts[1..][..p];
      AtFirst(root, parts[..p + 1], j);
    }
    AtFirst(root, parts, j);
  }

  /** A path from the root continues from its first-segment entry. */
  lemma AtFirst(root: Node, q: seq<string>, j: nat)
    requires |q| >= 1 && Find(root.children, "" + "/" + q[0]) == Some(j)
    ensures At(root, "", q) == At(root.children[j].node, "" + "/" + q[0], q[1..])
  {
  }

  /** The first `suite(ns, specs)` for a namespace whose path passes only
      through containers runs the new specs exactly once, against the host
      suite of the namespace's own node, and runs nothing else: every other
      node the call reaches had been described already. */
  lemma NewSpecsRunOnce(st: State, ns: string, spec: Spec)
    requires Inv(st)
    requires var t := At(st.root, "", Split(ns)); t.None? || !t.value.added
    requires forall p :: 1 <= p < |Split(ns)| ==>
      var q := At(st.root, "", Split(ns)[..p]); q.None? || q.value.specs.None?
    ensures var r := Suite(st, ns, Some(spec));
      var t := At(r.0.root, "", Split(ns));
      && t.Some? && t.value.suiteObj.Some?
      && r.0.log == st.log + [Call(spec, t.value.suiteObj.value)]
  {
    var parts := Split(ns);
    var k := "" + "/" + parts[0];
    var (n1, i) := GetOrCreate(st.root, k, parts[0]);
    var c0 := n1.children[i];
    FirstReady(st.root, parts, n1, i);
    var root1 := Resolve(st.root, "", parts, Some(spec));
    var sub := Resolve(c0.node, k, parts[1..], Some(spec));
    assert root1 == n1.(children := n1.children[i := Child(k, sub)]);
    FindUpdate(n1.children, i, k, sub);
    ResolveTreeOK(st.root, parts, Some(spec), st.host.suites);
    assert NodeOK(root1.children[i].node, None, st.host.suites);
    var d := DescribeNode(sub, None, st.host, st.log);
    SuiteSteps(st, ns, Some(spec), root1, i, d);
    PathCalls(c0.node, k, parts[1..], spec, d.node, None, d.host.suites);
    var root2 := root1.(children := root1.children[i := Child(k, d.node)]);
    FindUpdate(root1.children, i, k, d.node);
    assert At(root2, "", parts) == At(d.node, k, parts[1..]);
  }
}
