/** Materialization: `SuiteInfo.describe` and `SuiteInfo._addSpecs`, which
    turn namespace nodes into host suites, lazily and at most once per node,
    re-expanding containers on every call and re-parenting a suite that was
    created outside its namespace parent. */
module Materialize {
  import opened Base
  import opened Host
  import opened Tree

  /** One invocation of a specs callback, `specs.call(suiteObj)`. */
  datatype Call = Call(spec: Spec, suite: SuiteId)

  /** The updated node, host store and invocation log of a describe step. */
  datatype Out = Out(node: Node, host: Store, log: seq<Call>)

  /** The same for the expansion of a whole child list. */
  datatype OutList = OutList(children: seq<Child>, host: Store, log: seq<Call>)

  /** The agreement between a node and the host store: a node has a host
      suite exactly when it has been added; that suite carries the node's
      description and, when the node's namespace parent has a suite `up`, is
      nested in it; no child is added before its parent; and the same holds
      of every child, with this node's suite as theirs to nest in. */
  ghost predicate NodeOK(n: Node, up: Option<SuiteId>, suites: map<SuiteId, HostSuite>)
    decreases n
  {
    && (n.added <==> n.suiteObj.Some?)
    && (n.added ==>
          && n.suiteObj.value in suites
          && suites[n.suiteObj.value].description == n.description
          && (up.Some? ==> suites[n.suiteObj.value].parent == up))
    && (forall i :: 0 <= i < |n.children| && n.children[i].node.added ==> n.added)
    && (forall i :: 0 <= i < |n.children| ==> NodeOK(n.children[i].node, n.suiteObj, suites))
  }

  ghost predicate ChildrenOK(cs: seq<Child>, up: Option<SuiteId>, suites: map<SuiteId, HostSuite>) {
    forall i :: 0 <= i < |cs| ==> NodeOK(cs[i].node, up, suites)
  }

  /** Two versions of a subtree with the same namespace content: labels,
      specs and keyed children, in the same order. Only `_added` and
      `_suiteObj` may differ. */
  ghost predicate SameShape(n: Node, m: Node)
    decreases n
  {
    && n.description == m.description
    && n.specs == m.specs
    && |n.children| == |m.children|
    && (forall i :: 0 <= i < |n.children| ==>
          && n.children[i].key == m.children[i].key
          && SameShape(n.children[i].node, m.children[i].node))
  }

  /** A fully materialized subtree: the node is added and, when it is a
      container, so is every child, recursively. Children of a node with
      specs are not included, because they are never expanded. */
  ghost predicate Settled(n: Node)
    decreases n
  {
    && n.added
    && (n.specs.None? ==>
          forall i :: 0 <= i < |n.children| ==> Settled(n.children[i].node))
  }

  /** `log2` extends `log1`, and the invocations it adds ran against host
      suites with ids in [lo, hi), each id greater than the one before. */
  ghost predicate LogExt(log1: seq<Call>, log2: seq<Call>, lo: nat, hi: nat) {
    && |log1| <= |log2|
    && log2[..|log1|] == log1
    && (forall i :: |log1| <= i < |log2| ==> lo <= log2[i].suite < hi)
    && (forall i, j :: |log1| <= i < j < |log2| ==> log2[i].suite < log2[j].suite)
  }

  /** The specs invocations that describing `n` owes, in the order
      `_addSpecs` makes them, where `m` is the node it becomes: a node with
      specs that has not been added runs them once against its suite in `m`;
      a container owes what its children owe, child by child, in insertion
      order. */
  ghost function FreshCalls(n: Node, m: Node): seq<Call>
    decreases n, 1
  {
    match n.specs
    case Some(spec) => if n.added || m.suiteObj.None? then [] else [Call(spec, m.suiteObj.value)]
    case None => ListCalls(n.children, m.children)
  }

  /** `FreshCalls` of a child list against the list it becomes. */
  ghost function ListCalls(cs: seq<Child>, ds: seq<Child>): seq<Call>
    decreases cs, 0
  {
    if |cs| == 0 || |ds| == 0 then []
    else FreshCalls(cs[0].node, ds[0].node) + ListCalls(cs[1..], ds[1..])
  }

  /** A settled subtree owes nothing: every node `_addSpecs` reaches in it
      has been added already. */
  lemma {:induction false} SettledNoCalls(n: Node, m: Node)
    requires Settled(n)
    ensures FreshCalls(n, m) == []
    decreases n, 1
  {
    if n.specs.None? {
      SettledListNoCalls(n.children, m.children);
    }
  }

  lemma {:induction false} SettledListNoCalls(cs: seq<Child>, ds: seq<Child>)
    requires forall i :: 0 <= i < |cs| ==> Settled(cs[i].node)
    ensures ListCalls(cs, ds) == []
    decreases cs, 0
  {
    if |cs| > 0 && |ds| > 0 {
      SettledNoCalls(cs[0].node, ds[0].node);
      assert forall i :: 0 <= i < |cs[1..]| ==> cs[1..][i] == cs[i + 1];
      SettledListNoCalls(cs[1..], ds[1..]);
    }
  }

  /** A child list whose entries are all settled but the `j`th owes what
      that entry owes. */
  lemma {:induction false} ListCallsOne(cs: seq<Child>, ds: seq<Child>, j: nat)
    requires j < |cs| == |ds|
    requires forall i :: 0 <= i < |cs| && i != j ==> Settled(cs[i].node)
    ensures ListCalls(cs, ds) == FreshCalls(cs[j].node, ds[j].node)
    decreases cs
  {
    assert forall i :: 0 <= i < |cs[1..]| ==> cs[1..][i] == cs[i + 1];
    if j == 0 {
      SettledListNoCalls(cs[1..], ds[1..]);
    } else {
      SettledNoCalls(cs[0].node, ds[0].node);
      ListCallsOne(cs[1..], ds[1..], j - 1);
    }
  }

  lemma LogExtTrans(a: seq<Call>, b: seq<Call>, c: seq<Call>, lo: nat, mid: nat, hi: nat)
    requires LogExt(a, b, lo, mid) && LogExt(b, c, mid, hi) && lo <= mid <= hi
    ensures LogExt(a, c, lo, hi)
  {
    assert c[..|a|] == c[..|b|][..|a|];
    forall i | |a| <= i < |c| ensures lo <= c[i].suite < hi {
      if i < |b| {
        assert c[i] == c[..|b|][i] == b[i];
      }
    }
    forall i, j | |a| <= i < j < |c| ensures c[i].suite < c[j].suite {
      if j < |b| {
        assert c[i] == b[i] && c[j] == b[j];
      } else if i < |b| {
        assert c[i] == b[i];
      }
    }
  }

  lemma SameShapeRefl(n: Node)
    ensures SameShape(n, n)
    decreases n
  {
    forall i | 0 <= i < |n.children| ensures SameShape(n.children[i].node, n.children[i].node) {
      SameShapeRefl(n.children[i].node);
    }
  }

  lemma NodeOKGrows(n: Node, up: Option<SuiteId>, h1: Store, h2: Store)
    requires NodeOK(n, up, h1.suites) && Grows(h1, h2)
    ensures NodeOK(n, up, h2.suites)
    decreases n
  {
    forall i | 0 <= i < |n.children| ensures NodeOK(n.children[i].node, n.suiteObj, h2.suites) {
      NodeOKGrows(n.children[i].node, n.suiteObj, h1, h2);
    }
  }

  lemma ChildrenOKGrows(cs: seq<Child>, up: Option<SuiteId>, h1: Store, h2: Store)
    requires ChildrenOK(cs, up, h1.suites) && Grows(h1, h2)
    ensures ChildrenOK(cs, up, h2.suites)
  {
    forall i | 0 <= i < |cs| ensures NodeOK(cs[i].node, up, h2.suites) {
      NodeOKGrows(cs[i].node, up, h1, h2);
    }
  }

  /** A subtree none of whose nodes has been added agrees with any store and
      any enclosing suite. */
  lemma UnaddedOK(n: Node, up: Option<SuiteId>, s: map<SuiteId, HostSuite>,
                  up': Option<SuiteId>, s': map<SuiteId, HostSuite>)
    requires NodeOK(n, up, s) && !n.added
    ensures NodeOK(n, up', s')
    decreases n
  {
    forall i | 0 <= i < |n.children| ensures NodeOK(n.children[i].node, n.suiteObj, s') {
      UnaddedOK(n.children[i].node, n.suiteObj, s, n.suiteObj, s');
    }
  }

  /** `SuiteInfo.describe(parentSuiteInfo)`, with `up` the host suite of the
      parent namespace node (absent when `suite()` starts from the first
      segment). The first call materializes the node; later calls only
      re-run `_addSpecs`. */
  function DescribeNode(n: Node, up: Option<SuiteId>, h: Store, log: seq<Call>): (r: Out)
    requires WF(h)
    requires NodeOK(n, up, h.suites)
    requires up.Some? ==> up.value in h.suites
    ensures WF(r.host) && Grows(h, r.host) && r.host.active == h.active
    ensures NodeOK(r.node, up, r.host.suites)
    ensures SameShape(n, r.node) && Settled(r.node)
    ensures n.added ==> r.node.suiteObj == n.suiteObj
    ensures !n.added ==>
      && r.node.suiteObj == Some(h.next)
      && r.host.suites[h.next].parent == (if up.Some? then up else Some(h.active))
    ensures LogExt(log, r.log, h.next, r.host.next)
    ensures r.log == log + FreshCalls(n, r.node)
    decreases n, 3
  {
    if n.added then
      var a := AddSpecs(n, h, log);
      assert NodeOK(a.node, up, a.host.suites) by {
        NodeOKGrows(n, up, h, a.host);
      }
      a
    else
      MaterializeNode(n, up, h, log)
  }

  /** The first `describe` of a node: the host `describe(description, fn)`
      creates a fresh suite as the last child of the active suite and runs
      `fn` with that suite active; `fn` records the suite as `_suiteObj`,
      re-parents it under `up` when it was created elsewhere, runs
      `_addSpecs` and sets `_added`; then the previous suite is active
      again. */
  function MaterializeNode(n: Node, up: Option<SuiteId>, h: Store, log: seq<Call>): (r: Out)
    requires WF(h)
    requires NodeOK(n, up, h.suites) && !n.added
    requires up.Some? ==> up.value in h.suites
    ensures WF(r.host) && Grows(h, r.host) && r.host.active == h.active
    ensures NodeOK(r.node, up, r.host.suites)
    ensures SameShape(n, r.node) && Settled(r.node)
    ensures r.node.suiteObj == Some(h.next)
    ensures r.host.suites[h.next].parent == (if up.Some? then up else Some(h.active))
    ensures LogExt(log, r.log, h.next, r.host.next)
    ensures r.log == log + FreshCalls(n, r.node)
    decreases n, 2
  {
    var (h1, s) := Open(h, n.description);
    var h2 := Reconcile(h1, s, up);
    var n1 := n.(suiteObj := Some(s));
    assert ChildrenOK(n1.children, n1.suiteObj, h2.suites) by {
      forall i | 0 <= i < |n.children| ensures NodeOK(n.children[i].node, Some(s), h2.suites) {
        UnaddedOK(n.children[i].node, n.suiteObj, h.suites, Some(s), h2.suites);
      }
    }
    var a := AddSpecs(n1, h2, log);
    var h3 := Close(a.host, h.active);
    var m := a.node.(added := true);
    MaterializeFacts(n, up, h, log, h1, s, h2, n1, a, h3, m);
    Out(m, h3, a.log)
  }

  /** The bookkeeping behind `MaterializeNode`'s contract. */
  lemma MaterializeFacts(n: Node, up: Option<SuiteId>, h: Store, log: seq<Call>,
                         h1: Store, s: SuiteId, h2: Store, n1: Node, a: Out, h3: Store, m: Node)
    requires WF(h) && NodeOK(n, up, h.suites) && !n.added
    requires up.Some? ==> up.value in h.suites
    requires WF(h1) && Grows(h, h1) && s == h.next && s in h1.suites && h1.active == s
    requires h1.suites[s] == HostSuite(n.description, Some(h.active), [], h.suites[h.active].fullName + [n.description])
    requires WF(h2) && h2.suites.Keys == h1.suites.Keys && h2.next == h1.next
    requires forall t :: t in h1.suites && t != s ==>
      && h2.suites[t].description == h1.suites[t].description
      && h2.suites[t].parent == h1.suites[t].parent
      && h2.suites[t].fullName == h1.suites[t].fullName
    requires h2.suites[s].description == n.description
    requires h2.suites[s].parent == (if up.Some? then up else Some(h.active))
    requires n1 == n.(suiteObj := Some(s))
    requires WF(a.host) && Grows(h2, a.host)
    requires a.node == n1.(children := a.node.children)
    requires ChildrenOK(a.node.children, n1.suiteObj, a.host.suites)
    requires SameShape(n1, a.node)
    requires n.specs.None? ==> forall i :: 0 <= i < |a.node.children| ==> Settled(a.node.children[i].node)
    requires LogExt(log, a.log, if n.specs.Some? then s else h2.next, a.host.next)
    requires h3 == a.host.(active := h.active)
    requires m == a.node.(added := true)
    requires a.log == log + FreshCalls(n1, a.node)
    ensures WF(h3) && Grows(h, h3)
    ensures NodeOK(m, up, h3.suites)
    ensures SameShape(n, m) && Settled(m)
    ensures h3.suites[h.next].parent == (if up.Some? then up else Some(h.active))
    ensures LogExt(log, a.log, h.next, h3.next)
    ensures a.log == log + FreshCalls(n, m)
  {
    assert Grows(h, h2);
    GrowsTrans(h, h2, a.host);
    assert Grows(a.host, h3);
    assert forall i :: 0 <= i < |m.children| ==> m.children[i].node.added ==> m.added;
    assert SameShape(n, m) by {
      assert SameShape(n1, a.node);
    }
  }

  /** `SuiteInfo._addSpecs`: a container (no specs) describes every child,
      in order, with this node's suite as their parent suite; a node with
      specs runs them against its suite, but only while it has not been
      added yet. */
  function AddSpecs(n: Node, h: Store, log: seq<Call>): (r: Out)
    requires WF(h) && n.suiteObj.Some? && n.suiteObj.value in h.suites
    requires ChildrenOK(n.children, n.suiteObj, h.suites)
    ensures WF(r.host) && Grows(h, r.host) && r.host.active == h.active
    ensures r.node == n.(children := r.node.children)
    ensures ChildrenOK(r.node.children, n.suiteObj, r.host.suites)
    ensures SameShape(n, r.node)
    ensures n.specs.Some? ==> r.node == n && r.host == h
    ensures n.specs.Some? ==>
      r.log == (if n.added then log else log + [Call(n.specs.value, n.suiteObj.value)])
    ensures n.specs.None? ==>
      forall i :: 0 <= i < |r.node.children| ==> Settled(r.node.children[i].node)
    ensures n.specs.None? ==>
      forall i :: 0 <= i < |n.children| ==>
        Expanded(n.children[i], r.node.children[i], h.next, n.suiteObj.value, r.host.suites)
    ensures LogExt(log, r.log,
                   if n.specs.Some? && !n.added then n.suiteObj.value else h.next,
                   r.host.next)
    ensures r.log == log + FreshCalls(n, r.node)
    decreases n.children, 1
  {
    match n.specs
    case None =>
      var e := ExpandChildren(n.children, n.suiteObj.value, h, log);
      Out(n.(children := e.children), e.host, e.log)
    case Some(spec) =>
      SameShapeRefl(n);
      if n.added then Out(n, h, log)
      else Out(n, h, log + [Call(spec, n.suiteObj.value)])
  }

  /** What describing one child of a container guarantees: the entry keeps
      its key and namespace content, its subtree is fully materialized and
      agrees with the store, nested in `self`; a child added before keeps
      its suite and a new one gets a suite numbered `lo` or above. */
  ghost predicate Expanded(c: Child, c': Child, lo: nat, self: SuiteId, suites: map<SuiteId, HostSuite>) {
    && c'.key == c.key
    && SameShape(c.node, c'.node)
    && Settled(c'.node)
    && NodeOK(c'.node, Some(self), suites)
    && c'.node.suiteObj.Some?
    && (c.node.added ==> c'.node.suiteObj == c.node.suiteObj)
    && (!c.node.added ==> lo <= c'.node.suiteObj.value)
  }

  /** Children materialized by one expansion get suites in child order. */
  ghost predicate NewInOrder(cs: seq<Child>, cs': seq<Child>) {
    forall i, j :: 0 <= i < j < |cs| && j < |cs'| && !cs[i].node.added && !cs[j].node.added
                   && cs'[i].node.suiteObj.Some? && cs'[j].node.suiteObj.Some? ==>
      cs'[i].node.suiteObj.value < cs'[j].node.suiteObj.value
  }

  /** The loop of `_addSpecs` over a container's children, in insertion
      order, each described with `self` as the parent suite. */
  function ExpandChildren(cs: seq<Child>, self: SuiteId, h: Store, log: seq<Call>): (r: OutList)
    requires WF(h) && self in h.suites
    requires ChildrenOK(cs, Some(self), h.suites)
    ensures WF(r.host) && Grows(h, r.host) && r.host.active == h.active
    ensures |r.children| == |cs|
    ensures forall i :: 0 <= i < |cs| ==> Expanded(cs[i], r.children[i], h.next, self, r.host.suites)
    ensures NewInOrder(cs, r.children)
    ensures LogExt(log, r.log, h.next, r.host.next)
    ensures r.log == log + ListCalls(cs, r.children)
    decreases cs, 0
  {
    if |cs| == 0 then OutList([], h, log)
    else
      var a := DescribeNode(cs[0].node, Some(self), h, log);
      ChildrenOKGrows(cs[1..], Some(self), h, a.host);
      var rest := ExpandChildren(cs[1..], self, a.host, a.log);
      var r := OutList([Child(cs[0].key, a.node)] + rest.children, rest.host, rest.log);
      NodeOKGrows(a.node, Some(self), a.host, rest.host);
      LogExtTrans(log, a.log, rest.log, h.next, a.host.next, rest.host.next);
      GrowsTrans(h, a.host, rest.host);
      ExpandFacts(cs, self, h, a, rest, r);
      ExpandCalls(cs, log, a, rest, r);
      r
  }

  /** The first child's invocations followed by the rest's are the whole
      list's. */
  lemma ExpandCalls(cs: seq<Child>, log: seq<Call>, a: Out, rest: OutList, r: OutList)
    requires |cs| > 0
    requires a.log == log + FreshCalls(cs[0].node, a.node)
    requires rest.log == a.log + ListCalls(cs[1..], rest.children)
    requires r.children == [Child(cs[0].key, a.node)] + rest.children && r.log == rest.log
    ensures r.log == log + ListCalls(cs, r.children)
  {
  }

  /** The first child's outcome followed by the rest's is the outcome of the
      whole list. */
  lemma ExpandFacts(cs: seq<Child>, self: SuiteId, h: Store, a: Out, rest: OutList, r: OutList)
    requires |cs| > 0 && h.next <= a.host.next
    requires a.node.suiteObj.Some? && a.node.suiteObj.value < a.host.next
    requires Expanded(cs[0], Child(cs[0].key, a.node), h.next, self, rest.host.suites)
    requires |rest.children| == |cs[1..]|
    requires forall i :: 0 <= i < |cs[1..]| ==>
      Expanded(cs[1..][i], rest.children[i], a.host.next, self, rest.host.suites)
    requires NewInOrder(cs[1..], rest.children)
    requires r.children == [Child(cs[0].key, a.node)] + rest.children && r.host == rest.host
    ensures |r.children| == |cs|
    ensures forall i :: 0 <= i < |cs| ==> Expanded(cs[i], r.children[i], h.next, self, r.host.suites)
    ensures NewInOrder(cs, r.children)
  {
    var tail := cs[1..];
    forall i | 0 <= i < |cs|
      ensures Expanded(cs[i], r.children[i], h.next, self, rest.host.suites)
      ensures i > 0 && !cs[i].node.added ==> a.host.next <= r.children[i].node.suiteObj.value
    {
      if i > 0 {
        assert r.children[i] == rest.children[i - 1] && cs[i] == tail[i - 1];
        assert Expanded(tail[i - 1], rest.children[i - 1], a.host.next, self, rest.host.suites);
      }
    }
    forall i, j | 0 <= i < j < |cs| && !cs[i].node.added && !cs[j].node.added
      ensures r.children[i].node.suiteObj.value < r.children[j].node.suiteObj.value
    {
      if i > 0 {
        assert r.children[i] == rest.children[i - 1] && cs[i] == tail[i - 1];
        assert r.children[j] == rest.children[j - 1] && cs[j] == tail[j - 1];
      }
    }
  }

  /** Describing a fully materialized subtree again changes nothing: no
      host `describe()` is issued, no specs run and no node changes. */
  lemma {:induction false} DescribeSettled(n: Node, up: Option<SuiteId>, h: Store, log: seq<Call>)
    requires WF(h) && NodeOK(n, up, h.suites) && (up.Some? ==> up.value in h.suites)
    requires Settled(n)
    ensures DescribeNode(n, up, h, log) == Out(n, h, log)
    decreases n, 1
  {
    AddSpecsSettled(n, h, log);
  }

  lemma {:induction false} AddSpecsSettled(n: Node, h: Store, log: seq<Call>)
    requires WF(h) && n.suiteObj.Some? && n.suiteObj.value in h.suites
    requires ChildrenOK(n.children, n.suiteObj, h.suites)
    requires Settled(n)
    ensures AddSpecs(n, h, log) == Out(n, h, log)
    decreases n, 0
  {
    if n.specs.None? {
      ExpandSettled(n.children, n.suiteObj.value, h, log);
    }
  }

  lemma {:induction false} ExpandSettled(cs: seq<Child>, self: SuiteId, h: Store, log: seq<Call>)
    requires WF(h) && self in h.suites && ChildrenOK(cs, Some(self), h.suites)
    requires forall i :: 0 <= i < |cs| ==> Settled(cs[i].node)
    ensures ExpandChildren(cs, self, h, log) == OutList(cs, h, log)
    decreases cs
  {
    if |cs| > 0 {
      DescribeSettled(cs[0].node, Some(self), h, log);
      var tl := cs[1..];
      assert forall i :: 0 <= i < |tl| ==> tl[i] == cs[i + 1];
      ExpandSettled(tl, self, h, log);
      assert [Child(cs[0].key, cs[0].node)] + tl == cs;
    }
  }

  /** A node's specs run exactly once: its first `describe` runs them against
      the suite it has just created, and a later `describe` of the result,
      with any parent suite, store and log, runs nothing and changes
      nothing. */
  lemma LeafRunsOnce(n: Node, up: Option<SuiteId>, h: Store, log: seq<Call>,
                     up2: Option<SuiteId>, h2: Store, log2: seq<Call>)
    requires WF(h) && NodeOK(n, up, h.suites) && (up.Some? ==> up.value in h.suites)
    requires n.specs.Some? && !n.added
    requires var m := DescribeNode(n, up, h, log).node;
      WF(h2) && NodeOK(m, up2, h2.suites) && (up2.Some? ==> up2.value in h2.suites)
    ensures var r := DescribeNode(n, up, h, log);
      && r.log == log + [Call(n.specs.value, h.next)]
      && r.node.children == n.children
      && DescribeNode(r.node, up2, h2, log2) == Out(r.node, h2, log2)
  {
    var r := DescribeNode(n, up, h, log);
    assert r == MaterializeNode(n, up, h, log);
    var (h1, s) := Open(h, n.description);
    var hr := Reconcile(h1, s, up);
    var n1 := n.(suiteObj := Some(s));
    assert ChildrenOK(n1.children, n1.suiteObj, hr.suites) by {
      forall i | 0 <= i < |n.children| ensures NodeOK(n.children[i].node, Some(s), hr.suites) {
        UnaddedOK(n.children[i].node, n.suiteObj, h.suites, Some(s), hr.suites);
      }
    }
    var a := AddSpecs(n1, hr, log);
    assert a.log == log + [Call(n.specs.value, s)];
    assert r.log == a.log && r.node == a.node.(added := true);
    LeafNeverExpands(r.node, up2, h2, log2);
  }

  /** A node with specs never expands its children, on its first `describe`
      or any later one: they stay exactly as they were, none materialized by
      this call. */
  lemma LeafNeverExpands(n: Node, up: Option<SuiteId>, h: Store, log: seq<Call>)
    requires WF(h) && NodeOK(n, up, h.suites) && (up.Some? ==> up.value in h.suites)
    requires n.specs.Some?
    ensures DescribeNode(n, up, h, log).node.children == n.children
    ensures n.added ==> DescribeNode(n, up, h, log) == Out(n, h, log)
  {
  }

  /** One step of the expansion loop: the first child, then the rest from
      the store and log it left. */
  lemma ExpandCons(cs: seq<Child>, self: SuiteId, h: Store, log: seq<Call>)
    requires |cs| > 0 && WF(h) && self in h.suites
    requires ChildrenOK(cs, Some(self), h.suites)
    ensures var a := DescribeNode(cs[0].node, Some(self), h, log);
      ChildrenOK(cs[1..], Some(self), a.host.suites)
      && ExpandChildren(cs, self, h, log)
         == var rest := ExpandChildren(cs[1..], self, a.host, a.log);
            OutList([Child(cs[0].key, a.node)] + rest.children, rest.host, rest.log)
  {
    var a := DescribeNode(cs[0].node, Some(self), h, log);
    ChildrenOKGrows(cs[1..], Some(self), h, a.host);
  }

  /** A subtree that was never added has no host suite anywhere, so any
      version of the same shape keeps all (none) of its suites. */
  lemma {:induction false} UnaddedKeeps(n: Node, up: Option<SuiteId>, s: map<SuiteId, HostSuite>, m: Node)
    requires NodeOK(n, up, s) && !n.added && SameShape(n, m)
    ensures KeepsSuites(n, m)
    decreases n
  {
    forall i | 0 <= i < |n.children| ensures KeepsSuites(n.children[i].node, m.children[i].node) {
      UnaddedKeeps(n.children[i].node, n.suiteObj, s, m.children[i].node);
    }
  }

  /** The `_added` guard: describing a node never replaces a host suite
      anywhere in its subtree. A node that has a suite keeps it, so the host
      `describe()` is issued at most once per node. */
  lemma {:induction false} DescribeKeeps(n: Node, up: Option<SuiteId>, h: Store, log: seq<Call>)
    requires WF(h) && NodeOK(n, up, h.suites) && (up.Some? ==> up.value in h.suites)
    ensures KeepsSuites(n, DescribeNode(n, up, h, log).node)
    decreases n, 3
  {
    var r := DescribeNode(n, up, h, log);
    if n.added {
      assert r == AddSpecs(n, h, log);
      AddSpecsKeeps(n, h, log);
    } else {
      UnaddedKeeps(n, up, h.suites, r.node);
    }
  }

  lemma {:induction false} AddSpecsKeeps(n: Node, h: Store, log: seq<Call>)
    requires WF(h) && n.suiteObj.Some? && n.suiteObj.value in h.suites
    requires ChildrenOK(n.children, n.suiteObj, h.suites)
    ensures KeepsSuites(n, AddSpecs(n, h, log).node)
    decreases n.children, 1
  {
    var r := AddSpecs(n, h, log);
    if n.specs.Some? {
      KeepsRefl(n);
    } else {
      var e := ExpandChildren(n.children, n.suiteObj.value, h, log);
      assert r.node == n.(children := e.children);
      ExpandKeeps(n.children, n.suiteObj.value, h, log);
    }
  }

  lemma {:induction false} ExpandKeeps(cs: seq<Child>, self: SuiteId, h: Store, log: seq<Call>)
    requires WF(h) && self in h.suites
    requires ChildrenOK(cs, Some(self), h.suites)
    ensures var r := ExpandChildren(cs, self, h, log);
      forall i :: 0 <= i < |cs| ==> cs[i].key == r.children[i].key && KeepsSuites(cs[i].node, r.children[i].node)
    decreases cs, 0
  {
    if |cs| > 0 {
      var a := DescribeNode(cs[0].node, Some(self), h, log);
      ExpandCons(cs, self, h, log);
      var rest := ExpandChildren(cs[1..], self, a.host, a.log);
      var r := ExpandChildren(cs, self, h, log);
      assert r.children == [Child(cs[0].key, a.node)] + rest.children;
      DescribeKeeps(cs[0].node, Some(self), h, log);
      ExpandKeeps(cs[1..], self, a.host, a.log);
      forall i | 0 <= i < |cs| ensures cs[i].key == r.children[i].key && KeepsSuites(cs[i].node, r.children[i].node) {
        if i > 0 {
          assert cs[i] == cs[1..][i - 1];
          assert r.children[i] == rest.children[i - 1];
        }
      }
    }
  }
}
