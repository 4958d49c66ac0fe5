/** Worked registrations, computed through the model end to end: two files
    that share the namespace prefix "a", registered as "a/b" and then
    "a/c". The second one shows the re-parenting of `SuiteInfo.describe`:
    the suite for "c" is created in the top-level suite and then moved
    into the suite for "a". */
module Scenarios {
  import opened Base
  import opened Host
  import opened Tree
  import opened Materialize
  import opened Registry
  import opened Namespace

  function LeafB(s1: Spec): Node { Node("b", Some(s1), [], true, Some(2)) }

  function NodeA(s1: Spec): Node { Node("a", None, [Child("/a/b", LeafB(s1))], true, Some(1)) }

  /** The store while describing "a" (suite 1) for the first time. */
  function StoreA(): Store {
    Store(map[Top := HostSuite("", None, [1], []),
              1 := HostSuite("a", Some(Top), [], ["a"])],
          1, 2)
  }

  /** The store while describing "b" (suite 2) inside "a". */
  function StoreB(): Store {
    Store(map[Top := HostSuite("", None, [1], []),
              1 := HostSuite("a", Some(Top), [2], ["a"]),
              2 := HostSuite("b", Some(1), [], ["a", "b"])],
          2, 3)
  }

  /** The state after `suite("a/b", s1)` from a fresh start: suite 1 ("a")
      in the top-level suite, suite 2 ("b") in it, and s1 run against 2. */
  function AfterAB(s1: Spec): State {
    State(Root().(children := [Child("/a", NodeA(s1))]), StoreTop(), [Call(s1, 2)])
  }

  /** The store between the two calls: the top-level suite active again. */
  function StoreTop(): Store { StoreB().(active := Top) }

  function LeafC(s2: Spec): Node { Node("c", Some(s2), [], true, Some(3)) }

  /** The store right after the host `describe` created suite 3 ("c") for
      the second call: its active suite was the top-level one, so that is
      where 3 went. */
  function StoreC0(): Store {
    Store(map[Top := HostSuite("", None, [1, 3], []),
              1 := HostSuite("a", Some(Top), [2], ["a"]),
              2 := HostSuite("b", Some(1), [], ["a", "b"]),
              3 := HostSuite("c", Some(Top), [], ["c"])],
          3, 4)
  }

  /** The same store after the re-parenting block has moved 3 into
      suite 1. */
  function StoreC1(): Store {
    OpenC();
    Move(StoreC0(), 3, 1)
  }

  /** The state after `suite("a/c", s2)` follows `suite("a/b", s1)`. */
  function AfterAC(s1: Spec, s2: Spec): State {
    State(Root().(children := [Child("/a", NodeA(s1).(children := [Child("/a/b", LeafB(s1)), Child("/a/c", LeafC(s2))]))]),
          StoreC1().(active := Top),
          [Call(s1, 2), Call(s2, 3)])
  }

  /** A namespace of two slash-free segments splits into those two. */
  lemma SplitTwo(x: string, y: string)
    requires '/' !in x && '/' !in y
    ensures Split(x + "/" + y) == [x, y]
  {
    assert Join([x, y]) == x + "/" + y;
    SplitJoin([x, y]);
  }

  lemma OpenA()
    ensures Open(Host.Init(), "a") == (StoreA(), 1)
  {
    var r := Open(Host.Init(), "a").0;
    assert r.suites.Keys == StoreA().suites.Keys;
    assert r.suites[Top] == StoreA().suites[Top];
    assert r.suites[1] == StoreA().suites[1];
    assert r.suites == StoreA().suites;
  }

  lemma OpenB()
    ensures WF(StoreA()) && Open(StoreA(), "b") == (StoreB(), 2)
  {
    OpenA();
    var r := Open(StoreA(), "b").0;
    assert r.suites.Keys == StoreB().suites.Keys;
    assert r.suites[Top] == StoreB().suites[Top];
    assert r.suites[1] == StoreB().suites[1];
    assert r.suites[2] == StoreB().suites[2];
    assert r.suites == StoreB().suites;
  }

  /** Describing the leaf "b" inside suite 1 opens suite 2 there, leaves it
      in place, and runs s1 against it. */
  lemma DescribeB(s1: Spec)
    ensures WF(StoreA())
    ensures var b0 := Fresh("b").(specs := Some(s1));
      NodeOK(b0, Some(1), StoreA().suites)
      && DescribeNode(b0, Some(1), StoreA(), []) == Out(LeafB(s1), StoreB().(active := 1), [Call(s1, 2)])
  {
    OpenB();
    var b0 := Fresh("b").(specs := Some(s1));
    assert Reconcile(StoreB(), 2, Some(1)) == StoreB();
    var b1 := b0.(suiteObj := Some(2));
    assert AddSpecs(b1, StoreB(), []) == Out(b1, StoreB(), [Call(s1, 2)]);
  }

  /** The expansion of "a" describes its one child inside suite 1. */
  lemma ExpandA(s1: Spec)
    ensures WF(StoreA()) && 1 in StoreA().suites
    ensures var cs := [Child("/a/b", Fresh("b").(specs := Some(s1)))];
      ChildrenOK(cs, Some(1), StoreA().suites)
      && ExpandChildren(cs, 1, StoreA(), [])
         == OutList([Child("/a/b", LeafB(s1))], StoreB().(active := 1), [Call(s1, 2)])
  {
    DescribeB(s1);
    var cs := [Child("/a/b", Fresh("b").(specs := Some(s1)))];
    assert cs[1..] == [];
  }

  /** Describing "a" from the top level opens suite 1 there, keeps it in
      place (no namespace parent), and expands "b" inside it. */
  lemma DescribeA(s1: Spec)
    ensures var a0 := Fresh("a").(children := [Child("/a/b", Fresh("b").(specs := Some(s1)))]);
      NodeOK(a0, None, Host.Init().suites)
      && DescribeNode(a0, None, Host.Init(), []) == Out(NodeA(s1), StoreB().(active := Top), [Call(s1, 2)])
  {
    var a0 := Fresh("a").(children := [Child("/a/b", Fresh("b").(specs := Some(s1)))]);
    assert NodeOK(a0, None, Host.Init().suites);
    MaterializeA(s1);
  }

  lemma MaterializeA(s1: Spec)
    ensures var a0 := Fresh("a").(children := [Child("/a/b", Fresh("b").(specs := Some(s1)))]);
      NodeOK(a0, None, Host.Init().suites)
      && MaterializeNode(a0, None, Host.Init(), []) == Out(NodeA(s1), StoreB().(active := Top), [Call(s1, 2)])
  {
    var a0 := Fresh("a").(children := [Child("/a/b", Fresh("b").(specs := Some(s1)))]);
    assert NodeOK(a0, None, Host.Init().suites);
    OpenA();
    assert Reconcile(StoreA(), 1, None) == StoreA();
    AddSpecsA(s1);
  }

  lemma AddSpecsA(s1: Spec)
    ensures WF(StoreA()) && 1 in StoreA().suites
    ensures var a1 := Fresh("a").(children := [Child("/a/b", Fresh("b").(specs := Some(s1)))], suiteObj := Some(1));
      ChildrenOK(a1.children, a1.suiteObj, StoreA().suites)
      && AddSpecs(a1, StoreA(), []) == Out(NodeA(s1).(added := false), StoreB().(active := 1), [Call(s1, 2)])
  {
    ExpandA(s1);
  }

  /** `suite("a/b", s1)` on a fresh state returns suite 1 and leaves the
      state `AfterAB`. */
  lemma FirstCall(s1: Spec)
    ensures Registry.Suite(Registry.Init(), "a/b", Some(s1)) == (AfterAB(s1), 1)
  {
    FirstWalk(s1);
    DescribeA(s1);
    SuiteSteps(Registry.Init(), "a/b", Some(s1), WalkedAB(s1), 0,
               Out(NodeA(s1), StoreB().(active := Top), [Call(s1, 2)]));
    DescribedAB(s1);
  }

  lemma DescribedAB(s1: Spec)
    ensures WalkedAB(s1).(children := WalkedAB(s1).children[0 := Child("/a", NodeA(s1))])
         == AfterAB(s1).root
    ensures StoreB().(active := Top) == AfterAB(s1).host && [Call(s1, 2)] == AfterAB(s1).log
  {
    assert WalkedAB(s1).children[0 := Child("/a", NodeA(s1))] == [Child("/a", NodeA(s1))];
  }

  /** The tree after the walk of `suite("a/b", s1)`, before any describe. */
  function WalkedAB(s1: Spec): Node {
    Root().(children := [Child("/a", Fresh("a").(children := [Child("/a/b", Fresh("b").(specs := Some(s1)))]))])
  }

  lemma FirstWalk(s1: Spec)
    ensures Registry.Inv(Registry.Init())
    ensures Resolve(Registry.Init().root, "", Split("a/b"), Some(s1)) == WalkedAB(s1)
    ensures Find(WalkedAB(s1).children, "" + "/" + Split("a/b")[0]) == Some(0)
    ensures WalkedAB(s1).children[0].node == Fresh("a").(children := [Child("/a/b", Fresh("b").(specs := Some(s1)))])
  {
    SplitTwo("a", "b");
    WalkAB(s1);
  }

  lemma StoreTopWF()
    ensures WF(StoreTop()) && 1 in StoreTop().suites
  {
    OpenB();
    assert Close(StoreB(), Top) == StoreTop();
  }

  /** The host `describe("c", …)` issued while the top-level suite is
      active creates suite 3 there. */
  lemma OpenC()
    ensures WF(StoreTop()) && Open(StoreTop(), "c") == (StoreC0(), 3)
  {
    StoreTopWF();
    var r := Open(StoreTop(), "c").0;
    assert r.suites.Keys == StoreC0().suites.Keys;
    assert r.suites[Top] == StoreC0().suites[Top];
    assert r.suites[1] == StoreC0().suites[1];
    assert r.suites[2] == StoreC0().suites[2];
    assert r.suites[3] == StoreC0().suites[3];
    assert r.suites == StoreC0().suites;
  }

  /** The re-parenting block moves 3 out of the top-level suite's children
      and appends it to suite 1's, with its full name recomputed. */
  lemma ReconcileC()
    ensures WF(StoreC0()) && Reconcile(StoreC0(), 3, Some(1)) == StoreC1()
    ensures WF(StoreC1()) && 3 in StoreC1().suites
  {
    OpenC();
  }

  /** What the move did: the top-level suite lists only 1 again, suite 1
      lists 2 then 3, and 3 points at 1 with full name "a c". */
  lemma MovedC()
    ensures WF(StoreC1()) && StoreC1().suites.Keys == {Top, 1, 2, 3}
    ensures StoreC1().suites[Top].children == [1]
    ensures StoreC1().suites[1].children == [2, 3]
    ensures StoreC1().suites[3] == HostSuite("c", Some(1), [], ["a", "c"])
    ensures StoreC1().suites[2] == StoreTop().suites[2]
  {
    MovedCKeys();
    MovedCParents();
  }

  lemma MovedCKeys()
    ensures WF(StoreC1()) && StoreC1().suites.Keys == {Top, 1, 2, 3}
  {
    OpenC();
    var h := StoreC0();
    assert h.suites[3].parent == Some(Top) && h.suites[3].children == [];
    assert h.suites.Keys == {Top, 1, 2, 3};
  }

  lemma MovedCParents()
    ensures StoreC1().suites[Top].children == [1]
    ensures StoreC1().suites[1].children == [2, 3]
    ensures StoreC1().suites[3] == HostSuite("c", Some(1), [], ["a", "c"])
    ensures StoreC1().suites[2] == StoreTop().suites[2]
  {
    MoveC();
    RemoveLast();
    var h := StoreC0();
    assert h.suites[Top].children == [1, 3];
    assert h.suites[1].children + [3] == [2, 3];
    assert h.suites[3].description == "c" && h.suites[1].fullName == ["a"];
    assert h.suites[1].fullName + [h.suites[3].description] == ["a", "c"];
    assert h.suites[2] == HostSuite("b", Some(1), [], ["a", "b"]);
  }

  /** What moving suite 3 into suite 1 does to `StoreC0`, in its terms. */
  lemma MoveC()
    ensures var h := StoreC0();
      && StoreC1().suites[Top] == h.suites[Top].(children := RemoveFirst(h.suites[Top].children, 3))
      && StoreC1().suites[1] == h.suites[1].(children := h.suites[1].children + [3])
      && StoreC1().suites[3] == h.suites[3].(parent := Some(1), fullName := h.suites[1].fullName + [h.suites[3].description])
      && StoreC1().suites[2] == h.suites[2]
  {
    OpenC();
    var h := StoreC0();
    assert h.suites[3].parent == Some(Top) && h.suites[3].children == [];
    var r := Move(h, 3, 1);
    assert StoreC1() == r;
    assert 2 in h.suites && 2 != 3 && 2 != 1 && 2 != Top;
  }

  lemma RemoveLast()
    ensures RemoveFirst([1, 3], 3) == [1]
  {
    assert IndexOf([1, 3], 3) == 1 by {
      assert [1, 3][1..] == [3];
    }
  }

  lemma MaterializeC(s1: Spec, s2: Spec)
    ensures WF(StoreTop()) && 1 in StoreTop().suites
    ensures var c0 := Fresh("c").(specs := Some(s2));
      NodeOK(c0, Some(1), StoreTop().suites)
      && MaterializeNode(c0, Some(1), StoreTop(), [Call(s1, 2)])
         == Out(LeafC(s2), StoreC1().(active := Top), [Call(s1, 2), Call(s2, 3)])
  {
    OpenC();
    ReconcileC();
    AddSpecsC(s1, s2);
  }

  lemma AddSpecsC(s1: Spec, s2: Spec)
    ensures WF(StoreC1()) && 3 in StoreC1().suites
    ensures var c1 := Fresh("c").(specs := Some(s2), suiteObj := Some(3));
      AddSpecs(c1, StoreC1(), [Call(s1, 2)]) == Out(c1, StoreC1(), [Call(s1, 2), Call(s2, 3)])
  {
    ReconcileC();
  }

  /** The second expansion of "a": "b" was added before and runs nothing;
      "c" is materialized. */
  lemma ExpandAC(s1: Spec, s2: Spec)
    ensures WF(StoreTop()) && 1 in StoreTop().suites
    ensures var cs := [Child("/a/b", LeafB(s1)), Child("/a/c", Fresh("c").(specs := Some(s2)))];
      ChildrenOK(cs, Some(1), StoreTop().suites)
      && ExpandChildren(cs, 1, StoreTop(), [Call(s1, 2)])
         == OutList([Child("/a/b", LeafB(s1)), Child("/a/c", LeafC(s2))], StoreC1().(active := Top), [Call(s1, 2), Call(s2, 3)])
  {
    DescribeB2(s1);
    DescribeC(s1, s2);
    ExpandTwo(Child("/a/b", LeafB(s1)), Child("/a/c", Fresh("c").(specs := Some(s2))), 1, StoreTop(), [Call(s1, 2)]);
  }

  /** Describing "b" again: it was added and has run its specs already. */
  lemma DescribeB2(s1: Spec)
    ensures WF(StoreTop()) && 1 in StoreTop().suites
    ensures NodeOK(LeafB(s1), Some(1), StoreTop().suites)
      && DescribeNode(LeafB(s1), Some(1), StoreTop(), [Call(s1, 2)]) == Out(LeafB(s1), StoreTop(), [Call(s1, 2)])
  {
    StoreTopWF();
  }

  lemma DescribeC(s1: Spec, s2: Spec)
    ensures WF(StoreTop()) && 1 in StoreTop().suites
    ensures var c0 := Fresh("c").(specs := Some(s2));
      NodeOK(c0, Some(1), StoreTop().suites)
      && DescribeNode(c0, Some(1), StoreTop(), [Call(s1, 2)])
         == Out(LeafC(s2), StoreC1().(active := Top), [Call(s1, 2), Call(s2, 3)])
  {
    MaterializeC(s1, s2);
  }

  lemma DescribeAC(s1: Spec, s2: Spec)
    ensures WF(StoreTop())
    ensures var a := NodeA(s1).(children := [Child("/a/b", LeafB(s1)), Child("/a/c", Fresh("c").(specs := Some(s2)))]);
      NodeOK(a, None, StoreTop().suites)
      && DescribeNode(a, None, StoreTop(), [Call(s1, 2)]) == Out(AfterAC(s1, s2).root.children[0].node, StoreC1().(active := Top), [Call(s1, 2), Call(s2, 3)])
  {
    ExpandAC(s1, s2);
  }

  /** The state after the first call satisfies the registry invariant. */
  lemma InvAfterAB(s1: Spec)
    ensures Inv(AfterAB(s1))
  {
    FirstCall(s1);
  }

  /** `suite("a/c", s2)` after `suite("a/b", s1)`: the same suite 1 comes
      back, and the new suite 3 ends up inside it. */
  lemma SecondCall(s1: Spec, s2: Spec)
    ensures Inv(AfterAB(s1))
    ensures Registry.Suite(AfterAB(s1), "a/c", Some(s2)) == (AfterAC(s1, s2), 1)
  {
    InvAfterAB(s1);
    SecondCallSteps(s1, s2);
  }

  lemma SecondCallSteps(s1: Spec, s2: Spec)
    requires Inv(AfterAB(s1))
    ensures Registry.Suite(AfterAB(s1), "a/c", Some(s2)) == (AfterAC(s1, s2), 1)
  {
    WalkSecond(s1, s2);
    SecondDescribeFacts(s1, s2);
    SecondRootFacts(s1, s2);
    var d := DescribedAC(s1, s2);
    var root1 := WalkedAC(s1, s2);
    assert AfterAC(s1, s2) == State(root1.(children := root1.children[0 := Child("/a", d.node)]), d.host, d.log);
    SuiteIs(AfterAB(s1), "a/c", Some(s2), root1, 0, d, (AfterAC(s1, s2), 1));
  }

  /** `SuiteSteps` with the expected outcome named. */
  lemma SuiteIs(st: State, ns: string, specs: Option<Spec>, root1: Node, i: nat, d: Out, want: (State, SuiteId))
    requires Inv(st)
    requires Resolve(st.root, "", Split(ns), specs) == root1
    requires Find(root1.children, "" + "/" + Split(ns)[0]) == Some(i) && i < |root1.children|
    requires WF(st.host) && NodeOK(root1.children[i].node, None, st.host.suites)
    requires DescribeNode(root1.children[i].node, None, st.host, st.log) == d
    requires want.0 == State(root1.(children := root1.children[i := Child(root1.children[i].key, d.node)]), d.host, d.log)
    requires d.node.suiteObj == Some(want.1)
    ensures Registry.Suite(st, ns, specs) == want
  {
    SuiteSteps(st, ns, specs, root1, i, d);
  }

  /** The path walk of the second call: "/a" gains "/a/c" after "/a/b". */
  function WalkedAC(s1: Spec, s2: Spec): Node {
    Root().(children := [Child("/a", NodeA(s1).(children := [Child("/a/b", LeafB(s1)), Child("/a/c", Fresh("c").(specs := Some(s2)))]))])
  }

  /** The outcome of describing "/a" in the second call. */
  function DescribedAC(s1: Spec, s2: Spec): Out {
    Out(AfterAC(s1, s2).root.children[0].node, StoreC1().(active := Top), [Call(s1, 2), Call(s2, 3)])
  }

  lemma SecondRootFacts(s1: Spec, s2: Spec)
    ensures Find(WalkedAC(s1, s2).children, "" + "/" + "a") == Some(0) && 0 < |WalkedAC(s1, s2).children|
    ensures var root1 := WalkedAC(s1, s2);
      root1.(children := root1.children[0 := Child("/a", DescribedAC(s1, s2).node)]) == AfterAC(s1, s2).root
    ensures DescribedAC(s1, s2).node.suiteObj == Some(1)
  {
  }

  lemma SecondDescribeFacts(s1: Spec, s2: Spec)
    ensures WF(AfterAB(s1).host) && NodeOK(WalkedAC(s1, s2).children[0].node, None, AfterAB(s1).host.suites)
    ensures DescribeNode(WalkedAC(s1, s2).children[0].node, None, AfterAB(s1).host, AfterAB(s1).log) == DescribedAC(s1, s2)
  {
    DescribeAC(s1, s2);
    assert AfterAB(s1).host == StoreTop() && AfterAB(s1).log == [Call(s1, 2)];
  }

  lemma WalkSecond(s1: Spec, s2: Spec)
    ensures Resolve(AfterAB(s1).root, "", Split("a/c"), Some(s2)) == WalkedAC(s1, s2)
  {
    SplitTwo("a", "c");
    WalkAC2(NodeA(s1), s2);
    var cc := Child("/a/c", Fresh("c").(specs := Some(s2)));
    assert NodeA(s1).children + [cc] == [Child("/a/b", LeafB(s1)), cc];
  }

  /** Walking "a/c" from a root whose only child "/a" holds only "/a/b". */
  lemma WalkAC2(a: Node, s2: Spec)
    requires |a.children| == 1 && a.children[0].key == "/a/b"
    ensures Resolve(Root().(children := [Child("/a", a)]), "", ["a", "c"], Some(s2))
         == Root().(children := [Child("/a", a.(children := a.children + [Child("/a/c", Fresh("c").(specs := Some(s2)))]))])
  {
    var ka: string := "" + "/" + "a";
    var kc: string := ka + "/" + "c";
    assert ka == "/a" && kc == "/a/c";
    assert Find(a.children, kc).None?;
    assert Resolve(a, ka, ["c"], Some(s2))
        == a.(children := a.children + [Child(kc, Fresh("c").(specs := Some(s2)))]) by {
      assert ["c"][1..] == [];
    }
    assert Find([Child("/a", a)], ka) == Some(0);
    assert ["a", "c"][1..] == ["c"];
  }

  /** What the second call shows about the host: suite 3 was created in the
      top-level suite but ends up as the second child of suite 1, with the
      full name "a c"; the top-level suite keeps only suite 1; s2 ran
      against 3 after s1 ran against 2. */
  lemma ReParented(s1: Spec, s2: Spec)
    ensures Inv(AfterAB(s1))
    ensures var r := Registry.Suite(AfterAB(s1), "a/c", Some(s2));
      && r.1 == 1
      && r.0.host.suites[Top].children == [1]
      && r.0.host.suites[1].children == [2, 3]
      && 3 in r.0.host.suites
      && r.0.host.suites[3].parent == Some(1)
      && r.0.host.suites[3].fullName == ["a", "c"]
      && r.0.log == [Call(s1, 2), Call(s2, 3)]
  {
    SecondCall(s1, s2);
    MovedC();
    assert AfterAC(s1, s2).host == StoreC1().(active := Top);
  }

  /** Expanding two children is describing the first, then the second
      against what the first left. */
  lemma ExpandTwo(c0: Child, c1: Child, self: SuiteId, h: Store, log: seq<Call>)
    requires WF(h) && self in h.suites
    requires NodeOK(c0.node, Some(self), h.suites) && NodeOK(c1.node, Some(self), h.suites)
    ensures ChildrenOK([c0, c1], Some(self), h.suites)
    ensures var a := DescribeNode(c0.node, Some(self), h, log);
      && NodeOK(c1.node, Some(self), a.host.suites)
      && var b := DescribeNode(c1.node, Some(self), a.host, a.log);
         ExpandChildren([c0, c1], self, h, log)
         == OutList([Child(c0.key, a.node), Child(c1.key, b.node)], b.host, b.log)
  {
    ExpandFirst(c0, c1, self, h, log);
    var a := DescribeNode(c0.node, Some(self), h, log);
    NodeOKGrows(c1.node, Some(self), h, a.host);
    ExpandOne(c1, self, a.host, a.log);
    var b := DescribeNode(c1.node, Some(self), a.host, a.log);
    var rest := ExpandChildren([c1], self, a.host, a.log);
    ListOfTwo(c0, c1, a, rest, b, ExpandChildren([c0, c1], self, h, log));
  }

  lemma ListOfTwo(c0: Child, c1: Child, a: Out, rest: OutList, b: Out, whole: OutList)
    requires whole == OutList([Child(c0.key, a.node)] + rest.children, rest.host, rest.log)
    requires rest == OutList([Child(c1.key, b.node)], b.host, b.log)
    ensures whole == OutList([Child(c0.key, a.node), Child(c1.key, b.node)], b.host, b.log)
  {
  }

  lemma ExpandFirst(c0: Child, c1: Child, self: SuiteId, h: Store, log: seq<Call>)
    requires WF(h) && self in h.suites
    requires NodeOK(c0.node, Some(self), h.suites) && NodeOK(c1.node, Some(self), h.suites)
    ensures ChildrenOK([c0, c1], Some(self), h.suites)
    ensures var a := DescribeNode(c0.node, Some(self), h, log);
      && ChildrenOK([c1], Some(self), a.host.suites)
      && var rest := ExpandChildren([c1], self, a.host, a.log);
         ExpandChildren([c0, c1], self, h, log)
         == OutList([Child(c0.key, a.node)] + rest.children, rest.host, rest.log)
  {
    var cs := [c0, c1];
    assert cs[0] == c0 && cs[1] == c1;
    ExpandCons(cs, self, h, log);
    assert cs[1..] == [c1];
  }

  /** The expansion of a single child is that child's describe. */
  lemma ExpandOne(c: Child, self: SuiteId, h: Store, log: seq<Call>)
    requires WF(h) && self in h.suites
    requires NodeOK(c.node, Some(self), h.suites)
    ensures ChildrenOK([c], Some(self), h.suites)
    ensures var a := DescribeNode(c.node, Some(self), h, log);
      ExpandChildren([c], self, h, log) == OutList([Child(c.key, a.node)], a.host, a.log)
  {
    ExpandCons([c], self, h, log);
    var a := DescribeNode(c.node, Some(self), h, log);
    assert [c][1..] == [];
    assert ExpandChildren([], self, a.host, a.log) == OutList([], a.host, a.log);
  }
}
