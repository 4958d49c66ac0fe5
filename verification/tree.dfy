/** The namespace tree of index.js: `SuiteInfo` nodes, the lookup-or-insert
    step `getOrCreate`, and the walk down a split namespace that `suite()`
    performs before it describes anything. */
module Tree {
  import opened Base
  import opened Host
  import opened Namespace

  /** An opaque specs callback, known only by identity. */
  datatype Spec = Spec(id: nat)

  /** A `SuiteInfo`. `children` is the source's `children` object: entries in
      insertion order (the iteration order of an object whose keys all start
      with '/'), each under its full key. `added` and `suiteObj` are the
      `_added` flag and the cached host suite `_suiteObj`. */
  datatype Node = Node(
    description: string,
    specs: Option<Spec>,
    children: seq<Child>,
    added: bool,
    suiteObj: Option<SuiteId>)

  datatype Child = Child(key: string, node: Node)

  /** `new SuiteInfo(description)`. */
  function Fresh(description: string): (n: Node)
    ensures n.description == description && n.specs.None? && n.children == []
    ensures !n.added && n.suiteObj.None?
  {
    Node(description, None, [], false, None)
  }

  /** `_rootSuite`: the root takes no description in the source; here it
      carries the empty string, which is never shown because the root is
      never described. */
  function Root(): (r: Node)
    ensures r.children == [] && r.specs.None?
    ensures !r.added && r.suiteObj.None?
  {
    Fresh("")
  }

  /** The position of the entry stored under `key`, if any. */
  function Find(cs: seq<Child>, key: string): (r: Option<nat>)
    ensures r.Some? ==> r.value < |cs| && cs[r.value].key == key
    ensures r.Some? ==> forall j :: 0 <= j < r.value ==> cs[j].key != key
    ensures r.None? <==> forall j :: 0 <= j < |cs| ==> cs[j].key != key
  {
    if |cs| == 0 then None
    else if cs[0].key == key then Some(0)
    else match Find(cs[1..], key)
      case None => None
      case Some(i) => Some(i + 1)
  }

  /** The keys of a child list, in order. */
  function Keys(cs: seq<Child>): (ks: seq<string>)
    ensures |ks| == |cs| && forall i :: 0 <= i < |cs| ==> ks[i] == cs[i].key
  {
    seq(|cs|, i requires 0 <= i < |cs| => cs[i].key)
  }

  /** `getOrCreate(key, description)`: the node is returned with the
      position of the child stored under `key`. An existing child is reused
      and nothing changes; otherwise exactly one fresh child is appended and
      every earlier entry stays as it was. */
  function GetOrCreate(n: Node, key: string, description: string): (r: (Node, nat))
    ensures r.1 < |r.0.children| && r.0.children[r.1].key == key
    ensures Find(r.0.children, key) == Some(r.1)
    ensures Find(n.children, key).Some? ==> r.0 == n
    ensures Find(n.children, key).None? ==>
      && r.0 == n.(children := r.0.children)
      && r.0.children == n.children + [Child(key, Fresh(description))]
      && r.1 == |n.children|
    ensures Keys(r.0.children) == Keys(n.children) || Keys(r.0.children) == Keys(n.children) + [key]
  {
    match Find(n.children, key)
    case Some(i) => (n, i)
    case None =>
      var cs := n.children + [Child(key, Fresh(description))];
      assert Find(cs, key) == Some(|n.children|) by {
        FindAppend(n.children, Child(key, Fresh(description)), key);
      }
      assert Keys(cs) == Keys(n.children) + [key];
      (n.(children := cs), |n.children|)
  }

  lemma {:induction false} FindAppend(cs: seq<Child>, c: Child, key: string)
    requires Find(cs, key).None? && c.key == key
    ensures Find(cs + [c], key) == Some(|cs|)
  {
    var r := Find(cs + [c], key);
    assert (cs + [c])[|cs|].key == key;
  }

  /** The loop of `suite()` and its final assignment: from node `n`, whose
      key is `key`, walk `parts` with `getOrCreate`, keying each step by the
      cumulative key so far, and store `specs` on the node the walk ends at. */
  function Resolve(n: Node, key: string, parts: seq<string>, specs: Option<Spec>): (r: Node)
    ensures |parts| == 0 ==> r.specs == specs && r.children == n.children
    ensures |parts| > 0 ==> r.specs == n.specs
    decreases parts
  {
    if |parts| == 0 then n.(specs := specs)
    else
      var (n1, i) := GetOrCreate(n, key + "/" + parts[0], parts[0]);
      var c := n1.children[i];
      var sub := Resolve(c.node, c.key, parts[1..], specs);
      FindUpdate(n1.children, i, c.key, sub);
      n1.(children := n1.children[i := Child(c.key, sub)])
  }

  /** The node reached from `n` (whose key is `key`) by following `parts`,
      each step taking the child stored under the cumulative key. */
  function At(n: Node, key: string, parts: seq<string>): Option<Node>
    decreases parts
  {
    if |parts| == 0 then Some(n)
    else match Find(n.children, key + "/" + parts[0])
      case None => None
      case Some(i) => At(n.children[i].node, key + "/" + parts[0], parts[1..])
  }

  /** Every child's key is its parent's key, '/', and its own description,
      and no key occurs twice in one child list. */
  ghost predicate Keyed(n: Node, key: string)
    decreases n
  {
    && (forall i :: 0 <= i < |n.children| ==>
          n.children[i].key == key + "/" + n.children[i].node.description)
    && (forall i, j :: 0 <= i < j < |n.children| ==> n.children[i].key != n.children[j].key)
    && (forall i :: 0 <= i < |n.children| ==> Keyed(n.children[i].node, n.children[i].key))
  }

  /** After the walk, the node at the end of the path exists and holds the
      given specs. */
  lemma {:induction false} ResolveReaches(n: Node, key: string, parts: seq<string>, specs: Option<Spec>)
    ensures var m := At(Resolve(n, key, parts, specs), key, parts);
      m.Some? && m.value.specs == specs
    decreases parts
  {
    if |parts| > 0 {
      var k := key + "/" + parts[0];
      var (n1, i) := GetOrCreate(n, k, parts[0]);
      var c := n1.children[i];
      var sub := Resolve(c.node, c.key, parts[1..], specs);
      var r := Resolve(n, key, parts, specs);
      assert r.children == n1.children[i := Child(k, sub)];
      FindUpdate(n1.children, i, k, sub);
      ResolveReaches(c.node, c.key, parts[1..], specs);
    }
  }

  /** Replacing the node under the first occurrence of `key` keeps that
      occurrence first. */
  lemma FindUpdate(cs: seq<Child>, i: nat, key: string, m: Node)
    requires Find(cs, key) == Some(i)
    ensures Find(cs[i := Child(key, m)], key) == Some(i)
  {
    var cs' := cs[i := Child(key, m)];
    var r := Find(cs', key);
    assert cs'[i].key == key;
    assert forall j :: 0 <= j < i ==> cs'[j].key != key;
  }

  /** Walking a path that already exists to a node that already holds
      `specs` changes nothing: no node is created and no specs replaced. */
  lemma {:induction false} ResolvePresent(n: Node, key: string, parts: seq<string>, specs: Option<Spec>)
    requires At(n, key, parts).Some? && At(n, key, parts).value.specs == specs
    ensures Resolve(n, key, parts, specs) == n
    decreases parts
  {
    if |parts| > 0 {
      var k := key + "/" + parts[0];
      var i := Find(n.children, k).value;
      var c := n.children[i];
      ResolvePresent(c.node, k, parts[1..], specs);
      assert n.children[i := Child(c.key, c.node)] == n.children;
    }
  }

  /** Resolution is idempotent: a second `suite()` on the same namespace
      finds every node of the path and creates none, and only the specs it
      stores last are kept; with the same specs it changes nothing. */
  lemma {:induction false} ResolveIdempotent(n: Node, key: string, parts: seq<string>,
                                             s1: Option<Spec>, s2: Option<Spec>)
    ensures Resolve(Resolve(n, key, parts, s1), key, parts, s2) == Resolve(n, key, parts, s2)
    ensures var r := Resolve(n, key, parts, s1);
      Resolve(r, key, parts, s1) == r
    decreases parts
  {
    ResolveReaches(n, key, parts, s1);
    ResolvePresent(Resolve(n, key, parts, s1), key, parts, s1);
    if |parts| > 0 {
      var k := key + "/" + parts[0];
      var (n1, i) := GetOrCreate(n, k, parts[0]);
      var c := n1.children[i];
      var sub1 := Resolve(c.node, k, parts[1..], s1);
      var r1 := n1.(children := n1.children[i := Child(k, sub1)]);
      assert Resolve(n, key, parts, s1) == r1;
      FindUpdate(n1.children, i, k, sub1);
      assert GetOrCreate(r1, k, parts[0]) == (r1, i);
      ResolveIdempotent(c.node, k, parts[1..], s1, s2);
      assert r1.children[i := Child(k, Resolve(sub1, k, parts[1..], s2))]
          == n1.children[i := Child(k, Resolve(c.node, k, parts[1..], s2))];
    }
  }

  /** Where the walk finds or creates each node: the node for segment `i` is
      the entry of the node for the segments before it that is stored under
      the cumulative key of the segments before `i`, then '/', then segment
      `i` — '/a', '/a/b', ... — so a path is unreachable exactly when some
      entry along it is missing. */
  lemma {:induction false} AtKey(n: Node, key: string, parts: seq<string>, i: nat)
    requires i < |parts|
    ensures At(n, key, parts[..i + 1]).Some? ==> At(n, key, parts[..i]).Some?
    ensures At(n, key, parts[..i]).Some? ==>
      var p := At(n, key, parts[..i]).value;
      At(n, key, parts[..i + 1])
        == match Find(p.children, key + Key(parts[..i]) + "/" + parts[i])
           case None => None
           case Some(j) => Some(p.children[j].node)
    decreases i
  {
    var k := key + "/" + parts[0];
    if i == 0 {
      assert parts[..1] == [parts[0]] && parts[..1][1..] == [];
      assert parts[..0] == [];
      assert key + Key(parts[..0]) + "/" + parts[0] == k;
    } else {
      assert parts[..i][0] == parts[0] && parts[..i + 1][0] == parts[0];
      assert parts[..i][1..] == parts[1..][..i - 1];
      assert parts[..i + 1][1..] == parts[1..][..i];
      assert Key(parts[..i]) == "/" + parts[0] + Key(parts[1..][..i - 1]);
      assert key + Key(parts[..i]) + "/" + parts[i]
          == k + Key(parts[1..][..i - 1]) + "/" + parts[1..][i - 1];
      match Find(n.children, k)
      case None =>
      case Some(j) =>
        AtKey(n.children[j].node, k, parts[1..], i - 1);
    }
  }

  /** Only the node at the end of the path receives the specs: every proper
      ancestor on the path keeps the specs it had, and an ancestor created by
      this walk has none. */
  lemma {:induction false} ResolveKeepsAncestorSpecs(
    n: Node, key: string, parts: seq<string>, specs: Option<Spec>, i: nat)
    requires i < |parts|
    ensures var m := At(Resolve(n, key, parts, specs), key, parts[..i]);
      var before := At(n, key, parts[..i]);
      && m.Some?
      && m.value.specs == (if before.Some? then before.value.specs else None)
    decreases parts
  {
    var k := key + "/" + parts[0];
    var (n1, j) := GetOrCreate(n, k, parts[0]);
    var c := n1.children[j];
    var sub := Resolve(c.node, c.key, parts[1..], specs);
    var r := Resolve(n, key, parts, specs);
    assert r == n1.(children := n1.children[j := Child(k, sub)]);
    if i > 0 {
      FindUpdate(n1.children, j, k, sub);
      assert parts[..i][0] == parts[0];
      assert parts[..i][1..] == parts[1..][..i - 1];
      ResolveKeepsAncestorSpecs(c.node, k, parts[1..], specs, i - 1);
      if Find(n.children, k).None? {
        assert At(n, key, parts[..i]).None?;
        assert c.node == Fresh(parts[0]);
        if i > 1 {
          assert At(c.node, k, parts[1..][..i - 1]).None?;
        }
      }
    }
  }

  /** The walk never removes a node: whatever path was reachable before is
      reachable after. */
  lemma {:induction false} ResolveKeepsNodes(
    n: Node, key: string, parts: seq<string>, specs: Option<Spec>, q: seq<string>)
    requires At(n, key, q).Some?
    ensures At(Resolve(n, key, parts, specs), key, q).Some?
    decreases q
  {
    if |parts| > 0 && |q| > 0 {
      var k := key + "/" + parts[0];
      var (n1, j) := GetOrCreate(n, k, parts[0]);
      var c := n1.children[j];
      var sub := Resolve(c.node, c.key, parts[1..], specs);
      var r := Resolve(n, key, parts, specs);
      assert r == n1.(children := n1.children[j := Child(k, sub)]);
      var kq := key + "/" + q[0];
      var iq := Find(n.children, kq).value;
      assert Find(n1.children, kq) == Some(iq) by {
        if Find(n.children, k).None? {
          FindPrefix(n.children, Child(k, Fresh(parts[0])), kq);
        }
      }
      if kq == k {
        assert iq == j;
        FindUpdate(n1.children, j, k, sub);
        ResolveKeepsNodes(c.node, k, parts[1..], specs, q[1..]);
      } else {
        FindUpdateOther(n1.children, j, k, sub, kq);
      }
    }
  }

  /** The walk touches one entry of the node it starts from, the one for the
      first segment: every other entry was there before, unchanged. */
  lemma ResolveOthers(n: Node, key: string, parts: seq<string>, specs: Option<Spec>)
    requires |parts| > 0
    ensures var r := Resolve(n, key, parts, specs);
      var i := Find(r.children, key + "/" + parts[0]);
      && i.Some?
      && forall j :: 0 <= j < |r.children| && j != i.value ==>
           j < |n.children| && r.children[j] == n.children[j]
  {
    var k := key + "/" + parts[0];
    var (n1, i) := GetOrCreate(n, k, parts[0]);
    var c := n1.children[i];
    var sub := Resolve(c.node, k, parts[1..], specs);
    var r := Resolve(n, key, parts, specs);
    assert r.children == n1.children[i := Child(k, sub)];
    FindUpdate(n1.children, i, k, sub);
    if Find(n.children, k).None? {
      assert forall j :: 0 <= j < |n.children| ==> n1.children[j] == n.children[j];
    }
  }

  /** Appending an entry does not move an earlier first occurrence. */
  lemma FindPrefix(cs: seq<Child>, c: Child, key: string)
    requires Find(cs, key).Some?
    ensures Find(cs + [c], key) == Find(cs, key)
  {
    var i := Find(cs, key).value;
    assert (cs + [c])[i] == cs[i];
    assert forall j :: 0 <= j < i ==> (cs + [c])[j] == cs[j];
  }

  /** Replacing the node of the entry under `k` leaves lookups of other keys
      alone. */
  lemma FindUpdateOther(cs: seq<Child>, i: nat, k: string, m: Node, other: string)
    requires i < |cs| && cs[i].key == k && other != k
    ensures Find(cs[i := Child(k, m)], other) == Find(cs, other)
  {
    var cs' := cs[i := Child(k, m)];
    assert forall j :: 0 <= j < |cs| ==> (cs'[j].key == other <==> cs[j].key == other);
    var a := Find(cs', other);
    var b := Find(cs, other);
    if a.Some? && b.Some? {
      assert !(a.value < b.value) && !(b.value < a.value);
    }
  }

  /** The walk keeps the tree keyed: every new child's key is its parent's
      key extended by '/' and its segment, and no key is entered twice. */
  lemma {:induction false} ResolveKeyed(n: Node, key: string, parts: seq<string>, specs: Option<Spec>)
    requires Keyed(n, key)
    ensures Keyed(Resolve(n, key, parts, specs), key)
    decreases parts
  {
    if |parts| == 0 {
      assert n.(specs := specs).children == n.children;
    } else {
      var k := key + "/" + parts[0];
      var (n1, j) := GetOrCreate(n, k, parts[0]);
      var c := n1.children[j];
      var sub := Resolve(c.node, c.key, parts[1..], specs);
      assert Keyed(n1, key) by {
        if Find(n.children, k).None? {
          KeyedAppend(n, key, parts[0]);
        }
      }
      ResolveKeyed(c.node, k, parts[1..], specs);
      KeyedReplace(n1, key, j, sub);
    }
  }

  /** Appending a fresh child under the next cumulative key keeps a node
      keyed, when that key is not taken. */
  lemma KeyedAppend(n: Node, key: string, d: string)
    requires Keyed(n, key) && Find(n.children, key + "/" + d).None?
    ensures Keyed(n.(children := n.children + [Child(key + "/" + d, Fresh(d))]), key)
  {
    var cs := n.children + [Child(key + "/" + d, Fresh(d))];
    assert Keyed(Fresh(d), key + "/" + d);
    assert forall i :: 0 <= i < |n.children| ==> cs[i] == n.children[i];
  }

  /** Replacing one child by a keyed subtree with the same description keeps
      the parent keyed. */
  lemma KeyedReplace(n: Node, key: string, j: nat, sub: Node)
    requires Keyed(n, key) && j < |n.children|
    requires Keyed(sub, n.children[j].key) && sub.description == n.children[j].node.description
    ensures Keyed(n.(children := n.children[j := Child(n.children[j].key, sub)]), key)
  {
  }

  /** Prefix sharing: walking "a/b" and then "a/c" from a bare root leaves
      the root with a single '/a' child, which holds '/a/b' and then '/a/c';
      each specs lands on its own leaf and '/a' stays a container. */
  lemma PrefixSharing(s1: Spec, s2: Spec)
    ensures var t := Resolve(Resolve(Root(), "", ["a", "b"], Some(s1)), "", ["a", "c"], Some(s2));
      && Keys(t.children) == ["/a"]
      && Keys(t.children[0].node.children) == ["/a/b", "/a/c"]
      && t.children[0].node.specs.None?
      && t.children[0].node.children[0].node.specs == Some(s1)
      && t.children[0].node.children[1].node.specs == Some(s2)
  {
    var t := Resolve(Resolve(Root(), "", ["a", "b"], Some(s1)), "", ["a", "c"], Some(s2));
    var a2 := Fresh("a").(children := [Child("/a/b", Fresh("b").(specs := Some(s1))),
                                       Child("/a/c", Fresh("c").(specs := Some(s2)))]);
    assert t.children == [Child("/a", a2)] by {
      WalkABAC(s1, s2);
    }
    KeysOf1(t.children, "/a");
    KeysOf2(a2.children, "/a/b", "/a/c");
  }

  lemma KeysOf1(cs: seq<Child>, k: string)
    requires |cs| == 1 && cs[0].key == k
    ensures Keys(cs) == [k]
  {
    assert Keys(cs)[0] == k;
  }

  lemma KeysOf2(cs: seq<Child>, k1: string, k2: string)
    requires |cs| == 2 && cs[0].key == k1 && cs[1].key == k2
    ensures Keys(cs) == [k1, k2]
  {
    assert Keys(cs)[0] == k1 && Keys(cs)[1] == k2;
  }

  lemma WalkABAC(s1: Spec, s2: Spec)
    ensures Resolve(Resolve(Root(), "", ["a", "b"], Some(s1)), "", ["a", "c"], Some(s2))
         == Root().(children := [Child("/a", Fresh("a").(children := [Child("/a/b", Fresh("b").(specs := Some(s1))),
                                                                     Child("/a/c", Fresh("c").(specs := Some(s2)))]))])
  {
    WalkAB(s1);
    WalkAC(s1, s2);
  }

  lemma WalkAB(s1: Spec)
    ensures Resolve(Root(), "", ["a", "b"], Some(s1))
         == Root().(children := [Child("/a", Fresh("a").(children := [Child("/a/b", Fresh("b").(specs := Some(s1)))]))])
  {
    var ka: string := "" + "/" + "a";
    var kb: string := ka + "/" + "b";
    assert ka == "/a" && kb == "/a/b";
    var a1 := Fresh("a").(children := [Child(kb, Fresh("b").(specs := Some(s1)))]);
    assert Resolve(Fresh("a"), ka, ["b"], Some(s1)) == a1 by {
      assert ["b"][1..] == [];
    }
    assert ["a", "b"][1..] == ["b"];
  }

  lemma WalkAC(s1: Spec, s2: Spec)
    ensures var a1 := Fresh("a").(children := [Child("/a/b", Fresh("b").(specs := Some(s1)))]);
      Resolve(Root().(children := [Child("/a", a1)]), "", ["a", "c"], Some(s2))
      == Root().(children := [Child("/a", Fresh("a").(children := [Child("/a/b", Fresh("b").(specs := Some(s1))),
                                                                  Child("/a/c", Fresh("c").(specs := Some(s2)))]))])
  {
    var ka: string := "" + "/" + "a";
    var kc: string := ka + "/" + "c";
    assert ka == "/a" && kc == "/a/c";
    var a1 := Fresh("a").(children := [Child("/a/b", Fresh("b").(specs := Some(s1)))]);
    assert Find(a1.children, kc).None?;
    assert Resolve(a1, ka, ["c"], Some(s2))
        == a1.(children := a1.children + [Child(kc, Fresh("c").(specs := Some(s2)))]) by {
      assert ["c"][1..] == [];
    }
    assert a1.children + [Child(kc, Fresh("c").(specs := Some(s2)))]
        == [Child("/a/b", Fresh("b").(specs := Some(s1))), Child("/a/c", Fresh("c").(specs := Some(s2)))];
    assert Find([Child("/a", a1)], ka) == Some(0);
    assert ["a", "c"][1..] == ["c"];
  }

  /** `m` is a later version of `n`: every child of `n` is still in `m`, at
      the same position under the same key, and a node that had a host
      suite still has the same one, all the way down. */
  ghost predicate KeepsSuites(n: Node, m: Node)
    decreases n
  {
    && (n.suiteObj.Some? ==> m.suiteObj == n.suiteObj)
    && |n.children| <= |m.children|
    && (forall i :: 0 <= i < |n.children| ==>
          && n.children[i].key == m.children[i].key
          && KeepsSuites(n.children[i].node, m.children[i].node))
  }

  lemma {:induction false} KeepsRefl(n: Node)
    ensures KeepsSuites(n, n)
    decreases n
  {
    forall i | 0 <= i < |n.children| ensures KeepsSuites(n.children[i].node, n.children[i].node) {
      KeepsRefl(n.children[i].node);
    }
  }

  lemma {:induction false} KeepsTrans(a: Node, b: Node, c: Node)
    requires KeepsSuites(a, b) && KeepsSuites(b, c)
    ensures KeepsSuites(a, c)
    decreases a
  {
    forall i | 0 <= i < |a.children|
      ensures KeepsSuites(a.children[i].node, c.children[i].node)
    {
      KeepsTrans(a.children[i].node, b.children[i].node, c.children[i].node);
    }
  }

  /** The walk of `suite()` keeps every node and every host suite: it only
      appends children and replaces the terminal node's specs. */
  lemma {:induction false} ResolveKeepsSuites(n: Node, key: string, parts: seq<string>, specs: Option<Spec>)
    ensures KeepsSuites(n, Resolve(n, key, parts, specs))
    decreases parts
  {
    if |parts| == 0 {
      KeepsRefl(n);
      assert KeepsSuites(n, n.(specs := specs));
    } else {
      var k := key + "/" + parts[0];
      var (n1, j) := GetOrCreate(n, k, parts[0]);
      var c := n1.children[j];
      var sub := Resolve(c.node, c.key, parts[1..], specs);
      var r := Resolve(n, key, parts, specs);
      assert r == n1.(children := n1.children[j := Child(c.key, sub)]);
      ResolveKeepsSuites(c.node, c.key, parts[1..], specs);
      forall i | 0 <= i < |n.children|
        ensures n.children[i].key == r.children[i].key
        ensures KeepsSuites(n.children[i].node, r.children[i].node)
      {
        assert n1.children[i] == n.children[i];
        if i == j {
          assert r.children[i].node == sub;
        } else {
          KeepsRefl(n.children[i].node);
        }
      }
    }
  }
}
