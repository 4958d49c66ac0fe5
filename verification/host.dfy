/** The host test framework (Jasmine), reduced to what the namespace tree
    relies on: a store of suites, each with a parent link, an ordered list of
    child suites and a cached full name, plus the "currently declaring" suite
    that a nested `describe()` attaches to. */
module Host {
  import opened Base

  type SuiteId = nat

  /** A host suite. `fullName` is the list of descriptions from the
      outermost user suite down to this one; the top-level suite contributes
      nothing, as Jasmine leaves it out of full names. */
  datatype HostSuite = HostSuite(
    description: string,
    parent: Option<SuiteId>,
    children: seq<SuiteId>,
    fullName: seq<string>)

  /** The suite store, the suite a `describe()` call made now would nest in,
      and the next unused id. */
  datatype Store = Store(suites: map<SuiteId, HostSuite>, active: SuiteId, next: SuiteId)

  /** The id of Jasmine's implicit top-level suite. */
  const Top: SuiteId := 0

  /** A suite's parent link and cached full name agree with its parent. */
  ghost predicate Linked(suites: map<SuiteId, HostSuite>, s: SuiteId)
    requires s in suites
  {
    match suites[s].parent
    case None => suites[s].fullName == []
    case Some(p) =>
      && p in suites
      && s in suites[p].children
      && suites[s].fullName == suites[p].fullName + [suites[s].description]
  }

  /** `c` is in the store and records `p` as its parent. */
  ghost predicate ChildOf(suites: map<SuiteId, HostSuite>, p: SuiteId, c: SuiteId) {
    c in suites && suites[c].parent == Some(p)
  }

  /** Every suite's parent link and full name agree with its parent. */
  ghost predicate AllLinked(suites: map<SuiteId, HostSuite>) {
    forall s :: s in suites ==> Linked(suites, s)
  }

  /** Every entry of a child list records that list's owner as its parent. */
  ghost predicate ChildrenBack(suites: map<SuiteId, HostSuite>) {
    forall p, i :: p in suites && 0 <= i < |suites[p].children| ==>
      ChildOf(suites, p, suites[p].children[i])
  }

  /** No child list holds a suite twice. */
  ghost predicate AllNoDup(suites: map<SuiteId, HostSuite>) {
    forall p :: p in suites ==> NoDup(suites[p].children)
  }

  /** A well-formed store: the active suite exists, ids are below `next`,
      parent links and child lists mirror each other, child lists hold no
      duplicates, and every full name is its parent's full name extended by
      its own description (which also rules out parent cycles, since full
      names grow along parent links). */
  ghost predicate WF(h: Store) {
    && h.active in h.suites
    && (forall s :: s in h.suites ==> s < h.next)
    && AllLinked(h.suites)
    && ChildrenBack(h.suites)
    && AllNoDup(h.suites)
  }

  /** `h2` keeps every suite of `h1` with its description, parent and full
      name; only child lists may have changed, and ids are never reused. */
  ghost predicate Grows(h1: Store, h2: Store) {
    && h1.next <= h2.next
    && forall s :: s in h1.suites ==>
         && s in h2.suites
         && h2.suites[s].description == h1.suites[s].description
         && h2.suites[s].parent == h1.suites[s].parent
         && h2.suites[s].fullName == h1.suites[s].fullName
  }

  lemma GrowsTrans(h1: Store, h2: Store, h3: Store)
    requires Grows(h1, h2) && Grows(h2, h3)
    ensures Grows(h1, h3)
  {
  }

  /** The store before any suite is declared: just the top-level suite,
      which is also the active one. */
  function Init(): (h: Store)
    ensures WF(h)
    ensures h.suites.Keys == {Top} && h.active == Top
  {
    Store(map[Top := HostSuite("", None, [], [])], Top, Top + 1)
  }

  /** The first half of `describe(desc, fn)`: a fresh suite is created as the
      last child of the active suite, with its full name computed from its
      parent, and becomes the active suite while `fn` runs. */
  function Open(h: Store, desc: string): (r: (Store, SuiteId))
    requires WF(h)
    ensures WF(r.0)
    ensures r.1 == h.next && r.1 !in h.suites && r.1 in r.0.suites && r.0.next == r.1 + 1
    ensures r.0.suites.Keys == h.suites.Keys + {r.1}
    ensures r.0.active == r.1
    ensures r.0.suites[r.1] == HostSuite(desc, Some(h.active), [],
                                      h.suites[h.active].fullName + [desc])
    ensures r.0.suites[h.active].children == h.suites[h.active].children + [r.1]
    ensures forall s :: s in h.suites && s != h.active ==> r.0.suites[s] == h.suites[s]
    ensures Grows(h, r.0)
  {
    var id := h.next;
    var p := h.suites[h.active];
    var suites := h.suites[h.active := p.(children := p.children + [id])]
                          [id := HostSuite(desc, Some(h.active), [], p.fullName + [desc])];
    var r := Store(suites, id, id + 1);
    OpenKeepsWF(h, desc, r);
    (r, id)
  }

  /** `r` is `h` after creating suite `h.next` with description `desc` as
      the last child of the active suite. */
  ghost predicate Opened(h: Store, desc: string, r: Store)
    requires h.active in h.suites
  {
    var p := h.suites[h.active];
    r == Store(h.suites[h.active := p.(children := p.children + [h.next])]
                       [h.next := HostSuite(desc, Some(h.active), [], p.fullName + [desc])],
               h.next, h.next + 1)
  }

  /** Creating a fresh suite under the active one keeps the store well
      formed. */
  lemma OpenKeepsWF(h: Store, desc: string, r: Store)
    requires WF(h) && Opened(h, desc, r)
    ensures WF(r)
  {
    OpenLinked(h, desc, r);
    OpenChildrenBack(h, desc, r);
    OpenNoDup(h, desc, r);
  }

  lemma OpenLinked(h: Store, desc: string, r: Store)
    requires WF(h) && Opened(h, desc, r)
    ensures AllLinked(r.suites)
  {
    var id := h.next;
    assert id !in h.suites;
    forall s | s in r.suites ensures Linked(r.suites, s) {
      if s != id {
        assert Linked(h.suites, s);
        if h.suites[s].parent.Some? {
          var q := h.suites[s].parent.value;
          assert s in h.suites[q].children;
          assert s in r.suites[q].children;
        }
      }
    }
  }

  lemma OpenChildrenBack(h: Store, desc: string, r: Store)
    requires WF(h) && Opened(h, desc, r)
    ensures ChildrenBack(r.suites)
  {
    var id := h.next;
    var a := h.active;
    var p := h.suites[a];
    assert id !in h.suites;
    forall q, i | q in r.suites && 0 <= i < |r.suites[q].children|
      ensures ChildOf(r.suites, q, r.suites[q].children[i])
    {
      if q == a && i == |p.children| {
      } else {
        assert q in h.suites && r.suites[q].children[i] == h.suites[q].children[i];
        assert ChildOf(h.suites, q, h.suites[q].children[i]);
      }
    }
  }

  lemma OpenNoDup(h: Store, desc: string, r: Store)
    requires WF(h) && Opened(h, desc, r)
    ensures AllNoDup(r.suites)
  {
    var id := h.next;
    var a := h.active;
    var p := h.suites[a];
    assert id !in h.suites;
    forall q | q in r.suites ensures NoDup(r.suites[q].children) {
      assert q != id ==> NoDup(h.suites[q].children);
      if q == a {
        forall i | 0 <= i < |p.children| ensures p.children[i] != id {
          assert ChildOf(h.suites, a, p.children[i]);
        }
      }
    }
  }

  /** The second half of `describe()`: the suite that was active before the
      call becomes active again. */
  function Close(h: Store, prev: SuiteId): (r: Store)
    requires WF(h) && prev in h.suites
    ensures WF(r) && Grows(h, r) && r.active == prev
    ensures r.suites == h.suites && r.next == h.next
  {
    h.(active := prev)
  }

  /** `Array.prototype.indexOf`: the first position of `x`, or -1. */
  function IndexOf(xs: seq<SuiteId>, x: SuiteId): (i: int)
    ensures -1 <= i < |xs|
    ensures i == -1 <==> x !in xs
    ensures i >= 0 ==> xs[i] == x && x !in xs[..i]
  {
    if |xs| == 0 then -1
    else if xs[0] == x then 0
    else
      var j := IndexOf(xs[1..], x);
      if j == -1 then -1 else j + 1
  }

  /** `i = xs.indexOf(x); if (i !== -1) xs.splice(i, 1)`: the first
      occurrence of `x` is dropped and every other element keeps its place
      in the order. */
  function RemoveFirst(xs: seq<SuiteId>, x: SuiteId): (r: seq<SuiteId>)
    ensures x !in xs ==> r == xs
    ensures x in xs ==> |r| == |xs| - 1
    ensures x in xs ==> exists k :: 0 <= k < |xs| && xs[k] == x && x !in xs[..k]
                                    && r == xs[..k] + xs[k + 1..]
    ensures forall y :: y != x ==> (y in r <==> y in xs)
    ensures NoDup(xs) ==> NoDup(r) && x !in r
  {
    var i := IndexOf(xs, x);
    if i == -1 then xs
    else
      var r := xs[..i] + xs[i + 1..];
      assert forall y :: y in xs <==> y in xs[..i] || y == xs[i] || y in xs[i + 1..] by {
        assert xs == xs[..i] + [xs[i]] + xs[i + 1..];
      }
      assert NoDup(xs) ==> NoDup(r) && x !in r by {
        if NoDup(xs) {
          RemoveAtNoDup(xs, i);
        }
      }
      r
  }

  /** Dropping one element of a duplicate-free list leaves it duplicate-free
      and without that element. */
  lemma RemoveAtNoDup(xs: seq<SuiteId>, i: nat)
    requires NoDup(xs) && i < |xs|
    ensures NoDup(xs[..i] + xs[i + 1..]) && xs[i] !in xs[..i] + xs[i + 1..]
  {
    var r := xs[..i] + xs[i + 1..];
    forall a, b | 0 <= a < b < |r| ensures r[a] != r[b] {
      var a' := if a < i then a else a + 1;
      var b' := if b < i then b else b + 1;
      assert r[a] == xs[a'] && r[b] == xs[b'];
    }
    forall a | 0 <= a < |r| ensures r[a] != xs[i] {
      var a' := if a < i then a else a + 1;
      assert r[a] == xs[a'] && a' != i;
    }
  }

  /** The re-parenting block of `SuiteInfo.describe` (index.js lines
      104-127), run on the suite `s` that `describe()` has just created: when
      the namespace parent's suite `up` is known and differs from the suite
      `s` was created in, `s` is taken out of its old parent's child list,
      appended to `up`'s, linked to `up`, and its full name recomputed.
      Because this happens before any child of `s` exists, no other full
      name goes stale. */
  function Reconcile(h: Store, s: SuiteId, up: Option<SuiteId>): (r: Store)
    requires WF(h)
    requires s in h.suites && h.suites[s].parent.Some? && h.suites[s].children == []
    requires up.Some? ==> up.value in h.suites && up.value != s
    ensures WF(r)
    ensures r.active == h.active && r.next == h.next && r.suites.Keys == h.suites.Keys
    ensures up.None? || h.suites[s].parent == up ==> r == h
    ensures up.Some? ==> r.suites[s].parent == up && s in r.suites[up.value].children
    ensures up.Some? ==> r.suites[s].fullName == r.suites[up.value].fullName + [h.suites[s].description]
    ensures up.Some? && h.suites[s].parent != up ==>
      var was := h.suites[s].parent.value;
      && s !in r.suites[was].children
      && r.suites[was].children == RemoveFirst(h.suites[was].children, s)
      && r.suites[up.value].children == h.suites[up.value].children + [s]
    ensures forall t :: t in h.suites && t != s ==>
      && r.suites[t].description == h.suites[t].description
      && r.suites[t].parent == h.suites[t].parent
      && r.suites[t].fullName == h.suites[t].fullName
    ensures forall t :: t in h.suites && t != s && Some(t) != up && Some(t) != h.suites[s].parent ==>
      r.suites[t] == h.suites[t]
    ensures r.suites[s].description == h.suites[s].description && r.suites[s].children == []
  {
    if up.None? || h.suites[s].parent == up then h
    else Move(h, s, up.value)
  }

  /** The store after suite `s` is moved from its current parent to `p`. */
  function Move(h: Store, s: SuiteId, p: SuiteId): (r: Store)
    requires WF(h)
    requires s in h.suites && h.suites[s].parent.Some? && h.suites[s].children == []
    requires p in h.suites && p != s && h.suites[s].parent != Some(p)
    ensures WF(r)
    ensures r.active == h.active && r.next == h.next && r.suites.Keys == h.suites.Keys
    ensures
      var was := h.suites[s].parent.value;
      && r.suites[was] == h.suites[was].(children := RemoveFirst(h.suites[was].children, s))
      && r.suites[p] == h.suites[p].(children := h.suites[p].children + [s])
      && r.suites[s] == h.suites[s].(parent := Some(p),
                          fullName := h.suites[p].fullName + [h.suites[s].description])
    ensures forall t :: t in h.suites && t != s && t != p && t != h.suites[s].parent.value ==>
      r.suites[t] == h.suites[t]
  {
    var was := h.suites[s].parent.value;
    assert Linked(h.suites, s);
    var wasSuite := h.suites[was];
    var newSuite := h.suites[p];
    var moved := h.suites[s].(parent := Some(p),
                               fullName := newSuite.fullName + [h.suites[s].description]);
    var suites := h.suites[was := wasSuite.(children := RemoveFirst(wasSuite.children, s))]
                          [p := newSuite.(children := newSuite.children + [s])]
                          [s := moved];
    var r := h.(suites := suites);
    ReconcileKeepsWF(h, s, p, r);
    r
  }

  /** `r` is `h` after the childless suite `s` is moved from its parent to
      `p`: taken out of the old parent's child list, appended to `p`'s,
      linked to `p` with its full name recomputed, and nothing else
      changed. */
  ghost predicate Moved(h: Store, s: SuiteId, p: SuiteId, r: Store) {
    && s in h.suites && h.suites[s].parent.Some? && h.suites[s].parent.value in h.suites
    && h.suites[s].children == []
    && p in h.suites && p != s && h.suites[s].parent != Some(p)
    && r.active == h.active && r.next == h.next && r.suites.Keys == h.suites.Keys
    && var was := h.suites[s].parent.value;
    && r.suites[was] == h.suites[was].(children := RemoveFirst(h.suites[was].children, s))
    && r.suites[p] == h.suites[p].(children := h.suites[p].children + [s])
    && r.suites[s] == h.suites[s].(parent := Some(p),
                        fullName := h.suites[p].fullName + [h.suites[s].description])
    && (forall t :: t in h.suites && t != s && t != p && t != was ==> r.suites[t] == h.suites[t])
  }

  /** Moving a childless suite to a new parent keeps the store well formed. */
  lemma ReconcileKeepsWF(h: Store, s: SuiteId, p: SuiteId, r: Store)
    requires WF(h) && Moved(h, s, p, r)
    ensures WF(r)
  {
    NoSuiteUnder(h, s);
    assert AllLinked(r.suites) by {
      forall t | t in r.suites ensures Linked(r.suites, t) {
        ReconcileLinked(h, s, p, r, t);
      }
    }
    MovedChildrenBack(h, s, p, r);
    MovedNoDup(h, s, p, r);
  }

  /** After a move every listed child still points back at its parent. */
  lemma MovedChildrenBack(h: Store, s: SuiteId, p: SuiteId, r: Store)
    requires WF(h) && Moved(h, s, p, r)
    ensures ChildrenBack(r.suites)
  {
    forall q, i | q in r.suites && 0 <= i < |r.suites[q].children|
      ensures ChildOf(r.suites, q, r.suites[q].children[i])
    {
      var c := r.suites[q].children[i];
      if q == p && i == |h.suites[p].children| {
        assert c == s;
      } else {
        assert c in h.suites[q].children;
        var j :| 0 <= j < |h.suites[q].children| && h.suites[q].children[j] == c;
        assert ChildOf(h.suites, q, c);
        assert c != s;
      }
    }
  }

  /** After a move no child list holds an id twice. */
  lemma MovedNoDup(h: Store, s: SuiteId, p: SuiteId, r: Store)
    requires WF(h) && Moved(h, s, p, r)
    ensures AllNoDup(r.suites)
  {
    var was := h.suites[s].parent.value;
    assert NoDup(h.suites[was].children);
    assert s !in h.suites[p].children by {
      forall i | 0 <= i < |h.suites[p].children| ensures h.suites[p].children[i] != s {
        assert ChildOf(h.suites, p, h.suites[p].children[i]);
      }
    }
    forall q | q in r.suites ensures NoDup(r.suites[q].children) {
      assert NoDup(h.suites[q].children);
    }
  }

  /** A suite with an empty child list is nobody's parent. */
  lemma NoSuiteUnder(h: Store, s: SuiteId)
    requires WF(h) && s in h.suites && h.suites[s].children == []
    ensures forall t :: t in h.suites ==> h.suites[t].parent != Some(s)
  {
    forall t | t in h.suites ensures h.suites[t].parent != Some(s) {
      assert Linked(h.suites, t);
    }
  }

  /** One suite's link after a move stays consistent. */
  lemma ReconcileLinked(h: Store, s: SuiteId, p: SuiteId, r: Store, t: SuiteId)
    requires WF(h) && Moved(h, s, p, r)
    requires forall u :: u in h.suites ==> h.suites[u].parent != Some(s)
    requires t in r.suites
    ensures Linked(r.suites, t)
  {
    assert t in h.suites;
    assert Linked(h.suites, t);
    if t != s {
      assert r.suites[t].parent == h.suites[t].parent;
      assert r.suites[t].fullName == h.suites[t].fullName;
      assert r.suites[t].description == h.suites[t].description;
      if h.suites[t].parent.Some? {
        var q := h.suites[t].parent.value;
        assert q != s;
        assert r.suites[q].fullName == h.suites[q].fullName;
        assert t in h.suites[q].children;
        assert t in r.suites[q].children;
      }
    }
  }
}
