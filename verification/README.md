# jasmine-suites namespace tree, in Dafny

jasmine-suites lets test files register specs under a `/`-separated
namespace, `suite("a/b", specs)`. Each segment becomes a nested Jasmine
`describe()` group. Groups whose namespaces share a prefix are merged
across separate `suite()` calls, even when they come from different files.
This project models the engine behind that in `src/index.js`:

- the `SuiteInfo` namespace node;
- `getOrCreate`, its lookup-or-insert on the children map;
- the path walk of `suite()`;
- `describe()` with its `_added` guard and re-parenting block;
- `_addSpecs`;
- the root `_rootSuite`.

The model is a functional state machine. A `suite()` call takes a `State`
and returns the next state:

- The namespace tree is an immutable inductive `Node`. Its children are a
  sequence in insertion order, keyed by the cumulative key (`/a`, `/a/b`).
- Jasmine is reduced to a store of host suites (`Host.Store`). Each suite
  has a description, an optional parent, an ordered child list and a full
  name, which is the sequence of its ancestors' descriptions.
- The host `describe(desc, fn)` is `Host.Open` followed by `Host.Close`:
  - `Open` allocates a fresh id;
  - it appends that id to the children of the active suite;
  - it makes the new suite active while `fn` runs;
  - `Close` restores the previous active suite.

  `Open` returns the new id directly. This replaces the capture of
  `_curSuiteObj` by the patched `addSpecsToSuite_` (src/index.js:101 and
  149-153).
- Spec callbacks are opaque tokens (`Tree.Spec`). Running one appends a
  `Call(spec, suite)` entry to a log.

Modules, one per file:

- `Base` (base.dfy): `Option` and `NoDup`.
- `Namespace` (namespace.dfy): JavaScript's `split('/')` and the
  cumulative keys.
- `Host` (host.dfy): the host suite store, host `describe`, `indexOf`,
  `splice`, and the re-parenting block.
- `Tree` (tree.dfy): the `SuiteInfo` node, `getOrCreate`, and the walk of
  `suite()`.
- `Materialize` (materialize.dfy): `SuiteInfo.describe` and `_addSpecs`,
  as mutually recursive functions over the tree, threading the store and
  the log.
- `Registry` (registry.dfy): the module-level state and `suite()`, with
  the invariant that every `suite()` call preserves.
- `Scenarios` (scenarios.dfy): two registrations, `"a/b"` then `"a/c"`,
  computed to the last field. The second shows a suite created in the
  top-level suite and then moved into its namespace parent.

The main invariants are:

- `Host.WF`: the store is well formed. Parent links and child lists agree,
  children have no duplicates, and every full name is its parent's full
  name plus its own description.
- `Materialize.NodeOK`: the tree agrees with the store.
  - A node is added exactly when it has a host suite.
  - That suite carries the node's description.
  - The suite is nested in the suite of the namespace parent.
  - No child is added before its parent.
- `Registry.LogOK`: no host suite had specs run against it twice.
- `Registry.RootSettled`: every top-level node is fully materialized
  (`Materialize.Settled`). A top-level node is created only by `suite()`,
  which describes it in the same call. `suite()` describes only the
  first-segment node, so this is what lets a later call skip everything it
  does not touch.

## Model

| member | source | states |
|---|---|---|
| `Namespace.Split` | src/index.js:170 | `namespace.split('/')` always yields at least one segment; no segment contains '/'; there is one more segment than there are slashes, so empty segments are kept |
| `Namespace.JoinSplit` | src/index.js:170 | splitting loses nothing: joining the segments with '/' gives back the namespace string |
| `Namespace.SplitJoin` | src/index.js:170 | splitting the '/'-join of slash-free segments returns exactly those segments |
| `Namespace.KeyIsSlashJoin` | src/index.js:178-182 | the cumulative key of a path is '/' followed by the segments joined with '/' |
| `Namespace.TerminalKey` | src/index.js:178-182 | the key the loop builds for the last segment is '/' plus the namespace itself, so equal namespaces reach equal keys |
| `Namespace.KeyStep` | src/index.js:180 | extending a path by one segment extends its key by '/' and that segment |
| `Tree.AtKey` | src/index.js:178-185 | the node the walk reaches for segment i is the entry, in the node for the segments before it, stored under the key of the segments before it, then '/', then segment i (the step `key += '/' + description`); the path is reachable exactly when each such entry exists |
| `Registry.StoredUnderNamespace` | src/index.js:178-191 | after `suite(ns, specs)` the specs sit on the entry keyed '/' followed by the namespace string itself, inside the node of all but the last segment |
| `Tree.Fresh` | src/index.js:33-40 | a new node has the given description, no specs, no children, is not added and has no host suite |
| `Tree.Root` | src/index.js:139 | `_rootSuite` starts with no children and no specs, is not added and has no host suite |
| `Tree.Find` | src/index.js:49 | lookup in the children map: the position of the entry under the key, absent exactly when no entry has that key |
| `Tree.GetOrCreate` | src/index.js:48-57 | an existing key returns that child with the node unchanged; a missing key appends exactly one fresh child under that key and leaves every other entry untouched; either way the returned position holds the key |
| `Tree.Resolve` | src/index.js:178-191 | the loop of `suite()` with its final assignment: walking an empty path stores the specs on the node and keeps its children; a non-empty walk keeps the starting node's own specs, because only the last node's specs are assigned |
| `Tree.ResolveReaches` | src/index.js:178-191 | after the walk, the node at the end of the namespace path exists and holds the given specs |
| `Tree.ResolvePresent` | src/index.js:178-191 | walking a path that exists, to a node that already holds those specs, changes nothing |
| `Tree.ResolveIdempotent` | src/index.js:170-191 | a second walk of the same namespace, with any specs, creates no node and gives the same tree as walking once with the second specs; with the same specs it changes nothing |
| `Tree.ResolveKeepsAncestorSpecs` | src/index.js:190-191 | only the terminal node's specs are assigned; every proper ancestor on the path keeps its specs, and one created by this walk has none |
| `Tree.ResolveKeepsNodes` | src/index.js:178-188 | the walk removes nothing: every path reachable before is reachable after |
| `Tree.ResolveKeyed` | src/index.js:178-182 | the walk keeps the tree keyed: each child's key is its parent's key, '/', and its description, and no key occurs twice among siblings |
| `Tree.ResolveKeepsSuites` | src/index.js:178-191 | the walk keeps every existing child at its position under its key, and every host suite already attached to a node |
| `Tree.PrefixSharing` | src/index.js:178-188 | "a/b" then "a/c" leave the root with the single child '/a', which holds '/a/b' then '/a/c'; each specs lands on its own leaf and '/a' stays a container |
| `Host.Open` | src/index.js:96-101 | the host `describe` creates a fresh suite as the last child of the active suite, with the parent's full name extended by the description; the new suite is active while the callback runs; no other suite changes |
| `Host.OpenKeepsWF` | src/index.js:96 | creating a suite under the active one keeps the store well formed |
| `Host.Close` | src/index.js:96 | when the callback returns, the previous suite is active again and nothing else changes |
| `Host.IndexOf` | src/index.js:114 | `indexOf` returns -1 exactly when the id is absent; otherwise it returns the first position holding the id |
| `Host.RemoveFirst` | src/index.js:114-118 | `indexOf` + `splice` removes exactly the first occurrence; the other siblings keep their order; a list without the id is returned as is; a duplicate-free list stays duplicate-free |
| `Host.Reconcile` | src/index.js:104-127 | the re-parenting block is a no-op when there is no namespace parent or the parents already match. Otherwise the suite leaves its old parent's list (first occurrence only) and is appended to the new parent's list. Its parent link becomes the namespace parent's suite and its full name is recomputed from that parent. Every other suite keeps its description, parent and full name. The store stays well formed |
| `Host.Move` | src/index.js:114-126 | the three updates of a move: old parent's list without the suite, new parent's list with it appended, the suite relinked with its full name recomputed; all other suites unchanged |
| `Host.ReconcileKeepsWF` | src/index.js:104-127 | moving a childless suite to a new parent keeps every parent link, child list and full name consistent, and creates no cycle |
| `Materialize.DescribeNode` | src/index.js:90-136 | `describe` leaves the store well formed, only adds to it, and restores the active suite. The tree keeps its namespace content and ends fully materialized, in agreement with the store. An added node keeps its host suite. A new node gets the next fresh suite, nested in the namespace parent's suite, or in the active suite when there is none. The log grows by exactly the calls the subtree owes (`FreshCalls`), in preorder: each node that `_addSpecs` reaches through containers, that has specs and was not yet added, runs them once against its suite. Nothing else runs. Those suites were all created by this call, in increasing order |
| `Materialize.MaterializeNode` | src/index.js:96-132 | the first `describe` of a node gives it the next fresh suite, nested in the namespace parent's suite when there is one, and marks the node added with its subtree settled; the log grows by exactly the calls the subtree owes |
| `Materialize.AddSpecs` | src/index.js:67-79 | a node with specs changes nothing in the tree or the store; if not yet added it runs its own specs exactly once, against its own suite, and otherwise runs nothing. A container describes every child in insertion order: each keeps its key and content and ends settled inside this node's suite; an added child keeps its suite and a new one gets a fresh id. Either way the log grows by exactly the calls the subtree owes |
| `Materialize.ExpandChildren` | src/index.js:70-75 | the loop over the children describes each in order, with this node's suite as parent; children materialized by it get increasing suite ids in child order; the log grows by what the first child owes, then the second, and so on (`ListCalls`), so the specs of every newly reached leaf run |
| `Materialize.SettledNoCalls` | src/index.js:67-79 | a fully materialized subtree owes no specs calls: every node `_addSpecs` reaches in it is already added |
| `Materialize.DescribeSettled` | src/index.js:93-94 | describing a fully materialized subtree again changes nothing: no host `describe`, no specs run, no node changes |
| `Materialize.LeafRunsOnce` | src/index.js:93-131 | a node's specs run exactly once: its first `describe` appends one call against the suite it has just created, and any later `describe` of the result runs nothing and changes nothing |
| `Materialize.LeafNeverExpands` | src/index.js:70-78 | a node with specs never expands its children, on its first `describe` or any later one |
| `Materialize.DescribeKeeps` | src/index.js:93-96 | describing a node never replaces a host suite anywhere in its subtree, so the host `describe` is issued at most once per node |
| `Registry.Init` | src/index.js:139 | at load time the root has no children, no specs have run, and the invariant holds |
| `Registry.Suite` | src/index.js:169-194 | `suite()` keeps the invariant. After it, the node at the end of the namespace holds the specs. The first-segment node is fully materialized, and its host suite, which is the result, exists with the first segment as its description. The store only grows, the active suite is unchanged, and the log is only extended |
| `Registry.PathCalls` | src/index.js:67-79 | after walking a path that passes only through containers and ends at a node not yet added, describing the result owes exactly one call: the new specs, against the suite the end node gets. This holds when every other node `_addSpecs` reaches is already settled |
| `Registry.NewSpecsRunOnce` | src/index.js:169-194 | the first `suite(ns, specs)` for a namespace whose node is absent or not yet described, and whose proper prefixes hold no specs, appends exactly one call to the log: the new specs, against the host suite of the namespace's own node |
| `Registry.SuiteIdempotent` | src/index.js:169-194 | repeating a `suite()` call with the same namespace and specs changes nothing and returns the same suite |
| `Registry.SuiteKeepsSuites` | src/index.js:178-193 | across a `suite()` call every node stays at its position under its key and keeps any host suite it had; no node is described by the host twice |
| `Registry.LateSpecsNeverRun` | src/index.js:76-77 | specs given to a namespace whose node was already described, at any depth, are stored but never run, and the store is untouched |
| `Registry.ChildOfLeafNeverRuns` | src/index.js:70-77 | while a node that has been described still holds specs, a `suite()` call for a deeper namespace under it, at any depth, runs nothing and leaves the store as it was |
| `Registry.ClearedLeafExpands` | src/index.js:70-75 | once a later `suite()` without specs clears a top-level leaf's specs, that node is a container again: it keeps its host suite, its deferred children are described, and the log grows by exactly what they owe |
| `Registry.PendingChildRuns` | src/index.js:70-75 | clearing the specs of a top-level leaf whose one child was deferred describes that child in a new host suite and runs the child's specs against it, once |
| `Registry.SuiteSettled` | src/index.js:178-193 | replacing the first-segment entry of the walked root with a settled node keeps every top-level node settled; `Registry.Suite` uses it after describing that entry |
| `Scenarios.FirstCall` | src/index.js:169-194 | `suite("a/b", s1)` from load time creates suite 1 ("a") in the top-level suite and suite 2 ("b") inside it, runs s1 against 2, and returns 1 |
| `Scenarios.SecondCall` | src/index.js:169-194 | `suite("a/c", s2)` next returns suite 1 again, re-describes '/a' without a new host suite, and leaves the exact state computed in `AfterAC` |
| `Scenarios.ReParented` | src/index.js:104-127 | in that second call, suite 3 ("c") is created in the top-level suite, the active one, and is moved: the top-level suite lists only 1, suite 1 lists 2 then 3, 3's parent is 1 and its full name is "a" "c"; s2 ran against 3 after s1 ran against 2 |

## Left out

- The Jasmine compatibility check (`console.assert`, src/index.js:13-16)
  and the non-null assertion at line 102 are left out. In the model the
  callback always receives the suite that `Host.Open` created.
- The patch of `SuiteBuilder.prototype.addSpecsToSuite_` (src/index.js:146-153)
  is not modelled as code. Its only effect, handing the new suite to the
  callback, is the id that `Host.Open` returns.
- The global installation of `suite` (src/index.js:197) and the build
  configuration in rollup.config.js are left out. They have no behaviour
  to verify.
- Jasmine itself is an abstract store:
  - Suite ids are naturals, not Jasmine's `suiteN` strings.
  - A full name is the sequence of descriptions below the top-level suite,
    not the space-joined string of `getFullName`.
  - `addChild` is an append to the child list.
  - Result objects, spec execution, reporting, filtering and Jasmine's own
    errors are not modelled. This includes its rejection of a `describe`
    that declares nothing.
- A spec callback is an opaque token, and running it only logs a call.
  A callback that itself calls `suite()` or `describe()` re-entrantly is
  not modelled.
- A specs callback that throws is not modelled: in the model every
  callback returns. In the source, an exception from `this.specs.call`
  (src/index.js:77) leaves `_addSpecs` (line 130) before `self._added =
  true` (line 131). The node keeps its `_suiteObj` but stays unadded, so
  its next `describe` issues a second host `describe` and runs the specs
  again. `Materialize.LeafRunsOnce` and `Materialize.DescribeKeeps` hold
  only for callbacks that return.
- The root `SuiteInfo` has an undefined description in the source and
  `""` in the model. It is never described, so the value is never used.
- Any falsy `specs` value (null, undefined) is `None`. Any other value is
  `Some(spec)`.
- The children map of a `SuiteInfo` is a plain object, and `for … in`
  visits its keys in insertion order. Every key starts with '/', so none
  is an array index (those would be visited first, in numeric order). The
  model therefore uses a sequence in insertion order.
- `Host.Reconcile` has four requirements. The suite being moved has a
  parent, it has no children, the namespace parent's suite exists in the
  store, and that suite is not the one being moved. In the source all four
  always hold when the re-parenting block runs (src/index.js:104-127):
  - the host `describe` has just created the suite as the last child of the
    active suite, so it has a parent;
  - `_addSpecs` (line 130) has not run yet, so nothing has been nested in
    it;
  - `_addSpecs` only describes children of a node whose `_suiteObj` is
    already set, and that suite was created earlier, so it is a different
    one.

The code validates nothing and never raises:

- Namespaces with empty segments (`""`, `"a//b"`, a trailing '/') are not
  rejected. They create nodes with empty descriptions, as
  `String.prototype.split` produces them.
- A second `suite()` call on a path always overwrites the terminal node's
  specs, including with a falsy value. If that node was already described,
  at any depth, the new specs never run (`Registry.LateSpecsNeverRun`). No
  error is raised.
- A deeper namespace under a node that has been described and still
  holds specs is added to the tree, but the call runs nothing and leaves
  the store as it was (`Registry.ChildOfLeafNeverRuns`). No error is
  raised.
- Clearing that node's specs with a later falsy `suite()` call turns it
  back into a container. Its next `_addSpecs` describes the children that
  were deferred and runs their specs (`Registry.ClearedLeafExpands`,
  `Registry.PendingChildRuns`).
