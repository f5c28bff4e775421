/**
  * The tree of components a schema holds. A component is seen through the methods it
  * happens to have: a name (`getName`), whether it is hidden (`isHidden`, which may
  * read the evaluation context the component holds at the time), an after-change
  * callback (`getAfterStateUpdated`), nested children (`getSchema`), tabs each with
  * their own children (`getTabs`), and whether it takes an evaluation context
  * (`evaluationContext`). A missing `getSchema`/`getTabs` is an empty list here.
  */
module ComponentTree {
  import opened Php

  /** The form data: field name to current value. */
  type Data = map<string, Value>

  /** An after-change callback: given the changed value, the current data and the record,
      it returns the data as its `Set` accessor leaves it. */
  type HookFn = (Value, Data, Value) -> Data

  /** What `getAfterStateUpdated()` returns: nothing, a Closure, or some other (non-Closure) value. */
  datatype Hook = NoHook | Closure(run: HookFn) | NonClosure

  /** What `evaluationContext($data, $record)` hands a component. */
  datatype Context = Context(data: Data, record: Value)

  /** How a component serializes: `toLaraviltProps()`, else `toArray()`, else `[]`. */
  datatype Output = ViaProps | ViaArray | NoSerializer

  datatype Node = Node(
    name: Option<string>,
    hidden: Option<Option<Context> -> bool>,
    hook: Hook,
    schema: seq<Node>,
    tabs: seq<TabPane>,
    acceptsContext: bool,
    context: Option<Context>,
    output: Output)

  /** A tab as the schema walks see it: only its own children are visited. */
  datatype TabPane = TabPane(schema: seq<Node>)

  /**
    * Every component reachable from `cs`, in the order the recursive walks of the schema
    * visit them: a component, then its nested schema, then the schemas of its tabs.
    */
  function Reach(cs: seq<Node>): seq<Node>
    decreases cs
  {
    if cs == [] then [] else ReachNode(cs[0]) + Reach(cs[1..])
  }

  function ReachNode(n: Node): seq<Node>
    decreases n, 1
  {
    [n] + Reach(n.schema) + ReachTabs(n.tabs)
  }

  function ReachTabs(ts: seq<TabPane>): seq<Node>
    decreases ts
  {
    if ts == [] then [] else Reach(ts[0].schema) + ReachTabs(ts[1..])
  }

  lemma {:induction false} ReachAppend(a: seq<Node>, b: seq<Node>)
    ensures Reach(a + b) == Reach(a) + Reach(b)
  {
    if a == [] {
      assert a + b == b;
    } else {
      assert (a + b)[0] == a[0] && (a + b)[1..] == a[1..] + b;
      ReachAppend(a[1..], b);
    }
  }

  lemma {:induction false} ReachTabsAppend(a: seq<TabPane>, b: seq<TabPane>)
    ensures ReachTabs(a + b) == ReachTabs(a) + ReachTabs(b)
  {
    if a == [] {
      assert a + b == b;
    } else {
      assert (a + b)[0] == a[0] && (a + b)[1..] == a[1..] + b;
      ReachTabsAppend(a[1..], b);
    }
  }

  /** Walking one more component (or tab) at the end appends its own walk. */
  lemma ReachSnoc(cs: seq<Node>, c: Node)
    ensures Reach(cs + [c]) == Reach(cs) + ReachNode(c)
  {
    ReachAppend(cs, [c]);
    assert Reach([c]) == ReachNode(c) + Reach([]);
  }

  lemma ReachTabsSnoc(ts: seq<TabPane>, t: TabPane)
    ensures ReachTabs(ts + [t]) == ReachTabs(ts) + Reach(t.schema)
  {
    ReachTabsAppend(ts, [t]);
    assert ReachTabs([t]) == Reach(t.schema) + ReachTabs([]);
  }

  /** Every top-level component is visited. */
  lemma {:induction false} ReachCoversRoots(cs: seq<Node>)
    ensures forall i :: 0 <= i < |cs| ==> cs[i] in Reach(cs)
  {
    if cs != [] {
      ReachCoversRoots(cs[1..]);
      assert forall i :: 1 <= i < |cs| ==> cs[i] == cs[1..][i - 1];
    }
  }

  /** The walk of a visited component is part of the walk (mutual induction over the tree). */
  lemma {:induction false} ReachClosed(cs: seq<Node>, n: Node)
    requires n in Reach(cs)
    ensures forall m :: m in ReachNode(n) ==> m in Reach(cs)
    decreases cs
  {
    if n in ReachNode(cs[0]) {
      ReachNodeClosed(cs[0], n);
    } else {
      ReachClosed(cs[1..], n);
    }
  }

  lemma {:induction false} ReachNodeClosed(r: Node, n: Node)
    requires n in ReachNode(r)
    ensures forall m :: m in ReachNode(n) ==> m in ReachNode(r)
    decreases r, 1
  {
    if n != r {
      if n in Reach(r.schema) {
        ReachClosed(r.schema, n);
      } else {
        ReachTabsClosed(r.tabs, n);
      }
    }
  }

  lemma {:induction false} ReachTabsClosed(ts: seq<TabPane>, n: Node)
    requires n in ReachTabs(ts)
    ensures forall m :: m in ReachNode(n) ==> m in ReachTabs(ts)
    decreases ts
  {
    if n in Reach(ts[0].schema) {
      ReachClosed(ts[0].schema, n);
    } else {
      ReachTabsClosed(ts[1..], n);
    }
  }

  /**
    * Traversal coverage: the walk visits every top-level component, and with every
    * visited component it visits each of its nested children and each child of each
    * of its tabs.
    */
  lemma ReachCoversTree(cs: seq<Node>)
    ensures forall i :: 0 <= i < |cs| ==> cs[i] in Reach(cs)
    ensures forall n, c :: n in Reach(cs) && c in n.schema ==> c in Reach(cs)
    ensures forall n, t, c :: n in Reach(cs) && t in n.tabs && c in t.schema ==> c in Reach(cs)
  {
    ReachCoversRoots(cs);
    forall n, c | n in Reach(cs) && c in n.schema ensures c in Reach(cs) {
      ReachClosed(cs, n);
      ReachCoversRoots(n.schema);
      var i :| 0 <= i < |n.schema| && n.schema[i] == c;
      assert c in ReachNode(n);
    }
    forall n, t, c | n in Reach(cs) && t in n.tabs && c in t.schema ensures c in Reach(cs) {
      ReachClosed(cs, n);
      ReachCoversRoots(t.schema);
      TabChildInReachTabs(n.tabs, t, c);
      assert c in ReachNode(n);
    }
  }

  lemma {:induction false} TabChildInReachTabs(ts: seq<TabPane>, t: TabPane, c: Node)
    requires t in ts && c in Reach(t.schema)
    ensures c in ReachTabs(ts)
    decreases ts
  {
    if ts[0] != t {
      TabChildInReachTabs(ts[1..], t, c);
    }
  }

  /**
    * `array_map(fn ($c) => $c->toLaraviltProps(), $this->getSchema())` in Section, Tab and
    * Grid: every child is serialized, hidden or not, in order, with nothing dropped.
    */
  function ChildProps(cs: seq<Node>, toProps: Node -> Value): (items: seq<Value>)
    ensures |items| == |cs|
    ensures forall i :: 0 <= i < |cs| ==> items[i] == toProps(cs[i])
  {
    if cs == [] then [] else [toProps(cs[0])] + ChildProps(cs[1..], toProps)
  }
}
