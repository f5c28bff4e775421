/**
  * The root `Schema`: it holds the top-level components, filters out hidden ones, runs
  * the after-change callbacks of a changed field, hands the data and the record to every
  * component, and serializes the visible components.
  */
module Schemas {
  import opened Php
  import opened ComponentTree

  // ---------------------------------------------------------------------------
  // getVisibleComponents: array_filter, which keeps keys and order
  // ---------------------------------------------------------------------------

  /** A component without `isHidden()` is always shown; `isHidden()` sees the context the component holds now. */
  predicate IsVisible(n: Node)
  {
    n.hidden.None? || !n.hidden.value(n.context)
  }

  /** The visible components of `cs` from position `i` on, each with its original key. */
  function VisibleFrom(cs: seq<Node>, i: nat): seq<(nat, Node)>
    requires i <= |cs|
    decreases |cs| - i
  {
    if i == |cs| then []
    else (if IsVisible(cs[i]) then [(i, cs[i])] else []) + VisibleFrom(cs, i + 1)
  }

  function VisibleComponents(cs: seq<Node>): seq<(nat, Node)>
  {
    VisibleFrom(cs, 0)
  }

  function HiddenCount(cs: seq<Node>): nat
  {
    if cs == [] then 0 else (if IsVisible(cs[0]) then 0 else 1) + HiddenCount(cs[1..])
  }

  /** A key of the filtered array; an auxiliary predicate that gives quantifiers a trigger. */
  predicate HasKey(vs: seq<(nat, Node)>, k: nat)
  {
    exists p :: 0 <= p < |vs| && vs[p].0 == k
  }

  /** Every kept entry is a visible component under its own original index, from `i` on. */
  lemma {:induction false} VisibleFromSound(cs: seq<Node>, i: nat)
    requires i <= |cs|
    ensures var vs := VisibleFrom(cs, i);
      forall p :: 0 <= p < |vs| ==> i <= vs[p].0 < |cs| && vs[p].1 == cs[vs[p].0] && IsVisible(cs[vs[p].0])
    decreases |cs| - i
  {
    if i < |cs| {
      VisibleFromSound(cs, i + 1);
      if IsVisible(cs[i]) {
        assert VisibleFrom(cs, i) == [(i, cs[i])] + VisibleFrom(cs, i + 1);
      } else {
        assert VisibleFrom(cs, i) == VisibleFrom(cs, i + 1);
      }
    }
  }

  /** Every kept key lies in `i..|cs|`. */
  lemma {:induction false} VisibleFromKeys(cs: seq<Node>, i: nat)
    requires i <= |cs|
    ensures forall p :: 0 <= p < |VisibleFrom(cs, i)| ==> i <= VisibleFrom(cs, i)[p].0 < |cs|
    decreases |cs| - i
  {
    if i < |cs| {
      VisibleFromKeys(cs, i + 1);
    }
  }

  lemma {:induction false} VisibleFromOrdered(cs: seq<Node>, i: nat)
    requires i <= |cs|
    ensures forall p, q :: 0 <= p < q < |VisibleFrom(cs, i)| ==> VisibleFrom(cs, i)[p].0 < VisibleFrom(cs, i)[q].0
    decreases |cs| - i
  {
    if i < |cs| {
      var rest := VisibleFrom(cs, i + 1);
      VisibleFromOrdered(cs, i + 1);
      VisibleFromKeys(cs, i + 1);
      if IsVisible(cs[i]) {
        var vs := [(i, cs[i])] + rest;
        assert VisibleFrom(cs, i) == vs;
        forall p, q | 0 <= p < q < |vs| ensures vs[p].0 < vs[q].0 {
          assert vs[q] == rest[q - 1];
          assert rest[q - 1].0 >= i + 1;
          if p > 0 {
            assert vs[p] == rest[p - 1];
            assert rest[p - 1].0 < rest[q - 1].0;
          }
        }
      } else {
        assert VisibleFrom(cs, i) == rest;
      }
    }
  }

  lemma {:induction false} VisibleFromComplete(cs: seq<Node>, i: nat)
    requires i <= |cs|
    ensures forall k :: i <= k < |cs| && IsVisible(cs[k]) ==> HasKey(VisibleFrom(cs, i), k)
    decreases |cs| - i
  {
    if i < |cs| {
      VisibleFromComplete(cs, i + 1);
      var rest := VisibleFrom(cs, i + 1);
      var vs := VisibleFrom(cs, i);
      if IsVisible(cs[i]) {
        assert vs == [(i, cs[i])] + rest;
        assert HasKey(vs, i) by { assert vs[0].0 == i; }
        forall k | i < k < |cs| && IsVisible(cs[k]) ensures HasKey(vs, k) {
          assert HasKey(rest, k);
          var p :| 0 <= p < |rest| && rest[p].0 == k;
          assert vs[p + 1].0 == k;
        }
      } else {
        assert vs == rest;
      }
    }
  }

  lemma {:induction false} VisibleFromCount(cs: seq<Node>, i: nat)
    requires i <= |cs|
    ensures |VisibleFrom(cs, i)| == |cs| - i - HiddenCount(cs[i..])
    decreases |cs| - i
  {
    if i < |cs| {
      VisibleFromCount(cs, i + 1);
      assert cs[i..][1..] == cs[i + 1..];
    }
  }

  /**
    * `getVisibleComponents` keeps exactly the components without `isHidden()` or whose
    * `isHidden()` is false, under their original keys and in their original order; the
    * result is shorter than the input by exactly the number of hidden components.
    */
  lemma VisibleComponentsSpec(cs: seq<Node>)
    ensures var vs := VisibleComponents(cs);
      && (forall p :: 0 <= p < |vs| ==> vs[p].0 < |cs| && vs[p].1 == cs[vs[p].0] && IsVisible(cs[vs[p].0]))
      && (forall p, q :: 0 <= p < q < |vs| ==> vs[p].0 < vs[q].0)
      && (forall k :: 0 <= k < |cs| ==> (HasKey(vs, k) <==> IsVisible(cs[k])))
      && |vs| == |cs| - HiddenCount(cs)
  {
    VisibleFromSound(cs, 0);
    VisibleFromOrdered(cs, 0);
    VisibleFromComplete(cs, 0);
    VisibleFromCount(cs, 0);
    assert cs[0..] == cs;
  }

  // ---------------------------------------------------------------------------
  // Serialization of the visible components: array_map, which keeps keys
  // ---------------------------------------------------------------------------

  /** One item: `toLaraviltProps()` if it has one, else `toArray()`, else `[]`. */
  function SerializeItem(n: Node, toProps: Node -> Value, toArray: Node -> Value): Value
  {
    match n.output
    case ViaProps => toProps(n)
    case ViaArray => toArray(n)
    case NoSerializer => List([])
  }

  function SerializeEntries(vs: seq<(nat, Node)>, toProps: Node -> Value, toArray: Node -> Value): seq<(nat, Value)>
  {
    seq(|vs|, p requires 0 <= p < |vs| => (vs[p].0, SerializeItem(vs[p].1, toProps, toArray)))
  }

  /** A key of the serialized array; an auxiliary predicate that gives quantifiers a trigger. */
  predicate HasEntry(es: seq<(nat, Value)>, k: nat)
  {
    exists p :: 0 <= p < |es| && es[p].0 == k
  }

  /**
    * The `schema` entry of the root's props has one entry per visible component, keyed
    * by its index in the schema, in schema order; a hidden component has no entry and
    * leaves a gap in the keys.
    */
  lemma SchemaEntriesSpec(cs: seq<Node>, toProps: Node -> Value, toArray: Node -> Value)
    ensures var es := SerializeEntries(VisibleComponents(cs), toProps, toArray);
      && (forall p :: 0 <= p < |es| ==>
            es[p].0 < |cs| && IsVisible(cs[es[p].0]) && es[p].1 == SerializeItem(cs[es[p].0], toProps, toArray))
      && (forall p, q :: 0 <= p < q < |es| ==> es[p].0 < es[q].0)
      && (forall k :: 0 <= k < |cs| ==> (HasEntry(es, k) <==> IsVisible(cs[k])))
      && |es| == |cs| - HiddenCount(cs)
  {
    var vs := VisibleComponents(cs);
    var es := SerializeEntries(vs, toProps, toArray);
    VisibleComponentsSpec(cs);
    forall k | 0 <= k < |cs| ensures HasEntry(es, k) <==> HasKey(vs, k) {
      if HasKey(vs, k) {
        var p :| 0 <= p < |vs| && vs[p].0 == k;
        assert es[p].0 == k;
      }
      if HasEntry(es, k) {
        var p :| 0 <= p < |es| && es[p].0 == k;
        assert vs[p].0 == k;
      }
    }
  }

  // ---------------------------------------------------------------------------
  // executeAfterStateUpdatedCallbacks
  // ---------------------------------------------------------------------------

  /** A component whose callback runs when `field` changes: same name, and a Closure. */
  predicate Fires(n: Node, field: string)
  {
    n.name == Some(field) && n.hook.Closure?
  }

  /** The callbacks of the firing components among `ns`, in order. */
  function Triggered(ns: seq<Node>, field: string): seq<HookFn>
  {
    if ns == [] then []
    else (if Fires(ns[0], field) then [ns[0].hook.run] else []) + Triggered(ns[1..], field)
  }

  /** Runs the callbacks one after the other, each on the data the previous one left,
      all with the same changed value. */
  function RunHooks(fs: seq<HookFn>, value: Value, data: Data, record: Value): Data
  {
    if fs == [] then data else RunHooks(fs[1..], value, fs[0](value, data, record), record)
  }

  lemma {:induction false} TriggeredAppend(a: seq<Node>, b: seq<Node>, field: string)
    ensures Triggered(a + b, field) == Triggered(a, field) + Triggered(b, field)
  {
    if a == [] {
      assert a + b == b;
    } else {
      var ab := a + b;
      assert ab[0] == a[0];
      assert ab[1..] == a[1..] + b;
      TriggeredAppend(a[1..], b, field);
      var head := if Fires(a[0], field) then [a[0].hook.run] else [];
      calc {
        Triggered(ab, field);
        head + Triggered(ab[1..], field);
        head + (Triggered(a[1..], field) + Triggered(b, field));
        (head + Triggered(a[1..], field)) + Triggered(b, field);
      }
    }
  }

  lemma {:induction false} RunHooksAppend(f: seq<HookFn>, g: seq<HookFn>, value: Value, data: Data, record: Value)
    ensures RunHooks(f + g, value, data, record) == RunHooks(g, value, RunHooks(f, value, data, record), record)
  {
    if f == [] {
      assert f + g == g;
    } else {
      assert (f + g)[0] == f[0] && (f + g)[1..] == f[1..] + g;
      RunHooksAppend(f[1..], g, value, f[0](value, data, record), record);
    }
  }

  /** Running the callbacks of `a` and then those of `b` is running those of `a + b`. */
  lemma RunTriggeredAppend(a: seq<Node>, b: seq<Node>, field: string, value: Value, data: Data, record: Value)
    ensures RunHooks(Triggered(a + b, field), value, data, record)
         == RunHooks(Triggered(b, field), value, RunHooks(Triggered(a, field), value, data, record), record)
  {
    TriggeredAppend(a, b, field);
    RunHooksAppend(Triggered(a, field), Triggered(b, field), value, data, record);
  }

  /**
    * Every firing component contributes its callback (not only the first match), and
    * only firing components do: a component with another name, no callback or a
    * non-Closure callback contributes nothing.
    */
  lemma {:induction false} TriggeredSpec(ns: seq<Node>, field: string)
    ensures forall n :: n in ns && Fires(n, field) ==> n.hook.run in Triggered(ns, field)
    ensures forall g :: g in Triggered(ns, field) ==> exists n :: n in ns && Fires(n, field) && n.hook.run == g
    ensures (forall n :: n in ns ==> !Fires(n, field)) ==> Triggered(ns, field) == []
  {
    if ns != [] {
      TriggeredSpec(ns[1..], field);
      assert forall n :: n in ns[1..] ==> n in ns;
      forall n | n in ns && Fires(n, field) ensures n.hook.run in Triggered(ns, field) {
        if n != ns[0] {
          assert n in ns[1..];
        }
      }
    }
  }

  /** A component's own callback, on its own. */
  lemma RunOwnHook(c: Node, field: string, value: Value, data: Data, record: Value)
    ensures RunHooks(Triggered([c], field), value, data, record)
         == if Fires(c, field) then c.hook.run(value, data, record) else data
  {
    assert [c][1..] == [];
  }

  /** A component's walk runs its own callback, then its nested schema's, then its tabs'. */
  lemma RunNodeHooks(c: Node, field: string, value: Value, data: Data, record: Value)
    ensures RunHooks(Triggered(ReachNode(c), field), value, data, record)
         == RunHooks(Triggered(ReachTabs(c.tabs), field), value,
              RunHooks(Triggered(Reach(c.schema), field), value,
                RunHooks(Triggered([c], field), value, data, record), record), record)
  {
    RunTriggeredAppend([c] + Reach(c.schema), ReachTabs(c.tabs), field, value, data, record);
    RunTriggeredAppend([c], Reach(c.schema), field, value, data, record);
  }

  lemma RunSnocHooks(cs: seq<Node>, c: Node, field: string, value: Value, data: Data, record: Value)
    ensures RunHooks(Triggered(Reach(cs + [c]), field), value, data, record)
         == RunHooks(Triggered(ReachNode(c), field), value, RunHooks(Triggered(Reach(cs), field), value, data, record), record)
  {
    ReachSnoc(cs, c);
    RunTriggeredAppend(Reach(cs), ReachNode(c), field, value, data, record);
  }

  lemma RunTabsSnocHooks(ts: seq<TabPane>, t: TabPane, field: string, value: Value, data: Data, record: Value)
    ensures RunHooks(Triggered(ReachTabs(ts + [t]), field), value, data, record)
         == RunHooks(Triggered(Reach(t.schema), field), value, RunHooks(Triggered(ReachTabs(ts), field), value, data, record), record)
  {
    ReachTabsSnoc(ts, t);
    RunTriggeredAppend(ReachTabs(ts), Reach(t.schema), field, value, data, record);
  }

  /**
    * The callback walk over `components`: pre-order, nested schema before tabs. Each
    * firing component's Closure gets the same `value` and the data as the callbacks before
    * it left it.
    */
  method ExecuteAfterStateUpdatedCallbacks(components: seq<Node>, changedField: string, value: Value,
                                           data: Data, record: Value)
    returns (newData: Data)
    ensures newData == RunHooks(Triggered(Reach(components), changedField), value, data, record)
    decreases components
  {
    newData := data;
    for i := 0 to |components|
      invariant newData == RunHooks(Triggered(Reach(components[..i]), changedField), value, data, record)
    {
      var component := components[i];
      ghost var before := newData;
      RunOwnHook(component, changedField, value, before, record);
      RunNodeHooks(component, changedField, value, before, record);
      if component.name == Some(changedField) {
        match component.hook {
          case Closure(run) => newData := run(value, newData, record);
          case _ =>
        }
      }
      newData := ExecuteAfterStateUpdatedCallbacks(component.schema, changedField, value, newData, record);
      newData := ExecuteInTabs(component.tabs, changedField, value, newData, record);
      assert components[..i + 1] == components[..i] + [component];
      RunSnocHooks(components[..i], component, changedField, value, data, record);
    }
    assert components[..|components|] == components;
  }

  /** The "Handle tabs" part of the callback walk: each tab's schema in turn. */
  method ExecuteInTabs(tabs: seq<TabPane>, changedField: string, value: Value, data: Data, record: Value)
    returns (newData: Data)
    ensures newData == RunHooks(Triggered(ReachTabs(tabs), changedField), value, data, record)
    decreases tabs
  {
    newData := data;
    for j := 0 to |tabs|
      invariant newData == RunHooks(Triggered(ReachTabs(tabs[..j]), changedField), value, data, record)
    {
      RunTabsSnocHooks(tabs[..j], tabs[j], changedField, value, data, record);
      assert tabs[..j + 1] == tabs[..j] + [tabs[j]];
      newData := ExecuteAfterStateUpdatedCallbacks(tabs[j].schema, changedField, value, newData, record);
    }
    assert tabs[..|tabs|] == tabs;
  }

  /** When no reachable component fires, the callback walk leaves the data as it was. */
  lemma NoMatchLeavesDataUnchanged(cs: seq<Node>, field: string, value: Value, data: Data, record: Value)
    requires forall n :: n in Reach(cs) ==> !Fires(n, field)
    ensures RunHooks(Triggered(Reach(cs), field), value, data, record) == data
  {
    TriggeredSpec(Reach(cs), field);
  }

  // ---------------------------------------------------------------------------
  // setEvaluationContextRecursive
  // ---------------------------------------------------------------------------

  /** A component after `evaluationContext($data, $record)` reached it and its subtree. */
  function Deliver(n: Node, ctx: Context): Node
    decreases n, 1
  {
    n.(context := if n.acceptsContext then Some(ctx) else n.context,
       schema := WithContext(n.schema, ctx),
       tabs := TabsWithContext(n.tabs, ctx))
  }

  function WithContext(cs: seq<Node>, ctx: Context): seq<Node>
    decreases cs
  {
    if cs == [] then [] else [Deliver(cs[0], ctx)] + WithContext(cs[1..], ctx)
  }

  function TabsWithContext(ts: seq<TabPane>, ctx: Context): seq<TabPane>
    decreases ts
  {
    if ts == [] then [] else [ts[0].(schema := WithContext(ts[0].schema, ctx))] + TabsWithContext(ts[1..], ctx)
  }

  lemma {:induction false} WithContextSnoc(cs: seq<Node>, c: Node, ctx: Context)
    ensures WithContext(cs + [c], ctx) == WithContext(cs, ctx) + [Deliver(c, ctx)]
  {
    if cs == [] {
      assert cs + [c] == [c];
    } else {
      assert (cs + [c])[0] == cs[0] && (cs + [c])[1..] == cs[1..] + [c];
      WithContextSnoc(cs[1..], c, ctx);
    }
  }

  lemma {:induction false} TabsWithContextSnoc(ts: seq<TabPane>, t: TabPane, ctx: Context)
    ensures TabsWithContext(ts + [t], ctx) == TabsWithContext(ts, ctx) + [t.(schema := WithContext(t.schema, ctx))]
  {
    if ts == [] {
      assert ts + [t] == [t];
    } else {
      assert (ts + [t])[0] == ts[0] && (ts + [t])[1..] == ts[1..] + [t];
      TabsWithContextSnoc(ts[1..], t, ctx);
    }
  }

  /**
    * The context walk over `components`: every reachable component that accepts a context,
    * hidden or not, gets `(data, record)`; the data itself is not changed.
    */
  method SetEvaluationContextRecursive(components: seq<Node>, data: Data, record: Value)
    returns (updated: seq<Node>)
    ensures updated == WithContext(components, Context(data, record))
    decreases components
  {
    ghost var ctx := Context(data, record);
    updated := [];
    for i := 0 to |components|
      invariant updated == WithContext(components[..i], ctx)
    {
      var component := components[i];
      if component.acceptsContext {
        component := component.(context := Some(Context(data, record)));
      }
      var nested := SetEvaluationContextRecursive(components[i].schema, data, record);
      var tabs: seq<TabPane> := [];
      for j := 0 to |components[i].tabs|
        invariant tabs == TabsWithContext(components[i].tabs[..j], ctx)
      {
        var tab := components[i].tabs[j];
        var tabSchema := SetEvaluationContextRecursive(tab.schema, data, record);
        assert components[i].tabs[..j + 1] == components[i].tabs[..j] + [tab];
        TabsWithContextSnoc(components[i].tabs[..j], tab, ctx);
        tabs := tabs + [tab.(schema := tabSchema)];
      }
      assert components[i].tabs[..|components[i].tabs|] == components[i].tabs;
      component := component.(schema := nested, tabs := tabs);
      assert components[..i + 1] == components[..i] + [components[i]];
      WithContextSnoc(components[..i], components[i], ctx);
      updated := updated + [component];
    }
    assert components[..|components|] == components;
  }

  /** `after` is `before` once the context reached it: only its context may differ. */
  ghost predicate Received(before: Node, after: Node, ctx: Context)
  {
    && after.name == before.name
    && after.hidden == before.hidden
    && after.hook == before.hook
    && after.acceptsContext == before.acceptsContext
    && after.output == before.output
    && |after.schema| == |before.schema|
    && |after.tabs| == |before.tabs|
    && after.context == (if before.acceptsContext then Some(ctx) else before.context)
  }

  ghost predicate ReceivedAll(before: seq<Node>, after: seq<Node>, ctx: Context)
  {
    |after| == |before| && forall k :: 0 <= k < |before| ==> Received(before[k], after[k], ctx)
  }

  lemma ReceivedAllAppend(a: seq<Node>, a': seq<Node>, b: seq<Node>, b': seq<Node>, ctx: Context)
    requires ReceivedAll(a, a', ctx) && ReceivedAll(b, b', ctx)
    ensures ReceivedAll(a + b, a' + b', ctx)
  {
    forall k | 0 <= k < |a + b| ensures Received((a + b)[k], (a' + b')[k], ctx) {
      if k < |a| {
        assert (a + b)[k] == a[k] && (a' + b')[k] == a'[k];
      } else {
        assert (a + b)[k] == b[k - |a|] && (a' + b')[k] == b'[k - |a|];
      }
    }
  }

  /**
    * Context propagation reaches the whole tree: it keeps the walk's shape, and the k-th
    * visited component afterwards is the k-th one before with the context delivered
    * (hidden components included).
    */
  lemma {:induction false} ContextReachesAll(cs: seq<Node>, ctx: Context)
    ensures ReceivedAll(Reach(cs), Reach(WithContext(cs, ctx)), ctx)
    decreases cs
  {
    if cs != [] {
      ContextReachesNode(cs[0], ctx);
      ContextReachesAll(cs[1..], ctx);
      ReceivedAllAppend(ReachNode(cs[0]), ReachNode(Deliver(cs[0], ctx)),
                        Reach(cs[1..]), Reach(WithContext(cs[1..], ctx)), ctx);
    }
  }

  lemma {:induction false} ContextReachesNode(n: Node, ctx: Context)
    ensures ReceivedAll(ReachNode(n), ReachNode(Deliver(n, ctx)), ctx)
    decreases n, 1
  {
    var d := Deliver(n, ctx);
    assert |WithContext(n.schema, ctx)| == |n.schema| by { WithContextLength(n.schema, ctx); }
    assert |TabsWithContext(n.tabs, ctx)| == |n.tabs| by { TabsWithContextLength(n.tabs, ctx); }
    assert ReceivedAll([n], [d], ctx);
    ContextReachesAll(n.schema, ctx);
    ContextReachesTabs(n.tabs, ctx);
    ReceivedAllAppend([n], [d], Reach(n.schema), Reach(d.schema), ctx);
    ReceivedAllAppend([n] + Reach(n.schema), [d] + Reach(d.schema), ReachTabs(n.tabs), ReachTabs(d.tabs), ctx);
  }

  lemma {:induction false} ContextReachesTabs(ts: seq<TabPane>, ctx: Context)
    ensures ReceivedAll(ReachTabs(ts), ReachTabs(TabsWithContext(ts, ctx)), ctx)
    decreases ts
  {
    if ts != [] {
      ContextReachesAll(ts[0].schema, ctx);
      ContextReachesTabs(ts[1..], ctx);
      ReceivedAllAppend(Reach(ts[0].schema), Reach(WithContext(ts[0].schema, ctx)),
                        ReachTabs(ts[1..]), ReachTabs(TabsWithContext(ts[1..], ctx)), ctx);
    }
  }

  lemma {:induction false} WithContextLength(cs: seq<Node>, ctx: Context)
    ensures |WithContext(cs, ctx)| == |cs|
  {
    if cs != [] {
      WithContextLength(cs[1..], ctx);
    }
  }

  lemma {:induction false} TabsWithContextLength(ts: seq<TabPane>, ctx: Context)
    ensures |TabsWithContext(ts, ctx)| == |ts|
  {
    if ts != [] {
      TabsWithContextLength(ts[1..], ctx);
    }
  }

  lemma {:induction false} WithContextAt(cs: seq<Node>, ctx: Context)
    ensures |WithContext(cs, ctx)| == |cs|
    ensures forall k :: 0 <= k < |cs| ==> WithContext(cs, ctx)[k] == Deliver(cs[k], ctx)
  {
    if cs != [] {
      WithContextAt(cs[1..], ctx);
      assert forall k :: 1 <= k < |cs| ==> cs[1..][k - 1] == cs[k];
    }
  }

  lemma {:induction false} VisibleFromContext(cs: seq<Node>, ctx: Context, i: nat)
    requires i <= |cs|
    requires |WithContext(cs, ctx)| == |cs|
    requires forall k :: 0 <= k < |cs| ==> WithContext(cs, ctx)[k] == Deliver(cs[k], ctx)
    requires forall k :: 0 <= k < |cs| ==> IsVisible(Deliver(cs[k], ctx)) == IsVisible(cs[k])
    ensures |VisibleFrom(WithContext(cs, ctx), i)| == |VisibleFrom(cs, i)|
    ensures forall p :: 0 <= p < |VisibleFrom(cs, i)| ==>
      VisibleFrom(WithContext(cs, ctx), i)[p] == (VisibleFrom(cs, i)[p].0, Deliver(VisibleFrom(cs, i)[p].1, ctx))
    decreases |cs| - i
  {
    if i < |cs| {
      VisibleFromContext(cs, ctx, i + 1);
      var ws := WithContext(cs, ctx);
      assert ws[i] == Deliver(cs[i], ctx);
      assert IsVisible(ws[i]) == IsVisible(cs[i]);
    }
  }

  /**
    * Visibility is judged after the context is handed out: the components serialized are
    * the components with the context delivered that are visible under it, each under its
    * original key.
    */
  lemma VisibleAfterContext(cs: seq<Node>, ctx: Context)
    ensures var vs := VisibleComponents(WithContext(cs, ctx));
      && (forall p :: 0 <= p < |vs| ==> vs[p].0 < |cs| && vs[p].1 == Deliver(cs[vs[p].0], ctx))
      && (forall k :: 0 <= k < |cs| ==> (HasKey(vs, k) <==> IsVisible(Deliver(cs[k], ctx))))
  {
    WithContextAt(cs, ctx);
    VisibleComponentsSpec(WithContext(cs, ctx));
  }

  /** The order matters: a component hidden only once it holds a context is shown before the walk and hidden after it. */
  lemma ContextCanHide(ctx: Context)
    ensures var n := Node(None, Some((c: Option<Context>) => c.Some?), NoHook, [], [], true, None, ViaProps);
      IsVisible(n) && !IsVisible(Deliver(n, ctx))
  {
    var n := Node(None, Some((c: Option<Context>) => c.Some?), NoHook, [], [], true, None, ViaProps);
    assert WithContext([], ctx) == [] && TabsWithContext([], ctx) == [];
    assert Deliver(n, ctx).context == Some(ctx);
  }

  /**
    * When no top-level component's `isHidden()` depends on the context, handing out the
    * context changes no visibility: the same components are serialized under the same keys,
    * each with the context delivered.
    */
  lemma ContextKeepsVisible(cs: seq<Node>, ctx: Context)
    requires forall k :: 0 <= k < |cs| ==> IsVisible(Deliver(cs[k], ctx)) == IsVisible(cs[k])
    ensures |VisibleComponents(WithContext(cs, ctx))| == |VisibleComponents(cs)|
    ensures forall p :: 0 <= p < |VisibleComponents(cs)| ==>
      VisibleComponents(WithContext(cs, ctx))[p] == (VisibleComponents(cs)[p].0, Deliver(VisibleComponents(cs)[p].1, ctx))
  {
    WithContextAt(cs, ctx);
    VisibleFromContext(cs, ctx, 0);
  }

  // ---------------------------------------------------------------------------
  // The Schema object
  // ---------------------------------------------------------------------------

  /** `$changedField && array_key_exists($changedField, $data)`: "" and "0" are falsy. */
  predicate CallbacksApply(changedField: Option<string>, data: Data)
  {
    changedField.Some? && Truthy(changedField.value) && changedField.value in data
  }

  class Schema {
    /** The top-level components, in order. */
    var schema: seq<Node>

    constructor ()
      ensures schema == []
    {
      schema := [];
    }

    /** `schema($components)`: replaces the components wholesale. */
    method SetSchema(components: seq<Node>)
      modifies this`schema
      ensures GetSchema() == components
    {
      schema := components;
    }

    /** `getSchema()`. */
    function GetSchema(): seq<Node>
      reads this
    {
      schema
    }

    /** `getVisibleComponents()`. */
    function GetVisibleComponents(): seq<(nat, Node)>
      reads this
    {
      VisibleComponents(schema)
    }

    /**
      * `toLaraviltProps(&$data, $record, $changedField)`, with the base component's own
      * props passed in as `base` and each item's serializers as `toProps` / `toArray`.
      * First the callbacks of the changed field run over the whole tree (only when the
      * field is set and is a key of the data), then every component gets the resulting
      * data and the record, then the visible components are serialized under their keys.
      */
    method ToLaraviltProps(data: Data, record: Value, changedField: Option<string>,
                           base: map<string, Value>, toProps: Node -> Value, toArray: Node -> Value)
      returns (newData: Data, props: map<string, Value>)
      modifies this`schema
      ensures newData == if CallbacksApply(changedField, data)
                         then RunHooks(Triggered(Reach(old(schema)), changedField.value),
                                       data[changedField.value], data, record)
                         else data
      ensures schema == WithContext(old(schema), Context(newData, record))
      ensures props.Keys == base.Keys + {"schema"}
      ensures forall k :: k in base && k != "schema" ==> props[k] == base[k]
      ensures props["schema"] == Keyed(SerializeEntries(VisibleComponents(schema), toProps, toArray))
    {
      newData := data;
      if changedField.Some? && Truthy(changedField.value) && changedField.value in data {
        newData := ExecuteAfterStateUpdatedCallbacks(schema, changedField.value, data[changedField.value],
                                                     newData, record);
      }
      schema := SetEvaluationContextRecursive(schema, newData, record);
      var items := SerializeEntries(GetVisibleComponents(), toProps, toArray);
      props := base["schema" := Keyed(items)];
    }
  }
}
