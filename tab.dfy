/**
  * `Tab`: one tab of a tab set. Its label defaults to its name and its id to the
  * snake_case form of its name, exactly as for `Section`.
  */
module TabComponent {
  import opened Php
  import opened ComponentTree
  import IdGen

  /** The keys a tab's props add to, or overwrite in, the base component's. */
  const OwnKeys: set<string> := {"label", "icon", "badge", "schema"}

  class Tab {
    var name: string
    var id: Option<string>
    var labelText: Option<string>
    var icon: Option<string>
    var badge: Option<string>
    var schema: seq<Node>

    /** `Tab::make($name)`: the fields start unset and `setUp()` runs. */
    constructor Make(name: string)
      ensures this.name == name
      ensures labelText == Some(name)
      ensures id == Some(IdGen.GenerateIdFromName(name))
      ensures icon.None? && badge.None? && schema == []
    {
      this.name := name;
      id := None;
      labelText := None;
      icon := None;
      badge := None;
      schema := [];
      new;
      SetUp();
    }

    /** `setUp()`: an unset label becomes the name, an unset or falsy id the id generated from the name. */
    method SetUp()
      modifies this`labelText, this`id
      ensures labelText == if old(labelText).None? then Some(name) else old(labelText)
      ensures id == if IdGen.IdUnset(old(id)) then Some(IdGen.GenerateIdFromName(name)) else old(id)
    {
      if labelText.None? {
        labelText := Some(name);
      }
      if id.None? || !Truthy(id.value) {
        var generated := IdGen.GenerateIdFromName(name);
        id := Some(generated);
      }
    }

    method SetLabel(l: string)
      modifies this`labelText
      ensures GetLabel() == Some(l)
    {
      labelText := Some(l);
    }

    function GetLabel(): Option<string>
      reads this
    {
      labelText
    }

    method SetIcon(i: string)
      modifies this`icon
      ensures GetIcon() == Some(i)
    {
      icon := Some(i);
    }

    function GetIcon(): Option<string>
      reads this
    {
      icon
    }

    method SetBadge(b: string)
      modifies this`badge
      ensures GetBadge() == Some(b)
    {
      badge := Some(b);
    }

    function GetBadge(): Option<string>
      reads this
    {
      badge
    }

    /** `schema($components)`: replaces the children wholesale. */
    method SetSchema(components: seq<Node>)
      modifies this`schema
      ensures GetSchema() == components
    {
      schema := components;
    }

    function GetSchema(): seq<Node>
      reads this
    {
      schema
    }

    /**
      * `toLaraviltProps()`: `array_merge` of the base component's props with the tab's own;
      * the tab's keys win, every other base key is kept, an unset text is `null`, and every
      * child is serialized, in order.
      */
    function ToLaraviltProps(base: map<string, Value>, toProps: Node -> Value): (props: map<string, Value>)
      reads this
      ensures props.Keys == base.Keys + OwnKeys
      ensures forall k :: k in base && k !in OwnKeys ==> props[k] == base[k]
      ensures props["label"] == OptionalString(labelText)
      ensures props["icon"] == OptionalString(icon)
      ensures props["badge"] == OptionalString(badge)
      ensures props["schema"].List? && |props["schema"].items| == |schema|
      ensures forall i :: 0 <= i < |schema| ==> props["schema"].items[i] == toProps(schema[i])
    {
      base["label" := OptionalString(labelText)]
          ["icon" := OptionalString(icon)]
          ["badge" := OptionalString(badge)]
          ["schema" := List(ChildProps(schema, toProps))]
    }
  }
}
