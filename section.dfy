/**
  * `Section`: a titled, optionally collapsible group of components. Its heading defaults
  * to its name and its id to the snake_case form of its name.
  */
module SectionComponent {
  import opened Php
  import opened ComponentTree
  import IdGen

  /** The keys a section's props add to, or overwrite in, the base component's. */
  const OwnKeys: set<string> := {"heading", "description", "icon", "collapsible", "collapsed", "schema"}

  class Section {
    var name: string
    var id: Option<string>
    var heading: Option<string>
    var description: Option<string>
    var icon: Option<string>
    var collapsible: bool
    var collapsed: bool
    var schema: seq<Node>

    /** `Section::make($name)`: the fields start unset and `setUp()` runs. */
    constructor Make(name: string)
      ensures this.name == name
      ensures heading == Some(name)
      ensures id == Some(IdGen.GenerateIdFromName(name))
      ensures description.None? && icon.None? && !collapsible && !collapsed && schema == []
    {
      this.name := name;
      id := None;
      heading := None;
      description := None;
      icon := None;
      collapsible := false;
      collapsed := false;
      schema := [];
      new;
      SetUp();
    }

    /** `setUp()`: an unset heading becomes the name, an unset or falsy id the id generated from the name. */
    method SetUp()
      modifies this`heading, this`id
      ensures heading == if old(heading).None? then Some(name) else old(heading)
      ensures id == if IdGen.IdUnset(old(id)) then Some(IdGen.GenerateIdFromName(name)) else old(id)
    {
      if heading.None? {
        heading := Some(name);
      }
      if id.None? || !Truthy(id.value) {
        var generated := IdGen.GenerateIdFromName(name);
        id := Some(generated);
      }
    }

    method SetHeading(h: string)
      modifies this`heading
      ensures GetHeading() == Some(h)
    {
      heading := Some(h);
    }

    function GetHeading(): Option<string>
      reads this
    {
      heading
    }

    method SetDescription(d: string)
      modifies this`description
      ensures GetDescription() == Some(d)
    {
      description := Some(d);
    }

    function GetDescription(): Option<string>
      reads this
    {
      description
    }

    method SetIcon(i: string)
      modifies this`icon
      ensures GetIcon() == Some(i)
    {
      icon := Some(i);
    }

    function GetIcon(): Option<string>
      reads this
    {
      icon
    }

    method SetCollapsible(b: bool)
      modifies this`collapsible
      ensures collapsible == b
    {
      collapsible := b;
    }

    method SetCollapsed(b: bool)
      modifies this`collapsed
      ensures collapsed == b
    {
      collapsed := b;
    }

    /** `schema($components)`: replaces the children wholesale. */
    method SetSchema(components: seq<Node>)
      modifies this`schema
      ensures GetSchema() == components
    {
      schema := components;
    }

    function GetSchema(): seq<Node>
      reads this
    {
      schema
    }

    /**
      * `toLaraviltProps()`: `array_merge` of the base component's props with the section's
      * own; the section's keys win, every other base key is kept, an unset text is `null`,
      * and every child is serialized, in order.
      */
    function ToLaraviltProps(base: map<string, Value>, toProps: Node -> Value): (props: map<string, Value>)
      reads this
      ensures props.Keys == base.Keys + OwnKeys
      ensures forall k :: k in base && k !in OwnKeys ==> props[k] == base[k]
      ensures props["heading"] == OptionalString(heading)
      ensures props["description"] == OptionalString(description)
      ensures props["icon"] == OptionalString(icon)
      ensures props["collapsible"] == Bool(collapsible) && props["collapsed"] == Bool(collapsed)
      ensures props["schema"].List? && |props["schema"].items| == |schema|
      ensures forall i :: 0 <= i < |schema| ==> props["schema"].items[i] == toProps(schema[i])
    {
      base["heading" := OptionalString(heading)]
          ["description" := OptionalString(description)]
          ["icon" := OptionalString(icon)]
          ["collapsible" := Bool(collapsible)]
          ["collapsed" := Bool(collapsed)]
          ["schema" := List(ChildProps(schema, toProps))]
    }
  }
}
