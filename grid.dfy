/**
  * `Grid`: lays its children out in columns, either one column count or a responsive
  * map from breakpoint to column count.
  */
module GridComponent {
  import opened Php
  import opened ComponentTree

  /** `int|array $columns`. */
  datatype Columns = Count(n: int) | Responsive(breakpoints: map<string, int>)

  /** The argument of `Grid::make`: a name, or a column configuration. */
  datatype MakeArg = Named(name: string) | ColumnsGiven(columns: Columns)

  /** The columns as they appear in the props. */
  function ColumnsValue(c: Columns): Value
  {
    match c
    case Count(n) => Int(n)
    case Responsive(bp) => Assoc(map k | k in bp :: Int(bp[k]))
  }

  /** Reads a column configuration back from the props; anything else is `None`. */
  function ColumnsFromValue(v: Value): Option<Columns>
  {
    match v
    case Int(n) => Some(Count(n))
    case Assoc(fields) =>
      if forall k :: k in fields ==> fields[k].Int? then Some(Responsive(map k | k in fields :: fields[k].i))
      else None
    case _ => None
  }

  /** The serialized column configuration loses nothing. */
  lemma ColumnsRoundTrip(c: Columns)
    ensures ColumnsFromValue(ColumnsValue(c)) == Some(c)
  {
    if c.Responsive? {
      var fields := map k | k in c.breakpoints :: Int(c.breakpoints[k]);
      assert ColumnsValue(c) == Assoc(fields);
      assert (map k | k in fields :: fields[k].i) == c.breakpoints;
    }
  }

  class Grid {
    var name: string
    var columns: Columns
    var schema: seq<Node>

    /**
      * `Grid::make($nameOrColumns = 'grid')`: a name keeps one column; a column count or
      * array keeps the default name `grid`.
      */
    constructor Make(nameOrColumns: MakeArg := Named("grid"))
      ensures nameOrColumns.Named? ==> name == nameOrColumns.name && columns == Count(1)
      ensures nameOrColumns.ColumnsGiven? ==> name == "grid" && columns == nameOrColumns.columns
      ensures schema == []
    {
      match nameOrColumns {
        case Named(n) =>
          name := n;
          columns := Count(1);
        case ColumnsGiven(c) =>
          name := "grid";
          columns := c;
      }
      schema := [];
    }

    method SetColumns(c: Columns)
      modifies this`columns
      ensures GetColumns() == c
    {
      columns := c;
    }

    function GetColumns(): Columns
      reads this
    {
      columns
    }

    /** `schema($components)`: replaces the children wholesale. */
    method SetSchema(components: seq<Node>)
      modifies this`schema
      ensures GetSchema() == components
    {
      schema := components;
    }

    function GetSchema(): seq<Node>
      reads this
    {
      schema
    }

    /**
      * `toLaraviltProps()`: `array_merge` of the base component's props with the grid's
      * columns and children; the column configuration can be read back from the props,
      * and every child is serialized, in order.
      */
    function ToLaraviltProps(base: map<string, Value>, toProps: Node -> Value): (props: map<string, Value>)
      reads this
      ensures props.Keys == base.Keys + {"columns", "schema"}
      ensures forall k :: k in base && k != "columns" && k != "schema" ==> props[k] == base[k]
      ensures ColumnsFromValue(props["columns"]) == Some(columns)
      ensures props["schema"].List? && |props["schema"].items| == |schema|
      ensures forall i :: 0 <= i < |schema| ==> props["schema"].items[i] == toProps(schema[i])
    {
      ColumnsRoundTrip(columns);
      base["columns" := ColumnsValue(columns)]["schema" := List(ChildProps(schema, toProps))]
    }
  }
}
