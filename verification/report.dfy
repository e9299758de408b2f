/**
 * The value rows of the inspection report (`getHtml`), without the static markup around
 * them: one row per layer, then the final resolved value.
 */
module Report {
  import opened JsValue
  import opened HtmlEscape
  import opened KnownKeys

  /** One table row: the layer's name and the markup of its value cell. */
  datatype Row = Row(source: string, cell: string)

  /** The rows in the order the report shows them. */
  function Layers(inspected: Inspection, finalValue: Value): seq<(string, Value)> {
    [ ("Default", inspected.defaultValue),
      ("User", inspected.globalValue),
      ("Workspace", inspected.workspaceValue),
      ("Folder", inspected.workspaceFolderValue),
      ("Final Resolved", finalValue) ]
  }

  /**
   * The report's rows: Default, User, Workspace, Folder and Final Resolved, each cell
   * the placeholder for an absent value, or an escaped block that decodes to the
   * value's serialisation.
   */
  function ReportRows(inspected: Inspection, finalValue: Value, stringify: Value -> string): (rows: seq<Row>)
    ensures |rows| == 5
    ensures rows[0].source == "Default" && rows[1].source == "User" && rows[2].source == "Workspace"
    ensures rows[3].source == "Folder" && rows[4].source == "Final Resolved"
    ensures forall i :: 0 <= i < 5 ==>
      var value := Layers(inspected, finalValue)[i].1;
      && (value.Undefined? ==> rows[i].cell == UndefinedCell)
      && (!value.Undefined? ==> ShowsValue(rows[i].cell, stringify(value)))
  {
    var layers := Layers(inspected, finalValue);
    seq(5, i requires 0 <= i < 5 => Row(layers[i].0, Pretty(layers[i].1, stringify)))
  }
}
