/**
 * The records that flow through the token pipeline: the design-tool export
 * read by the flattener, and the flat tokens it produces for the transforms
 * and the formatter.
 */
module Tokens {
  import opened Results
  import opened Hex

  /**
   * A resolved value: a colour object or any other value, the latter held as
   * the text JavaScript's string conversion gives it (`16` is held as "16").
   */
  datatype Value = Color(rgb: Rgb) | Text(text: string)

  /** How a template literal `${v}` renders a value: an object prints as "[object Object]" */
  function Stringify(v: Value): string {
    match v
    case Color(_) => "[object Object]"
    case Text(s) => s
  }

  /** One entry of a variable's `resolvedValuesByMode` */
  datatype ModeValue = ModeValue(resolvedValue: Value, aliasName: Option<string>)

  /** A design variable: its name and its resolved value per mode id */
  datatype Variable = Variable(name: string, resolvedValuesByMode: map<string, ModeValue>)

  /** One entry of the document's `modes` object: a mode id and its display name */
  datatype Mode = Mode(id: string, name: string)

  /** The exported collection: its name, its modes in key order, and its variables */
  datatype Document = Document(name: string, modes: seq<Mode>, variables: seq<Variable>)

  /** A flat token as the flattener builds it and the transforms and formatter read it */
  datatype Token = Token(name: string, collection: string, file: string, mode: string, value: Value, alias: string)
}
