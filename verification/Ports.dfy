/** What a runtime hands back to the command processor (crates/sakala-agent-core/src/ports/runtime.rs). */
module Ports {
  /** A JSON value; numbers are not interpreted. */
  datatype Json =
    | Null
    | Bool(value: bool)
    | Number(digits: string)
    | Text(text: string)
    | Array(items: seq<Json>)
    | Object(fields: map<string, Json>)

  datatype CommandOutput = CommandOutput(result: Json)

  /** `CommandOutput::default()`. */
  const NO_OUTPUT := CommandOutput(Null)
}
