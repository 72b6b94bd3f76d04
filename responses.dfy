/** The part of a fetch Response the workers set: status, body and headers. */
module Responses {
  import opened Filer

  datatype Body = Data(bytes: Bytes) | Text(text: string)

  datatype Response = Response(status: int, body: Body, headers: seq<(string, string)>)

  /** The answer both workers give when the file cannot be read. */
  const NotFound: Response := Response(404, Text("File not found"), [])
}
