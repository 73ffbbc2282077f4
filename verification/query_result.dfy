/** The server's reply record (server/src/main/java/com/querytester/dto/QueryResultDTO.java):
    a fresh reply reports success with no results, and every error path overwrites only its
    status and message. */
module QueryResult {
  import opened Wrappers
  import opened JavaValues

  datatype Response = Response(
    status: string,
    message: string,
    executionTime: int,
    results: Option<seq<map<string, Value>>>)

  /** `new QueryResultDTO()`. */
  const Fresh := Response("SUCCESS", "Query executed successfully", 0, None)

  /** `r` is an error reply whose message starts with `prefix: `. */
  predicate FailedWith(r: Response, prefix: string) {
    r.status == "ERROR" && r.results.None? && |r.message| >= |prefix| + 2 &&
    r.message[..|prefix| + 2] == prefix + ": "
  }

  /** `handleError`: the status becomes `ERROR` and the message `prefix: message`; whatever the
      reply already held, results and execution time included, stays. */
  function HandleError(r: Response, prefix: string, message: string): (e: Response)
    ensures e.status == "ERROR" && e.results == r.results && e.executionTime == r.executionTime
    ensures |e.message| == |prefix| + 2 + |message|
    ensures e.message[..|prefix| + 2] == prefix + ": " && e.message[|prefix| + 2..] == message
  {
    r.(status := "ERROR", message := prefix + ": " + message)
  }

  /** A fresh reply whose status is `ERROR` and whose message is `prefix: message`, the shape
      both the executor's `handleError` and the server's catch block give. */
  function Failure(prefix: string, message: string): (r: Response)
    ensures FailedWith(r, prefix) && r.executionTime == 0
    ensures r.message[|prefix| + 2..] == message
  {
    HandleError(Fresh, prefix, message)
  }
}
