/** What the two download functions share: the server's reply as an
    abstract value, and a run that records the request it issued. */
module Http {
  import opened Wrappers
  import opened Ints
  import opened FileSystem

  /** What a GET gives back: a transport failure (no connection, bad URL),
      or a response with its status code and the body bytes that arrived;
      `complete` is false when reading the body failed part-way. */
  datatype Reply = TransportError | Response(status: nat, body: seq<byte>, complete: bool)

  /** A filesystem run that issued at most one GET, whose URL it records
      (`None`: no request was made). */
  datatype Fetch<+T> = Fetch(fs: Fs, exit: Exit<T>, request: Option<string>)

  /** `StatusCode::is_success`: 200 to 299. */
  predicate IsSuccess(status: nat) {
    200 <= status <= 299
  }
}
