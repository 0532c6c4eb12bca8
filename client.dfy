/**
 * What `EPGStationClient.DeleteVideoFile` (main.go:92-110) makes of the
 * server's answer. The request itself is network I/O and is not modelled:
 * the answer arrives as a `Response` value.
 */
module Client {
  import opened Wrappers

  /** What a DELETE request yields: no response at all, or an HTTP status code. */
  datatype Response = TransportError(message: string) | HttpResponse(statusCode: int)

  /** The error `DeleteVideoFile` returns. */
  datatype DeleteError = RequestFailed(message: string) | UnexpectedStatus(statusCode: int)

  /** The error returned by `DeleteVideoFile` for a given response; `Pass` is a `nil` error. */
  function DeleteVideoFile(response: Response): (r: Outcome<DeleteError>)
    ensures r.Pass? <==> response == HttpResponse(200)
    ensures response.HttpResponse? && response.statusCode != 200 ==>
      r == Fail(UnexpectedStatus(response.statusCode))
    ensures response.TransportError? ==> r == Fail(RequestFailed(response.message))
  {
    match response
    case TransportError(message) => Fail(RequestFailed(message))
    case HttpResponse(code) =>
      if code != 200 then Fail(UnexpectedStatus(code)) else Pass
  }
}
