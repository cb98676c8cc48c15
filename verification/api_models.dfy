/** The record shapes the HTTP server sends and the HTTP client reads, and
    an HTTP exchange reduced to what the two sides look at. */
module ApiModels {
  import opened Wrappers
  import opened Values
  import Prompts

  /** A prompt on the wire: the metadata, the template and, per variable
      name, the fields of its definition as a JSON object. */
  datatype PromptResponse = PromptResponse(
    metadata: Prompts.PromptMetadata,
    template: string,
    variables: seq<(string, seq<(string, Value)>)>)

  datatype RenderResponse = RenderResponse(rendered: string, version: string)

  datatype VersionInfoResponse = VersionInfoResponse(name: string, commitHash: string, isBranch: bool, isCurrent: bool)

  datatype VersionsResponse = VersionsResponse(
    branches: seq<VersionInfoResponse>,
    tags: seq<VersionInfoResponse>,
    current: string)

  /** A repository in the server's listing. */
  datatype RepoInfo = RepoInfo(name: string, url: string, path: string, currentBranch: Option<string>)

  /** What an endpoint answers: a body, or an `HTTPException` with its
      status code and detail text. */
  datatype Http<T> = Ok(body: T) | HttpError(status: int, detail: string)

  /** A response as the client receives it: the status code, the body
      text, the body parsed as JSON when it is an error body that parses,
      and the body decoded into the expected record (`None` when it does
      not fit the record). */
  datatype Reply<T> = Reply(status: int, text: string, json: Option<Value>, payload: Option<T>)

  /** What travels from an endpoint to the client: a body with status 200,
      or the error status with FastAPI's `{"detail": …}` body; `text` is the
      serialised body. */
  function Deliver<T>(h: Http<T>, text: string): (r: Reply<T>)
    ensures h.Ok? ==> r.status == 200 && r.payload == Some(h.body)
    ensures h.HttpError? ==> r.status == h.status && r.json == Some(ErrorBody(h.detail))
  {
    match h
    case Ok(body) => Reply(200, text, None, Some(body))
    case HttpError(status, detail) => Reply(status, text, Some(ErrorBody(detail)), None)
  }

  /** httpx's `is_error`: a 4xx or 5xx status. */
  predicate IsError(status: int) {
    400 <= status <= 599
  }

  /** The JSON body FastAPI sends for an `HTTPException`. */
  function ErrorBody(detail: string): Value {
    Dict([("detail", Str(detail))])
  }
}
