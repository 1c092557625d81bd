/**
 * The message records the core passes around. Requests keep the version
 * token as read from the request line; responses carry the version enum.
 */
module Messages {
  import opened Headers
  import opened HttpBodies
  import opened HttpMethods
  import opened ProtocolVersions

  /** `HttpRequest`: the parsed header object, the body, the version token, the method and the path. */
  datatype HttpRequest = HttpRequest(header: HttpHeader, body: HttpBody, version: string, httpMethod: HttpMethod, path: string)

  /**
   * `HttpResponse`: what a handler hands to the output buffer. The writer
   * only reads its header object, so the response carries that object's map.
   */
  datatype HttpResponse = HttpResponse(headers: HeaderMap, body: HttpBody, version: HttpProtocolVersion, statusCode: int, message: string)

  /** A request with its header object replaced by the header's contents. */
  datatype RequestView = RequestView(headers: HeaderMap, body: HttpBody, version: string, httpMethod: HttpMethod, path: string)

  function View(r: HttpRequest): RequestView
    reads r.header
  {
    RequestView(r.header.headers, r.body, r.version, r.httpMethod, r.path)
  }
}
