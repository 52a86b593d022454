/** The JSON responses of the route handlers: a status code and a body. */
module Http {

  datatype Body<T> = Json(value: T) | ErrorJson(error: string)

  datatype Response<T> = Response(status: int, body: Body<T>)

  /** `NextResponse.json({ error: message }, { status })` */
  function Failure<T>(status: int, message: string): Response<T>
  {
    Response(status, ErrorJson(message))
  }
}
