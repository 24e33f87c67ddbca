/** HTTP outcomes of the service: a value, or an error status raised as an `HTTPException`
    (or an unhandled exception, which the framework answers with 500). */
module Http {

  const BadRequest: int := 400
  const Unauthorized: int := 401
  const Forbidden: int := 403
  const NotFound: int := 404
  const InternalServerError: int := 500
  const ServiceUnavailable: int := 503

  datatype Result<+T> = Ok(value: T) | Fail(status: int)
}
