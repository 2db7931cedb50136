/** The controller advice of util.GlobalExceptionHandler: it turns the two
    service exceptions and bean-validation failures into an HTTP status and
    an error body. */
module ExceptionHandler {
  import opened Domain

  /** dto.ErrorDTO */
  datatype ErrorDTO = ErrorDTO(message: string)

  datatype HttpStatus = HttpStatus(code: int)
  const NOT_FOUND := HttpStatus(404)
  const BAD_REQUEST := HttpStatus(400)

  /** A body is one error object or a JSON array of them. */
  datatype Body = Single(error: ErrorDTO) | Many(errors: seq<ErrorDTO>)

  datatype Response = Response(status: HttpStatus, body: Body)

  /** What the binding result of a failed @Valid check holds: the per-field
      errors and the object-level ("global") errors, each in its own order. */
  datatype FieldError = FieldError(objectName: string, field: string, defaultMessage: string)
  datatype ObjectError = ObjectError(objectName: string, defaultMessage: string)
  datatype BindingResult = BindingResult(fieldErrors: seq<FieldError>, globalErrors: seq<ObjectError>)
  datatype MethodArgumentNotValidException = MethodArgumentNotValidException(bindingResult: BindingResult)

  /** String.format("%s, %s", name, message) */
  function Entry(name: string, message: string): string {
    name + ", " + message
  }

  /** userDoesNotExist (NOT_FOUND) */
  function UserDoesNotExist(exception: ServiceException): (r: Response)
    requires exception.UserDoesNotExistException?
    ensures r.status.code == 404
    ensures r.body.Single? && r.body.error.message == exception.message
  {
    Response(NOT_FOUND, Single(ErrorDTO(exception.message)))
  }

  /** emailAlreadyUsed (BAD_REQUEST) */
  function EmailAlreadyUsed(exception: ServiceException): (r: Response)
    requires exception.EmailAlreadyUsedException?
    ensures r.status.code == 400
    ensures r.body.Single? && r.body.error.message == exception.message
  {
    Response(BAD_REQUEST, Single(ErrorDTO(exception.message)))
  }

  /** The framework's choice of handler by exception type. The status tells
      the two kinds apart and the body carries the message, so no two
      exceptions give the same response. */
  function HandleServiceException(exception: ServiceException): (r: Response)
    ensures r.status == NOT_FOUND <==> exception.UserDoesNotExistException?
    ensures r.status == BAD_REQUEST <==> exception.EmailAlreadyUsedException?
    ensures r.body == Single(ErrorDTO(exception.message))
  {
    match exception
    case UserDoesNotExistException(_) => UserDoesNotExist(exception)
    case EmailAlreadyUsedException(_) => EmailAlreadyUsed(exception)
  }

  /** The handler loses nothing: equal responses come from equal exceptions. */
  lemma HandleServiceExceptionInjective(e1: ServiceException, e2: ServiceException)
    requires HandleServiceException(e1) == HandleServiceException(e2)
    ensures e1 == e2
  {
  }

  /** handleMethodArgumentNotValid: status 400 whatever status the framework
      passed in, and one entry per error, field errors first and global
      errors after, each group in its own order. */
  method HandleMethodArgumentNotValid(ex: MethodArgumentNotValidException, status: HttpStatus)
    returns (r: Response)
    ensures r.status == BAD_REQUEST && r.body.Many?
    ensures |r.body.errors| == |ex.bindingResult.fieldErrors| + |ex.bindingResult.globalErrors|
    ensures forall i :: 0 <= i < |ex.bindingResult.fieldErrors| ==>
      r.body.errors[i] == ErrorDTO(Entry(ex.bindingResult.fieldErrors[i].field,
                                         ex.bindingResult.fieldErrors[i].defaultMessage))
    ensures forall j :: 0 <= j < |ex.bindingResult.globalErrors| ==>
      r.body.errors[|ex.bindingResult.fieldErrors| + j] ==
        ErrorDTO(Entry(ex.bindingResult.globalErrors[j].objectName,
                       ex.bindingResult.globalErrors[j].defaultMessage))
  {
    var fieldErrors := ex.bindingResult.fieldErrors;
    var globalErrors := ex.bindingResult.globalErrors;
    var errors: seq<ErrorDTO> := [];
    for i := 0 to |fieldErrors|
      invariant |errors| == i
      invariant forall k :: 0 <= k < i ==>
        errors[k] == ErrorDTO(Entry(fieldErrors[k].field, fieldErrors[k].defaultMessage))
    {
      errors := errors + [ErrorDTO(Entry(fieldErrors[i].field, fieldErrors[i].defaultMessage))];
    }
    for j := 0 to |globalErrors|
      invariant |errors| == |fieldErrors| + j
      invariant forall k :: 0 <= k < |fieldErrors| ==>
        errors[k] == ErrorDTO(Entry(fieldErrors[k].field, fieldErrors[k].defaultMessage))
      invariant forall k :: 0 <= k < j ==>
        errors[|fieldErrors| + k] == ErrorDTO(Entry(globalErrors[k].objectName, globalErrors[k].defaultMessage))
    {
      errors := errors + [ErrorDTO(Entry(globalErrors[j].objectName, globalErrors[j].defaultMessage))];
    }
    r := Response(BAD_REQUEST, Many(errors));
  }
}
