/**
 * The application-wide exception handler (controller/handler/GlobalExceptionHandler.java): each
 * kind of failure becomes an HTTP status and an error body.
 */
module ErrorHandler {
  import opened Wrappers
  import opened Entities

  /** A field error of a failed `@Valid` check: the field and its default message. */
  datatype FieldError = FieldError(field: string, defaultMessage: Option<string>)

  /** The failures the handler distinguishes; `Other` carries the exception's simple class name. */
  datatype Failure =
    | ResourceNotFound(message: Option<string>)
    | ArgumentNotValid(fieldErrors: seq<FieldError>)
    | ArgumentTypeMismatch(name: Option<string>)
    | IllegalArgument(message: Option<string>)
    | Other(simpleName: string)

  /** GlobalErrorResponse. */
  datatype ErrorBody = ErrorBody(status: string, message: string, detail: Option<string>, exceptionType: string)

  datatype Response = Response(httpStatus: int, body: ErrorBody)

  const NotFound := 404
  const BadRequest := 400
  const InternalServerError := 500

  /** `error.getField() + ": " + error.getDefaultMessage()`. */
  function Describe(e: FieldError): string {
    e.field + ": " + Show(e.defaultMessage)
  }

  /** `reduce((a, b) -> a + ", " + b)`: a left fold, empty for no elements. */
  function Reduce(xs: seq<string>): (r: Option<string>)
    ensures r.None? <==> xs == []
  {
    if xs == [] then None
    else if |xs| == 1 then Some(xs[0])
    else Some(Reduce(xs[..|xs| - 1]).value + ", " + xs[|xs| - 1])
  }

  /** The same text built from the front: the elements, each separated from the next by ", ". */
  function Join(xs: seq<string>): string
    requires xs != []
  {
    if |xs| == 1 then xs[0] else xs[0] + ", " + Join(xs[1..])
  }

  lemma {:induction false} JoinSnoc(xs: seq<string>, x: string)
    requires xs != []
    ensures Join(xs + [x]) == Join(xs) + ", " + x
  {
    if |xs| > 1 {
      assert (xs + [x])[1..] == xs[1..] + [x];
      JoinSnoc(xs[1..], x);
    } else {
      assert (xs + [x])[1..] == [x];
    }
  }

  /** The left fold of the stream equals the front-to-back join. */
  lemma {:induction false} ReduceIsJoin(xs: seq<string>)
    requires xs != []
    ensures Reduce(xs) == Some(Join(xs))
  {
    if |xs| > 1 {
      var init := xs[..|xs| - 1];
      ReduceIsJoin(init);
      JoinSnoc(init, xs[|xs| - 1]);
      assert init + [xs[|xs| - 1]] == xs;
    }
  }

  const ValidationMessage := "入力内容に誤りがあります"

  /** The detail of a validation failure: the field errors in order, or the fixed text for none. */
  function ValidationDetail(errors: seq<FieldError>): string {
    Reduce(seq(|errors|, i requires 0 <= i < |errors| => Describe(errors[i]))).GetOr(ValidationMessage)
  }

  /** The five handlers. */
  function Handle(f: Failure): (r: Response)
    ensures r.body.status == "error"
    ensures r.httpStatus == InternalServerError <==> f.Other?
  {
    match f
    case ResourceNotFound(message) =>
      Response(NotFound, ErrorBody("error", "リソースが見つかりません", message, "ResourceNotFoundException"))
    case ArgumentNotValid(errors) =>
      Response(BadRequest, ErrorBody("error", ValidationMessage, Some(ValidationDetail(errors)),
                                     "MethodArgumentNotValidException"))
    case ArgumentTypeMismatch(name) =>
      Response(BadRequest, ErrorBody("error", "入力形式が正しくありません", Some(Show(name) + "は数字で指定してください"),
                                     "MethodArgumentTypeMismatchException"))
    case IllegalArgument(message) =>
      Response(BadRequest, ErrorBody("error", "入力内容に問題があります", message, "IllegalArgumentException"))
    case Other(simpleName) =>
      Response(InternalServerError, ErrorBody("error", "内部サーバーエラーが発生しました", Some("システム管理者にお問い合わせください"), simpleName))
  }

  /**
   * The validation detail lists each field error as "field: message", in order, separated by ", ";
   * without field errors it repeats the response message.
   */
  lemma ValidationDetailSpec(errors: seq<FieldError>)
    ensures errors == [] ==> Handle(ArgumentNotValid(errors)).body.detail == Some(ValidationMessage)
    ensures errors != [] ==>
      Handle(ArgumentNotValid(errors)).body.detail == Some(Join(seq(|errors|, i requires 0 <= i < |errors| => Describe(errors[i]))))
    ensures |errors| == 1 ==>
      Handle(ArgumentNotValid(errors)).body.detail == Some(errors[0].field + ": " + Show(errors[0].defaultMessage))
    ensures Handle(ArgumentNotValid(errors)).httpStatus == BadRequest
  {
    if errors != [] {
      ReduceIsJoin(seq(|errors|, i requires 0 <= i < |errors| => Describe(errors[i])));
    }
  }

  /**
   * The whole response of each handler: its status code, its message, its detail and the name of
   * the exception it was written for. Client errors are answered with 4xx, all others with 500.
   */
  lemma HandleStatuses(f: Failure)
    ensures f.ResourceNotFound? ==>
      Handle(f) == Response(NotFound, ErrorBody("error", "リソースが見つかりません", f.message, "ResourceNotFoundException"))
    ensures f.ArgumentNotValid? ==>
      Handle(f) == Response(BadRequest, ErrorBody("error", "入力内容に誤りがあります", Some(ValidationDetail(f.fieldErrors)),
                                                  "MethodArgumentNotValidException"))
    ensures f.ArgumentTypeMismatch? ==>
      Handle(f) == Response(BadRequest, ErrorBody("error", "入力形式が正しくありません", Some(Show(f.name) + "は数字で指定してください"),
                                                  "MethodArgumentTypeMismatchException"))
    ensures f.IllegalArgument? ==>
      Handle(f) == Response(BadRequest, ErrorBody("error", "入力内容に問題があります", f.message, "IllegalArgumentException"))
    ensures f.Other? ==>
      Handle(f) == Response(InternalServerError, ErrorBody("error", "内部サーバーエラーが発生しました",
                                                           Some("システム管理者にお問い合わせください"), f.simpleName))
    ensures 400 <= Handle(f).httpStatus < 500 <==> !f.Other?
  {
  }
}
