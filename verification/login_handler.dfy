/** `POST /api/login` (`LoginHandler`): the same empty-body and blank-field
    checks as registration, then a password check against the registry. The
    token a successful login returns is a fresh random UUID in the program;
    here it is a parameter. */
module LoginHandler {
  import opened Wrappers
  import Bytes
  import Text
  import Json
  import Status
  import HttpRequest
  import HttpResponse
  import ResponseBuilder
  import UserStore
  import RegisterHandler

  const LoggedIn: string := "登录成功"
  const BadCredentials: string := "用户名或密码错误"

  /** The blank checks of `handle`, in source order; no length checks. */
  function CheckFields(username: Option<string>, password: Option<string>): (c: RegisterHandler.Check)
    ensures c == RegisterHandler.Reject(RegisterHandler.BlankUsername) <==> RegisterHandler.IsBlank(username)
    ensures c == RegisterHandler.Reject(RegisterHandler.BlankPassword) <==>
      !RegisterHandler.IsBlank(username) && RegisterHandler.IsBlank(password)
    ensures c.Accept? <==> !RegisterHandler.IsBlank(username) && !RegisterHandler.IsBlank(password)
    ensures c.Accept? ==> username == Some(c.username) && password == Some(c.password)
  {
    if RegisterHandler.IsBlank(username) then RegisterHandler.Reject(RegisterHandler.BlankUsername)
    else if RegisterHandler.IsBlank(password) then RegisterHandler.Reject(RegisterHandler.BlankPassword)
    else RegisterHandler.Accept(username.value, password.value)
  }

  /** The whole validation: an empty body first, then the field checks. */
  function Validate(body: Option<string>): (c: RegisterHandler.Check)
    ensures c == RegisterHandler.Reject(RegisterHandler.EmptyBody) <==> body.None? || body.value == ""
    ensures body.Some? && body.value != "" ==>
      c == CheckFields(Json.GetString(body, Some("username")), Json.GetString(body, Some("password")))
  {
    if body.None? || body.value == "" then RegisterHandler.Reject(RegisterHandler.EmptyBody)
    else CheckFields(Json.GetString(body, Some("username")), Json.GetString(body, Some("password")))
  }

  /** The reply to a login of `name` that passed validation: 200 with the
      token when the registry holds the name with this password, else 401. */
  function Authenticate(name: string, password: string, date: string, users: UserStore.Store, token: string): (r: HttpResponse.Response)
    ensures name in users && users[name] == password ==>
      && r.status == Status.Ok
      && r.body == Some(Bytes.Encode(Json.BuildResponseWith(200, Some(LoggedIn), "token", Some(token))))
    ensures !(name in users && users[name] == password) ==>
      && r.status == Status.Unauthorized
      && r.body == Some(Bytes.Encode(Json.BuildResponse(401, Some(BadCredentials))))
  {
    if UserStore.Login(users, Some(name), Some(password)) then
      ResponseBuilder.JsonPage(date, Json.BuildResponseWith(200, Some(LoggedIn), "token", Some(token)))
    else
      var denied := ResponseBuilder.JsonPage(date, Json.BuildResponse(401, Some(BadCredentials)));
      HttpResponse.SetStatus(denied, Status.Unauthorized)
  }

  /** What `handle` does once validation has decided: a rejection is a 400
      with its message; the trimmed name and the untrimmed password either
      log in or do not. */
  function Respond(c: RegisterHandler.Check, date: string, users: UserStore.Store, token: string): (r: HttpResponse.Response)
    ensures c.Reject? ==> r == ResponseBuilder.BadRequest(date, Some(c.message))
    ensures c.Accept? ==> r == Authenticate(Text.Trim(c.username), c.password, date, users, token)
  {
    match c
    case Reject(m) => ResponseBuilder.BadRequest(date, Some(m))
    case Accept(u, p) => Authenticate(Text.Trim(u), p, date, users, token)
  }

  /** `handle`: validation of the body read as text, then the response. A
      rejected body is a 400 with the first failed check's message; an
      accepted one is a 200 carrying the token exactly when the registry
      holds the trimmed name with this password, else a 401. The registry is
      only read. */
  function Handle(req: HttpRequest.Request, date: string, users: UserStore.Store, token: string): (r: HttpResponse.Response)
    ensures HttpRequest.BodyAsString(req).None? ==> r == ResponseBuilder.BadRequest(date, Some(RegisterHandler.EmptyBody))
    ensures var c := Validate(HttpRequest.BodyAsString(req));
      c.Reject? ==>
        && r.status == Status.BadRequest
        && r.body == Some(Bytes.Encode(ResponseBuilder.ErrorJson(400, Some(c.message))))
    ensures var c := Validate(HttpRequest.BodyAsString(req));
      c.Accept? ==>
        (r.status == Status.Ok <==> Text.Trim(c.username) in users && users[Text.Trim(c.username)] == c.password)
    ensures var c := Validate(HttpRequest.BodyAsString(req));
      c.Accept? && r.status == Status.Ok ==>
        r.body == Some(Bytes.Encode(Json.BuildResponseWith(200, Some(LoggedIn), "token", Some(token))))
    ensures var c := Validate(HttpRequest.BodyAsString(req));
      c.Accept? && r.status != Status.Ok ==>
        && r.status == Status.Unauthorized
        && r.body == Some(Bytes.Encode(Json.BuildResponse(401, Some(BadCredentials))))
  {
    Respond(Validate(HttpRequest.BodyAsString(req)), date, users, token)
  }

  /** The token of a successful login reads back out of its reply. */
  lemma TokenReadsBack(token: string)
    requires Json.Escapable(token)
    ensures Json.GetString(Some(Json.BuildResponseWith(200, Some(LoggedIn), "token", Some(token))), Some("token"))
         == Some(token)
    ensures Json.GetString(Some(Json.BuildResponseWith(200, Some(LoggedIn), "token", Some(token))), Some("message"))
         == Some(LoggedIn)
  {
    assert "token"[0] == 't' && LoggedIn[0] != 't';
    Json.BuildResponseWithData(200, LoggedIn, "token", token);
    Json.BuildResponseWithMessage(200, LoggedIn, "token", token);
  }

  /** Every body registration accepts passes the login checks too, with the
      same two fields: login only drops the length checks. */
  lemma RegisterAcceptsLoginAccepts(body: Option<string>)
    requires RegisterHandler.Validate(body).Accept?
    ensures Validate(body) == RegisterHandler.Validate(body)
  {
  }

  /** A body login rejects, registration rejects with the same message. */
  lemma LoginRejectsOnlyBlank(body: Option<string>)
    requires Validate(body).Reject?
    ensures RegisterHandler.Validate(body).Reject?
    ensures RegisterHandler.Validate(body) == Validate(body)
  {
  }

  /** A registration that answered 200 lets the same name and password log in
      at once; nobody logs in to an empty registry. */
  lemma RegisteredUserLogsIn(c: RegisterHandler.Check, date: string, users: UserStore.Store, token: string)
    requires c.Accept? && Text.Trim(c.username) != "" && c.password != ""
    requires Text.Trim(c.username) !in users
    ensures RegisterHandler.Respond(c, date, users).0.status == Status.Ok
    ensures Respond(c, date, RegisterHandler.Respond(c, date, users).1, token).status == Status.Ok
    ensures Respond(c, date, map[], token).status == Status.Unauthorized
  {
  }
}
