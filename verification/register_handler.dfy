/** `POST /api/register` (`RegisterHandler`): reads the user name and
    password out of the JSON body, validates them in a fixed order and adds
    the user to the registry. */
module RegisterHandler {
  import opened Wrappers
  import Bytes
  import Text
  import Json
  import Status
  import HttpRequest
  import HttpResponse
  import ResponseBuilder
  import UserStore

  const EmptyBody: string := "请求体不能为空"
  const BlankUsername: string := "用户名不能为空"
  const BlankPassword: string := "密码不能为空"
  const BadUsernameLength: string := "用户名长度应在3-20个字符之间"
  const ShortPassword: string := "密码长度不能少于6个字符"
  const Registered: string := "注册成功"
  const Taken: string := "用户名已存在"

  /** `s == null || s.trim().isEmpty()`. */
  predicate IsBlank(s: Option<string>) {
    s.None? || Text.Trim(s.value) == ""
  }

  /** What validation decides: a rejection with its message, or the raw
      user name and password that passed. */
  datatype Check = Reject(message: string) | Accept(username: string, password: string)

  /** The checks of `handle` on the two extracted fields, in source order:
      blank name, blank password, name length 3..20, password length at
      least 6. Lengths are counted in UTF-16 units, on the untrimmed text. */
  function CheckFields(username: Option<string>, password: Option<string>): (c: Check)
    ensures c == Reject(BlankUsername) <==> IsBlank(username)
    ensures c == Reject(BlankPassword) <==> !IsBlank(username) && IsBlank(password)
    ensures c == Reject(BadUsernameLength) <==>
      !IsBlank(username) && !IsBlank(password) && !(3 <= Text.Utf16Length(username.value) <= 20)
    ensures c == Reject(ShortPassword) <==>
      !IsBlank(username) && !IsBlank(password) && 3 <= Text.Utf16Length(username.value) <= 20
      && Text.Utf16Length(password.value) < 6
    ensures c.Accept? <==>
      !IsBlank(username) && !IsBlank(password) && 3 <= Text.Utf16Length(username.value) <= 20
      && Text.Utf16Length(password.value) >= 6
    ensures c.Accept? ==> username == Some(c.username) && password == Some(c.password)
  {
    if IsBlank(username) then Reject(BlankUsername)
    else if IsBlank(password) then Reject(BlankPassword)
    else if Text.Utf16Length(username.value) < 3 || Text.Utf16Length(username.value) > 20 then Reject(BadUsernameLength)
    else if Text.Utf16Length(password.value) < 6 then Reject(ShortPassword)
    else Accept(username.value, password.value)
  }

  /** The whole validation: an empty body first, then the field checks on
      the `username` and `password` strings read out of the JSON. */
  function Validate(body: Option<string>): (c: Check)
    ensures c == Reject(EmptyBody) <==> body.None? || body.value == ""
    ensures body.Some? && body.value != "" ==>
      c == CheckFields(Json.GetString(body, Some("username")), Json.GetString(body, Some("password")))
  {
    if body.None? || body.value == "" then Reject(EmptyBody)
    else CheckFields(Json.GetString(body, Some("username")), Json.GetString(body, Some("password")))
  }

  /** The reply to a registration of `name` that passed validation: 200 and
      the user added, or 400 and the registry unchanged when the name is
      taken. */
  function Enrol(name: string, password: string, date: string, users: UserStore.Store): (r: (HttpResponse.Response, UserStore.Store))
    requires name != "" && password != ""
    ensures name in users ==>
      && r.1 == users && r.0.status == Status.BadRequest
      && r.0.body == Some(Bytes.Encode(Json.BuildResponse(400, Some(Taken))))
    ensures name !in users ==>
      && r.1 == users[name := password]
      && r.0.status == Status.Ok
      && r.0.body == Some(Bytes.Encode(Json.BuildResponse(200, Some(Registered))))
  {
    var registered := UserStore.Register(users, Some(name), Some(password));
    assert registered.0 ==> registered.1 == users[name := password];
    if registered.0 then
      var ok := ResponseBuilder.JsonPage(date, Json.BuildResponse(200, Some(Registered)));
      (ok, registered.1)
    else
      var taken := ResponseBuilder.JsonPage(date, Json.BuildResponse(400, Some(Taken)));
      (HttpResponse.SetStatus(taken, Status.BadRequest), users)
  }

  /** What `handle` does once validation has decided: a rejection is a 400
      with its message; an accepted request registers the trimmed name with
      the untrimmed password. */
  function Respond(c: Check, date: string, users: UserStore.Store): (r: (HttpResponse.Response, UserStore.Store))
    requires c.Accept? ==> Text.Trim(c.username) != "" && c.password != ""
    ensures c.Reject? ==> r == (ResponseBuilder.BadRequest(date, Some(c.message)), users)
    ensures c.Accept? ==> r == Enrol(Text.Trim(c.username), c.password, date, users)
    ensures r.1 != users <==> c.Accept? && Text.Trim(c.username) !in users
  {
    match c
    case Reject(m) => (ResponseBuilder.BadRequest(date, Some(m)), users)
    case Accept(u, p) => Enrol(Text.Trim(u), p, date, users)
  }

  /** `handle`: validation of the body read as text, then the response. A
      rejected body is a 400 carrying the first failed check's message; an
      accepted one registers its trimmed name unless that name is taken. The
      registry changes exactly when a new name is registered. */
  function Handle(req: HttpRequest.Request, date: string, users: UserStore.Store): (r: (HttpResponse.Response, UserStore.Store))
    ensures HttpRequest.BodyAsString(req).None? ==> r == (ResponseBuilder.BadRequest(date, Some(EmptyBody)), users)
    ensures var c := Validate(HttpRequest.BodyAsString(req));
      c.Reject? ==>
        && r.1 == users && r.0.status == Status.BadRequest
        && r.0.body == Some(Bytes.Encode(ResponseBuilder.ErrorJson(400, Some(c.message))))
    ensures var c := Validate(HttpRequest.BodyAsString(req));
      c.Accept? && Text.Trim(c.username) in users ==>
        && r.1 == users && r.0.status == Status.BadRequest
        && r.0.body == Some(Bytes.Encode(Json.BuildResponse(400, Some(Taken))))
    ensures var c := Validate(HttpRequest.BodyAsString(req));
      c.Accept? && Text.Trim(c.username) !in users ==>
        && r.1 == users[Text.Trim(c.username) := c.password] && r.0.status == Status.Ok
        && r.0.body == Some(Bytes.Encode(Json.BuildResponse(200, Some(Registered))))
    ensures var c := Validate(HttpRequest.BodyAsString(req));
      r.1 != users <==> c.Accept? && Text.Trim(c.username) !in users
  {
    var c := Validate(HttpRequest.BodyAsString(req));
    Respond(c, date, users)
  }

  /** The length check sees the untrimmed name: a leading space counts
      towards the 3..20 bound but is trimmed away before registration. */
  lemma {:induction false} PaddingCounted(s: string)
    ensures Text.Utf16Length([' '] + s) == Text.Utf16Length(s) + 1
    ensures Text.Trim([' '] + s) == Text.Trim(s)
  {
    assert ([' '] + s)[1..] == s;
  }

  /** So `" ab"` passes the length check and the two-letter name `"ab"` is
      what gets registered. */
  lemma UntrimmedLengthCheck()
    ensures CheckFields(Some(" ab"), Some("secret")).Accept?
    ensures Text.Trim(" ab") == "ab" && Text.Utf16Length("ab") == 2
  {
    assert " ab" == [' '] + "ab";
    PaddingCounted("ab");
    Text.TrimOfTrimmed("ab");
  }
}
