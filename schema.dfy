/**
 * The request validation layer: zod-style field validators. A schema parse either
 * yields a typed record or fails with every issue found, one or more per failing field.
 */
module Schema {
  import opened Wrappers
  import opened Js

  /** Why a field was refused; the message is kept where the schema supplies one. */
  datatype Code =
    | Required                              // the key is absent
    | InvalidType                           // present, but of the wrong JSON type
    | TooSmall(minimum: nat, message: string)
    | InvalidEmail(message: string)
    | InvalidEnum(options: seq<string>)
    | NotInteger
    | NotPositive(message: string)

  datatype Issue = Issue(path: string, code: Code)

  datatype Parse<+T> = Success(value: T) | Failure(issues: seq<Issue>)

  function IssuesOf<T>(p: Parse<T>): seq<Issue>
  {
    if p.Failure? then p.issues else []
  }

  /** A well-formed failure reports at least one issue, each about its own field. */
  predicate Reports<T>(p: Parse<T>, key: string)
  {
    p.Failure? ==> |p.issues| >= 1 && forall i :: 0 <= i < |p.issues| ==> p.issues[i].path == key
  }

  /** Some issue of the list is about `key`. */
  predicate Reported(issues: seq<Issue>, key: string)
  {
    exists i :: 0 <= i < |issues| && issues[i].path == key
  }

  /** `z.string().min(min, message)`: a string of at least `min` UTF-16 code units. */
  function MinString(o: Object, key: string, min: nat, message: string): (r: Parse<string>)
    ensures r.Success? <==> key in o && o[key].JStr? && Length(o[key].s) >= min
    ensures r.Success? ==> r.value == o[key].s
    ensures Reports(r, key)
  {
    match Get(o, key)
    case None => Failure([Issue(key, Required)])
    case Some(JStr(s)) => if Length(s) >= min then Success(s) else Failure([Issue(key, TooSmall(min, message))])
    case Some(_) => Failure([Issue(key, InvalidType)])
  }

  /** `z.object({ name: z.string().min(1, message) })`, the create and update schema of categories and tags. */
  function NameInput(body: Object, message: string): (r: Parse<string>)
    ensures r.Success? <==> "name" in body && body["name"].JStr? && body["name"].s != ""
    ensures r.Success? ==> r.value == body["name"].s
    ensures r.Failure? ==> Reports(r, "name")
  {
    var r := MinString(body, "name", 1, message);
    assert r.Success? ==> |body["name"].s| <= Length(body["name"].s);
    r
  }

  /** `z.string().email(message)`, with the address syntax left to `isEmail`. */
  function EmailString(o: Object, key: string, isEmail: string -> bool, message: string): (r: Parse<string>)
    ensures r.Success? <==> key in o && o[key].JStr? && isEmail(o[key].s)
    ensures r.Success? ==> r.value == o[key].s
    ensures Reports(r, key)
  {
    match Get(o, key)
    case None => Failure([Issue(key, Required)])
    case Some(JStr(s)) => if isEmail(s) then Success(s) else Failure([Issue(key, InvalidEmail(message))])
    case Some(_) => Failure([Issue(key, InvalidType)])
  }

  /**
   * `z.number().int().positive(message)`: both refinements are checked, so a negative
   * fraction reports two issues.
   */
  function PositiveInt(o: Object, key: string, message: string): (r: Parse<int>)
    ensures r.Success? <==> key in o && o[key].JNum? && IsInteger(o[key].n) && o[key].n > 0.0
    ensures r.Success? ==> r.value > 0 && r.value as real == o[key].n
    ensures Reports(r, key)
  {
    match Get(o, key)
    case None => Failure([Issue(key, Required)])
    case Some(JNum(n)) =>
      var issues := (if IsInteger(n) then [] else [Issue(key, NotInteger)])
                    + (if n > 0.0 then [] else [Issue(key, NotPositive(message))]);
      if issues == [] then Success(n.Floor) else Failure(issues)
    case Some(_) => Failure([Issue(key, InvalidType)])
  }

  /** `z.boolean().optional().default(default)`. */
  function OptionalBool(o: Object, key: string, default: bool): (r: Parse<bool>)
    ensures r.Success? <==> key !in o || o[key].JBool?
    ensures r.Success? ==> r.value == if key in o then o[key].b else default
    ensures Reports(r, key)
  {
    match Get(o, key)
    case None => Success(default)
    case Some(JBool(b)) => Success(b)
    case Some(_) => Failure([Issue(key, InvalidType)])
  }

  /** `z.string().optional()`. */
  function OptionalString(o: Object, key: string): (r: Parse<Option<string>>)
    ensures r.Success? <==> key !in o || o[key].JStr?
    ensures r.Success? ==> r.value == if key in o then Some(o[key].s) else None
    ensures Reports(r, key)
  {
    match Get(o, key)
    case None => Success(None)
    case Some(JStr(s)) => Success(Some(s))
    case Some(_) => Failure([Issue(key, InvalidType)])
  }

  /**
   * `z.string().optional().transform(val => val ? parseInt(val) : default)`: an absent
   * or empty string gives `default`; any other string goes through `parseInt`, whose
   * `NaN` is not refused.
   */
  function OptionalIntString(o: Object, key: string, default: int): (r: Parse<Number>)
    ensures r.Success? <==> key !in o || o[key].JStr?
    ensures r.Success? && (key !in o || o[key] == JStr("")) ==> r.value == Int(default)
    ensures r.Success? && key in o && o[key].s != "" ==> r.value == ParseInt(o[key].s)
    ensures Reports(r, key)
  {
    match Get(o, key)
    case None => Success(Int(default))
    case Some(JStr(s)) => Success(if s != "" then ParseInt(s) else Int(default))
    case Some(_) => Failure([Issue(key, InvalidType)])
  }

  /** `z.enum(options).optional().default(default)`. */
  function EnumOrDefault(o: Object, key: string, options: seq<string>, default: string): (r: Parse<string>)
    requires default in options
    ensures r.Success? <==> key !in o || (o[key].JStr? && o[key].s in options)
    ensures r.Success? ==> r.value in options
    ensures r.Success? && key !in o ==> r.value == default
    ensures r.Success? && key in o ==> r.value == o[key].s
    ensures Reports(r, key)
  {
    match Get(o, key)
    case None => Success(default)
    case Some(JStr(s)) => if s in options then Success(s) else Failure([Issue(key, InvalidEnum(options))])
    case Some(_) => Failure([Issue(key, InvalidType)])
  }
}
