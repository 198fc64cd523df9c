/** HTTP requests as immutable values: a method, a URL, optional credentials,
    a body mapper and an ordered list of headers. Every builder returns a new
    request; equality and hashing look at the URL and the credentials only.
    Executing a request against what the server answered gives a response
    whose body has already been mapped. */
module Http {
  import opened Wrappers
  import opened JavaText

  datatype Method = Get | Head

  datatype Credentials = Credentials(username: string, password: string)

  /** A request whose server body of type `B` maps to a `T`, or fails with an
      `E` (the exception the mapper throws). */
  datatype Request<!B, T, E> = Request(
    verb: Method,
    url: string,
    credentials: Option<Credentials>,
    mapper: B -> Result<T, E>,
    headers: seq<(string, string)>)

  /** `getJsonList(url)`: a GET with no credentials and no headers whose body
      is the parsed list itself. */
  function GetJsonList<B(!new), E>(url: string): (r: Request<B, B, E>)
    ensures r.verb == Get && r.url == url
    ensures r.credentials.None? && |r.headers| == 0
    ensures forall b :: r.mapper(b) == Success(b)
  {
    Request(Get, url, None, b => Success(b), [])
  }

  /** `header(key, value)`: the new pair goes last, the earlier ones keep their
      order, everything else is kept. */
  function Header<B, T, E>(r: Request<B, T, E>, key: string, value: string): (s: Request<B, T, E>)
    ensures |s.headers| == |r.headers| + 1
    ensures s.headers[..|r.headers|] == r.headers && s.headers[|r.headers|] == (key, value)
    ensures s.verb == r.verb && s.url == r.url && s.credentials == r.credentials && s.mapper == r.mapper
  {
    r.(headers := r.headers + [(key, value)])
  }

  /** `withMapper(f)`: the old mapper, then `f` on its result. A failure of
      the old mapper is passed on and `f` never sees it. */
  function WithMapper<B(!new), T, U, E>(r: Request<B, T, E>, f: T -> Result<U, E>): (s: Request<B, U, E>)
    ensures s.verb == r.verb && s.url == r.url && s.credentials == r.credentials && s.headers == r.headers
    ensures forall b :: r.mapper(b).Failure? ==> s.mapper(b) == Failure(r.mapper(b).error)
    ensures forall b :: r.mapper(b).Success? ==> s.mapper(b) == f(r.mapper(b).value)
  {
    Request(r.verb, r.url, r.credentials, b => Then(r.mapper(b), f), r.headers)
  }

  function Then<T, U, E>(x: Result<T, E>, f: T -> Result<U, E>): Result<U, E> {
    match x
    case Failure(e) => Failure(e)
    case Success(v) => f(v)
  }

  /** Mapping twice is mapping once with the composition. */
  lemma WithMapperComposes<B(!new), T, U, W, E>(r: Request<B, T, E>, f: T -> Result<U, E>, g: U -> Result<W, E>)
    ensures forall b :: WithMapper(WithMapper(r, f), g).mapper(b) == WithMapper(r, x => Then(f(x), g)).mapper(b)
  {
  }

  predicate EndsWithSlash(s: string) {
    |s| > 0 && s[|s| - 1] == '/'
  }

  predicate StartsWithSlash(s: string) {
    |s| > 0 && s[0] == '/'
  }

  /** `resolve(path)`: the URL, a slash unless it already ends with one, then
      the path without one leading slash. Nothing else changes. */
  function Resolve<B, T, E>(r: Request<B, T, E>, path: string): (s: Request<B, T, E>)
    ensures s.verb == r.verb && s.credentials == r.credentials && s.headers == r.headers && s.mapper == r.mapper
    ensures |s.url| >= |r.url| && s.url[..|r.url|] == r.url
    ensures EndsWithSlash(r.url) ==> s.url[|r.url|..] == (if StartsWithSlash(path) then path[1..] else path)
    ensures !EndsWithSlash(r.url) ==> s.url[|r.url|..] == "/" + (if StartsWithSlash(path) then path[1..] else path)
  {
    var joined := r.url + (if !EndsWithSlash(r.url) then "/" else "") + (if StartsWithSlash(path) then path[1..] else path);
    r.(url := joined)
  }

  function DropTrailingSlash(s: string): string {
    if EndsWithSlash(s) then s[..|s| - 1] else s
  }

  function DropLeadingSlash(s: string): string {
    if StartsWithSlash(s) then s[1..] else s
  }

  /** The same join, said the other way round: with at most one slash taken off
      each side, exactly one slash goes between base and path. */
  lemma ResolveJoins<B, T, E>(r: Request<B, T, E>, path: string)
    ensures Resolve(r, path).url == DropTrailingSlash(r.url) + "/" + DropLeadingSlash(path)
  {
    var s := Resolve(r, path).url;
    if EndsWithSlash(r.url) {
      assert r.url == DropTrailingSlash(r.url) + "/";
      assert s == r.url + s[|r.url|..];
    } else {
      assert s == r.url + s[|r.url|..];
    }
  }

  /** `equals`: the URL and the credentials, nothing else. */
  predicate Equal<B, T, E>(a: Request<B, T, E>, b: Request<B, T, E>) {
    a.url == b.url && a.credentials == b.credentials
  }

  /** `Objects.hash(url, credentials)`, given the hash of a URL and of a set of
      credentials (neither class is part of this model); an absent optional
      hashes to 0. */
  function HashCode<B, T, E>(r: Request<B, T, E>, urlHash: string -> int, credentialsHash: Credentials -> int): (h: int)
    ensures IsInt32(h)
  {
    ObjectsHash([Wrap32(urlHash(r.url)), match r.credentials case None => 0 case Some(c) => Wrap32(credentialsHash(c))])
  }

  /** Equal requests hash alike, and adding a header or a mapper gives an
      equal request. */
  lemma EqualHashAlike<B, T, E>(a: Request<B, T, E>, b: Request<B, T, E>, urlHash: string -> int, credentialsHash: Credentials -> int)
    requires Equal(a, b)
    ensures HashCode(a, urlHash, credentialsHash) == HashCode(b, urlHash, credentialsHash)
  {
  }

  /** `equals` is an equivalence that looks at the URL and the credentials
      only: the verb and the headers play no part. */
  lemma EqualIsEquivalence<B, T, E>(a: Request<B, T, E>, b: Request<B, T, E>, c: Request<B, T, E>, verb: Method, headers: seq<(string, string)>)
    ensures Equal(a, a)
    ensures Equal(a, b) ==> Equal(b, a)
    ensures Equal(a, b) && Equal(b, c) ==> Equal(a, c)
    ensures Equal(a, b) <==> Equal(a.(verb := verb, headers := headers), b)
  {
  }

  lemma HeaderKeepsEquality<B, T, E>(r: Request<B, T, E>, key: string, value: string)
    ensures Equal(Header(r, key, value), r)
  {
  }

  // ---------------------------------------------------------------------------
  // Executing a request

  /** What the server did: answered with a status line and a body, refused the
      connection, or let it time out. */
  datatype Exchange<B> = Answered(status: int, body: B) | Refused | TimedOut

  /** A response: a successful one carries the mapped body, the others
      (redirection, client or server error) only the status. */
  datatype Response<T> = Ok(value: T) | NotOk(status: int)

  /** What escapes `execute`: the mapper's exception or an HttpException. */
  datatype FetchError<E> = MapperFailed(cause: E) | HttpFailure(message: string)

  /** `CommonsHttp.execute`: a status of 300 or more is an unsuccessful
      response; any other maps the body at once. */
  function Execute<B, T, E>(r: Request<B, T, E>, x: Exchange<B>): (res: Result<Response<T>, FetchError<E>>)
    ensures x.Answered? && x.status >= 300 ==> res == Success(NotOk(x.status))
    ensures x.Answered? && x.status < 300 ==> (res.Success? <==> r.mapper(x.body).Success?)
    ensures x.Answered? && x.status < 300 && res.Success? ==> res.value == Ok(r.mapper(x.body).value)
    ensures !x.Answered? ==> res.Failure? && res.error.HttpFailure?
  {
    match x
    case Refused => Failure(HttpFailure("Connection refused"))
    case TimedOut => Failure(HttpFailure("The connection has timed out"))
    case Answered(status, body) =>
      if status >= 300 then Success(NotOk(status))
      else
        match r.mapper(body)
        case Failure(e) => Failure(MapperFailed(e))
        case Success(v) => Success(Ok(v))
  }

  /** `Response.orElse(default)`. */
  function OrElse<T>(r: Response<T>, default: T): T {
    match r
    case Ok(v) => v
    case NotOk(_) => default
  }
}
