/**
 * The request guard every controller inherits: it extracts a bearer token from
 * the `Authorization` header, decodes it, looks up the user it names, and
 * either binds that user for the action or answers 401. Any other unhandled
 * error of a request is answered by one fixed 500 response.
 *
 * Token decoding (signature, expiry, secret) and the user lookup are not
 * visible here: the decoder is a parameter and the users are a map from id to
 * user.
 */
module Application {
  import opened Wrappers

  type UserId = int

  /** A decoded token; `userId` is None when the payload has no `user_id`. */
  datatype Payload = Payload(userId: Option<UserId>)

  const Unauthorized: int := 401
  const InternalServerError: int := 500

  const InvalidOrMissingToken: string := "Invalid or missing token"
  const UserNotFound: string := "User not found"
  const InternalServerErrorMessage: string := "Internal Server Error"

  /** A rendered JSON response `{error: error}` with its HTTP status. */
  datatype Response = Response(status: int, error: string)

  /** The outcome of the gate: the action proceeds with a user, or a response halts the request. */
  datatype Gate<U> = Proceed(user: U) | Halt(response: Response)

  // Header splitting: Ruby's `split` with no argument

  /** The characters `split` treats as separators. */
  predicate IsSpace(c: char)
  {
    c == ' ' || c == '\t' || c == '\n' || c == '\r' || c == '\U{000C}' || c == '\U{000B}'
  }

  predicate NoSpace(w: string)
  {
    forall i :: 0 <= i < |w| ==> !IsSpace(w[i])
  }

  predicate AllSpace(w: string)
  {
    forall i :: 0 <= i < |w| ==> IsSpace(w[i])
  }

  /** A word: a non-empty run of non-separator characters. */
  predicate IsWord(w: string)
  {
    w != [] && NoSpace(w)
  }

  /**
   * Splits `s` into words, left to right, with `current` the word read so far:
   * separators end a word, runs of separators and leading or trailing ones
   * produce no empty words.
   */
  function SplitFrom(s: string, current: string): (words: seq<string>)
    requires NoSpace(current)
    ensures forall i :: 0 <= i < |words| ==> IsWord(words[i])
    ensures current != [] ==> words != []
    decreases |s|
  {
    if s == [] then
      if current == [] then [] else [current]
    else if IsSpace(s[0]) then
      if current == [] then SplitFrom(s[1..], []) else [current] + SplitFrom(s[1..], [])
    else
      SplitFrom(s[1..], current + [s[0]])
  }

  function Split(s: string): (words: seq<string>)
    ensures forall i :: 0 <= i < |words| ==> IsWord(words[i])
  {
    SplitFrom(s, [])
  }

  /** The words one after the other, with nothing between them. */
  function Concat(words: seq<string>): string
  {
    if words == [] then [] else words[0] + Concat(words[1..])
  }

  /** The characters of `s` that are not separators, in order. */
  function NonSeparators(s: string): string
  {
    if s == [] then [] else (if IsSpace(s[0]) then [] else [s[0]]) + NonSeparators(s[1..])
  }

  lemma {:induction false} SplitFromKeepsCharacters(s: string, current: string)
    requires NoSpace(current)
    ensures Concat(SplitFrom(s, current)) == current + NonSeparators(s)
    decreases |s|
  {
    if s == [] {
      assert current + [] == current;
      if current != [] {
        ConcatOfOne(current);
      }
    } else if IsSpace(s[0]) {
      assert NonSeparators(s) == NonSeparators(s[1..]);
      SplitFromKeepsCharacters(s[1..], []);
      if current != [] {
        ConcatOfCons(current, SplitFrom(s[1..], []));
      }
    } else {
      assert NonSeparators(s) == [s[0]] + NonSeparators(s[1..]);
      SplitFromKeepsCharacters(s[1..], current + [s[0]]);
    }
  }

  lemma ConcatOfOne(w: string)
    ensures Concat([w]) == w
  {
    assert Concat([w]) == w + Concat([]);
  }

  lemma ConcatOfCons(w: string, rest: seq<string>)
    ensures Concat([w] + rest) == w + Concat(rest)
  {
    assert ([w] + rest)[1..] == rest;
  }

  /** Splitting loses no character but the separators: the words put together are the header without them. */
  lemma SplitKeepsNonSeparators(s: string)
    ensures Concat(Split(s)) == NonSeparators(s)
  {
    SplitFromKeepsCharacters(s, []);
    assert [] + NonSeparators(s) == NonSeparators(s);
  }

  /** `extract_token_from_header`: the last word of the header, if there is a header and a word in it. */
  function ExtractToken(header: Option<string>): (token: Option<string>)
    ensures token.Some? ==> header.Some? && IsWord(token.value)
  {
    match header
    case None => None
    case Some(h) =>
      var words := Split(h);
      if words == [] then None else Some(words[|words| - 1])
  }

  // An independent description of the last word, read from the end of the header

  /** `s` without its trailing separators. */
  function TrimEnd(s: string): (r: string)
    decreases |s|
  {
    if s != [] && IsSpace(s[|s| - 1]) then TrimEnd(s[..|s| - 1]) else s
  }

  /** The longest suffix of `s` without separators. */
  function TrailingRun(s: string): (r: string)
    decreases |s|
  {
    if s != [] && !IsSpace(s[|s| - 1]) then TrailingRun(s[..|s| - 1]) + [s[|s| - 1]] else []
  }

  /** The last word of a header: after dropping trailing separators, the characters back to the previous separator. */
  function LastWord(h: string): Option<string>
  {
    var t := TrailingRun(TrimEnd(h));
    if t == [] then None else Some(t)
  }

  /** `p` is empty or ends with a separator: a word may start right after it. */
  predicate WordBoundary(p: string)
  {
    p == [] || IsSpace(p[|p| - 1])
  }

  /** `text` is `p`, then the word `w`, then trailing separators `q`, with `w` starting at a word boundary. */
  predicate EndsWithWord(text: string, p: string, w: string, q: string)
  {
    text == p + w + q && WordBoundary(p) && AllSpace(q)
  }

  lemma PrefixKeepsLastWord(pre: string, text: string, p: string, w: string, q: string)
    requires WordBoundary(pre) && EndsWithWord(text, p, w, q)
    ensures EndsWithWord(pre + text, pre + p, w, q)
  {
    assert pre + text == (pre + p) + w + q;
    if p != [] {
      assert (pre + p)[|pre + p| - 1] == p[|p| - 1];
    }
  }

  /** The last word `SplitFrom` returns sits between a word boundary and trailing separators. */
  lemma {:induction false} SplitFromLastWord(s: string, current: string) returns (p: string, q: string)
    requires NoSpace(current)
    ensures SplitFrom(s, current) == [] ==> current == [] && AllSpace(s)
    ensures var words := SplitFrom(s, current);
      words != [] ==> EndsWithWord(current + s, p, words[|words| - 1], q)
    decreases |s|
  {
    if s == [] {
      p, q := [], [];
      assert current + s == p + current + q;
    } else if IsSpace(s[0]) {
      p, q := SplitAfterSeparator(s, current);
    } else {
      var current' := current + [s[0]];
      assert SplitFrom(s, current) == SplitFrom(s[1..], current');
      p, q := SplitFromLastWord(s[1..], current');
      assert current + s == current' + s[1..];
    }
  }

  /** The step of `SplitFromLastWord` at a separator. */
  lemma {:induction false} SplitAfterSeparator(s: string, current: string) returns (p: string, q: string)
    requires NoSpace(current) && s != [] && IsSpace(s[0])
    ensures SplitFrom(s, current) == [] ==> current == [] && AllSpace(s)
    ensures var words := SplitFrom(s, current);
      words != [] ==> EndsWithWord(current + s, p, words[|words| - 1], q)
    decreases |s|, 0
  {
    var rest := SplitFrom(s[1..], []);
    SplitFromAtSeparator(s, current);
    var p', q' := SplitFromLastWord(s[1..], []);
    if rest == [] {
      SeparatorThenSeparators(s);
      p, q := [], s;
      assert current + s == p + current + q;
    } else {
      assert [] + s[1..] == s[1..];
      p, q := ExtendLastWord(current, s, p', rest[|rest| - 1], q');
      if current != [] {
        LastOfCons(current, rest);
      }
    }
  }

  lemma SplitFromAtSeparator(s: string, current: string)
    requires NoSpace(current) && s != [] && IsSpace(s[0])
    ensures SplitFrom(s, current) ==
      if current == [] then SplitFrom(s[1..], []) else [current] + SplitFrom(s[1..], [])
  {
  }

  lemma ExtendLastWord(current: string, s: string, p': string, w: string, q': string) returns (p: string, q: string)
    requires s != [] && IsSpace(s[0]) && EndsWithWord(s[1..], p', w, q')
    ensures EndsWithWord(current + s, p, w, q)
  {
    var pre := current + [s[0]];
    assert current + s == pre + s[1..];
    PrefixKeepsLastWord(pre, s[1..], p', w, q');
    p, q := pre + p', q';
  }

  lemma SeparatorThenSeparators(s: string)
    requires s != [] && IsSpace(s[0]) && AllSpace(s[1..])
    ensures AllSpace(s)
  {
    forall i | 1 <= i < |s| ensures IsSpace(s[i]) {
      assert s[i] == s[1..][i - 1];
    }
  }

  lemma LastOfCons(w: string, rest: seq<string>)
    requires rest != []
    ensures ([w] + rest)[|rest|] == rest[|rest| - 1]
  {
  }

  lemma {:induction false} TrimEndDropsSeparators(w: string, q: string)
    requires w != [] && !IsSpace(w[|w| - 1])
    requires AllSpace(q)
    ensures TrimEnd(w + q) == w
    decreases |q|
  {
    if q != [] {
      var q' := q[..|q| - 1];
      assert (w + q)[..|w + q| - 1] == w + q';
      TrimEndDropsSeparators(w, q');
    } else {
      assert w + q == w;
    }
  }

  lemma {:induction false} TrailingRunAfterBoundary(p: string, t: string)
    requires WordBoundary(p) && NoSpace(t)
    ensures TrailingRun(p + t) == t
    decreases |t|
  {
    if t == [] {
      assert p + t == p;
    } else {
      var t' := t[..|t| - 1];
      assert (p + t)[..|p + t| - 1] == p + t';
      TrailingRunAfterBoundary(p, t');
      assert t' + [t[|t| - 1]] == t;
    }
  }

  lemma {:induction false} TrimEndOfSpaces(s: string)
    requires AllSpace(s)
    ensures TrimEnd(s) == []
    decreases |s|
  {
    if s != [] {
      TrimEndOfSpaces(s[..|s| - 1]);
    }
  }

  /** The token `split.last` picks is exactly the last word read from the end of the header. */
  lemma ExtractTokenIsLastWord(h: string)
    ensures ExtractToken(Some(h)) == LastWord(h)
  {
    var words := Split(h);
    var p, q := SplitFromLastWord(h, []);
    if words == [] {
      TrimEndOfSpaces(h);
    } else {
      var w := words[|words| - 1];
      assert [] + h == h;
      assert h == (p + w) + q;
      TrimEndDropsSeparators(p + w, q);
      TrailingRunAfterBoundary(p, w);
    }
  }

  /** No header, or one without a word, yields no token; otherwise some token. */
  lemma NoTokenIffBlank(header: Option<string>)
    ensures ExtractToken(header).None? <==> header.None? || AllSpace(header.value)
  {
    if header.Some? {
      var h := header.value;
      var p, q := SplitFromLastWord(h, []);
      var words := Split(h);
      if words != [] {
        var w := words[|words| - 1];
        assert h == p + w + q;
        assert h[|p|] == w[0];
      }
    }
  }

  /** A word that follows a word boundary and ends the header is the token. */
  lemma WordAtEndIsToken(p: string, token: string)
    requires WordBoundary(p) && IsWord(token)
    ensures ExtractToken(Some(p + token)) == Some(token)
  {
    var h := p + token;
    ExtractTokenIsLastWord(h);
    TrimEndDropsSeparators(h, []);
    assert h + [] == h;
    TrailingRunAfterBoundary(p, token);
  }

  /** The scheme word is not checked: whatever precedes the last separator is ignored. */
  lemma SchemeIgnored(scheme: string, token: string)
    requires IsWord(token)
    ensures ExtractToken(Some(scheme + " " + token)) == Some(token)
  {
    WordAtEndIsToken(scheme + " ", token);
    assert scheme + " " + token == (scheme + " ") + token;
  }

  /** A one-word header is its own token, and `Bearer a b` yields `b`. */
  lemma HeaderExamples()
    ensures ExtractToken(Some("abc")) == Some("abc")
    ensures ExtractToken(Some("Bearer a b")) == Some("b")
    ensures ExtractToken(Some(" \t ")) == None
  {
    WordAtEndIsToken([], "abc");
    assert [] + "abc" == "abc";
    SchemeIgnored("Bearer a", "b");
    assert "Bearer a" + " " + "b" == "Bearer a b";
    NoTokenIffBlank(Some(" \t "));
  }

  // The gate

  /**
   * `authenticate_user!`: decode the extracted token (absent tokens are
   * passed to the decoder as they are); a payload with a `user_id` that names
   * a user proceeds with that user; a missing payload or `user_id` answers 401
   * "Invalid or missing token"; an unknown user answers 401 "User not found".
   */
  function Authenticate<U>(header: Option<string>, decode: Option<string> -> Option<Payload>, users: map<UserId, U>): (g: Gate<U>)
    ensures g.Halt? ==> g.response.status == Unauthorized
    ensures var payload := decode(ExtractToken(header));
      && (g.Proceed? <==> payload.Some? && payload.value.userId.Some? && payload.value.userId.value in users)
      && (g.Proceed? ==> g.user == users[payload.value.userId.value])
      && (g == Halt(Response(Unauthorized, InvalidOrMissingToken)) <==> payload.None? || payload.value.userId.None?)
      && (g == Halt(Response(Unauthorized, UserNotFound)) <==>
            payload.Some? && payload.value.userId.Some? && payload.value.userId.value !in users)
  {
    var payload := decode(ExtractToken(header));
    if payload.Some? && payload.value.userId.Some? then
      var id := payload.value.userId.value;
      if id in users then Proceed(users[id]) else Halt(Response(Unauthorized, UserNotFound))
    else
      Halt(Response(Unauthorized, InvalidOrMissingToken))
  }

  /** When the decoder rejects an absent token, a request without a usable header never proceeds. */
  lemma BlankHeaderIsRejected<U>(header: Option<string>, decode: Option<string> -> Option<Payload>, users: map<UserId, U>)
    requires header.None? || AllSpace(header.value)
    requires decode(None) == None
    ensures Authenticate(header, decode, users) == Halt(Response(Unauthorized, InvalidOrMissingToken))
  {
    NoTokenIffBlank(header);
  }

  /** Only the token matters: a header with any scheme word before it authenticates as the bare token. */
  lemma GateIgnoresScheme<U>(scheme: string, token: string, decode: Option<string> -> Option<Payload>, users: map<UserId, U>)
    requires IsWord(token)
    ensures Authenticate(Some(scheme + " " + token), decode, users) == Authenticate(Some(token), decode, users)
  {
    SchemeIgnored(scheme, token);
    WordAtEndIsToken([], token);
    assert [] + token == token;
    assert ExtractToken(Some(scheme + " " + token)) == ExtractToken(Some(token));
  }

  // The filter chain and the error handler

  /** The routed controller actions. */
  datatype Action = Register | Login | CoursesIndex | CoursesShow | CoursesCreate

  /** The gate runs before every action except the two the auth controller exempts. */
  predicate SkipsAuthentication(a: Action)
  {
    a == Register || a == Login
  }

  /** `handle_internal_error`: a fixed 500 body, whatever the error said. */
  function HandleInternalError(message: string): (r: Response)
    ensures r.status == InternalServerError
    ensures r.error == InternalServerErrorMessage
  {
    Response(InternalServerError, InternalServerErrorMessage)
  }

  /**
   * A request: the gate (unless the action skips it), then the action's own
   * code, given the bound user (None when the gate was skipped), which renders
   * a response or raises an error with a message; raised errors are rescued
   * into the 500 response.
   */
  function HandleRequest<U>(
    action: Action,
    header: Option<string>,
    decode: Option<string> -> Option<Payload>,
    users: map<UserId, U>,
    body: Option<U> -> Result<Response, string>): (r: Response)
    ensures !SkipsAuthentication(action) && Authenticate(header, decode, users).Halt? ==>
      r == Authenticate(header, decode, users).response
    ensures !SkipsAuthentication(action) && Authenticate(header, decode, users).Proceed? ==>
      var outcome := body(Some(Authenticate(header, decode, users).user));
      r == if outcome.Success? then outcome.value else HandleInternalError(outcome.error)
    ensures SkipsAuthentication(action) ==>
      r == if body(None).Success? then body(None).value else HandleInternalError(body(None).error)
  {
    var user: Option<U> :=
      if SkipsAuthentication(action) then None
      else match Authenticate(header, decode, users)
        case Proceed(u) => Some(u)
        case Halt(_) => None;
    if !SkipsAuthentication(action) && Authenticate(header, decode, users).Halt? then
      Authenticate(header, decode, users).response
    else
      match body(user)
      case Success(response) => response
      case Failure(message) => HandleInternalError(message)
  }

  /** A protected action that the gate halts never runs: its answer does not depend on the action's code. */
  lemma HaltedRequestSkipsAction<U>(
    action: Action,
    header: Option<string>,
    decode: Option<string> -> Option<Payload>,
    users: map<UserId, U>,
    body: Option<U> -> Result<Response, string>,
    otherBody: Option<U> -> Result<Response, string>)
    requires !SkipsAuthentication(action)
    requires Authenticate(header, decode, users).Halt?
    ensures HandleRequest(action, header, decode, users, body) == HandleRequest(action, header, decode, users, otherBody)
    ensures HandleRequest(action, header, decode, users, body).status == Unauthorized
  {
  }

  /** An action that raises is answered with exactly the 500 body, whatever the error's message. */
  lemma RaisedErrorIsOpaque<U>(
    action: Action,
    header: Option<string>,
    decode: Option<string> -> Option<Payload>,
    users: map<UserId, U>,
    body: Option<U> -> Result<Response, string>)
    requires SkipsAuthentication(action) || Authenticate(header, decode, users).Proceed?
    requires forall user :: body(user).Failure?
    ensures HandleRequest(action, header, decode, users, body) == Response(500, "Internal Server Error")
  {
  }

  /** The controller instance of one request: the user the gate binds and the response rendered so far. */
  class ApplicationController<U> {
    var currentUser: Option<U>
    var rendered: Option<Response>

    constructor ()
      ensures currentUser == None && rendered == None
    {
      currentUser := None;
      rendered := None;
    }

    /** `authenticate_user!`: sets the current user, or renders the 401 response and leaves it unset. */
    method AuthenticateUser(header: Option<string>, decode: Option<string> -> Option<Payload>, users: map<UserId, U>)
      modifies this
      ensures match Authenticate(header, decode, users)
        case Proceed(user) => currentUser == Some(user) && rendered == old(rendered)
        case Halt(response) => currentUser == old(currentUser) && rendered == Some(response)
    {
      var token := ExtractToken(header);
      var payload := decode(token);
      if payload.Some? && payload.value.userId.Some? {
        var id := payload.value.userId.value;
        if id in users {
          currentUser := Some(users[id]);
        } else {
          rendered := Some(Response(Unauthorized, UserNotFound));
        }
      } else {
        rendered := Some(Response(Unauthorized, InvalidOrMissingToken));
      }
    }
  }
}
