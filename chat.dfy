/** The bearer-header helper of the chat service (`chat/helper.py`). */
module ChatHelper {
  import opened Python
  import opened PyStr

  /** `jsonify({'message': message}), status`, kept as a plain pair. */
  datatype Response = Response(message: string, status: int)

  /** The rejection for a request without a usable `Authorization` header. */
  const TokenMissing: Response := Response("Token is missing", 401)

  /** `header.split(" ")[1]`: the second space-separated segment; indexing a
      one-segment list raises. */
  function BearerToken(header: string): (r: Outcome<string>)
    ensures r == Raises(IndexError) <==> ' ' !in header
    ensures r.Returns? ==> ' ' !in r.value && |r.value| < |header|
  {
    SpacesCounted(header);
    var parts := Split(header);
    if |parts| < 2 then Raises(IndexError)
    else
      JoinSplit(header);
      SegmentShorter(parts);
      Returns(parts[1])
  }

  /** In a join of at least two segments the second is strictly shorter. */
  lemma SegmentShorter(parts: seq<string>)
    requires |parts| >= 2
    ensures |parts[1]| < |Join(parts)|
  {
    assert Join(parts[1..]) == parts[1] || Join(parts[1..]) == parts[1] + " " + Join(parts[2..]);
  }

  /** The token is the text between the first and the second space, or from
      the first space to the end when there is no second one. */
  lemma {:induction false} TokenBetweenSpaces(header: string)
    requires ' ' in header
    ensures var tail := header[SpaceIndex(header) + 1..];
      BearerToken(header) == Returns(tail[..SpaceIndex(tail)])
  {
    var tail := header[SpaceIndex(header) + 1..];
    SplitAtFirstSpace(header);
    SplitAtFirstSpace(tail);
    assert Split(header)[1] == Split(tail)[0];
    if SpaceIndex(tail) == |tail| {
      assert tail[..SpaceIndex(tail)] == tail;
    }
  }

  /** Any first segment is accepted and discarded: the scheme word is not
      checked. */
  lemma SchemeIgnored(scheme: string, token: string, rest: string)
    requires ' ' !in scheme && ' ' !in token
    requires rest == "" || rest[0] == ' '
    ensures BearerToken(scheme + " " + token + rest) == Returns(token)
  {
    var tail := token + rest;
    var header := scheme + " " + tail;
    assert scheme + " " + token + rest == header;
    SpaceFirstAt(scheme, tail);
    assert header[|scheme| + 1..] == tail;
    TokenEnds(token, rest);
    assert tail[..|token|] == token;
    TokenBetweenSpaces(header);
  }

  /** A space-free `token` followed by nothing or by a space ends at the
      first space of `token + rest`. */
  lemma TokenEnds(token: string, rest: string)
    requires ' ' !in token
    requires rest == "" || rest[0] == ' '
    ensures SpaceIndex(token + rest) == |token|
  {
    if |rest| == 0 {
      assert token + rest == token;
    } else {
      var after := rest[1..];
      assert rest == " " + after;
      assert token + rest == token + " " + after;
      SpaceFirstAt(token, after);
    }
  }

  lemma BearerExamples()
    ensures BearerToken("Bearer abc") == Returns("abc")
    ensures BearerToken("Bearer abc def") == Returns("abc")
    ensures BearerToken("Bearer  abc") == Returns("")
    ensures BearerToken("Bearer") == Raises(IndexError)
  {
    SchemeIgnored("Bearer", "abc", "");
    assert "Bearer abc" == "Bearer" + " " + "abc" + "";
    SchemeIgnored("Bearer", "abc", " def");
    assert "Bearer abc def" == "Bearer" + " " + "abc" + " def";
    SchemeIgnored("Bearer", "", " abc");
    assert "Bearer  abc" == "Bearer" + " " + "" + " abc";
  }

  /** `get_user_from_jwt(headers)`, given the value `headers.get('Authorization')`:
      an absent or empty header is rejected with 401; otherwise the token is
      extracted (raising when the header has no space) and the function
      returns `None`. */
  function GetUserFromJwt(authorization: Option<string>): (r: Outcome<Option<Response>>)
    ensures authorization.None? || authorization == Some("") ==> r == Returns(Some(TokenMissing))
    ensures authorization.Some? && authorization.value != "" ==>
      (r == Raises(IndexError) <==> ' ' !in authorization.value)
    ensures authorization.Some? && authorization.value != "" && ' ' in authorization.value ==>
      r == Returns(None)
    ensures r == Returns(Some(TokenMissing)) || r == Returns(None) || r == Raises(IndexError)
  {
    if authorization.None? || authorization.value == "" then Returns(Some(TokenMissing))
    else
      match BearerToken(authorization.value)
      case Raises(e) => Raises(e)
      case Returns(_) => Returns(None)
  }
}
