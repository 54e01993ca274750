# LaserChat signup validators and bearer-header helper, in Dafny

LaserChat is a three-service demo: login, chat and a gateway. This project
models the parts that hold sequential logic of their own:

- the two signup validators of the login service, `validate_signup_body` and
  `check_if_user_already_exists` (`login/helper.py`);
- the chat service's `get_user_from_jwt` (`chat/helper.py`). It rejects a
  request that has no `Authorization` header. Otherwise it takes the
  token out of the header with `split(" ")[1]`.

All three are pure: they read a request body, a list of stored users or a
header value and change nothing. So the model is made of functions and lemmas:

- `python.dfy` (module `Python`): the part of Python's data model these
  helpers rely on. It has `None`, the exceptions they can raise, JSON scalar
  values, `dict.get` and `==`.
- `pystr.dfy` (module `PyStr`): `str.split(" ")`, its inverse `" ".join`, and
  how a string splits at its first space.
- `login.dfy` (module `LoginHelper`): the two validators. The source returns
  untyped lists (`[True]`, `[False, key]`, `[False, 'Username']`). The model
  returns tagged results instead: `SignupCheck` (`Complete | Missing(key)`) and
  `UserLookup` (`Available | Taken(Username | Email)`). `Label` gives the
  strings the source reports for each field.
- `chat.dfy` (module `ChatHelper`): token extraction and `get_user_from_jwt`.

Modelling choices:

- **Exceptions are results.** When the source raises, the model returns
  `Raises(...)` rather than requiring the case away. `validate_signup_body(None)`
  returns `Raises(AttributeError)` because `None.keys()` fails. A header with no
  space returns `Raises(IndexError)` because the split has no index 1.
- **`.get` and stored nulls.** `user.get(k)` is `Get`. It gives `Null` both for
  an absent key and for a key stored as JSON `null`. So two absent fields match,
  and an absent field matches a stored null.
- **Python `==`.** Equality on values is `Equal`. As in Python, `True == 1` and
  `False == 0`; any other pair is equal only when both values are the same.
- **Falling off the end.** After taking the token, `get_user_from_jwt` reaches
  the end of its body and returns `None`. The model returns `Returns(None)` and
  discards the token, just as the code does. `BearerToken` is the token
  expression on its own, so its properties can be stated directly.
- **Read-only arguments.** Neither validator changes `data` or `users`. The
  model gets this for free: both are Dafny functions, which cannot change state.
- **Header input.** `get_user_from_jwt` is given the value that
  `headers.get('Authorization')` returned, as an `Option<string>`.

## Model

| member | source | states |
|---|---|---|
| `Python.EqualIsEquivalence` | login/helper.py:23-25 | The `==` used to compare user fields is reflexive, symmetric and transitive. It is equality of values, except that a boolean equals the integer it stands for. |
| `PyStr.Split` | chat/helper.py:7 | `split(" ")` returns one more segment than the string has spaces, and no segment contains a space. |
| `PyStr.SpacesCounted` | chat/helper.py:7 | A string has no spaces exactly when its space count is zero. So `split(" ")` returns a single segment exactly when the string has no space. |
| `PyStr.SplitAtFirstSpace` | chat/helper.py:7 | The first segment is the text before the first space. The remaining segments are the split of the text after that space. With no space, the whole string is the only segment. |
| `PyStr.JoinSplit` | chat/helper.py:7 | Round trip: joining the segments with single spaces gives back the original string. |
| `PyStr.SplitJoin` | chat/helper.py:7 | Round trip the other way: segments that contain no space come back unchanged when their join is split. |
| `LoginHelper.FirstMissing` | login/helper.py:16-18 | The scan over the key list returns no index exactly when every key is present. Otherwise it returns the index of a missing key, and every key before that index is present. |
| `LoginHelper.ValidateSignupBody` | login/helper.py:13-19 | A `None` body raises `AttributeError`, and only a `None` body does. A body is `Complete` exactly when `email`, `username` and `password` are all keys. A reported key is one of those three and is missing from the body. `username` is reported only when `email` is present, and `password` only when both others are present. |
| `LoginHelper.MissingDetermined` | login/helper.py:16-19 | Reference decision list: the result is `Missing("email")`, `Missing("username")` or `Missing("password")` for the first absent key in that order, or `Complete` when none is absent. |
| `LoginHelper.OnlyKeysMatter` | login/helper.py:16-19 | Two bodies with the same required keys present get the same verdict, whatever their values (even empty strings) and extra keys. |
| `LoginHelper.FirstMissingReported` | login/helper.py:16-18 | A body that has `email` but lacks both `username` and `password` is reported as missing `username`. |
| `LoginHelper.ScanUsers` | login/helper.py:22-27 | Scanning `users[from..]` gives `Available` exactly when no user there clashes on username or email. Otherwise it reports the field of the earliest clashing user, checking username before email. |
| `LoginHelper.CheckIfUserAlreadyExists` | login/helper.py:21-27 | The result is `Available` exactly when no stored user has a `username` or `email` equal (via `.get`) to the data's. In particular an empty user list gives `Available`. Otherwise the earliest clashing user decides, with username taking precedence over email. |
| `LoginHelper.EarliestClashDecides` | login/helper.py:22-26 | If user `i` clashes and no earlier user does, the result is `Taken` of that user's field, whatever the later users hold. |
| `LoginHelper.AppendUsers` | login/helper.py:22-27 | Appending users after a list that already has a clash leaves the answer unchanged. Appending users after a list with no clash gives the verdict of the appended users alone. |
| `LoginHelper.AbsentFieldsClash` | login/helper.py:23-24 | A stored first user with no username (absent or `null`) makes any signup that also lacks a username report `Username`. |
| `LoginHelper.UsernameBeforeEmail` | login/helper.py:23-26 | Take a first user whose email matches. The result is `Username` if that user's username also matches, and `Email` otherwise, even when a later user matches on username. |
| `ChatHelper.BearerToken` | chat/helper.py:7 | `split(" ")[1]` raises `IndexError` exactly when the header has no space. A token it returns contains no space and is shorter than the header. |
| `ChatHelper.TokenBetweenSpaces` | chat/helper.py:7 | For a header with a space, the token is the text between the first and the second space, or up to the end when there is no second space. |
| `ChatHelper.SchemeIgnored` | chat/helper.py:7 | Any space-free first word followed by a space and a space-free token gives that token, if nothing or a space comes next. The scheme word is not checked. |
| `ChatHelper.TokenEnds` | chat/helper.py:7 | A space-free token followed by nothing or by a space ends where its first space is found. |
| `ChatHelper.BearerExamples` | chat/helper.py:7 | `"Bearer abc"` gives `"abc"`, `"Bearer abc def"` gives `"abc"`, `"Bearer  abc"` gives `""`, and `"Bearer"` raises `IndexError`. |
| `ChatHelper.GetUserFromJwt` | chat/helper.py:3-7 | An absent or empty header returns the 401 `Token is missing` response. Any other header raises `IndexError` exactly when it has no space, and otherwise returns `None`. No other result is possible. |

## Left out

- `load_temp_db` and `write_temp_db` (login/helper.py:4-11): they read and write a JSON file.
- gateway/helper.py and gateway/gateway-app.py are not part of this model. They load configuration from `.env` and make HTTP calls through `requests`. The gateway's `authenticate_request` and `message` are empty stubs, so there is no token validation, `UserID` forwarding or status mapping to model.
- Flask route handlers in login/login-app.py and chat/chat-app.py: they only return constant strings for each HTTP method.
- `jsonify` is a Flask response object. It is modelled as a plain (message, status) pair.
- `ChatHelper.GetUserFromJwt`: it takes the value `headers.get('Authorization')` returned, not the headers object. Werkzeug's case-insensitive header-name lookup is foreign code.
- Dictionary values are JSON scalars (null, booleans, integers, strings). Floats (where Python has `1 == 1.0`) and nested lists or objects are not modelled.
- `LoginHelper.ValidateSignupBody`: a body that is neither a dict nor `None` (for example a JSON list) is not modelled. In the source that would also raise on `.keys()`.
