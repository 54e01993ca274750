/** The signup validators of the login service (`login/helper.py`). Both only
    read their arguments: they are functions of the request body and the
    stored user list. */
module LoginHelper {
  import opened Python

  /** The keys a signup body must carry, in the order they are checked. */
  const RequiredKeys: seq<string> := ["email", "username", "password"]

  /** The result of `validate_signup_body`: `[True]` or `[False, key]`. */
  datatype SignupCheck = Complete | Missing(key: string)

  /** The first of `keys[from..]` that is not a key of `body`, scanning in
      order as the source's `for` loop does. */
  function FirstMissing(keys: seq<string>, body: Dict, from: nat): (r: Option<nat>)
    requires from <= |keys|
    decreases |keys| - from
    ensures r.None? <==> forall i :: from <= i < |keys| ==> keys[i] in body
    ensures r.Some? ==> from <= r.value < |keys| && keys[r.value] !in body
    ensures r.Some? ==> forall i :: from <= i < r.value ==> keys[i] in body
  {
    if from == |keys| then None
    else if keys[from] !in body then Some(from)
    else FirstMissing(keys, body, from + 1)
  }

  /** `validate_signup_body(data)`: the first required key, in the order
      email, username, password, that `data` lacks; `None.keys()` raises. */
  function ValidateSignupBody(data: Option<Dict>): (r: Outcome<SignupCheck>)
    ensures data.None? <==> r == Raises(AttributeError)
    ensures data.Some? ==>
      (r == Returns(Complete) <==> forall k :: k in RequiredKeys ==> k in data.value)
    ensures r.Returns? && r.value.Missing? ==>
      r.value.key in RequiredKeys && data.Some? && r.value.key !in data.value
    ensures r == Returns(Missing("username")) ==> "email" in data.value
    ensures r == Returns(Missing("password")) ==>
      "email" in data.value && "username" in data.value
  {
    match data
    case None => Raises(AttributeError)
    case Some(body) =>
      match FirstMissing(RequiredKeys, body, 0)
      case None => Returns(Complete)
      case Some(i) => Returns(Missing(RequiredKeys[i]))
  }

  /** Only which keys are present matters: values (even empty strings) and
      extra keys do not change the verdict. */
  lemma OnlyKeysMatter(a: Dict, b: Dict)
    requires forall k :: k in RequiredKeys ==> (k in a <==> k in b)
    ensures ValidateSignupBody(Some(a)) == ValidateSignupBody(Some(b))
  {
    assert forall i :: 0 <= i < |RequiredKeys| ==> RequiredKeys[i] in RequiredKeys;
    MissingDetermined(a);
    MissingDetermined(b);
  }

  /** The verdict as a reference decision list over the three keys. */
  lemma MissingDetermined(body: Dict)
    ensures ValidateSignupBody(Some(body)) ==
      if "email" !in body then Returns(Missing("email"))
      else if "username" !in body then Returns(Missing("username"))
      else if "password" !in body then Returns(Missing("password"))
      else Returns(Complete)
  {
    assert RequiredKeys[0] == "email" && RequiredKeys[1] == "username" && RequiredKeys[2] == "password";
  }

  /** A body lacking both username and password reports `username`. */
  lemma FirstMissingReported(body: Dict)
    requires "email" in body && "username" !in body && "password" !in body
    ensures ValidateSignupBody(Some(body)) == Returns(Missing("username"))
  {
    MissingDetermined(body);
  }

  /** The field `check_if_user_already_exists` reports as taken. */
  datatype Field = Username | Email

  /** The result of `check_if_user_already_exists`: `[True]` or
      `[False, 'Username']` / `[False, 'Email']`. */
  datatype UserLookup = Available | Taken(field: Field)

  /** The string the source reports for a taken field. */
  function Label(f: Field): string
  {
    match f
    case Username => "Username"
    case Email => "Email"
  }

  /** `user.get(key) == data.get(key)`. */
  predicate SameField(user: Dict, data: Dict, key: string)
  {
    Equal(Get(user, key), Get(data, key))
  }

  /** A stored user clashes with the new data on username or email. */
  predicate Clashes(user: Dict, data: Dict)
  {
    SameField(user, data, "username") || SameField(user, data, "email")
  }

  /** What one user contributes when reached by the scan: username first. */
  function Verdict(user: Dict, data: Dict): Field
  {
    if SameField(user, data, "username") then Username else Email
  }

  /** The scan of `users[from..]`: the result for the first clashing user. */
  function ScanUsers(users: seq<Dict>, data: Dict, from: nat): (r: UserLookup)
    requires from <= |users|
    decreases |users| - from
    ensures r == Available <==> forall i :: from <= i < |users| ==> !Clashes(users[i], data)
    ensures r.Taken? ==> exists i :: (from <= i < |users| && Clashes(users[i], data)
      && r.field == Verdict(users[i], data)
      && forall j :: from <= j < i ==> !Clashes(users[j], data))
  {
    if from == |users| then Available
    else if SameField(users[from], data, "username") then Taken(Username)
    else if SameField(users[from], data, "email") then Taken(Email)
    else ScanUsers(users, data, from + 1)
  }

  /** `check_if_user_already_exists(users, data)`: the earliest stored user
      that clashes with `data` decides, and within one user a username match
      wins over an email match; with no clash the name is available. */
  function CheckIfUserAlreadyExists(users: seq<Dict>, data: Dict): (r: UserLookup)
    ensures r == Available <==> forall i :: 0 <= i < |users| ==> !Clashes(users[i], data)
    ensures r.Taken? ==> exists i :: (0 <= i < |users| && Clashes(users[i], data)
      && r.field == Verdict(users[i], data)
      && forall j :: 0 <= j < i ==> !Clashes(users[j], data))
  {
    ScanUsers(users, data, 0)
  }

  /** The result is determined by the earliest clashing user alone, whatever
      later users hold. */
  lemma EarliestClashDecides(users: seq<Dict>, data: Dict, i: nat)
    requires i < |users| && Clashes(users[i], data)
    requires forall j :: 0 <= j < i ==> !Clashes(users[j], data)
    ensures CheckIfUserAlreadyExists(users, data) == Taken(Verdict(users[i], data))
  {
    var r := CheckIfUserAlreadyExists(users, data);
    assert r != Available;
    var w :| 0 <= w < |users| && Clashes(users[w], data)
      && r.field == Verdict(users[w], data)
      && forall j :: 0 <= j < w ==> !Clashes(users[j], data);
    assert w == i;
  }

  /** Users appended after a clash are never looked at; after a list with no
      clash, the appended users decide. */
  lemma {:induction false} AppendUsers(users: seq<Dict>, more: seq<Dict>, data: Dict)
    ensures CheckIfUserAlreadyExists(users + more, data) ==
      if CheckIfUserAlreadyExists(users, data).Taken?
      then CheckIfUserAlreadyExists(users, data)
      else CheckIfUserAlreadyExists(more, data)
  {
    var all := users + more;
    if CheckIfUserAlreadyExists(users, data).Taken? {
      var i :| 0 <= i < |users| && Clashes(users[i], data)
        && CheckIfUserAlreadyExists(users, data).field == Verdict(users[i], data)
        && forall j :: 0 <= j < i ==> !Clashes(users[j], data);
      assert all[i] == users[i];
      assert forall j :: 0 <= j < i ==> all[j] == users[j];
      EarliestClashDecides(all, data, i);
    } else {
      assert forall j :: 0 <= j < |more| ==> all[|users| + j] == more[j];
      if CheckIfUserAlreadyExists(more, data).Taken? {
        var i :| 0 <= i < |more| && Clashes(more[i], data)
          && CheckIfUserAlreadyExists(more, data).field == Verdict(more[i], data)
          && forall j :: 0 <= j < i ==> !Clashes(more[j], data);
        assert forall j :: 0 <= j < |users| ==> all[j] == users[j];
        forall j | 0 <= j < |users| + i ensures !Clashes(all[j], data) {
          if j >= |users| { assert all[j] == more[j - |users|]; }
        }
        EarliestClashDecides(all, data, |users| + i);
      } else {
        forall j | 0 <= j < |all| ensures !Clashes(all[j], data) {
          if j < |users| { assert all[j] == users[j]; }
          else { assert all[j] == more[j - |users|]; }
        }
      }
    }
  }

  /** Because lookups use `.get`, a field absent (or stored as `null`) on both
      sides counts as a match: a stored user without a username blocks every
      signup that also lacks one. */
  lemma AbsentFieldsClash(user: Dict, rest: seq<Dict>, data: Dict)
    requires Get(user, "username") == Null && "username" !in data
    ensures CheckIfUserAlreadyExists([user] + rest, data) == Taken(Username)
  {
    assert ([user] + rest)[0] == user;
    EarliestClashDecides([user] + rest, data, 0);
  }

  /** A username match takes precedence over an email match on the same user,
      even when a later user matches on username. */
  lemma UsernameBeforeEmail(user: Dict, rest: seq<Dict>, data: Dict)
    requires SameField(user, data, "email")
    ensures CheckIfUserAlreadyExists([user] + rest, data) ==
      Taken(if SameField(user, data, "username") then Username else Email)
  {
    assert ([user] + rest)[0] == user;
    EarliestClashDecides([user] + rest, data, 0);
  }
}
