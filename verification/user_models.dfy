/** The custom user model of the Django backend: accounts are identified
    by a unique email address; the manager creates ordinary users and
    superusers; a user's short name and initials are derived from the
    name. */
module UserModels {
  import opened Wrappers
  import opened Text

  datatype User = User(
    id: nat,
    email: string,
    name: string,
    passwordHash: string,
    isStaff: bool,
    isSuperuser: bool,
    isActive: bool)

  /** The flags a caller may pass to the manager; `None` is a flag that
      was not passed. */
  datatype ExtraFields = ExtraFields(isStaff: Option<bool>, isSuperuser: Option<bool>, isActive: Option<bool>)

  const NoExtraFields: ExtraFields := ExtraFields(None, None, None)

  const EmailRequired: string := "The Email field must be set"
  const StaffRequired: string := "Superuser must have is_staff=True."
  const SuperuserRequired: string := "Superuser must have is_superuser=True."

  /** A flag's value, or `default` when it was not passed. */
  function FlagOr(flag: Option<bool>, default: bool): bool {
    if flag.Some? then flag.value else default
  }

  /** `create_superuser`'s handling of the flags: each of the three
      defaults to true, and an explicit value other than true for the staff
      or the superuser flag is refused, the staff flag first. */
  function SuperuserFields(extra: ExtraFields): (r: Result<ExtraFields>)
    ensures r.Ok? <==> extra.isStaff != Some(false) && extra.isSuperuser != Some(false)
    ensures r.Ok? ==> r.value.isStaff == Some(true) && r.value.isSuperuser == Some(true)
    ensures r.Ok? ==> r.value.isActive == Some(extra.isActive.Some? ==> extra.isActive.value)
    ensures extra.isStaff == Some(false) ==> r == Err(ValueError(StaffRequired))
    ensures extra.isStaff != Some(false) && extra.isSuperuser == Some(false) ==> r == Err(ValueError(SuperuserRequired))
  {
    var staff := FlagOr(extra.isStaff, true);
    var superuser := FlagOr(extra.isSuperuser, true);
    var active := FlagOr(extra.isActive, true);
    if !staff then Err(ValueError(StaffRequired))
    else if !superuser then Err(ValueError(SuperuserRequired))
    else Ok(ExtraFields(Some(staff), Some(superuser), Some(active)))
  }

  /** Some account in `users` has this email. */
  predicate EmailTaken(users: seq<User>, email: string) {
    exists i | 0 <= i < |users| :: users[i].email == email
  }

  class UserTable {
    var users: seq<User>
    var nextId: nat

    /** Email is the login identifier: no two accounts share one. */
    ghost predicate Valid()
      reads this
    {
      && (forall i, j | 0 <= i < j < |users| :: users[i].email != users[j].email && users[i].id != users[j].id)
      && (forall i | 0 <= i < |users| :: users[i].id < nextId)
    }

    constructor ()
      ensures Valid() && users == []
    {
      users, nextId := [], 0;
    }

    /** `UserManager.create_user`: an empty email is refused before
        anything else; otherwise the normalized email, the name, the hashed
        password and the flags are stored as a new account. An email that
        another account already has is refused by the unique column.
        `normalize` and `hash` stand for the framework's email
        normalization and password hashing (`None` is no password, which
        hashes to an unusable one). */
    method CreateUser(email: string, name: string, password: Option<string>, extra: ExtraFields,
                      normalize: string -> string, hash: Option<string> -> string) returns (r: Result<User>)
      requires Valid()
      modifies this
      ensures Valid()
      ensures email == "" ==> r == Err(ValueError(EmailRequired)) && users == old(users)
      ensures email != "" ==>
        if EmailTaken(old(users), normalize(email)) then
          r == Err(Conflict("email")) && users == old(users)
        else
          && r == Ok(User(old(nextId), normalize(email), name, hash(password),
                          FlagOr(extra.isStaff, false), FlagOr(extra.isSuperuser, false), FlagOr(extra.isActive, true)))
          && users == old(users) + [r.value]
      ensures r.Err? ==> users == old(users)
    {
      if email == "" {
        return Err(ValueError(EmailRequired));
      }
      var e := normalize(email);
      var user := User(nextId, e, name, hash(password),
                       FlagOr(extra.isStaff, false), FlagOr(extra.isSuperuser, false), FlagOr(extra.isActive, true));
      var i := 0;
      while i < |users|
        invariant 0 <= i <= |users|
        invariant forall k | 0 <= k < i :: users[k].email != e
      {
        if users[i].email == e {
          return Err(Conflict("email"));
        }
        i := i + 1;
      }
      users := users + [user];
      nextId := nextId + 1;
      r := Ok(user);
    }

    /** `UserManager.create_superuser`: the flags are checked and defaulted
        by `SuperuserFields`, then the account is created as by
        `CreateUser`; a successful result is staff and superuser. */
    method CreateSuperuser(email: string, name: string, password: Option<string>, extra: ExtraFields,
                           normalize: string -> string, hash: Option<string> -> string) returns (r: Result<User>)
      requires Valid()
      modifies this
      ensures Valid()
      ensures SuperuserFields(extra).Err? ==> r == Err(SuperuserFields(extra).error) && users == old(users)
      ensures SuperuserFields(extra).Ok? && email == "" ==> r == Err(ValueError(EmailRequired)) && users == old(users)
      ensures SuperuserFields(extra).Ok? && email != "" ==>
        if EmailTaken(old(users), normalize(email)) then
          r == Err(Conflict("email")) && users == old(users)
        else
          && r == Ok(User(old(nextId), normalize(email), name, hash(password), true, true, FlagOr(extra.isActive, true)))
          && users == old(users) + [r.value]
      ensures r.Ok? ==> r.value.isStaff && r.value.isSuperuser && r.value.isActive == FlagOr(extra.isActive, true)
      ensures r.Ok? ==> r.value.email == normalize(email) && users == old(users) + [r.value]
      ensures r.Err? ==> users == old(users)
    {
      var fields := SuperuserFields(extra);
      if fields.Err? {
        return Err(fields.error);
      }
      r := CreateUser(email, name, password, fields.value, normalize, hash);
    }
  }

  /** `get_short_name`: the first word of the name, or the email when the
      name is empty; a name of only whitespace has no first word and raises
      IndexError. */
  function ShortName(u: User): (r: Result<string>)
    ensures u.name == "" ==> r == Ok(u.email)
    ensures u.name != "" ==> (r == Err(IndexError) <==> AllSpace(u.name))
    ensures u.name != "" && r.Ok? ==> r.value != [] && NoSpace(r.value)
  {
    if u.name == "" then Ok(u.email)
    else
      var words := Words(u.name);
      if words == [] then Err(IndexError) else Ok(words[0])
  }

  /** The first word is the run of non-whitespace that starts where the
      leading whitespace ends. */
  lemma {:induction false} FirstWord(s: string)
    requires !AllSpace(s)
    ensures Words(s) != []
    ensures var t := TrimStart(s); Words(s)[0] == t[..RunLength(t)]
    decreases |s|
  {
    if IsSpace(s[0]) {
      assert !AllSpace(s[1..]) by {
        var k :| 0 <= k < |s| && !IsSpace(s[k]);
        assert s[1..][k - 1] == s[k];
      }
      FirstWord(s[1..]);
    }
  }

  /** The short name of a user with a non-blank name is the name's leading
      word: what follows the leading whitespace, up to the next whitespace
      or the end. */
  lemma ShortNameIsLeadingWord(u: User)
    requires u.name != "" && !AllSpace(u.name)
    ensures ShortName(u).Ok?
    ensures var t := TrimStart(u.name); ShortName(u).value == t[..RunLength(t)]
  {
    FirstWord(u.name);
  }

  /** `initials`: no initials for an empty name; IndexError for a name of
      only whitespace; otherwise the upper-cased first letter of the first
      word, followed, when there are at least two words, by the upper-cased
      first letter of the last word. */
  function Initials(u: User): (r: Result<Option<string>>)
    ensures u.name == "" ==> r == Ok(None)
    ensures u.name != "" ==> (r == Err(IndexError) <==> AllSpace(u.name))
    ensures r.Ok? && u.name != "" ==>
      var words := Words(u.name);
      && r.value.Some?
      && |r.value.value| == (if |words| >= 2 then 2 else 1)
      && r.value.value[0] == UpperChar(words[0][0])
      && r.value.value[|r.value.value| - 1] == UpperChar(words[|words| - 1][0])
  {
    if u.name == "" then Ok(None)
    else
      var words := Words(u.name);
      if words == [] then Err(IndexError)
      else if |words| >= 2 then Ok(Some(Upper([words[0][0], words[|words| - 1][0]])))
      else Ok(Some(Upper([words[0][0]])))
  }

  /** The first initial is the upper-cased first letter of the short name. */
  lemma InitialsStartShortName(u: User)
    requires u.name != "" && !AllSpace(u.name)
    ensures Initials(u).Ok? && ShortName(u).Ok?
    ensures Initials(u).value.Some? && Initials(u).value.value[0] == UpperChar(ShortName(u).value[0])
  {
  }
}
