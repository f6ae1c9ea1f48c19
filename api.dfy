/**
  The user-listing and profile-update endpoints of the REST plugin
  (openedx_plugin_api/api.py), over an abstract in-memory user store.

  The user store, the ORM's `save()`, authentication and HTTP serialisation are
  external; what is modelled is the reply each handler produces and the store
  state it leaves behind. The imported platform helper `email_exists_or_retired`
  is a parameter of the handler.
*/
module Api {
  import opened Wrappers
  import opened Utils

  // ---------------------------------------------------------------------------
  // Replies

  /** The JSON values that appear in request replies. */
  datatype Json =
    | JBool(b: bool)
    | JInt(n: int)
    | JStr(s: string)
    | JArray(items: seq<Json>)
    | JObject(members: map<string, Json>)

  /** A framework `Response`: an HTTP status and a body. */
  datatype Reply = Reply(status: int, body: Json)

  /** Exceptions the handler does not catch; the framework turns them into a server error. */
  datatype Exception =
    | TypeError       // `len(None)`: the validator returned no value
    | AttributeError  // the user object has no `phone_number` attribute

  /** What a request ends in: a reply of the handler, or an exception escaping it. */
  datatype Outcome = Replied(reply: Reply) | Unhandled(error: Exception)

  const HttpOk: int := 200
  const HttpBadRequest: int := 400

  /** A 400 reply with body `{"message": text}`. */
  function BadRequest(text: string): (r: Reply)
    ensures r.status == HttpBadRequest
    ensures r.body.JObject? && r.body.members.Keys == {"message"}
    ensures r.body.members["message"] == JStr(text)
  {
    Reply(HttpBadRequest, JObject(map["message" := JStr(text)]))
  }

  /**
    `ResponseSuccess`: the reply `{"response": {"success": True} ∪ data}`, where
    `dict.update` lets the keys of `data` override `success`. A missing or falsy
    status (`None`, `0`) becomes 200. A missing `data` is the empty map.
  */
  function ResponseSuccess(data: map<string, Json>, httpStatus: Option<int>): (r: Reply)
    ensures r.status == (if httpStatus == None || httpStatus == Some(0) then HttpOk else httpStatus.value)
    ensures r.body.JObject? && r.body.members.Keys == {"response"}
    ensures r.body.members["response"].JObject?
    ensures r.body.members["response"].members.Keys == data.Keys + {"success"}
    ensures forall k :: k in data ==> r.body.members["response"].members[k] == data[k]
    ensures "success" !in data ==> r.body.members["response"].members["success"] == JBool(true)
  {
    var status := if httpStatus.None? || httpStatus.value == 0 then HttpOk else httpStatus.value;
    // {"success": True}, then updated in place with `data`
    var response := map["success" := JBool(true)] + data;
    Reply(status, JObject(map["response" := JObject(response)]))
  }

  // ---------------------------------------------------------------------------
  // The user store

  /** The fields of `user.profile` that the handler reads and writes. */
  datatype Profile = Profile(
    name: string,
    gender: Option<string>,
    yearOfBirth: Option<int>,
    levelOfEducation: Option<string>,
    country: Option<string>,
    phoneNumber: Option<string>)

  /**
    A key of a request's data, or an attribute of an object, which may be absent.
    `GetOr` is Python's `data.get(key, default)`; the default is computed first,
    as Python evaluates arguments before the call.
  */
  datatype Field<+T> = Absent | Present(value: T) {
    function GetOr(default: T): T {
      if Present? then value else default
    }
  }

  /**
    A user record. `phoneNumber` is the user-level attribute `user.phone_number`,
    which a user model need not define; it is distinct from `profile.phoneNumber`.
  */
  datatype User = User(
    id: int,
    username: string,
    email: string,
    isStaff: bool,
    phoneNumber: Field<Option<string>>,
    profile: Profile)

  /** The request data of a profile update: every key but `username` may be absent. */
  datatype UpdateRequest = UpdateRequest(
    username: Field<string>,
    email: Field<string>,
    name: Field<string>,
    isStaff: Field<bool>,
    gender: Field<Option<string>>,
    yearOfBirth: Field<Option<int>>,
    levelOfEducation: Field<Option<string>>,
    country: Field<Option<string>>,
    phoneNumber: Field<Option<string>>)

  /** Every record is stored under its own username. */
  ghost predicate WellKeyed(users: map<string, User>) {
    forall u :: u in users ==> users[u].username == u
  }

  /** No two users share an email. */
  ghost predicate EmailsUnique(users: map<string, User>) {
    forall a, b :: a in users && b in users && a != b ==> users[a].email != users[b].email
  }

  /** `email_exists_or_retired` reports at least every email already in the store. */
  ghost predicate ReportsStoredEmails(users: map<string, User>, emailExistsOrRetired: string -> bool) {
    forall u :: u in users ==> emailExistsOrRetired(users[u].email)
  }

  // ---------------------------------------------------------------------------
  // The user listing (`UsersAPIView.get`)

  /** One entry of the listing: the user's id and, under "name", the username. */
  function Entry(user: User): Json {
    JObject(map["id" := JInt(user.id), "name" := JStr(user.username)])
  }

  /** The list comprehension over all users: one entry per user, in store order. */
  function Entries(all: seq<User>): (r: seq<Json>)
    ensures |r| == |all|
    ensures forall i :: 0 <= i < |all| ==> r[i] == Entry(all[i])
  {
    if all == [] then [] else [Entry(all[0])] + Entries(all[1..])
  }

  /** `UsersAPIView.get`: a 200 reply whose body lists the users. */
  function ListUsers(all: seq<User>): (r: Reply)
    ensures r.status == HttpOk && r.body.JArray? && |r.body.items| == |all|
    ensures forall i :: 0 <= i < |all| ==>
              r.body.items[i].JObject? && r.body.items[i].members.Keys == {"id", "name"} &&
              r.body.items[i].members["id"] == JInt(all[i].id) &&
              r.body.items[i].members["name"] == JStr(all[i].username)
  {
    Reply(HttpOk, JArray(Entries(all)))
  }

  /** The records named by `order`, in that order. */
  function InOrder(users: map<string, User>, order: seq<string>): (r: seq<User>)
    requires forall i :: 0 <= i < |order| ==> order[i] in users
    ensures |r| == |order|
    ensures forall i :: 0 <= i < |order| ==> r[i] == users[order[i]]
  {
    if order == [] then [] else [users[order[0]]] + InOrder(users, order[1..])
  }

  // ---------------------------------------------------------------------------
  // The profile update (`UsersProfileUpdateView.post`)

  const MissingUsernameMessage: string := "Username must be passed to update the profile."

  function NoUserMessage(username: string): string {
    "No user '" + username + "' found with given username."
  }

  function EmailExistsMessage(email: string): string {
    "An account with the email ID: '" + email + "' already exists."
  }

  function SuccessMessage(username: string): string {
    "Profile updated successfully for user '" + username + "'."
  }

  /** The success reply, naming the user. */
  function UpdatedReply(username: string): Reply {
    ResponseSuccess(map["message" := JStr(SuccessMessage(username))], None)
  }

  /** `if not username`: the key is absent or its value is empty. */
  predicate MissingUsername(req: UpdateRequest) {
    req.username.Absent? || req.username.value == []
  }

  /** The name the validator is given: the supplied one, else the stored profile name. */
  function EffectiveName(user: User, req: UpdateRequest): string {
    req.name.GetOr(user.profile.name)
  }

  /** The email after the update: the supplied one, else the stored one. */
  function EffectiveEmail(user: User, req: UpdateRequest): string {
    req.email.GetOr(user.email)
  }

  /**
    The record saved on success: every supplied field replaces the stored value,
    every other keeps it, except that the profile's phone number defaults to the
    user-level `phone_number` attribute (which must be present).
  */
  function Merged(user: User, req: UpdateRequest): User
    requires user.phoneNumber.Present?
  {
    User(
      user.id,
      user.username,
      EffectiveEmail(user, req),
      req.isStaff.GetOr(user.isStaff),
      user.phoneNumber,
      Profile(
        EffectiveName(user, req),
        req.gender.GetOr(user.profile.gender),
        req.yearOfBirth.GetOr(user.profile.yearOfBirth),
        req.levelOfEducation.GetOr(user.profile.levelOfEducation),
        req.country.GetOr(user.profile.country),
        req.phoneNumber.GetOr(user.phoneNumber.value)))
  }

  /** What a request ends in, and the store it leaves. */
  datatype Effect = Effect(outcome: Outcome, users: map<string, User>)

  /**
    The handler's decision, in its order: missing username, unknown user, email
    collision, name validation (where no value crashes `len`), then the user-level
    phone attribute read; only then are the merged records saved.
  */
  function ProfileUpdate(users: map<string, User>, req: UpdateRequest, emailExistsOrRetired: string -> bool): (e: Effect)
    // the store changes only on success, and only at the requested user
    ensures e.users == users || (
              !MissingUsername(req) && req.username.value in users &&
              e.outcome == Replied(UpdatedReply(req.username.value)) &&
              e.users.Keys == users.Keys &&
              forall u :: u in users && u != req.username.value ==> e.users[u] == users[u])
  {
    if MissingUsername(req) then
      Effect(Replied(BadRequest(MissingUsernameMessage)), users)
    else
      var username := req.username.value;
      if username !in users then
        Effect(Replied(BadRequest(NoUserMessage(username))), users)
      else
        var user := users[username];
        var email := EffectiveEmail(user, req);
        if email != user.email && emailExistsOrRetired(email) then
          Effect(Replied(BadRequest(EmailExistsMessage(email))), users)
        else
          match GetNameValidationError(Some(EffectiveName(user, req)))
          case None => Effect(Unhandled(TypeError), users)
          case Some(error) =>
            if |error| > 0 then
              Effect(Replied(BadRequest(error)), users)
            else if user.phoneNumber.Absent? then
              Effect(Unhandled(AttributeError), users)
            else
              Effect(Replied(UpdatedReply(username)), users[username := Merged(user, req)])
  }

  /** A missing or empty username is rejected before the store is consulted. */
  lemma MissingUsernameRejected(users: map<string, User>, req: UpdateRequest, p: string -> bool)
    requires MissingUsername(req)
    ensures ProfileUpdate(users, req, p) == Effect(Replied(BadRequest(MissingUsernameMessage)), users)
    // no lookup: the result is the same for every store
    ensures forall other: map<string, User> {:trigger ProfileUpdate(other, req, p)} ::
              ProfileUpdate(other, req, p).outcome == ProfileUpdate(users, req, p).outcome
  {
  }

  /** An unknown username is rejected with a message naming it, whatever else is supplied. */
  lemma UnknownUserRejected(users: map<string, User>, req: UpdateRequest, p: string -> bool)
    requires !MissingUsername(req) && req.username.value !in users
    ensures ProfileUpdate(users, req, p) ==
              Effect(Replied(BadRequest(NoUserMessage(req.username.value))), users)
  {
  }

  /** A changed email that already exists or was retired is rejected before the name is looked at. */
  lemma EmailCollisionRejected(users: map<string, User>, req: UpdateRequest, p: string -> bool)
    requires !MissingUsername(req) && req.username.value in users
    requires req.email.Present? && req.email.value != users[req.username.value].email
    requires p(req.email.value)
    ensures ProfileUpdate(users, req, p) ==
              Effect(Replied(BadRequest(EmailExistsMessage(req.email.value))), users)
  {
  }

  /** An email equal to the stored one is never checked: the helper's answer does not matter. */
  lemma UnchangedEmailNotChecked(users: map<string, User>, req: UpdateRequest, p: string -> bool, q: string -> bool)
    requires !MissingUsername(req) && req.username.value in users
    requires req.email.Absent? || req.email.value == users[req.username.value].email
    ensures ProfileUpdate(users, req, p) == ProfileUpdate(users, req, q)
  {
  }

  /** An effective name the validator rejects yields a 400 carrying its message; nothing is saved. */
  lemma InvalidNameRejected(users: map<string, User>, req: UpdateRequest, p: string -> bool)
    requires !MissingUsername(req) && req.username.value in users
    requires var user := users[req.username.value];
             var email := EffectiveEmail(user, req);
             !(email != user.email && p(email))
    requires var name := EffectiveName(users[req.username.value], req);
             name != [] && (|name| > MaxNameLength || Suspicious(name))
    ensures var name := EffectiveName(users[req.username.value], req);
            ProfileUpdate(users, req, p) == Effect(
              Replied(BadRequest(if |name| > MaxNameLength then LengthMessage else InvalidNameMessage)),
              users)
  {
  }

  /** An empty effective name makes the validator return no value, and `len(None)` raises. */
  lemma EmptyNameCrashes(users: map<string, User>, req: UpdateRequest, p: string -> bool)
    requires !MissingUsername(req) && req.username.value in users
    requires var user := users[req.username.value];
             var email := EffectiveEmail(user, req);
             !(email != user.email && p(email))
    requires EffectiveName(users[req.username.value], req) == []
    ensures ProfileUpdate(users, req, p) == Effect(Unhandled(TypeError), users)
  {
  }

  /**
    The default of `data.get("phone_number", user.phone_number)` is evaluated even
    when the key is supplied, so a user model without that attribute fails every
    update that gets past validation.
  */
  lemma MissingPhoneAttributeCrashes(users: map<string, User>, req: UpdateRequest, p: string -> bool)
    requires !MissingUsername(req) && req.username.value in users
    requires users[req.username.value].phoneNumber.Absent?
    requires var user := users[req.username.value];
             var email := EffectiveEmail(user, req);
             !(email != user.email && p(email))
    ensures ProfileUpdate(users, req, p).users == users
    ensures ProfileUpdate(users, req, p).outcome.Unhandled? ||
            ProfileUpdate(users, req, p).outcome.reply.status == HttpBadRequest
    // a name that passes validation reaches line 117, which raises
    ensures var name := EffectiveName(users[req.username.value], req);
            name != [] && |name| <= MaxNameLength && !Suspicious(name) ==>
              ProfileUpdate(users, req, p) == Effect(Unhandled(AttributeError), users)
  {
  }

  /** The conditions under which an update is saved. */
  ghost predicate Accepted(users: map<string, User>, req: UpdateRequest, p: string -> bool) {
    && !MissingUsername(req)
    && req.username.value in users
    && var user := users[req.username.value];
       var email := EffectiveEmail(user, req);
       var name := EffectiveName(user, req);
       && !(email != user.email && p(email))
       && name != [] && |name| <= MaxNameLength && !Suspicious(name)
       && user.phoneNumber.Present?
  }

  /**
    On success: supplied fields replace, unsupplied ones are kept, the profile's
    phone number falls back to the user-level attribute, id and username stay,
    and the reply is the success envelope naming the user.
  */
  lemma AcceptedUpdate(users: map<string, User>, req: UpdateRequest, p: string -> bool)
    requires Accepted(users, req, p)
    ensures var e := ProfileUpdate(users, req, p);
            var username := req.username.value;
            var before := users[username];
            var after := e.users[username];
            && e.outcome == Replied(UpdatedReply(username))
            && e.outcome.reply.status == HttpOk
            && e.users.Keys == users.Keys
            && (forall u :: u in users && u != username ==> e.users[u] == users[u])
            && after.id == before.id && after.username == before.username
            && after.phoneNumber == before.phoneNumber
            && after.email == (if req.email.Present? then req.email.value else before.email)
            && after.isStaff == (if req.isStaff.Present? then req.isStaff.value else before.isStaff)
            && after.profile.name == (if req.name.Present? then req.name.value else before.profile.name)
            && after.profile.gender == (if req.gender.Present? then req.gender.value else before.profile.gender)
            && after.profile.yearOfBirth ==
                 (if req.yearOfBirth.Present? then req.yearOfBirth.value else before.profile.yearOfBirth)
            && after.profile.levelOfEducation ==
                 (if req.levelOfEducation.Present? then req.levelOfEducation.value
                  else before.profile.levelOfEducation)
            && after.profile.country == (if req.country.Present? then req.country.value else before.profile.country)
            && after.profile.phoneNumber ==
                 (if req.phoneNumber.Present? then req.phoneNumber.value else before.phoneNumber.value)
  {
    var user := users[req.username.value];
    RejectedIffNonEmptyMessage(Some(EffectiveName(user, req)));
  }

  /** The request gets the 200 reply, and the merged record is saved, exactly when the update is accepted. */
  lemma SavedIffAccepted(users: map<string, User>, req: UpdateRequest, p: string -> bool)
    ensures (ProfileUpdate(users, req, p).outcome.Replied? &&
             ProfileUpdate(users, req, p).outcome.reply.status == HttpOk) <==> Accepted(users, req, p)
  {
    if !MissingUsername(req) && req.username.value in users {
      var user := users[req.username.value];
      var name := EffectiveName(user, req);
      if name != [] {
        RejectedIffNonEmptyMessage(Some(name));
      }
    }
  }

  /** An update keeps every record under its own username. */
  lemma UpdateKeepsWellKeyed(users: map<string, User>, req: UpdateRequest, p: string -> bool)
    requires WellKeyed(users)
    ensures WellKeyed(ProfileUpdate(users, req, p).users)
  {
    var e := ProfileUpdate(users, req, p);
    if e.users != users {
      var username := req.username.value;
      forall u | u in e.users ensures e.users[u].username == u {
        if u == username {
          assert e.users[u] == Merged(users[username], req);
        }
      }
    }
  }

  /**
    When the helper reports every stored email, an accepted update never gives two
    users the same email.
  */
  lemma UpdateKeepsEmailsUnique(users: map<string, User>, req: UpdateRequest, p: string -> bool)
    requires EmailsUnique(users) && ReportsStoredEmails(users, p)
    ensures EmailsUnique(ProfileUpdate(users, req, p).users)
  {
    var e := ProfileUpdate(users, req, p);
    if e.users != users {
      var username := req.username.value;
      var user := users[username];
      var email := EffectiveEmail(user, req);
      assert email == user.email || !p(email);
      assert e.users[username].email == email by {
        assert e.users[username] == Merged(user, req);
      }
      forall a, b | a in e.users && b in e.users && a != b
        ensures e.users[a].email != e.users[b].email
      {
        if a == username {
          assert e.users[b] == users[b];
        } else if b == username {
          assert e.users[a] == users[a];
        } else {
          assert e.users[a] == users[a] && e.users[b] == users[b];
        }
      }
    }
  }

  /** A profile update never changes the user listing: ids and usernames are not touched. */
  lemma {:induction false} UpdateKeepsListing(
    users: map<string, User>, order: seq<string>, req: UpdateRequest, p: string -> bool)
    requires forall i :: 0 <= i < |order| ==> order[i] in users
    ensures var after := ProfileUpdate(users, req, p).users;
            (forall i :: 0 <= i < |order| ==> order[i] in after) &&
            ListUsers(InOrder(after, order)) == ListUsers(InOrder(users, order))
  {
    var after := ProfileUpdate(users, req, p).users;
    var xs, ys := InOrder(users, order), InOrder(after, order);
    assert forall i :: 0 <= i < |order| ==> Entry(ys[i]) == Entry(xs[i]) by {
      forall i | 0 <= i < |order| ensures Entry(ys[i]) == Entry(xs[i]) {
        if after != users && order[i] == req.username.value {
          assert after[order[i]] == Merged(users[order[i]], req);
        }
      }
    }
    assert Entries(ys) == Entries(xs);
  }

  // ---------------------------------------------------------------------------
  // The store as the handler mutates it

  /**
    The user table: records by username and the order in which `User.objects.all()`
    returns them.
  */
  class UserStore {
    var users: map<string, User>
    var order: seq<string>

    ghost predicate Valid()
      reads this
    {
      && WellKeyed(users)
      && (forall i :: 0 <= i < |order| ==> order[i] in users)
      && (forall u :: u in users ==> u in order)
      && (forall i, j :: 0 <= i < j < |order| ==> order[i] != order[j])
    }

    /** A store holding the records `initial`, listed in the order `listing`. */
    constructor (initial: map<string, User>, listing: seq<string>)
      requires WellKeyed(initial)
      requires forall i :: 0 <= i < |listing| ==> listing[i] in initial
      requires forall u :: u in initial ==> u in listing
      requires forall i, j :: 0 <= i < j < |listing| ==> listing[i] != listing[j]
      ensures Valid() && users == initial && order == listing
    {
      users := initial;
      order := listing;
    }

    /** All users, in store order. */
    function All(): (r: seq<User>)
      reads this
      requires Valid()
      ensures |r| == |order|
      ensures forall i :: 0 <= i < |order| ==> r[i] == users[order[i]]
    {
      InOrder(users, order)
    }

    /** `UsersProfileUpdateView.post`: the checks in order, then field by field, then save. */
    method Post(req: UpdateRequest, emailExistsOrRetired: string -> bool) returns (out: Outcome)
      requires Valid()
      modifies this
      ensures Valid()
      ensures Effect(out, users) == ProfileUpdate(old(users), req, emailExistsOrRetired)
      ensures order == old(order)
    {
      UpdateKeepsWellKeyed(users, req, emailExistsOrRetired);
      if req.username.Absent? || req.username.value == [] {
        return Replied(BadRequest(MissingUsernameMessage));
      }
      var username := req.username.value;
      if username !in users {
        return Replied(BadRequest(NoUserMessage(username)));
      }
      var user := users[username];
      var email := req.email.GetOr(user.email);
      if email != user.email {
        if emailExistsOrRetired(email) {
          return Replied(BadRequest(EmailExistsMessage(email)));
        }
      }
      var stored := user;
      user := user.(email := email);
      var nameError := GetNameValidationError(Some(req.name.GetOr(user.profile.name)));
      if nameError.None? {
        return Unhandled(TypeError);
      }
      if |nameError.value| > 0 {
        return Replied(BadRequest(nameError.value));
      }
      user := user.(isStaff := req.isStaff.GetOr(user.isStaff));
      var profile := user.profile;
      profile := profile.(name := req.name.GetOr(profile.name));
      profile := profile.(gender := req.gender.GetOr(profile.gender));
      profile := profile.(yearOfBirth := req.yearOfBirth.GetOr(profile.yearOfBirth));
      profile := profile.(levelOfEducation := req.levelOfEducation.GetOr(profile.levelOfEducation));
      profile := profile.(country := req.country.GetOr(profile.country));
      if user.phoneNumber.Absent? {
        return Unhandled(AttributeError);
      }
      profile := profile.(phoneNumber := req.phoneNumber.GetOr(user.phoneNumber.value));
      user := user.(profile := profile);
      assert user == Merged(stored, req);
      // user.save(); user.profile.save()
      users := users[username := user];
      out := Replied(ResponseSuccess(map["message" := JStr(SuccessMessage(username))], None));
    }
  }
}
