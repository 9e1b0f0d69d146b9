/** The component's state and each handler as a pure transition on it, given
    the outcome of the request the handler awaits. */
module Sync {
  import opened Js
  import opened Users

  /** The four state cells of the component: the list, the two form fields
      and the identifier of the record being edited (`null` in create mode). */
  datatype State = State(users: seq<User>, name: string, email: string, editingUserId: Value)

  /** What an awaited request delivers to the handler: the parsed response
      body, or `Fail` when the request, the parsing of its body, or the code
      after the await threw. The HTTP status is never looked at, so any
      completed response is `Ok`. A body that is not a record is not one of
      the values `Ok` can carry. */
  datatype Outcome<T> = Ok(value: T) | Fail

  datatype Option<T> = None | Some(value: T)

  /** The payload of the request a submit handler issues: a POST of the form
      fields, or a PUT of the form fields to the record `target`. */
  datatype Request = Post(name: string, email: string) | Put(target: Value, name: string, email: string)

  /** A submit handler's new state and the request it issued, if any. */
  datatype Step = Step(state: State, request: Option<Request>)

  /** Create mode or edit mode, as the submit handler and the form decide it. */
  predicate Editing(s: State) {
    Truthy(s.editingUserId)
  }

  /** `!name || !email` on the form's strings. */
  predicate FormIncomplete(s: State) {
    s.name == "" || s.email == ""
  }

  const Initial := State([], "", "", Null)

  /** `fetchUsers`: a successful load replaces the list wholesale. */
  function Load(s: State, response: Outcome<seq<User>>): State {
    match response
    case Ok(data) => s.(users := data)
    case Fail => s
  }

  /** `createUser`: guard, POST, append the returned record, clear the form. */
  function Create(s: State, response: Outcome<User>): Step {
    if FormIncomplete(s) then Step(s, None)
    else
      var next := match response
        case Ok(newUser) => s.(users := s.users + [newUser], name := "", email := "")
        case Fail => s;
      Step(next, Some(Post(s.name, s.email)))
  }

  /** `updateUser`: guard, PUT to `editingUserId`, replace by `id`, clear the
      form and leave edit mode. */
  function Update(s: State, response: Outcome<User>): Step {
    if FormIncomplete(s) then Step(s, None)
    else
      var next := match response
        case Ok(updated) => State(ReplaceMatching(s.users, updated), "", "", Null)
        case Fail => s;
      Step(next, Some(Put(s.editingUserId, s.name, s.email)))
  }

  /** `deleteUser(id)`: DELETE, then keep the records whose `_id` differs. */
  function Delete(s: State, id: Value, response: Outcome<()>): State {
    match response
    case Ok(_) => s.(users := RemoveMatching(s.users, id))
    case Fail => s
  }

  /** `editUser(user)`: copy the record into the form; remember its `_id`. */
  function BeginEdit(s: State, u: User): State {
    s.(name := u.name, email := u.email, editingUserId := u.underscoreId)
  }

  /** `cancelEdit`: clear the form and return to create mode. */
  function CancelEdit(s: State): State {
    s.(name := "", email := "", editingUserId := Null)
  }

  /** The form's submit: update when `editingUserId` is truthy, create otherwise. */
  function Submit(s: State, response: Outcome<User>): Step {
    if Truthy(s.editingUserId) then Update(s, response) else Create(s, response)
  }

  // ---- the guard ----

  /** With an empty name or email, neither submit handler issues a request or
      changes any of the four cells, whatever the server would have said. */
  lemma IncompleteFormIsNoOp(s: State, response: Outcome<User>)
    requires s.name == "" || s.email == ""
    ensures Create(s, response) == Step(s, None)
    ensures Update(s, response) == Step(s, None)
    ensures Submit(s, response) == Step(s, None)
  {
  }

  /** With both fields filled, each submit handler issues exactly its request,
      carrying the form's fields (and, for update, `editingUserId` as target). */
  lemma CompleteFormSends(s: State, response: Outcome<User>)
    requires s.name != "" && s.email != ""
    ensures Create(s, response).request == Some(Post(s.name, s.email))
    ensures Update(s, response).request == Some(Put(s.editingUserId, s.name, s.email))
  {
  }

  // ---- failures ----

  /** A failed request leaves all four cells as they were. */
  lemma FailureChangesNothing(s: State, id: Value)
    ensures Load(s, Fail) == s
    ensures Create(s, Fail).state == s
    ensures Update(s, Fail).state == s
    ensures Delete(s, id, Fail) == s
    ensures Submit(s, Fail).state == s
  {
  }

  // ---- successes ----

  /** A successful load installs the server's list exactly, in server order,
      and touches nothing else. */
  lemma LoadInstalls(s: State, data: seq<User>)
    ensures var t := Load(s, Ok(data));
      && |t.users| == |data|
      && (forall k :: 0 <= k < |data| ==> t.users[k] == data[k])
      && t.name == s.name && t.email == s.email && t.editingUserId == s.editingUserId
  {
  }

  /** A successful create appends: one more record, every earlier record at
      its old position, the new one last, the form cleared, the mode kept. */
  lemma CreateAppends(s: State, newUser: User)
    requires s.name != "" && s.email != ""
    ensures var t := Create(s, Ok(newUser)).state;
      && |t.users| == |s.users| + 1
      && (forall k :: 0 <= k < |s.users| ==> t.users[k] == s.users[k])
      && t.users[|s.users|] == newUser
      && t.name == "" && t.email == ""
      && t.editingUserId == s.editingUserId
  {
  }

  /** A successful update keeps length and order, puts the returned record at
      every position whose `id` strictly equals the returned `id`, keeps every
      other record, and clears the form and the edit target. */
  lemma UpdateReplacesInPlace(s: State, updated: User)
    requires s.name != "" && s.email != ""
    ensures var t := Update(s, Ok(updated)).state;
      && |t.users| == |s.users|
      && (forall k :: 0 <= k < |s.users| && s.users[k].id == updated.id ==> t.users[k] == updated)
      && (forall k :: 0 <= k < |s.users| && s.users[k].id != updated.id ==> t.users[k] == s.users[k])
      && t.name == "" && t.email == "" && t.editingUserId == Null
  {
  }

  /** A successful delete keeps exactly the records whose `_id` differs from
      the argument, in their original order; none of the kept records has
      that `_id`; the list never grows; the form is untouched. */
  lemma DeleteFilters(s: State, id: Value)
    ensures var t := Delete(s, id, Ok(()));
      && IsSubsequence(t.users, s.users)
      && (forall k :: 0 <= k < |t.users| ==> t.users[k].underscoreId != id)
      && |t.users| == |s.users| - Count(s.users, id)
      && (forall u :: u in t.users <==> u in s.users && u.underscoreId != id)
      && t.name == s.name && t.email == s.email && t.editingUserId == s.editingUserId
  {
    var t := Delete(s, id, Ok(()));
    RemoveIsSubsequence(s.users, id);
    RemoveLength(s.users, id);
    forall u
      ensures u in t.users <==> u in s.users && u.underscoreId != id
    {
      RemoveMembership(s.users, id, u);
    }
  }

  /** `editUser` fills the form from the record and targets its `_id`;
      `cancelEdit` clears the form and the target. Neither touches the list. */
  lemma EditAndCancel(s: State, u: User)
    ensures var t := BeginEdit(s, u);
      t.users == s.users && t.name == u.name && t.email == u.email && t.editingUserId == u.underscoreId
    ensures var t := CancelEdit(s);
      t.users == s.users && t.name == "" && t.email == "" && t.editingUserId == Null
  {
  }

  // ---- the form mode ----

  /** Submit takes the update path exactly when `editingUserId` is truthy:
      create mode is exactly the four falsy identifier values, a request is
      issued exactly when the form is complete, and it is a PUT in edit mode
      and a POST in create mode. */
  lemma SubmitDispatch(s: State, response: Outcome<User>)
    ensures !Editing(s) <==> s.editingUserId in {Undefined, Null, Str(""), Num(0)}
    ensures Submit(s, response).request != None <==> !FormIncomplete(s)
    ensures Submit(s, response).request != None ==> (Submit(s, response).request.value.Put? <==> Editing(s))
  {
    FalsyValues(s.editingUserId);
  }

  /** Only a successful update and a cancel return the form to create mode:
      load, create, delete and a failed or blocked update keep the mode, and
      `editUser` enters edit mode exactly when the record's `_id` is truthy. */
  lemma ModeTransitions(s: State, data: Outcome<seq<User>>, response: Outcome<User>, id: Value, gone: Outcome<()>, u: User)
    ensures Editing(Load(s, data)) == Editing(s)
    ensures Editing(Create(s, response).state) == Editing(s)
    ensures Editing(Delete(s, id, gone)) == Editing(s)
    ensures !Editing(CancelEdit(s))
    ensures !Editing(Update(s, response).state) <==> !Editing(s) || (!FormIncomplete(s) && response.Ok?)
    ensures Editing(BeginEdit(s, u)) <==> Truthy(u.underscoreId)
  {
  }

  /** A record the backend sent without a truthy `_id` cannot be edited: after
      `editUser` on it, submitting a filled form POSTs and APPENDS the server's
      reply instead of updating the record. */
  lemma EditWithoutUnderscoreIdCreates(s: State, u: User, reply: User)
    requires !Truthy(u.underscoreId)
    requires u.name != "" && u.email != ""
    ensures Submit(BeginEdit(s, u), Ok(reply))
         == Step(State(s.users + [reply], "", "", u.underscoreId), Some(Post(u.name, u.email)))
  {
  }

  /** The update path matches on `id` while the edit target is `_id`: with a
      backend that sends only `_id`, editing one record and submitting
      replaces EVERY listed record by the server's reply, because
      `undefined === undefined`. */
  lemma UpdateWithoutIdsReplacesAll(s: State, u: User, reply: User)
    requires Truthy(u.underscoreId) && u.name != "" && u.email != ""
    requires reply.id == Undefined
    requires forall k :: 0 <= k < |s.users| ==> s.users[k].id == Undefined
    ensures Submit(BeginEdit(s, u), Ok(reply))
         == Step(State(seq(|s.users|, _ => reply), "", "", Null), Some(Put(u.underscoreId, u.name, u.email)))
  {
  }

  /** With unique `id`s and a reply that carries the `id` of the record at `k`,
      a successful update changes that one position and no other. */
  lemma UpdateChangesOnePosition(s: State, reply: User, k: nat)
    requires s.name != "" && s.email != ""
    requires UniqueBy(s.users, Id)
    requires k < |s.users| && s.users[k].id == reply.id
    ensures Update(s, Ok(reply)).state.users == s.users[k := reply]
  {
  }

  // ---- round trips and idempotence ----

  /** Creating a record with a fresh `_id` and then deleting that `_id`
      restores the list. */
  lemma CreateThenDelete(s: State, newUser: User)
    requires s.name != "" && s.email != ""
    requires forall k :: 0 <= k < |s.users| ==> s.users[k].underscoreId != newUser.underscoreId
    ensures Delete(Create(s, Ok(newUser)).state, newUser.underscoreId, Ok(())).users == s.users
  {
    AppendThenRemove(s.users, newUser);
  }

  /** Deleting the same `_id` twice is deleting it once; cancelling twice is
      cancelling once; cancelling after `editUser` is just cancelling. */
  lemma Idempotence(s: State, id: Value, u: User)
    ensures Delete(Delete(s, id, Ok(())), id, Ok(())) == Delete(s, id, Ok(()))
    ensures CancelEdit(CancelEdit(s)) == CancelEdit(s)
    ensures CancelEdit(BeginEdit(s, u)) == CancelEdit(s)
  {
    RemoveIdempotent(s.users, id);
  }

  // ---- identifier uniqueness across the cycle ----

  /** The list holds no two records with the same `id` or the same `_id`. */
  predicate WellKeyed(users: seq<User>) {
    UniqueBy(users, Id) && UniqueBy(users, UnderscoreId)
  }

  /** Unique identifiers survive every handler, given that the server hands
      out unique identifiers: a loaded list must be well keyed and a created
      record's identifiers fresh. An update keeps every `id` unique; it may
      give a replaced position a different `_id`, so only `id` is claimed. */
  lemma WellKeyedPreserved(s: State, data: seq<User>, newUser: User, id: Value, gone: Outcome<()>, u: User)
    requires WellKeyed(s.users)
    ensures WellKeyed(data) ==> WellKeyed(Load(s, Ok(data)).users)
    ensures WellKeyed(Load(s, Fail).users)
    ensures (forall k :: 0 <= k < |s.users| ==> s.users[k].id != newUser.id && s.users[k].underscoreId != newUser.underscoreId)
        ==> WellKeyed(Create(s, Ok(newUser)).state.users)
    ensures WellKeyed(Create(s, Fail).state.users)
    ensures UniqueBy(Update(s, Ok(newUser)).state.users, Id)
    ensures WellKeyed(Delete(s, id, gone).users)
    ensures WellKeyed(BeginEdit(s, u).users) && WellKeyed(CancelEdit(s).users)
  {
    if forall k :: 0 <= k < |s.users| ==> s.users[k].id != newUser.id && s.users[k].underscoreId != newUser.underscoreId {
      AppendKeepsUnique(s.users, newUser, Id);
      AppendKeepsUnique(s.users, newUser, UnderscoreId);
    }
    ReplaceKeepsIds(s.users, newUser);
    RemoveKeepsUnique(s.users, id, Id);
    RemoveKeepsUnique(s.users, id, UnderscoreId);
  }
}
