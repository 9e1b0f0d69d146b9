/** The `App` component: its four state cells and the handlers that set them,
    each run to completion with the outcome of the request it awaits given as
    a parameter. */
module Component {
  import opened Js
  import opened Users
  import Sync

  class App {
    var users: seq<User>
    var name: string
    var email: string
    var editingUserId: Value

    /** The four cells as one value, for stating each handler's effect. */
    function Snapshot(): Sync.State
      reads this
    {
      Sync.State(users, name, email, editingUserId)
    }

    /** `useState([])`, `useState('')`, `useState('')`, `useState(null)`. */
    constructor ()
      ensures Snapshot() == Sync.Initial
    {
      users := [];
      name := "";
      email := "";
      editingUserId := Null;
    }

    method FetchUsers(response: Sync.Outcome<seq<User>>)
      modifies this`users
      ensures Snapshot() == Sync.Load(old(Snapshot()), response)
    {
      match response {
        case Ok(data) =>
          users := data;
        case Fail =>
      }
    }

    method CreateUser(response: Sync.Outcome<User>) returns (request: Sync.Option<Sync.Request>)
      modifies this`users, this`name, this`email
      ensures Snapshot() == Sync.Create(old(Snapshot()), response).state
      ensures request == Sync.Create(old(Snapshot()), response).request
    {
      if name == "" || email == "" {
        return Sync.None;
      }
      request := Sync.Some(Sync.Post(name, email));
      match response {
        case Ok(newUser) =>
          users := users + [newUser];
          name := "";
          email := "";
        case Fail =>
      }
    }

    method UpdateUser(response: Sync.Outcome<User>) returns (request: Sync.Option<Sync.Request>)
      modifies this`users, this`name, this`email, this`editingUserId
      ensures Snapshot() == Sync.Update(old(Snapshot()), response).state
      ensures request == Sync.Update(old(Snapshot()), response).request
    {
      if name == "" || email == "" {
        return Sync.None;
      }
      request := Sync.Some(Sync.Put(editingUserId, name, email));
      match response {
        case Ok(updatedUser) =>
          users := ReplaceMatching(users, updatedUser);
          name := "";
          email := "";
          editingUserId := Null;
        case Fail =>
      }
    }

    method DeleteUser(id: Value, response: Sync.Outcome<()>)
      modifies this`users
      ensures Snapshot() == Sync.Delete(old(Snapshot()), id, response)
    {
      match response {
        case Ok(_) =>
          users := RemoveMatching(users, id);
        case Fail =>
      }
    }

    method EditUser(user: User)
      modifies this`name, this`email, this`editingUserId
      ensures Snapshot() == Sync.BeginEdit(old(Snapshot()), user)
    {
      name := user.name;
      email := user.email;
      editingUserId := user.underscoreId;
    }

    method CancelEdit()
      modifies this`name, this`email, this`editingUserId
      ensures Snapshot() == Sync.CancelEdit(old(Snapshot()))
    {
      name := "";
      email := "";
      editingUserId := Null;
    }

    /** The form's `onSubmit`. */
    method Submit(response: Sync.Outcome<User>) returns (request: Sync.Option<Sync.Request>)
      modifies this`users, this`name, this`email, this`editingUserId
      ensures Snapshot() == Sync.Submit(old(Snapshot()), response).state
      ensures request == Sync.Submit(old(Snapshot()), response).request
    {
      if Truthy(editingUserId) {
        request := UpdateUser(response);
      } else {
        request := CreateUser(response);
      }
    }
  }

  /** A session as the component runs it: mount and load, create a record,
      edit it, and submit again. The class's contracts alone fix every step. */
  method Session(loaded: seq<User>, created: User, replied: User) returns (app: App)
    requires created.name != "" && created.email != "" && Truthy(created.underscoreId)
    ensures fresh(app)
    ensures app.Snapshot() == Sync.State(ReplaceMatching(loaded + [created], replied), "", "", Null)
  {
    app := new App();
    app.FetchUsers(Sync.Ok(loaded));
    assert app.users == loaded;
    app.name, app.email := "Ada", "ada@example.com";
    var posted := app.Submit(Sync.Ok(created));
    assert posted == Sync.Some(Sync.Post("Ada", "ada@example.com"));
    assert app.users == loaded + [created];
    app.EditUser(created);
    assert app.editingUserId == created.underscoreId;
    var put := app.Submit(Sync.Ok(replied));
    assert put == Sync.Some(Sync.Put(created.underscoreId, created.name, created.email));
  }
}
