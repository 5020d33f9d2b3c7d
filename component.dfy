/** The `UserManagement` component's handler-level state and the handlers that change it.
    Every gateway call is reduced to the request the handler sends and, as parameters, its
    outcome: a `success` flag and the data the server answered with. */
module Component {
  import opened Users
  import Directory
  import Forms

  /** The request a handler hands to the remote gateway. */
  datatype Request =
    | List                                              // GET    <collection>
    | Create(name: string, email: string, city: string) // POST   <collection>
    | Update(target: Option<int>, body: Forms.EditDraft) // PUT    <collection>/<id>
    | Delete(userId: int)                                // DELETE <collection>/<id>

  /** The whole handler-level state at one moment. */
  datatype Snapshot = Snapshot(
    users: seq<User>,
    searchInput: string,
    editFormValues: Forms.EditDraft,
    createFormValues: Forms.CreateDraft,
    showEditForm: bool,
    showCreateForm: bool)

  class UserManagement {
    var users: seq<User>
    var searchInput: string
    var editFormValues: Forms.EditDraft
    var createFormValues: Forms.CreateDraft
    var showEditForm: bool
    var showCreateForm: bool

    ghost function State(): Snapshot
      reads this
    {
      Snapshot(users, searchInput, editFormValues, createFormValues, showEditForm, showCreateForm)
    }

    /** The state on first render: no users, empty drafts, both forms closed. */
    constructor ()
      ensures State() == Snapshot([], "", Forms.InitialEditDraft, Forms.InitialCreateDraft, false, false)
    {
      users := [];
      searchInput := "";
      editFormValues := Forms.InitialEditDraft;
      createFormValues := Forms.InitialCreateDraft;
      showEditForm := false;
      showCreateForm := false;
    }

    /** `getUsers`: on success the fetched list replaces the directory. */
    method GetUsers(success: bool, fetched: seq<User>) returns (req: Request)
      modifies this
      ensures req == List
      ensures State() == if success then old(State()).(users := fetched) else old(State())
    {
      req := List;
      if success {
        users := fetched;
      }
    }

    /** The search box's change handler. */
    method SetSearchInput(value: string)
      modifies this
      ensures State() == old(State()).(searchInput := value)
    {
      searchInput := value;
    }

    /** `searchUsers`: filters the freshly fetched list, not the current one. */
    method SearchUsers(success: bool, fetched: seq<User>) returns (req: Request)
      modifies this
      ensures req == List
      ensures State() == if success
                         then old(State()).(users := Directory.SearchFilter(fetched, old(searchInput)))
                         else old(State())
    {
      req := List;
      if success {
        users := Directory.SearchFilter(fetched, searchInput);
      }
    }

    /** `deleteUser`: on success every user with that id leaves the directory. */
    method DeleteUser(userId: int, success: bool) returns (req: Request)
      modifies this
      ensures req == Delete(userId)
      ensures State() == if success
                         then old(State()).(users := Directory.RemoveById(old(users), userId))
                         else old(State())
    {
      req := Delete(userId);
      if success {
        users := Directory.RemoveById(users, userId);
      }
    }

    /** `handleEdit`: seed the edit draft from the selected user and open the edit form. */
    method HandleEdit(user: User)
      modifies this
      ensures State() == old(State()).(editFormValues := Forms.SeedEditDraft(user), showEditForm := true)
    {
      editFormValues := Forms.SeedEditDraft(user);
      showEditForm := true;
    }

    /** `handleEditSubmit`: send the draft; on success merge it into the directory and close
        the edit form. The draft itself is kept. */
    method HandleEditSubmit(success: bool) returns (req: Request)
      modifies this
      ensures req == Update(old(editFormValues).id, old(editFormValues))
      ensures var d := old(editFormValues);
              State() == if success
                         then old(State()).(users := Directory.MergeEdit(old(users), d.id, d.name, d.email, d.city),
                                            showEditForm := false)
                         else old(State())
    {
      var d := editFormValues;
      req := Update(d.id, d);
      if success {
        users := Directory.MergeEdit(users, d.id, d.name, d.email, d.city);
        showEditForm := false;
      }
    }

    /** The "Create New User" button. */
    method OpenCreateForm()
      modifies this
      ensures State() == old(State()).(showCreateForm := true)
    {
      showCreateForm := true;
    }

    /** `handleCreateSubmit`: post the draft; on success append the server's record and close
        the create form. The draft itself is kept. */
    method HandleCreateSubmit(success: bool, created: User) returns (req: Request)
      modifies this
      ensures var d := old(createFormValues);
              req == Create(d.name, d.email, d.city)
      ensures State() == if success
                         then old(State()).(users := Directory.Append(old(users), created), showCreateForm := false)
                         else old(State())
    {
      var d := createFormValues;
      req := Create(d.name, d.email, d.city);
      if success {
        users := Directory.Append(users, created);
        showCreateForm := false;
      }
    }

    /** `handleChange`: the field is written into both drafts, whichever form raised it. */
    method HandleChange(field: Forms.Field, value: string)
      modifies this
      ensures State() == old(State()).(editFormValues := Forms.WriteEdit(old(editFormValues), field, value),
                                       createFormValues := Forms.WriteCreate(old(createFormValues), field, value))
    {
      editFormValues := Forms.WriteEdit(editFormValues, field, value);
      createFormValues := Forms.WriteCreate(createFormValues, field, value);
    }
  }
}
