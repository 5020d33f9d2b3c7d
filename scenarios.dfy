/** Client scenarios of the component: what a caller can conclude from the handler contracts alone. */
module Scenarios {
  import opened Users
  import Text
  import Directory
  import Forms
  import Component

  const Leanne := User(1, "Leanne Graham", "Sincere@april.biz", Some(Address(Some("Gwenborough"), map[])), map[])
  const Ervin := User(2, "Ervin Howell", "Shanna@melissa.tv", Some(Address(Some("Wisokyburgh"), map[])), map[])

  lemma LeanneMatches()
    ensures Directory.NameMatches(Leanne, "leanne")
  {
    var q := Text.Lower("leanne");
    assert q == "leanne";
    var s := Text.Lower(Leanne.name);
    assert s[..6] == q;
    assert Text.OccursAt(s, q, 0);
  }

  lemma ErvinDoesNotMatch()
    ensures !Directory.NameMatches(Ervin, "leanne")
  {
    var q := Text.Lower("leanne");
    assert q == "leanne";
    var s := Text.Lower(Ervin.name);
    forall i ensures !Text.OccursAt(s, q, i) {
      if 0 <= i <= 6 {
        assert s[i] == Text.LowerChar(Ervin.name[i]) != 'l';
        assert s[i..i + 6][0] == s[i];
      }
    }
  }

  /** Searching "leanne" over Leanne Graham and Ervin Howell keeps exactly Leanne Graham. */
  lemma SearchLeanneExample()
    ensures Directory.SearchFilter([Leanne, Ervin], "leanne") == [Leanne]
  {
    var p := (u: User) => Directory.NameMatches(u, "leanne");
    LeanneMatches();
    ErvinDoesNotMatch();
    assert p(Leanne) && !p(Ervin);
    assert [Leanne, Ervin][1..] == [Ervin];
    assert [Ervin][1..] == [];
    assert Directory.Filter([Ervin], p) == Directory.Filter([], p) == [];
    assert Directory.Filter([Leanne, Ervin], p) == [Leanne] + Directory.Filter([Ervin], p);
  }

  /** Create on an empty directory, a failed delete, then a successful one. */
  method CreateThenDelete()
  {
    var c := new Component.UserManagement();
    c.OpenCreateForm();
    c.HandleChange(Forms.Name, "Ada");
    c.HandleChange(Forms.Email, "ada@x.com");
    c.HandleChange(Forms.City, "London");
    var ada := User(11, "Ada", "ada@x.com", Some(Address(Some("London"), map[])), map[]);
    var req := c.HandleCreateSubmit(true, ada);
    assert req == Component.Create("Ada", "ada@x.com", "London");
    assert c.users == [ada] && !c.showCreateForm;
    assert c.editFormValues == Forms.EditDraft(None, "Ada", "ada@x.com", "London");

    req := c.DeleteUser(11, false);
    assert c.users == [ada];
    req := c.DeleteUser(11, true);
    assert c.users == [];
  }

  /** Two records with ids 1 and 2; deleting 1 leaves only 2. Editing 2 then renames it. */
  method DeleteThenEdit()
  {
    var c := new Component.UserManagement();
    var req := c.GetUsers(true, [Leanne, Ervin]);
    req := c.DeleteUser(1, true);
    assert [Leanne, Ervin][1..] == [Ervin];
    assert c.users == [Ervin];

    c.HandleEdit(Ervin);
    assert c.showEditForm && c.editFormValues.city == "Wisokyburgh";
    c.HandleChange(Forms.Name, "Ervin H.");
    req := c.HandleEditSubmit(true);
    assert !c.showEditForm;
    assert c.users == [Ervin.(name := "Ervin H.")];
  }
}
