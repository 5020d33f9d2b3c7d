/** The two form drafts (`editFormValues`, `createFormValues`), how the edit draft is seeded
    from a selected user, and how a field change writes into a draft. */
module Forms {
  import opened Users
  import Directory

  /** The `name` attributes of the form inputs: the only keys a change event carries. */
  datatype Field = Name | Email | City

  /** `editFormValues`: the target id (`null` until a user is selected) and three texts. */
  datatype EditDraft = EditDraft(id: Option<int>, name: string, email: string, city: string)

  /** `createFormValues`: three texts. */
  datatype CreateDraft = CreateDraft(name: string, email: string, city: string)

  const InitialEditDraft := EditDraft(None, "", "", "")
  const InitialCreateDraft := CreateDraft("", "", "")

  /** Reading `draft[field]`. */
  function EditField(d: EditDraft, f: Field): string
  {
    match f
    case Name => d.name
    case Email => d.email
    case City => d.city
  }

  function CreateField(d: CreateDraft, f: Field): string
  {
    match f
    case Name => d.name
    case Email => d.email
    case City => d.city
  }

  /** `{ ...editFormValues, [field]: value }`: the named field takes the value, the others
      and the target id stay. */
  function WriteEdit(d: EditDraft, f: Field, v: string): (r: EditDraft)
    ensures EditField(r, f) == v
    ensures forall g :: g != f ==> EditField(r, g) == EditField(d, g)
    ensures r.id == d.id
  {
    match f
    case Name => d.(name := v)
    case Email => d.(email := v)
    case City => d.(city := v)
  }

  /** `{ ...createFormValues, [field]: value }`. */
  function WriteCreate(d: CreateDraft, f: Field, v: string): (r: CreateDraft)
    ensures CreateField(r, f) == v
    ensures forall g :: g != f ==> CreateField(r, g) == CreateField(d, g)
  {
    match f
    case Name => d.(name := v)
    case Email => d.(email := v)
    case City => d.(city := v)
  }

  /** A draft is determined by its id and its three fields. */
  lemma EditDraftExtensional(a: EditDraft, b: EditDraft)
    requires a.id == b.id && forall f :: EditField(a, f) == EditField(b, f)
    ensures a == b
  {
    assert EditField(a, Name) == EditField(b, Name);
    assert EditField(a, Email) == EditField(b, Email);
    assert EditField(a, City) == EditField(b, City);
  }

  /** Writing a value that is already there changes nothing; writing the same field twice
      keeps only the last value. */
  lemma WriteEditLaws(d: EditDraft, f: Field, v: string, w: string)
    ensures WriteEdit(d, f, EditField(d, f)) == d
    ensures WriteEdit(WriteEdit(d, f, v), f, w) == WriteEdit(d, f, w)
  {
    EditDraftExtensional(WriteEdit(d, f, EditField(d, f)), d);
    EditDraftExtensional(WriteEdit(WriteEdit(d, f, v), f, w), WriteEdit(d, f, w));
  }

  /** `user.address?.city || ''`: the city, or "" when the address or the city is missing. */
  function CityOrEmpty(address: Option<Address>): (c: string)
    ensures address.Some? && address.value.city.Some? ==> c == address.value.city.value
    ensures address.None? || address.value.city.None? ==> c == ""
  {
    match address
    case None => ""
    case Some(a) => match a.city { case None => "" case Some(c) => c }
  }

  /** The edit draft seeded from a selected user. */
  function SeedEditDraft(u: User): (d: EditDraft)
    ensures d.id == Some(u.id) && d.name == u.name && d.email == u.email
    ensures d.city == CityOrEmpty(u.address)
  {
    EditDraft(Some(u.id), u.name, u.email, CityOrEmpty(u.address))
  }

  /** Opening the edit form on a user and submitting it untouched leaves that user's record
      as it was, provided its address has a city; otherwise the record gains an address whose
      city is "". */
  lemma {:induction false} UntouchedEditRoundTrip(users: seq<User>, u: User)
    ensures var d := SeedEditDraft(u);
            var r := Directory.MergeEdit(users, d.id, d.name, d.email, d.city);
            forall i :: 0 <= i < |users| && users[i] == u ==>
              if u.address.Some? && u.address.value.city.Some? then r[i] == u
              else r[i] == u.(address := Some(Address(Some(""), if u.address.Some? then u.address.value.rest else map[])))
  {
    var d := SeedEditDraft(u);
    var r := Directory.MergeEdit(users, d.id, d.name, d.email, d.city);
    forall i | 0 <= i < |users| && users[i] == u
      ensures if u.address.Some? && u.address.value.city.Some? then r[i] == u
              else r[i] == u.(address := Some(Address(Some(""), if u.address.Some? then u.address.value.rest else map[])))
    {
      if u.address.Some? && u.address.value.city.Some? {
        assert r[i].address == u.address;
      }
    }
  }
}
