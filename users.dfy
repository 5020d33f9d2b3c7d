/** User records as the remote directory serves them, and facts about their identifiers. */
module Users {

  /** A JavaScript value that may be `null` or `undefined` (None) or present (Some). */
  datatype Option<+T> = None | Some(value: T)

  /** The nested `address` object. Only `city` is read or written by the component;
      the other string-valued keys travel along untouched in `rest`. */
  datatype Address = Address(city: Option<string>, rest: map<string, string>)

  /** A user record. `address` may be absent; the other string-valued keys are kept in `rest`. */
  datatype User = User(id: int, name: string, email: string, address: Option<Address>,
                       rest: map<string, string>)

  /** The set of identifiers present in a directory list. */
  function Ids(users: seq<User>): (ids: set<int>)
    ensures forall u :: u in users ==> u.id in ids
    ensures forall id :: id in ids ==> exists u :: u in users && u.id == id
  {
    set u | u in users :: u.id
  }

  /** The uniqueness invariant on the primary key that the remote system is trusted to keep;
      the component never checks it. */
  ghost predicate UniqueIds(users: seq<User>)
  {
    forall i, j :: 0 <= i < j < |users| ==> users[i].id != users[j].id
  }

  /** How many records in the list carry identifier `id`. */
  function CountId(users: seq<User>, id: int): (n: nat)
    ensures n <= |users|
    ensures n == 0 <==> id !in Ids(users)
  {
    if users == [] then 0
    else (if users[0].id == id then 1 else 0) + CountId(users[1..], id)
  }

  /** With unique identifiers, every identifier present occurs exactly once. */
  lemma {:induction false} UniqueIdsCountOne(users: seq<User>, id: int)
    requires UniqueIds(users)
    ensures CountId(users, id) == if id in Ids(users) then 1 else 0
  {
    if users != [] {
      assert UniqueIds(users[1..]);
      UniqueIdsCountOne(users[1..], id);
      if users[0].id == id {
        assert id !in Ids(users[1..]) by {
          forall k | 0 <= k < |users[1..]| ensures users[1..][k].id != id {
            assert users[1..][k] == users[k + 1];
          }
        }
      } else {
        assert Ids(users) == {users[0].id} + Ids(users[1..]) by {
          assert users == [users[0]] + users[1..];
        }
      }
    }
  }

  /** Counting over a concatenation adds up. */
  lemma {:induction false} CountIdConcat(a: seq<User>, b: seq<User>, id: int)
    ensures CountId(a + b, id) == CountId(a, id) + CountId(b, id)
  {
    if a == [] {
      assert a + b == b;
    } else {
      assert (a + b)[1..] == a[1..] + b;
      CountIdConcat(a[1..], b, id);
    }
  }
}
