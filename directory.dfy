/** The list transforms the component applies to its directory of users:
    the search filter, remove-by-id, the replace-by-id merge of an edit, and append. */
module Directory {
  import opened Users
  import Text

  /** `a` can be obtained from `b` by deleting elements: same relative order. */
  ghost predicate IsSubsequence<T>(a: seq<T>, b: seq<T>)
    decreases |b|
  {
    a == [] ||
    (b != [] && ((a[0] == b[0] && IsSubsequence(a[1..], b[1..])) || IsSubsequence(a, b[1..])))
  }

  /** `Array.prototype.filter`: keep, in order, the elements that satisfy `p`. */
  function Filter<T(!new)>(s: seq<T>, p: T -> bool): (r: seq<T>)
    ensures |r| <= |s|
    ensures forall x :: x in r <==> x in s && p(x)
    ensures forall x :: multiset(r)[x] == if p(x) then multiset(s)[x] else 0
    ensures IsSubsequence(r, s)
  {
    if s == [] then []
    else
      var tail := Filter(s[1..], p);
      assert s == [s[0]] + s[1..];
      assert multiset(s) == multiset{s[0]} + multiset(s[1..]);
      if p(s[0]) then
        var r := [s[0]] + tail;
        assert r[1..] == tail;
        r
      else tail
  }

  /** Filtering keeps everything when every element passes. */
  lemma {:induction false} FilterAllPass<T(!new)>(s: seq<T>, p: T -> bool)
    requires forall x :: x in s ==> p(x)
    ensures Filter(s, p) == s
  {
    if s != [] {
      FilterAllPass(s[1..], p);
      assert s == [s[0]] + s[1..];
    }
  }

  /** Filtering depends only on how the predicate judges the elements actually present. */
  lemma {:induction false} FilterAgreeing<T(!new)>(s: seq<T>, p: T -> bool, q: T -> bool)
    requires forall x :: x in s ==> p(x) == q(x)
    ensures Filter(s, p) == Filter(s, q)
  {
    if s != [] {
      FilterAgreeing(s[1..], p, q);
    }
  }

  /** A subsequence holds only elements of the sequence it was taken from. */
  lemma {:induction false} SubsequenceMembers<T>(a: seq<T>, b: seq<T>)
    requires IsSubsequence(a, b)
    ensures forall x :: x in a ==> x in b
    decreases |b|
  {
    if a != [] {
      if a[0] == b[0] && IsSubsequence(a[1..], b[1..]) {
        SubsequenceMembers(a[1..], b[1..]);
        assert a == [a[0]] + a[1..];
        assert b == [b[0]] + b[1..];
      } else {
        SubsequenceMembers(a, b[1..]);
        assert b == [b[0]] + b[1..];
      }
    }
  }

  /** Taking a subsequence cannot create a duplicate identifier. */
  lemma {:induction false} SubsequenceKeepsUniqueIds(a: seq<User>, b: seq<User>)
    requires IsSubsequence(a, b) && UniqueIds(b)
    ensures UniqueIds(a)
    decreases |b|
  {
    if a != [] {
      assert UniqueIds(b[1..]) by {
        forall i, j | 0 <= i < j < |b[1..]| ensures b[1..][i].id != b[1..][j].id {
          assert b[1..][i] == b[i + 1] && b[1..][j] == b[j + 1];
        }
      }
      if a[0] == b[0] && IsSubsequence(a[1..], b[1..]) {
        SubsequenceKeepsUniqueIds(a[1..], b[1..]);
        SubsequenceMembers(a[1..], b[1..]);
        forall i, j | 0 <= i < j < |a| ensures a[i].id != a[j].id {
          if i == 0 {
            assert a[j] == a[1..][j - 1];
            assert a[j] in b[1..];
            var k :| 0 <= k < |b[1..]| && b[1..][k] == a[j];
            assert b[k + 1] == a[j];
          } else {
            assert a[i] == a[1..][i - 1] && a[j] == a[1..][j - 1];
          }
        }
      } else {
        SubsequenceKeepsUniqueIds(a, b[1..]);
      }
    }
  }

  // ---------------------------------------------------------------- search

  /** The search predicate: the lower-cased name includes the lower-cased query. */
  predicate NameMatches(u: User, query: string)
  {
    Text.Includes(Text.Lower(u.name), Text.Lower(query))
  }

  /** The users of a freshly fetched list that the search keeps. */
  function SearchFilter(fetched: seq<User>, query: string): (r: seq<User>)
    ensures forall u :: u in r <==> u in fetched && NameMatches(u, query)
    ensures forall u :: multiset(r)[u] == if NameMatches(u, query) then multiset(fetched)[u] else 0
    ensures IsSubsequence(r, fetched)
  {
    Filter(fetched, u => NameMatches(u, query))
  }

  /** An empty query keeps every fetched user, in order: every name includes "". */
  lemma SearchEmptyQueryKeepsAll(fetched: seq<User>)
    ensures SearchFilter(fetched, "") == fetched
  {
    forall u | u in fetched ensures NameMatches(u, "") {
      Text.IncludesEmpty(Text.Lower(u.name));
    }
    FilterAllPass(fetched, u => NameMatches(u, ""));
  }

  /** The search matches case-insensitively: a query and its lower-cased form keep the same users. */
  lemma SearchIgnoresQueryCase(fetched: seq<User>, query: string)
    ensures SearchFilter(fetched, Text.Lower(query)) == SearchFilter(fetched, query)
  {
    Text.LowerIdempotent(query);
    FilterAgreeing(fetched, u => NameMatches(u, Text.Lower(query)), u => NameMatches(u, query));
  }

  /** Searching never introduces a duplicate identifier. */
  lemma SearchKeepsUniqueIds(fetched: seq<User>, query: string)
    requires UniqueIds(fetched)
    ensures UniqueIds(SearchFilter(fetched, query))
  {
    SubsequenceKeepsUniqueIds(SearchFilter(fetched, query), fetched);
  }

  // ---------------------------------------------------------------- delete

  /** The list after a confirmed delete: every user whose id differs from `userId`, in order. */
  function RemoveById(users: seq<User>, userId: int): (r: seq<User>)
    ensures userId !in Ids(r)
    ensures forall u :: u in r <==> u in users && u.id != userId
    ensures forall u :: multiset(r)[u] == if u.id != userId then multiset(users)[u] else 0
    ensures IsSubsequence(r, users)
    ensures |r| == |users| - CountId(users, userId)
  {
    var r := Filter(users, (u: User) => u.id != userId);
    RemovedCount(users, userId);
    r
  }

  lemma {:induction false} RemovedCount(users: seq<User>, userId: int)
    ensures |Filter(users, (u: User) => u.id != userId)| == |users| - CountId(users, userId)
  {
    if users != [] {
      RemovedCount(users[1..], userId);
    }
  }

  /** Deleting an identifier that is not present leaves the list as it was. */
  lemma RemoveAbsentIsIdentity(users: seq<User>, userId: int)
    requires userId !in Ids(users)
    ensures RemoveById(users, userId) == users
  {
    FilterAllPass(users, (u: User) => u.id != userId);
  }

  /** With unique identifiers, a delete of a present id removes exactly one record. */
  lemma RemoveUniqueShrinksByOne(users: seq<User>, userId: int)
    requires UniqueIds(users) && userId in Ids(users)
    ensures |RemoveById(users, userId)| == |users| - 1
    ensures UniqueIds(RemoveById(users, userId))
  {
    UniqueIdsCountOne(users, userId);
    SubsequenceKeepsUniqueIds(RemoveById(users, userId), users);
  }

  // ---------------------------------------------------------------- edit

  /** `{ ...user.address, city }`: set the city, keep the other address keys; a missing
      address spreads as no keys at all. */
  function SetCity(address: Option<Address>, city: string): (a: Address)
    ensures a.city == Some(city)
    ensures a.rest == if address.Some? then address.value.rest else map[]
  {
    match address
    case None => Address(Some(city), map[])
    case Some(a) => a.(city := Some(city))
  }

  /** The record produced for one user by the replace-by-id merge. */
  function Patch(u: User, targetId: Option<int>, name: string, email: string, city: string): User
  {
    if targetId == Some(u.id)
    then u.(name := name, email := email, address := Some(SetCity(u.address, city)))
    else u
  }

  /** The list after a confirmed update: every user whose id is the target gets the form's
      name, email and city; nothing else changes. */
  function MergeEdit(users: seq<User>, targetId: Option<int>, name: string, email: string, city: string)
    : (r: seq<User>)
    ensures |r| == |users|
    ensures forall i :: 0 <= i < |users| && targetId != Some(users[i].id) ==> r[i] == users[i]
    ensures forall i :: 0 <= i < |users| && targetId == Some(users[i].id) ==>
      && r[i].id == users[i].id && r[i].rest == users[i].rest
      && r[i].name == name && r[i].email == email
      && r[i].address.Some? && r[i].address.value.city == Some(city)
      && r[i].address.value.rest == (if users[i].address.Some? then users[i].address.value.rest else map[])
  {
    seq(|users|, i requires 0 <= i < |users| => Patch(users[i], targetId, name, email, city))
  }

  /** The merge keeps the set of identifiers, so it keeps their uniqueness too. */
  lemma MergeEditKeepsIds(users: seq<User>, targetId: Option<int>, name: string, email: string, city: string)
    ensures Ids(MergeEdit(users, targetId, name, email, city)) == Ids(users)
    ensures UniqueIds(users) ==> UniqueIds(MergeEdit(users, targetId, name, email, city))
  {
    var r := MergeEdit(users, targetId, name, email, city);
    forall id | id in Ids(r) ensures id in Ids(users) {
      var k :| 0 <= k < |r| && r[k].id == id;
      assert users[k] in users;
    }
    forall id | id in Ids(users) ensures id in Ids(r) {
      var k :| 0 <= k < |users| && users[k].id == id;
      assert r[k] in r;
    }
  }

  /** Submitting the same edit twice gives the same list as submitting it once. */
  lemma MergeEditIdempotent(users: seq<User>, targetId: Option<int>, name: string, email: string, city: string)
    ensures var once := MergeEdit(users, targetId, name, email, city);
            MergeEdit(once, targetId, name, email, city) == once
  {
  }

  /** With no record carrying the target id, the merge changes nothing. */
  lemma MergeEditAbsentIsIdentity(users: seq<User>, id: int, name: string, email: string, city: string)
    requires id !in Ids(users)
    ensures MergeEdit(users, Some(id), name, email, city) == users
  {
    var r := MergeEdit(users, Some(id), name, email, city);
    forall i | 0 <= i < |users| ensures r[i] == users[i] {
      assert users[i] in users;
    }
  }

  // ---------------------------------------------------------------- create

  /** `[...users, createdUser]`: the server's record goes last, the old list stays a prefix. */
  function Append(users: seq<User>, created: User): (r: seq<User>)
    ensures |r| == |users| + 1 && r[..|users|] == users && r[|users|] == created
    ensures Ids(r) == Ids(users) + {created.id}
  {
    users + [created]
  }

  /** The created record's id appears once more than before; so exactly once after the create
      when the server assigned an id the list did not hold. */
  lemma AppendCountsCreatedOnce(users: seq<User>, created: User)
    ensures CountId(Append(users, created), created.id) == CountId(users, created.id) + 1
    ensures created.id !in Ids(users) ==> CountId(Append(users, created), created.id) == 1
  {
    CountIdConcat(users, [created], created.id);
  }

  /** Appending keeps identifiers unique exactly when the new id is fresh. */
  lemma AppendUniqueIff(users: seq<User>, created: User)
    requires UniqueIds(users)
    ensures UniqueIds(Append(users, created)) <==> created.id !in Ids(users)
  {
    var r := Append(users, created);
    if created.id in Ids(users) {
      var k :| 0 <= k < |users| && users[k].id == created.id;
      assert r[k].id == r[|users|].id;
    }
  }
}
