/**
 * The user repository (Users.Api.Repositories.UserRepository) as the
 * service sees it: an ordered store of user records behind five calls.
 * The queries the repository hands to the database (AnyAsync,
 * FirstOrDefaultAsync) are pure functions over the store; the two writes
 * report success as "rows changed > 0".
 */
module Repositories {

  import opened Wrappers
  import opened Models
  import opened Traces

  /** The five repository operations. */
  datatype Operation = GetAll | GetById | NameIsExist | Create | Delete

  /** What a repository call produced: its value, or the exception it threw. */
  datatype Response<+T> = Done(value: T) | Threw(exception: Exception)

  /** `Users.AnyAsync(p => p.FullName == fullName)`. */
  function AnyWithName(users: seq<User>, fullName: string): (found: bool)
    ensures found <==> exists i :: 0 <= i < |users| && users[i].fullName == fullName
  {
    if users == [] then false
    else users[0].fullName == fullName || AnyWithName(users[1..], fullName)
  }

  /** `Users.FirstOrDefaultAsync(x => x.Id == id)`: the first record with that id, or none. */
  function FirstWithId(users: seq<User>, id: Guid): (r: Option<User>)
    ensures r.None? <==> forall i :: 0 <= i < |users| ==> users[i].id != id
    ensures r.Some? ==> r.value.id == id
    ensures r.Some? ==> exists k :: 0 <= k < |users| && users[k] == r.value
                                    && forall j :: 0 <= j < k ==> users[j].id != id
  {
    if users == [] then None
    else if users[0].id == id then Some(users[0])
    else FirstWithId(users[1..], id)
  }

  /** The identifiers in the store. */
  function Ids(users: seq<User>): set<Guid>
  {
    set u | u in users :: u.id
  }

  /** The store is keyed by id: no two records share one. */
  predicate UniqueIds(users: seq<User>)
  {
    forall i, j :: 0 <= i < j < |users| ==> users[i].id != users[j].id
  }

  /** The store after `Remove(user)` and `SaveChanges`: every record with the user's key is gone, the rest keep their order (see RemoveWithIdAppend). */
  function RemoveWithId(users: seq<User>, id: Guid): (r: seq<User>)
    ensures forall u :: u in r <==> u in users && u.id != id
    ensures |r| <= |users|
  {
    if users == [] then []
    else if users[0].id == id then RemoveWithId(users[1..], id)
    else [users[0]] + RemoveWithId(users[1..], id)
  }

  /** Deleting filters the store in order: it distributes over any split of the store into a front and a back. */
  lemma {:induction false} RemoveWithIdAppend(front: seq<User>, back: seq<User>, id: Guid)
    ensures RemoveWithId(front + back, id) == RemoveWithId(front, id) + RemoveWithId(back, id)
  {
    if front == [] {
      assert front + back == back;
    } else {
      assert (front + back)[1..] == front[1..] + back;
      RemoveWithIdAppend(front[1..], back, id);
    }
  }

  /** The tail of a store keyed by id is keyed by id, and none of its records shares the head's id. */
  lemma UniqueTail(users: seq<User>)
    requires UniqueIds(users) && users != []
    ensures UniqueIds(users[1..])
    ensures users[0].id !in Ids(users[1..])
  {
    var tail := users[1..];
    forall i, j | 0 <= i < j < |tail| ensures tail[i].id != tail[j].id {
      assert tail[i] == users[i + 1] && tail[j] == users[j + 1];
    }
    forall u | u in tail ensures u.id != users[0].id {
      var k :| 0 <= k < |tail| && tail[k] == u;
      assert users[k + 1] == u;
    }
  }

  /** Deleting by key keeps the store keyed by id. */
  lemma {:induction false} RemoveWithIdUnique(users: seq<User>, id: Guid)
    requires UniqueIds(users)
    ensures UniqueIds(RemoveWithId(users, id))
  {
    if users != [] {
      UniqueTail(users);
      RemoveWithIdUnique(users[1..], id);
      if users[0].id != id {
        var r := RemoveWithId(users[1..], id);
        var s := [users[0]] + r;
        forall i, j | 0 <= i < j < |s| ensures s[i].id != s[j].id {
          if i == 0 {
            assert s[j] == r[j - 1] && r[j - 1] in users[1..];
          } else {
            assert s[i] == r[i - 1] && s[j] == r[j - 1];
          }
        }
      }
    }
  }

  /** In a store keyed by id, deleting a present key removes exactly one record, an absent key none. */
  lemma {:induction false} RemoveWithIdCount(users: seq<User>, id: Guid)
    requires UniqueIds(users)
    ensures |RemoveWithId(users, id)| == if id in Ids(users) then |users| - 1 else |users|
  {
    if users != [] {
      var tail := users[1..];
      UniqueTail(users);
      RemoveWithIdCount(tail, id);
      assert users == [users[0]] + tail;
      assert Ids(users) == {users[0].id} + Ids(tail);
    }
  }

  /** Adding a record whose id is not yet used keeps the store keyed by id. */
  lemma AppendFreshKeyed(users: seq<User>, user: User)
    requires UniqueIds(users)
    requires user.id !in Ids(users)
    ensures UniqueIds(users + [user])
    ensures Ids(users + [user]) == Ids(users) + {user.id}
  {
    var s := users + [user];
    forall i, j | 0 <= i < j < |s| ensures s[i].id != s[j].id {
      if j == |users| {
        assert s[i] in users;
      }
    }
  }

  /**
   * The repository: the stored records, the exception each operation is
   * currently set to throw (a failing database, or a substitute set up with
   * `.Throws`), and, as a ghost record, every call it has received.
   */
  class UserRepository {
    var users: seq<User>
    var faults: map<Operation, Exception>
    var answers: map<Operation, bool>
    ghost var received: seq<RepositoryCall>
    /** Where every call is also recorded, beside the logger's entries. */
    const timeline: Timeline

    ghost predicate Valid()
      reads this
    {
      UniqueIds(users)
    }

    /**
     * A store holding `users`. `faults` names the calls that throw and with
     * what; `answers` names the writes whose flag is fixed in advance, as a
     * substitute configured with `.Returns(b)` reports `b`.
     */
    constructor (users: seq<User>, faults: map<Operation, Exception>, answers: map<Operation, bool>, timeline: Timeline)
      requires UniqueIds(users)
      ensures Valid()
      ensures this.users == users && this.faults == faults && this.answers == answers && received == []
      ensures this.timeline == timeline
    {
      this.users := users;
      this.faults := faults;
      this.answers := answers;
      received := [];
      this.timeline := timeline;
    }

    /** The flag a write reports: its configured answer, or else whether `SaveChangesAsync` changed a row. */
    function Reported(op: Operation, rowsChanged: bool): bool
      reads this
    {
      if op in answers then answers[op] else rowsChanged
    }

    /** `ToListAsync`: the whole store, in order. */
    method GetAllAsync() returns (r: Response<seq<User>>)
      modifies this`received, timeline
      ensures received == old(received) + [GetAllCall]
      ensures timeline.events == old(timeline.events) + [Called(GetAllCall)]
      ensures r == if Operation.GetAll in faults then Threw(faults[Operation.GetAll]) else Done(users)
    {
      received := received + [GetAllCall];
      timeline.events := timeline.events + [Called(GetAllCall)];
      if Operation.GetAll in faults {
        r := Threw(faults[Operation.GetAll]);
      } else {
        r := Done(users);
      }
    }

    /** `FirstOrDefaultAsync(x => x.Id == id)`: absent is a normal answer. */
    method GetByIdAsync(id: Guid) returns (r: Response<Option<User>>)
      modifies this`received, timeline
      ensures received == old(received) + [GetByIdCall(id)]
      ensures timeline.events == old(timeline.events) + [Called(GetByIdCall(id))]
      ensures r == if Operation.GetById in faults then Threw(faults[Operation.GetById]) else Done(FirstWithId(users, id))
    {
      received := received + [GetByIdCall(id)];
      timeline.events := timeline.events + [Called(GetByIdCall(id))];
      if Operation.GetById in faults {
        r := Threw(faults[Operation.GetById]);
      } else {
        r := Done(FirstWithId(users, id));
      }
    }

    /** `AnyAsync(p => p.FullName == fullName)`. */
    method NameIsExist(fullName: string) returns (r: Response<bool>)
      modifies this`received, timeline
      ensures received == old(received) + [NameIsExistCall(fullName)]
      ensures timeline.events == old(timeline.events) + [Called(NameIsExistCall(fullName))]
      ensures r == if Operation.NameIsExist in faults then Threw(faults[Operation.NameIsExist]) else Done(AnyWithName(users, fullName))
    {
      received := received + [NameIsExistCall(fullName)];
      timeline.events := timeline.events + [Called(NameIsExistCall(fullName))];
      if Operation.NameIsExist in faults {
        r := Threw(faults[Operation.NameIsExist]);
      } else {
        r := Done(AnyWithName(users, fullName));
      }
    }

    /** `AddAsync` then `SaveChangesAsync`: one row inserted, so the result is true unless an answer is configured; a failed save stores nothing. */
    method CreateAsync(user: User) returns (r: Response<bool>)
      requires Valid()
      requires user.id !in Ids(users)
      modifies this`users, this`received, timeline
      ensures Valid()
      ensures received == old(received) + [CreateCall(user)]
      ensures timeline.events == old(timeline.events) + [Called(CreateCall(user))]
      ensures Operation.Create in faults ==> r == Threw(faults[Operation.Create]) && users == old(users)
      ensures Operation.Create !in faults ==> r == Done(Reported(Operation.Create, true)) && users == old(users) + [user]
    {
      received := received + [CreateCall(user)];
      timeline.events := timeline.events + [Called(CreateCall(user))];
      if Operation.Create in faults {
        r := Threw(faults[Operation.Create]);
      } else {
        AppendFreshKeyed(users, user);
        users := users + [user];
        r := Done(Reported(Operation.Create, true));
      }
    }

    /** `Remove(user)` then `SaveChangesAsync`: true exactly when a row with the user's key was deleted, unless an answer is configured. */
    method DeleteAsync(user: User) returns (r: Response<bool>)
      requires Valid()
      modifies this`users, this`received, timeline
      ensures Valid()
      ensures received == old(received) + [DeleteCall(user)]
      ensures timeline.events == old(timeline.events) + [Called(DeleteCall(user))]
      ensures Operation.Delete in faults ==> r == Threw(faults[Operation.Delete]) && users == old(users)
      ensures Operation.Delete !in faults ==>
                r == Done(Reported(Operation.Delete, user.id in Ids(old(users)))) && users == RemoveWithId(old(users), user.id)
    {
      received := received + [DeleteCall(user)];
      timeline.events := timeline.events + [Called(DeleteCall(user))];
      if Operation.Delete in faults {
        r := Threw(faults[Operation.Delete]);
      } else {
        RemoveWithIdUnique(users, user.id);
        RemoveWithIdCount(users, user.id);
        var rowsChanged := |users| - |RemoveWithId(users, user.id)|;
        users := RemoveWithId(users, user.id);
        r := Done(Reported(Operation.Delete, rowsChanged > 0));
      }
    }
  }
}
