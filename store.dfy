/** The POST /users handler: a new id is drawn and the submitted record is
    stored under it in the request's copy of the collection. */
module UserCreate {
  import opened Php
  import opened UserSearch

  /** The smallest and largest id `mt_rand(1, 100)` can return. */
  const MinId: int := 1
  const MaxId: int := 100

  /** The handler's copy of `$users`; the closure captures it by value, so
      every request starts from the collection as decoded. */
  class UserStore {
    var users: Users

    /** A PHP array never holds a key twice. */
    ghost predicate Valid()
      reads this
    {
      DistinctKeys(users)
    }

    /** The collection as a map from id to record. */
    function Contents(): map<Key, Record>
      reads this
    {
      ToMap(users)
    }

    /** Starts from the decoded file; a null decode is an empty array, as
        assigning into null makes PHP create one. */
    constructor (decoded: Option<Users>)
      requires decoded.Some? ==> DistinctKeys(decoded.value)
      ensures Valid()
      ensures users == OrEmpty(decoded)
    {
      users := OrEmpty(decoded);
    }

    /** `$id = mt_rand(1, 100); $users[$id] = $userData;` The id is any value
        in range; a taken id is overwritten and keeps its place, a free one is
        appended. */
    method Insert(userData: Record) returns (id: int)
      requires Valid()
      modifies this
      ensures Valid()
      ensures MinId <= id <= MaxId
      ensures users == Put(old(users), IntKey(id), userData)
      ensures Contents() == old(Contents())[IntKey(id) := userData]
      ensures IntKey(id) in Contents() && Contents()[IntKey(id)] == userData
      ensures forall k :: k in old(Contents()) && k != IntKey(id) ==>
                k in Contents() && Contents()[k] == old(Contents())[k]
      ensures IntKey(id) in old(Contents()) ==> |Contents()| == |old(Contents())|
      ensures IntKey(id) !in old(Contents()) ==> |Contents()| == |old(Contents())| + 1
    {
      id :| MinId <= id <= MaxId;
      PutDistinct(users, IntKey(id), userData);
      PutMap(users, IntKey(id), userData);
      PutSize(users, IntKey(id), userData);
      users := Put(users, IntKey(id), userData);
    }
  }
}
