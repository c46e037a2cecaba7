/** The two collections the user controller works on, seen as values:
    the user directory (each user's friend list and onboarded flag) and the
    friend-request ledger. */
module FriendStore {

  type UserId = string

  /** Identifier of a ledger record; the store hands them out in increasing order. */
  type RequestId = nat

  /** A user document, reduced to the two fields the relationship rules read or write.
      `friends` is a MongoDB array, so it is a sequence; only `$addToSet` ever writes it. */
  datatype User = User(friends: seq<UserId>, isOnboarded: bool)

  /** The request schema's status field; a new record starts out pending. */
  datatype RequestStatus = Pending | Accepted

  datatype FriendRequest = FriendRequest(sender: UserId, recipient: UserId, status: RequestStatus)
  {
    /** The record is between `a` and `b`, in either direction. */
    predicate Links(a: UserId, b: UserId) {
      (sender == a && recipient == b) || (sender == b && recipient == a)
    }
  }

  /** A snapshot of the database: both collections and the next fresh request id. */
  datatype Store = Store(users: map<UserId, User>, requests: map<RequestId, FriendRequest>, nextId: RequestId)

  predicate NoDuplicates(s: seq<UserId>) {
    forall i, j | 0 <= i < j < |s| :: s[i] != s[j]
  }

  /** MongoDB's `$addToSet` on an array: appends `x` unless it is already there. */
  function AddToSet(s: seq<UserId>, x: UserId): (r: seq<UserId>)
    ensures forall y :: y in r <==> y in s || y == x
    ensures |s| <= |r| <= |s| + 1 && r[..|s|] == s
    ensures x in s ==> r == s
    ensures NoDuplicates(s) ==> NoDuplicates(r)
  {
    if x in s then s else s + [x]
  }

  /** `User.findByIdAndUpdate(id, { $addToSet: { friends: friend } })`:
      when no user has that id, nothing is updated. */
  function AddFriend(users: map<UserId, User>, id: UserId, friend: UserId): (r: map<UserId, User>)
    ensures r.Keys == users.Keys
    ensures forall u | u in users && u != id :: r[u] == users[u]
    ensures id in users ==> r[id] == users[id].(friends := AddToSet(users[id].friends, friend))
  {
    if id in users then users[id := users[id].(friends := AddToSet(users[id].friends, friend))] else users
  }

  /** Adding a friend who is already listed, or updating a missing user,
      leaves the directory unchanged. */
  lemma AddFriendPresent(users: map<UserId, User>, id: UserId, friend: UserId)
    requires id in users ==> friend in users[id].friends
    ensures AddFriend(users, id, friend) == users
  {
    if id in users {
      assert users[id].(friends := users[id].friends) == users[id];
    }
  }

  /** Some ledger record, in any status, is between `a` and `b` in either direction. */
  predicate RequestBetween(requests: map<RequestId, FriendRequest>, a: UserId, b: UserId) {
    exists id | id in requests :: requests[id].Links(a, b)
  }

  predicate IsFriend(users: map<UserId, User>, u: UserId, v: UserId) {
    u in users && v in users[u].friends
  }

  /** `$addToSet` never duplicates an entry of a friend list. */
  ghost predicate FriendListsSetLike(st: Store) {
    forall u | u in st.users :: NoDuplicates(st.users[u].friends)
  }

  /** Ids already handed out are below the next fresh one. */
  ghost predicate IdsIssued(st: Store) {
    forall id | id in st.requests :: id < st.nextId
  }

  /** No self-requests; both parties are registered users. */
  ghost predicate RequestsWellFormed(st: Store) {
    forall id | id in st.requests ::
      st.requests[id].sender != st.requests[id].recipient &&
      st.requests[id].sender in st.users && st.requests[id].recipient in st.users
  }

  /** At most one record, in any status, per unordered pair of users. */
  ghost predicate OnePerPair(st: Store) {
    forall i, j | i in st.requests && j in st.requests &&
      st.requests[j].Links(st.requests[i].sender, st.requests[i].recipient) :: i == j
  }

  /** Friendship is symmetric and irreflexive, and only registered users are friends. */
  ghost predicate FriendsSymmetric(st: Store) {
    forall u, v | IsFriend(st.users, u, v) :: u != v && IsFriend(st.users, v, u)
  }

  /** Every accepted request has made its parties friends of each other. */
  ghost predicate AcceptedAreFriends(st: Store) {
    forall id | id in st.requests && st.requests[id].status == Accepted ::
      IsFriend(st.users, st.requests[id].sender, st.requests[id].recipient) &&
      IsFriend(st.users, st.requests[id].recipient, st.requests[id].sender)
  }

  /** What the relationship rules keep true of the database, starting from
      registered users with empty friend lists and an empty ledger. */
  ghost predicate Inv(st: Store) {
    && FriendListsSetLike(st)
    && IdsIssued(st)
    && RequestsWellFormed(st)
    && OnePerPair(st)
    && FriendsSymmetric(st)
    && AcceptedAreFriends(st)
  }
}
