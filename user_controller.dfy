/** The database the user controller's two write handlers change in place:
    `sendFriendRequest` inserts one ledger record, `acceptFriendRequest`
    saves a new status and then applies two `$addToSet` updates. */
module UserController {
  import opened FriendStore
  import opened Relationship

  class Database {
    var users: map<UserId, User>
    var requests: map<RequestId, FriendRequest>
    var nextRequestId: RequestId

    /** The current contents of both collections. */
    function Snapshot(): Store
      reads this
    {
      Store(users, requests, nextRequestId)
    }

    ghost predicate Valid()
      reads this
    {
      Inv(Snapshot())
    }

    /** A database holding the users registered so far and an empty ledger;
        newly registered users have no friends. */
    constructor (registered: map<UserId, User>)
      ensures Snapshot() == Store(registered, map[], 0)
      ensures (forall u | u in registered :: registered[u].friends == []) ==> Valid()
    {
      users := registered;
      requests := map[];
      nextRequestId := 0;
    }

    /** `sendFriendRequest(me -> to)`; a send by a registered user keeps the
        database valid. */
    method SendFriendRequest(me: UserId, to: UserId) returns (result: SendResult)
      modifies this
      ensures (result, Snapshot()) == Send(old(Snapshot()), me, to)
      ensures old(Valid()) && me in old(users) ==> Valid()
    {
      if me == to {
        return SelfRequest;
      }
      if to !in users {
        return RecipientNotFound;
      }
      if me in users[to].friends {
        return AlreadyFriends;
      }
      if RequestBetween(requests, me, to) {
        return RequestExists;
      }
      var id := nextRequestId;
      requests := requests[id := FriendRequest(me, to, Pending)];
      nextRequestId := nextRequestId + 1;
      result := Sent(id);
      if old(Valid()) && me in old(users) {
        SendPreservesInv(old(Snapshot()), me, to);
      }
    }

    /** `acceptFriendRequest(id)` by `me`: the status write, then the
        sender's and the recipient's friend-list updates, in that order. */
    method AcceptFriendRequest(me: UserId, id: RequestId) returns (result: AcceptResult)
      modifies this
      ensures (result, Snapshot()) == Accept(old(Snapshot()), me, id)
      ensures old(Valid()) ==> Valid()
    {
      if id !in requests {
        return RequestNotFound;
      }
      var request := requests[id];
      if request.recipient != me {
        return NotAuthorized;
      }
      requests := requests[id := request.(status := Accepted)];
      users := AddFriend(users, request.sender, request.recipient);
      users := AddFriend(users, request.recipient, request.sender);
      result := AcceptOk;
      if old(Valid()) {
        AcceptPreservesInv(old(Snapshot()), me, id);
      }
    }
  }
}
