/** The read-only handlers of the user controller: recommended users, the
    caller's friends, incoming and "accepted" requests, outgoing requests.
    Each is a filter over a database snapshot; results are the ids of the
    matching documents. */
module DirectoryQueries {
  import opened FriendStore
  import opened Relationship

  /** A read handler answers 200 with a body, or 500 when it fails. */
  datatype Reply<T> = Ok(body: T) | InternalError
  {
    function Code(): int {
      if Ok? then 200 else 500
    }
  }

  /** `getRecommendedUsers`: the onboarded users other than the caller that
      are not in the caller's friend list. An unknown caller makes the
      handler dereference a missing document, which ends in 500. */
  function RecommendedUsers(st: Store, me: UserId): Reply<set<UserId>>
  {
    if me !in st.users then InternalError
    else Ok(set u | u in st.users && u != me && u !in st.users[me].friends && st.users[u].isOnboarded)
  }

  /** Mongoose `populate` of an array of user ids: ids without a document
      are dropped, the rest keep their order. */
  function Populate(ids: seq<UserId>, users: map<UserId, User>): (r: seq<UserId>)
    ensures forall x :: x in r <==> x in ids && x in users
    ensures |r| <= |ids|
    ensures (forall x | x in ids :: x in users) ==> r == ids
    ensures NoDuplicates(ids) ==> NoDuplicates(r)
  {
    if ids == [] then []
    else if ids[0] in users then [ids[0]] + Populate(ids[1..], users)
    else Populate(ids[1..], users)
  }

  /** `getMyFriends`: the caller's friend list resolved to user documents. */
  function MyFriends(st: Store, me: UserId): Reply<seq<UserId>>
  {
    if me !in st.users then InternalError
    else Ok(Populate(st.users[me].friends, st.users))
  }

  /** The body of `getFriendRequests`. */
  datatype RequestLists = RequestLists(incoming: set<RequestId>, accepted: set<RequestId>)

  /** `getFriendRequests`: pending requests addressed to the caller, and
      accepted requests the caller SENT (the handler filters the second list
      on the sender, not on the recipient). */
  function FriendRequests(st: Store, me: UserId): RequestLists
  {
    RequestLists(
      set id | id in st.requests && st.requests[id].recipient == me && st.requests[id].status == Pending,
      set id | id in st.requests && st.requests[id].sender == me && st.requests[id].status == Accepted)
  }

  /** `getOutgoingFriendReqs`: pending requests the caller sent. */
  function OutgoingRequests(st: Store, me: UserId): set<RequestId>
  {
    set id | id in st.requests && st.requests[id].sender == me && st.requests[id].status == Pending
  }

  /** A registered caller always gets a recommendation list, and it holds
      exactly the onboarded strangers: not the caller, not a friend in either
      direction. */
  lemma RecommendedAreStrangers(st: Store, me: UserId)
    requires Inv(st) && me in st.users
    ensures RecommendedUsers(st, me).Ok?
    ensures forall v :: v in RecommendedUsers(st, me).body <==>
      v in st.users && v != me && st.users[v].isOnboarded &&
      !IsFriend(st.users, me, v) && !IsFriend(st.users, v, me)
  {
  }

  /** A registered caller's friend list resolves completely: every friend is
      a registered user who lists the caller back, and none appears twice. */
  lemma MyFriendsComplete(st: Store, me: UserId)
    requires Inv(st) && me in st.users
    ensures MyFriends(st, me) == Ok(st.users[me].friends)
    ensures NoDuplicates(MyFriends(st, me).body)
    ensures forall v | v in MyFriends(st, me).body :: v != me && IsFriend(st.users, v, me)
  {
    forall v | v in st.users[me].friends ensures v in st.users && v != me && IsFriend(st.users, v, me) {
      assert IsFriend(st.users, me, v);
    }
  }

  /** The caller's sent requests split into the outgoing list (pending) and
      the "accepted" list, with nothing in both. */
  lemma SentRequestsPartition(st: Store, me: UserId)
    ensures OutgoingRequests(st, me) !! FriendRequests(st, me).accepted
    ensures OutgoingRequests(st, me) + FriendRequests(st, me).accepted ==
      set id | id in st.requests && st.requests[id].sender == me
  {
  }

  /** After a successful send the new record shows in the sender's outgoing
      list and the recipient's incoming list, and in no other list. */
  lemma SendUpdatesLists(st: Store, me: UserId, to: UserId)
    requires IdsIssued(st)
    requires Send(st, me, to).0.Sent?
    ensures var (res, st') := Send(st, me, to);
      && OutgoingRequests(st', me) == OutgoingRequests(st, me) + {res.id}
      && FriendRequests(st', to).incoming == FriendRequests(st, to).incoming + {res.id}
      && (forall x | x != me :: OutgoingRequests(st', x) == OutgoingRequests(st, x))
      && (forall x | x != to :: FriendRequests(st', x).incoming == FriendRequests(st, x).incoming)
      && (forall x :: FriendRequests(st', x).accepted == FriendRequests(st, x).accepted)
  {
    var (res, st') := Send(st, me, to);
    assert st'.requests == st.requests[res.id := FriendRequest(me, to, Pending)];
    assert res.id !in st.requests;
  }

  /** After a successful accept the request leaves the recipient's incoming
      list and the sender's outgoing list and joins the sender's "accepted"
      list; it never shows in the recipient's "accepted" list. */
  lemma AcceptUpdatesLists(st: Store, me: UserId, id: RequestId)
    requires RequestsWellFormed(st)
    requires Accept(st, me, id).0 == AcceptOk
    ensures var st' := Accept(st, me, id).1;
      var s := st.requests[id].sender;
      && FriendRequests(st', me).incoming == FriendRequests(st, me).incoming - {id}
      && OutgoingRequests(st', s) == OutgoingRequests(st, s) - {id}
      && FriendRequests(st', s).accepted == FriendRequests(st, s).accepted + {id}
      && id !in FriendRequests(st', me).accepted
  {
    var request := st.requests[id];
    var st' := Accept(st, me, id).1;
    assert st'.requests == st.requests[id := request.(status := Accepted)];
    assert request.sender != me;
    forall x ensures x in FriendRequests(st', me).incoming <==> x in FriendRequests(st, me).incoming - {id} {
    }
    forall x ensures x in OutgoingRequests(st', request.sender) <==> x in OutgoingRequests(st, request.sender) - {id} {
    }
    forall x ensures x in FriendRequests(st', request.sender).accepted <==>
        x in FriendRequests(st, request.sender).accepted + {id} {
    }
  }

  /** Once a request is accepted, neither party is recommended to the other. */
  lemma AcceptEndsRecommendation(st: Store, me: UserId, id: RequestId)
    requires Inv(st)
    requires Accept(st, me, id).0 == AcceptOk
    ensures var st' := Accept(st, me, id).1;
      var s := st.requests[id].sender;
      && RecommendedUsers(st', s).Ok? && me !in RecommendedUsers(st', s).body
      && RecommendedUsers(st', me).Ok? && s !in RecommendedUsers(st', me).body
  {
    AcceptEffect(st, me, id);
  }

  /** The walk-through of a friendship: A asks B, asks again and is refused;
      B accepts; the request is then accepted, A and B are friends of each
      other, neither is recommended to the other, and no further request
      between them gets through in either direction. */
  lemma RequestAcceptScenario(st: Store, a: UserId, b: UserId)
    requires Inv(st) && a in st.users
    requires Send(st, a, b).0.Sent?
    ensures var (sent, st1) := Send(st, a, b);
      && Send(st1, a, b).0.Code() == 400
      && var (accepted, st2) := Accept(st1, b, sent.id);
      && accepted.Code() == 200
      && st2.requests[sent.id] == FriendRequest(a, b, Accepted)
      && IsFriend(st2.users, a, b) && IsFriend(st2.users, b, a)
      && b !in RecommendedUsers(st2, a).body && a !in RecommendedUsers(st2, b).body
      && Send(st2, a, b).0.Code() == 404 && Send(st2, b, a).0.Code() == 404
      && Inv(st2)
  {
    var (sent, st1) := Send(st, a, b);
    assert Inv(st1) by {
      SendPreservesInv(st, a, b);
    }
    assert Send(st1, a, b).0.Code() == 400 by {
      SendThenResendRejected(st, a, b);
    }
    assert st1.requests[sent.id] == FriendRequest(a, b, Pending) by {
      SendAddsOneRequest(st, a, b);
    }
    var (accepted, st2) := Accept(st1, b, sent.id);
    assert accepted == AcceptOk;
    assert IsFriend(st2.users, a, b) && IsFriend(st2.users, b, a) by {
      AcceptEffect(st1, b, sent.id);
    }
    assert Inv(st2) by {
      AcceptPreservesInv(st1, b, sent.id);
    }
    assert b !in RecommendedUsers(st2, a).body && a !in RecommendedUsers(st2, b).body by {
      AcceptEndsRecommendation(st1, b, sent.id);
    }
    FriendsCannotRequest(st2, a, b);
  }
}
