/** The two state-changing handlers of the user controller, `sendFriendRequest`
    and `acceptFriendRequest`, as transitions on a database snapshot, with the
    HTTP status each outcome is answered with. */
module Relationship {
  import opened FriendStore

  /** How `sendFriendRequest` ends. */
  datatype SendResult =
    | Sent(id: RequestId)
    | SelfRequest
    | RecipientNotFound
    | AlreadyFriends
    | RequestExists
  {
    /** The HTTP status the handler answers with. The already-friends case
        is answered with 404, not with the 400 of the other conflicts. */
    function Code(): int {
      match this
      case Sent(_) => 201
      case SelfRequest => 400
      case RecipientNotFound => 404
      case AlreadyFriends => 404
      case RequestExists => 400
    }
  }

  /** How `acceptFriendRequest` ends. */
  datatype AcceptResult = AcceptOk | RequestNotFound | NotAuthorized
  {
    function Code(): int {
      match this
      case AcceptOk => 200
      case RequestNotFound => 404
      case NotAuthorized => 403
    }
  }

  /** `sendFriendRequest` by `me` to `to`: four guards in the handler's order,
      then one new pending record. The already-friends guard reads only the
      recipient's friend list. */
  function Send(st: Store, me: UserId, to: UserId): (SendResult, Store)
  {
    if me == to then (SelfRequest, st)
    else if to !in st.users then (RecipientNotFound, st)
    else if me in st.users[to].friends then (AlreadyFriends, st)
    else if RequestBetween(st.requests, me, to) then (RequestExists, st)
    else
      var id := st.nextId;
      (Sent(id), st.(requests := st.requests[id := FriendRequest(me, to, Pending)], nextId := id + 1))
  }

  /** `acceptFriendRequest` of request `id` by `me`: only the stored recipient
      may accept; the status is set without looking at the old one, then each
      party is added to the other's friend list, sender's list first. */
  function Accept(st: Store, me: UserId, id: RequestId): (AcceptResult, Store)
  {
    if id !in st.requests then (RequestNotFound, st)
    else if st.requests[id].recipient != me then (NotAuthorized, st)
    else
      var request := st.requests[id];
      var users := AddFriend(st.users, request.sender, request.recipient);
      (AcceptOk, st.(requests := st.requests[id := request.(status := Accepted)],
                     users := AddFriend(users, request.recipient, request.sender)))
  }

  /** Every rejection of a send, with its status code; a rejected send leaves
      the database as it was, and a send that passes all four guards succeeds. */
  lemma SendRejections(st: Store, me: UserId, to: UserId)
    ensures var (res, st') := Send(st, me, to);
      && (me == to ==> res == SelfRequest && res.Code() == 400)
      && (me != to && to !in st.users ==> res == RecipientNotFound && res.Code() == 404)
      && (me != to && IsFriend(st.users, to, me) ==> res == AlreadyFriends && res.Code() == 404)
      && (me != to && to in st.users && !IsFriend(st.users, to, me) && RequestBetween(st.requests, me, to) ==>
            res == RequestExists && res.Code() == 400)
      && (!res.Sent? ==> st' == st)
      && (res.Sent? <==>
            me != to && to in st.users && !IsFriend(st.users, to, me) && !RequestBetween(st.requests, me, to))
  {
  }

  /** A successful send adds exactly one new record, pending, from `me` to
      `to`; every existing record and every user is left as it was. */
  lemma SendAddsOneRequest(st: Store, me: UserId, to: UserId)
    requires Inv(st)
    ensures var (res, st') := Send(st, me, to);
      res.Sent? ==>
        && res.Code() == 201
        && st'.users == st.users
        && res.id !in st.requests
        && st'.requests.Keys == st.requests.Keys + {res.id}
        && |st'.requests| == |st.requests| + 1
        && st'.requests[res.id] == FriendRequest(me, to, Pending)
        && (forall id | id in st.requests :: st'.requests[id] == st.requests[id])
  {
  }

  /** A send by a registered user keeps the database invariant. */
  lemma SendPreservesInv(st: Store, me: UserId, to: UserId)
    requires Inv(st) && me in st.users
    ensures Inv(Send(st, me, to).1)
  {
  }

  /** Once A's request to B is recorded, neither a second send from A nor
      a crossed send from B gets through: both end in 400, except that B's
      send ends in 404 when A is not a registered user. */
  lemma SendThenResendRejected(st: Store, a: UserId, b: UserId)
    requires Inv(st)
    requires Send(st, a, b).0.Sent?
    ensures var st' := Send(st, a, b).1;
      && Send(st', a, b) == (RequestExists, st')
      && Send(st', b, a) == (if a in st.users then (RequestExists, st') else (RecipientNotFound, st'))
  {
    var (res, st') := Send(st, a, b);
    assert st'.requests[res.id].Links(a, b) && st'.requests[res.id].Links(b, a);
    assert !IsFriend(st.users, a, b);
  }

  /** Between users who are already friends no request can be sent, in
      either direction: both end in 404 and change nothing. */
  lemma FriendsCannotRequest(st: Store, a: UserId, b: UserId)
    requires Inv(st)
    requires IsFriend(st.users, a, b)
    ensures Send(st, a, b) == (AlreadyFriends, st)
    ensures Send(st, b, a) == (AlreadyFriends, st)
  {
  }

  /** Every rejection of an accept, with its status code; a rejected accept
      leaves the database as it was, and the stored recipient's accept of an
      existing request succeeds. */
  lemma AcceptRejections(st: Store, me: UserId, id: RequestId)
    ensures var (res, st') := Accept(st, me, id);
      && (id !in st.requests ==> res == RequestNotFound && res.Code() == 404)
      && (id in st.requests && st.requests[id].recipient != me ==> res == NotAuthorized && res.Code() == 403)
      && (res != AcceptOk ==> st' == st)
      && (res == AcceptOk <==> id in st.requests && st.requests[id].recipient == me)
  {
  }

  /** The sender of a request cannot accept it. */
  lemma SenderCannotAccept(st: Store, id: RequestId)
    requires Inv(st) && id in st.requests
    ensures Accept(st, st.requests[id].sender, id) == (NotAuthorized, st)
  {
  }

  /** A successful accept marks the request accepted and makes its two
      parties friends of each other; it adds nothing else to any friend list
      and touches no other record and no other user. */
  lemma AcceptEffect(st: Store, me: UserId, id: RequestId)
    requires Inv(st)
    ensures var (res, st') := Accept(st, me, id);
      res == AcceptOk ==>
        var s, r := st.requests[id].sender, st.requests[id].recipient;
        && res.Code() == 200
        && r == me
        && st'.nextId == st.nextId
        && st'.requests == st.requests[id := FriendRequest(s, r, Accepted)]
        && st'.users.Keys == st.users.Keys
        && IsFriend(st'.users, s, r) && IsFriend(st'.users, r, s)
        && (forall u | u in st.users && u != s && u != r :: st'.users[u] == st.users[u])
        && (forall v :: IsFriend(st'.users, s, v) <==> IsFriend(st.users, s, v) || v == r)
        && (forall v :: IsFriend(st'.users, r, v) <==> IsFriend(st.users, r, v) || v == s)
        && NoDuplicates(st'.users[s].friends) && NoDuplicates(st'.users[r].friends)
  {
  }

  /** A successful accept between registered users adds exactly the
      friendship between the request's two parties, in both directions. */
  lemma AcceptFriendships(st: Store, me: UserId, id: RequestId)
    requires Accept(st, me, id).0 == AcceptOk
    requires st.requests[id].sender in st.users && st.requests[id].recipient in st.users
    ensures var st' := Accept(st, me, id).1;
      var s, r := st.requests[id].sender, st.requests[id].recipient;
      forall u, v :: IsFriend(st'.users, u, v) <==>
        IsFriend(st.users, u, v) || (u == s && v == r) || (u == r && v == s)
  {
    var st' := Accept(st, me, id).1;
    var s, r := st.requests[id].sender, st.requests[id].recipient;
    var users1 := AddFriend(st.users, s, r);
    assert st'.users == AddFriend(users1, r, s);
    forall u, v ensures IsFriend(users1, u, v) <==> IsFriend(st.users, u, v) || (u == s && v == r) {
    }
  }

  /** An accept keeps the ledger's part of the invariant: it only changes
      the status of an existing record. */
  lemma AcceptKeepsLedgerInv(st: Store, me: UserId, id: RequestId)
    requires IdsIssued(st) && RequestsWellFormed(st) && OnePerPair(st)
    ensures var st' := Accept(st, me, id).1;
      IdsIssued(st') && RequestsWellFormed(st') && OnePerPair(st')
  {
    var (res, st') := Accept(st, me, id);
    if res == AcceptOk {
      var request := st.requests[id];
      assert st'.requests == st.requests[id := request.(status := Accepted)];
      assert st'.users.Keys == st.users.Keys;
    }
  }

  /** An accept keeps the friend lists' part of the invariant. */
  lemma AcceptKeepsFriendsInv(st: Store, me: UserId, id: RequestId)
    requires Inv(st)
    ensures var st' := Accept(st, me, id).1;
      FriendListsSetLike(st') && FriendsSymmetric(st') && AcceptedAreFriends(st')
  {
    var (res, st') := Accept(st, me, id);
    if res == AcceptOk {
      var request := st.requests[id];
      var s, r := request.sender, request.recipient;
      assert st'.requests == st.requests[id := request.(status := Accepted)];
      AcceptFriendships(st, me, id);
      assert FriendsSymmetric(st') by {
        forall u, v | IsFriend(st'.users, u, v) ensures u != v && IsFriend(st'.users, v, u) {
          if !((u == s && v == r) || (u == r && v == s)) {
            assert IsFriend(st.users, u, v);
          }
        }
      }
    }
  }

  /** An accept keeps the database invariant. */
  lemma AcceptPreservesInv(st: Store, me: UserId, id: RequestId)
    requires Inv(st)
    ensures Inv(Accept(st, me, id).1)
  {
    AcceptKeepsLedgerInv(st, me, id);
    AcceptKeepsFriendsInv(st, me, id);
  }

  /** The handler never checks that the request is still pending: accepting
      it again succeeds and changes nothing at all. */
  lemma AcceptIdempotent(st: Store, me: UserId, id: RequestId)
    requires Accept(st, me, id).0 == AcceptOk
    ensures var st' := Accept(st, me, id).1;
      Accept(st', me, id) == (AcceptOk, st')
  {
    var request := st.requests[id];
    var s, r := request.sender, request.recipient;
    var st' := Accept(st, me, id).1;
    var users1 := AddFriend(st.users, s, r);
    assert st'.users == AddFriend(users1, r, s);
    assert s in st'.users ==> r in st'.users[s].friends;
    assert r in st'.users ==> s in st'.users[r].friends;
    AddFriendPresent(st'.users, s, r);
    AddFriendPresent(st'.users, r, s);
    assert st'.requests[id] == request.(status := Accepted);
    assert st'.requests[id := st'.requests[id].(status := Accepted)] == st'.requests;
  }
}
