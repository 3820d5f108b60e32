/**
  The online-users panel (components/chat/UserListPanel.tsx): everyone but
  the current user, sorted by username, with the Group Chat entry or the
  selected peer's entry highlighted.
 */
module UserListPanel {
  import opened JsString
  import opened Types
  import opened Sequences

  /** The comparator `a.username.localeCompare(b.username)`, as "a may
      precede b". */
  predicate UsernameLeq(a: User, b: User)
  {
    LexLeq(a.username, b.username)
  }

  function UserId(u: User): SessionId
  {
    u.id
  }

  lemma UsernameLeqTotalPreorder()
    ensures TotalPreorder(UsernameLeq)
  {
    forall a: User, b: User
      ensures UsernameLeq(a, b) || UsernameLeq(b, a)
    {
      LexLeqTotal(a.username, b.username);
    }
    forall a: User, b: User, c: User | UsernameLeq(a, b) && UsernameLeq(b, c)
      ensures UsernameLeq(a, c)
    {
      LexLeqTransitive(a.username, b.username, c.username);
    }
  }

  /** `user.id !== currentUserId`, with a null current id keeping everyone. */
  predicate IsOther(u: User, currentUserId: Option<SessionId>)
  {
    currentUserId.None? || u.id != currentUserId.value
  }

  /** `otherUsers`: the listed users other than the current one, in order. */
  function OtherUsers(users: seq<User>, currentUserId: Option<SessionId>): (r: seq<User>)
    ensures IsSubsequence(r, users)
    ensures forall u :: u in r <==> u in users && IsOther(u, currentUserId)
    ensures forall u :: multiset(r)[u] == if IsOther(u, currentUserId) then multiset(users)[u] else 0
  {
    Filter(users, (u: User) => IsOther(u, currentUserId))
  }

  /** `sortedOtherUsers`: a sorted copy of `otherUsers`. */
  function SortedOtherUsers(users: seq<User>, currentUserId: Option<SessionId>): (r: seq<User>)
    ensures multiset(r) == multiset(OtherUsers(users, currentUserId))
    ensures |r| == |OtherUsers(users, currentUserId)|
  {
    SortBy(OtherUsers(users, currentUserId), UsernameLeq)
  }

  /** The panel is in username order. */
  lemma SortedOtherUsersSorted(users: seq<User>, currentUserId: Option<SessionId>)
    ensures SortedBy(SortedOtherUsers(users, currentUserId), UsernameLeq)
  {
    UsernameLeqTotalPreorder();
    SortBySorts(OtherUsers(users, currentUserId), UsernameLeq);
  }

  /** The panel lists exactly the other users, each as often as given, and
      never the current user. */
  lemma SortedOtherUsersMembers(users: seq<User>, currentUserId: Option<SessionId>)
    ensures var r := SortedOtherUsers(users, currentUserId);
            && (forall u :: multiset(r)[u] == if IsOther(u, currentUserId) then multiset(users)[u] else 0)
            && (forall u :: u in r <==> u in users && IsOther(u, currentUserId))
  {
    var r := SortedOtherUsers(users, currentUserId);
    var others := OtherUsers(users, currentUserId);
    forall u
      ensures u in r <==> u in users && IsOther(u, currentUserId)
    {
      calc {
        u in r;
        u in multiset(r);
        u in multiset(others);
        u in others;
      }
    }
  }

  /** The current user's id is never listed. */
  lemma SortedOtherUsersExcludesSelf(users: seq<User>, me: SessionId)
    ensures forall i :: 0 <= i < |SortedOtherUsers(users, Some(me))| ==> SortedOtherUsers(users, Some(me))[i].id != me
  {
    var r := SortedOtherUsers(users, Some(me));
    SortedOtherUsersMembers(users, Some(me));
    forall i | 0 <= i < |r|
      ensures r[i].id != me
    {
      assert r[i] in r;
    }
  }

  /** Users with distinct ids stay distinct after filtering and sorting. */
  lemma SortedOtherUsersIdsDistinct(users: seq<User>, currentUserId: Option<SessionId>)
    requires KeysDistinct(users, UserId)
    ensures KeysDistinct(SortedOtherUsers(users, currentUserId), UserId)
  {
    var others := OtherUsers(users, currentUserId);
    SubsequenceKeepsKeysDistinct(others, users, UserId);
    SortByKeepsKeysDistinct(others, UsernameLeq, UserId);
  }

  /** Highlighting of the Group Chat entry: no peer selected. */
  predicate GroupHighlighted(selectedPeer: Option<User>)
  {
    selectedPeer.None?
  }

  /** Highlighting of a user entry: `selectedPeer?.id === user.id`. */
  predicate UserHighlighted(selectedPeer: Option<User>, u: User)
  {
    selectedPeer.Some? && selectedPeer.value.id == u.id
  }

  /** The Group Chat entry and a user entry are never highlighted together,
      and with ids distinct at most one user entry is. */
  lemma HighlightExclusive(list: seq<User>, selectedPeer: Option<User>)
    requires KeysDistinct(list, UserId)
    ensures forall u :: UserHighlighted(selectedPeer, u) ==> !GroupHighlighted(selectedPeer)
    ensures forall i, j ::
              (0 <= i < |list| && 0 <= j < |list| && UserHighlighted(selectedPeer, list[i]) && UserHighlighted(selectedPeer, list[j]))
              ==> i == j
  {
    forall i, j | 0 <= i < |list| && 0 <= j < |list| && UserHighlighted(selectedPeer, list[i])
                  && UserHighlighted(selectedPeer, list[j])
      ensures i == j
    {
      if i < j || j < i {
        assert false;
      }
    }
  }

  /** Exactly one entry is highlighted when the selected peer is listed: the
      peer's own. */
  lemma HighlightExactlyOne(list: seq<User>, selectedPeer: Option<User>, k: nat)
    requires KeysDistinct(list, UserId)
    requires selectedPeer.Some? && k < |list| && list[k].id == selectedPeer.value.id
    ensures !GroupHighlighted(selectedPeer) && UserHighlighted(selectedPeer, list[k])
    ensures forall i :: 0 <= i < |list| && UserHighlighted(selectedPeer, list[i]) ==> i == k
  {
    HighlightExclusive(list, selectedPeer);
  }
}
