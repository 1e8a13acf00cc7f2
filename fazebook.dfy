/**
 * The social network (fazebook/Fazebook.java): users are the vertices of a
 * weighted directed graph over names, and a friendship is a pair of opposite
 * edges of weight 1. The functions below give the meaning of each
 * operation on the adjacency map; the class Fazebook runs them on its graph
 * object and is proved against them.
 */
module Social {
  import opened WeightedGraph
  import opened Wrappers

  type Network = Adjacency<string>

  /** Every edge has its reverse: all friendships are mutual. */
  ghost predicate Symmetric(m: Network)
  {
    forall e | e in Edges(m) :: (e.1, e.0) in Edges(m)
  }

  /** addUser: the empty name is refused; any other name is added as a vertex if absent. */
  function WithUser(m: Network, name: string): (r: Network)
    ensures name == "" ==> r == m
    ensures r.Keys == if name == "" then m.Keys else m.Keys + {name}
    ensures Edges(r) == Edges(m)
  {
    if name == "" then m else InsertVertex(m, name)
  }

  /**
   * addFriends: with two non-empty names, the edges a -> b and b -> a of
   * weight 1 are put, each through newEWDGraphEdge (which refuses a == b).
   */
  function WithFriendship(m: Network, a: string, b: string): Network
  {
    if a == "" || b == "" then m else PutEdge(PutEdge(m, a, b, 1), b, a, 1)
  }

  /** The guard of unfriend: both names non-empty, both users present, b a friend of a. */
  predicate MayUnfriend(m: Network, a: string, b: string)
  {
    a != "" && b != "" && a in m && b in m && b in Neighbors(m, a)
  }

  /** unfriend: removes the single edge a -> b when the guard holds. */
  function WithoutFriend(m: Network, a: string, b: string): Network
  {
    if MayUnfriend(m, a, b) then DeleteEdge(m, a, b) else m
  }

  /** Everyone reached in one step from some member of `fs` other than `name`. */
  ghost function ReachedVia(m: Network, fs: set<string>, name: string): set<string>
  {
    set f, x | f in fs && f != name && x in Neighbors(m, f) :: x
  }

  /**
   * peopleYouMayWannaKnow for a non-empty name: the friends of every friend
   * of `name`, without `name` itself.
   */
  ghost function Suggestions(m: Network, name: string): set<string>
  {
    ReachedVia(m, Neighbors(m, name), name) - {name}
  }

  /** Adding one more source friend adds exactly that friend's friends. */
  lemma {:induction false} ReachedViaStep(m: Network, fs: set<string>, f: string, name: string)
    ensures ReachedVia(m, fs + {f}, name)
         == ReachedVia(m, fs, name) + (if f != name then Neighbors(m, f) else {})
  {
    var lhs := ReachedVia(m, fs + {f}, name);
    var rhs := ReachedVia(m, fs, name) + (if f != name then Neighbors(m, f) else {});
    forall x | x in lhs ensures x in rhs {
      var g :| g in fs + {f} && g != name && x in Neighbors(m, g);
      if g != f {
        assert x in ReachedVia(m, fs, name);
      }
    }
    forall x | x in rhs ensures x in lhs {
      if x !in ReachedVia(m, fs, name) {
        assert f != name && x in Neighbors(m, f);
      }
    }
  }

  // ---------------------------------------------------------------------
  // Properties of the operations

  /** addFriends makes each of a and b a friend of the other and both users. */
  lemma {:induction false} FriendshipIsMutual(m: Network, a: string, b: string)
    requires a != "" && b != "" && a != b
    ensures var r := WithFriendship(m, a, b);
      && r.Keys == m.Keys + {a, b}
      && Edges(r) == Edges(m) + {(a, b), (b, a)}
      && b in Neighbors(r, a) && a in Neighbors(r, b)
  {
    PutEdgeEdges(m, a, b, 1);
    PutEdgeEdges(PutEdge(m, a, b, 1), b, a, 1);
  }

  /** addFriends(a, a) is accepted but adds neither a vertex nor an edge. */
  lemma SelfFriendshipChangesNothing(m: Network, a: string)
    ensures WithFriendship(m, a, a) == m
  {
  }

  /** Putting an edge that is already there with the same weight changes nothing. */
  lemma {:induction false} PutEdgeAgain(m: Network, src: string, dest: string, w: Int32)
    requires src in m && dest in m && dest in m[src] && m[src][dest] == w
    ensures PutEdge(m, src, dest, w) == m
  {
    if w > 0 && src != dest {
      var r := PutEdge(m, src, dest, w);
      assert r[src] == m[src];
    }
  }

  /** A repeated addFriends leaves the adjacency map identical. */
  lemma {:induction false} FriendshipIdempotent(m: Network, a: string, b: string)
    ensures WithFriendship(WithFriendship(m, a, b), a, b) == WithFriendship(m, a, b)
  {
    if a != "" && b != "" && a != b {
      var r := WithFriendship(m, a, b);
      var once := PutEdge(m, a, b, 1);
      assert r[a][b] == 1 && r[b][a] == 1;
      PutEdgeAgain(r, a, b, 1);
      PutEdgeAgain(r, b, a, 1);
    }
  }

  /** A repeated addUser leaves the network identical. */
  lemma UserIdempotent(m: Network, name: string)
    ensures WithUser(WithUser(m, name), name) == WithUser(m, name)
  {
  }

  /**
   * unfriend removes only the edge a -> b: b stops being a friend of a,
   * while a stays a friend of b if it was one, and no user disappears.
   */
  lemma {:induction false} UnfriendIsOneWay(m: Network, a: string, b: string)
    requires WellFormed(m) && MayUnfriend(m, a, b)
    ensures var r := WithoutFriend(m, a, b);
      && r.Keys == m.Keys
      && Edges(r) == Edges(m) - {(a, b)}
      && b !in Neighbors(r, a)
      && (a in Neighbors(m, b) ==> a in Neighbors(r, b))
  {
    var r := WithoutFriend(m, a, b);
    assert (a, b) !in Edges(r);
    if a in Neighbors(m, b) {
      assert (b, a) in Edges(m) - {(a, b)};
    }
  }

  /** addFriends followed by unfriend leaves a's friends as they were before. */
  lemma {:induction false} BefriendThenUnfriend(m: Network, a: string, b: string)
    requires a != "" && b != "" && a != b && b !in Neighbors(m, a)
    ensures Neighbors(WithoutFriend(WithFriendship(m, a, b), a, b), a) == Neighbors(m, a)
    ensures a in Neighbors(WithoutFriend(WithFriendship(m, a, b), a, b), b)
  {
    var once := PutEdge(m, a, b, 1);
    var r := WithFriendship(m, a, b);
    assert once[a].Keys == Row(m, a).Keys + {b};
    assert r[a] == once[a];
    assert r[b].Keys == Row(once, b).Keys + {a};
    assert MayUnfriend(r, a, b);
    var s := WithoutFriend(r, a, b);
    assert s[a] == r[a] - {b};
    assert s[b] == r[b];
  }

  /** addUser and addFriends keep every friendship mutual. */
  lemma {:induction false} MutationsKeepSymmetry(m: Network, name: string, a: string, b: string)
    requires Symmetric(m)
    ensures Symmetric(WithUser(m, name))
    ensures Symmetric(WithFriendship(m, a, b))
  {
    if a != "" && b != "" && a != b {
      FriendshipIsMutual(m, a, b);
    }
  }

  /** Both operations keep the graph invariant. */
  lemma {:induction false} MutationsKeepWellFormed(m: Network, name: string, a: string, b: string)
    requires WellFormed(m)
    ensures WellFormed(WithUser(m, name))
    ensures WellFormed(WithFriendship(m, a, b))
  {
    PutEdgeWellFormed(m, a, b, 1);
    PutEdgeWellFormed(PutEdge(m, a, b, 1), b, a, 1);
  }

  /** A user is never suggested to themselves. */
  lemma SuggestionsExcludeSelf(m: Network, name: string)
    ensures name !in Suggestions(m, name)
  {
  }

  /**
   * Suggestions are not filtered against direct friends: in a triangle of
   * friends each of the other two is suggested, through the third.
   */
  lemma SuggestionsMayHoldFriends()
    ensures var m := WithFriendship(WithFriendship(WithFriendship(map[], "a", "b"), "b", "c"), "a", "c");
      && "b" in Neighbors(m, "a") && "b" in Suggestions(m, "a")
  {
    var m1 := WithFriendship(map[], "a", "b");
    var m2 := WithFriendship(m1, "b", "c");
    var m := WithFriendship(m2, "a", "c");
    FriendshipIsMutual(map[], "a", "b");
    FriendshipIsMutual(m1, "b", "c");
    FriendshipIsMutual(m2, "a", "c");
    assert "c" in Neighbors(m, "a") && "b" in Neighbors(m, "c");
    assert "b" in ReachedVia(m, Neighbors(m, "a"), "a");
  }

  /**
   * Two new friendships a-b and b-c among users not yet in the network:
   * the only suggestion for a is c.
   */
  lemma {:induction false} SuggestionsThroughChain(m: Network, a: string, b: string, c: string)
    requires a !in m && b !in m && c !in m
    requires a != "" && b != "" && c != "" && a != b && b != c && a != c
    ensures Suggestions(WithFriendship(WithFriendship(m, a, b), b, c), a) == {c}
  {
    var m2 := WithFriendship(WithFriendship(m, a, b), b, c);
    ChainRows(m, a, b, c);
    ReachedViaStep(m2, {}, b, a);
    assert {} + {b} == {b};
    assert ReachedVia(m2, {}, a) == {};
  }

  /** The rows of a and b after the friendships a-b and b-c among new users. */
  lemma {:induction false} ChainRows(m: Network, a: string, b: string, c: string)
    requires a !in m && b !in m && c !in m
    requires a != "" && b != "" && c != "" && a != b && b != c && a != c
    ensures Neighbors(WithFriendship(WithFriendship(m, a, b), b, c), a) == {b}
    ensures Neighbors(WithFriendship(WithFriendship(m, a, b), b, c), b) == {a, c}
  {
    var p1 := PutEdge(m, a, b, 1);
    var m1 := PutEdge(p1, b, a, 1);
    var p2 := PutEdge(m1, b, c, 1);
    var m2 := PutEdge(p2, c, b, 1);
    assert p1[a].Keys == {b} && Row(p1, b) == map[];
    assert m1[a] == p1[a] && m1[b].Keys == {a};
    assert p2[a] == m1[a] && p2[b].Keys == {a, c};
    assert m2[a] == p2[a] && m2[b] == p2[b];
  }

  /**
   * The Fazebook object. Its graph is created with it and never replaced;
   * every operation goes through the graph's own methods.
   */
  class Fazebook {
    const users: EWDGraph<string>

    ghost predicate Valid()
      reads this, users
    {
      users.Valid()
    }

    constructor ()
      ensures Valid() && fresh(users)
      ensures users.adjacencyMap == map[]
    {
      users := new EWDGraph<string>();
    }

    method AddUser(userName: string) returns (added: bool)
      requires Valid()
      modifies users
      ensures Valid()
      ensures added <==> userName != "" && userName !in old(users.adjacencyMap)
      ensures users.adjacencyMap == WithUser(old(users.adjacencyMap), userName)
    {
      if userName == "" {
        return false;
      }
      added := users.NewEWDGraphVertex(userName);
    }

    method GetAllUsers() returns (all: set<string>)
      ensures all == users.adjacencyMap.Keys
    {
      all := users.GetEWDGraphVertices();
    }

    method AddFriends(userName1: string, userName2: string) returns (friends: bool)
      requires Valid()
      modifies users
      ensures Valid()
      ensures friends <==> userName1 != "" && userName2 != ""
      ensures users.adjacencyMap == WithFriendship(old(users.adjacencyMap), userName1, userName2)
    {
      friends := true;
      if userName1 == "" || userName2 == "" {
        friends := false;
      } else {
        var _ := users.NewEWDGraphEdge(userName1, userName2, 1);
        var _ := users.NewEWDGraphEdge(userName2, userName1, 1);
      }
    }

    method GetFriends(userName: string) returns (friends: set<string>)
      ensures friends == Neighbors(users.adjacencyMap, userName)
    {
      friends := users.GetNeighborsOfVertex(userName);
    }

    method Unfriend(userName1: string, userName2: string) returns (unfriended: bool)
      requires Valid()
      modifies users
      ensures Valid()
      ensures unfriended <==> MayUnfriend(old(users.adjacencyMap), userName1, userName2)
      ensures users.adjacencyMap == WithoutFriend(old(users.adjacencyMap), userName1, userName2)
    {
      if userName1 == "" || userName2 == "" {
        return false;
      }
      var present1 := users.IsEWDGraphVertex(userName1);
      if !present1 {
        return false;
      }
      var present2 := users.IsEWDGraphVertex(userName2);
      if !present2 {
        return false;
      }
      var friends := GetFriends(userName1);
      if userName2 !in friends {
        return false;
      }
      var _ := users.RemoveEWDGraphEdge(userName1, userName2);
      unfriended := true;
    }

    method PeopleYouMayWannaKnow(userName: string) returns (suggested: Option<set<string>>)
      ensures userName == "" ==> suggested == None
      ensures userName != "" ==> suggested == Some(Suggestions(users.adjacencyMap, userName))
    {
      if userName == "" {
        return None;
      }
      var friends := GetFriends(userName);
      var reached: set<string> := {};
      var rest := friends;
      while rest != {}
        invariant rest <= friends
        invariant reached == ReachedVia(users.adjacencyMap, friends - rest, userName)
        decreases rest
      {
        var friend :| friend in rest;
        ReachedViaStep(users.adjacencyMap, friends - rest, friend, userName);
        if friend != userName {
          var theirs := users.GetNeighborsOfVertex(friend);
          reached := reached + theirs;
        }
        assert friends - (rest - {friend}) == (friends - rest) + {friend};
        rest := rest - {friend};
      }
      assert friends - rest == friends;
      return Some(reached - {userName});
    }
  }
}
