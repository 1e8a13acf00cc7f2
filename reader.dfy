/**
 * The directive interpreter of one data source (fazebook/Reader.java): a
 * left-to-right pass over the source's tokens in which `adduser X` adds the
 * user X, `addfriends X Y` makes X and Y friends, and any other token is
 * skipped. A directive whose arguments run past the end of the tokens ends
 * the pass.
 *
 * Each directive is applied atomically to the shared network, so the effect
 * of several sources read at once is some interleaving of their directives;
 * the lemmas below show that every such interleaving, and every repeated
 * reading, gives the same network.
 */
module Ingest {
  import opened WeightedGraph
  import opened Social

  datatype Directive =
    | AddUserDirective(name: string)
    | AddFriendsDirective(name1: string, name2: string)

  /** The directives of a source, up to the first one whose arguments are missing. */
  function Parse(tokens: seq<string>): seq<Directive>
    decreases |tokens|
  {
    if tokens == [] then []
    else if tokens[0] == "adduser" then
      if |tokens| < 2 then [] else [AddUserDirective(tokens[1])] + Parse(tokens[2..])
    else if tokens[0] == "addfriends" then
      if |tokens| < 3 then [] else [AddFriendsDirective(tokens[1], tokens[2])] + Parse(tokens[3..])
    else Parse(tokens[1..])
  }

  /** Whether every directive of the source has all its arguments. */
  predicate Complete(tokens: seq<string>)
    decreases |tokens|
  {
    if tokens == [] then true
    else if tokens[0] == "adduser" then |tokens| >= 2 && Complete(tokens[2..])
    else if tokens[0] == "addfriends" then |tokens| >= 3 && Complete(tokens[3..])
    else Complete(tokens[1..])
  }

  /**
   * How the interpreter consumes tokens: `adduser` takes one argument,
   * `addfriends` two, any other token is skipped alone, and a directive
   * missing an argument yields nothing.
   */
  lemma {:induction false} ParseConsumes(t: string, u: string, v: string, rest: seq<string>)
    ensures Parse(["adduser", u] + rest) == [AddUserDirective(u)] + Parse(rest)
    ensures Parse(["addfriends", u, v] + rest) == [AddFriendsDirective(u, v)] + Parse(rest)
    ensures t != "adduser" && t != "addfriends" ==> Parse([t] + rest) == Parse(rest)
    ensures Parse(["adduser"]) == [] && Parse(["addfriends"]) == [] && Parse(["addfriends", u]) == []
  {
    assert (["adduser", u] + rest)[2..] == rest;
    assert (["addfriends", u, v] + rest)[3..] == rest;
    assert ([t] + rest)[1..] == rest;
  }

  /**
   * A source whose directives are all complete can be followed by any
   * other tokens: its directives come first, unchanged. In particular a
   * truncated directive at the end adds nothing and keeps what came before.
   */
  lemma {:induction false} ParseAppend(p: seq<string>, q: seq<string>)
    requires Complete(p)
    ensures Parse(p + q) == Parse(p) + Parse(q)
    ensures Complete(p + q) == Complete(q)
    decreases |p|
  {
    if p == [] {
      assert p + q == q;
    } else {
      var k := if p[0] == "adduser" then 2 else if p[0] == "addfriends" then 3 else 1;
      assert (p + q)[0] == p[0];
      assert (p + q)[k..] == p[k..] + q;
      ParseAppend(p[k..], q);
    }
  }

  /** One directive, as the network operation it calls. */
  function Apply(m: Network, d: Directive): Network
  {
    match d
    case AddUserDirective(name) => WithUser(m, name)
    case AddFriendsDirective(name1, name2) => WithFriendship(m, name1, name2)
  }

  /** Directives applied one after another, left to right. */
  function Replay(m: Network, ds: seq<Directive>): Network
    decreases |ds|
  {
    if ds == [] then m else Replay(Apply(m, ds[0]), ds[1..])
  }

  /** `ds` is an interleaving of `xs` and `ys`, each kept in its own order. */
  ghost predicate Interleaving(ds: seq<Directive>, xs: seq<Directive>, ys: seq<Directive>)
    decreases |ds|
  {
    if ds == [] then xs == [] && ys == []
    else
      || (xs != [] && ds[0] == xs[0] && Interleaving(ds[1..], xs[1..], ys))
      || (ys != [] && ds[0] == ys[0] && Interleaving(ds[1..], xs, ys[1..]))
  }

  // ---------------------------------------------------------------------
  // A directive, row by row

  /** The users a directive creates when they are missing. */
  function Touched(d: Directive): set<string>
  {
    match d
    case AddUserDirective(name) => if name == "" then {} else {name}
    case AddFriendsDirective(a, b) => if a == "" || b == "" || a == b then {} else {a, b}
  }

  /** What a directive does to the row of user `u`. */
  function Bump(row: map<string, Int32>, u: string, d: Directive): map<string, Int32>
  {
    match d
    case AddUserDirective(_) => row
    case AddFriendsDirective(a, b) =>
      if a == "" || b == "" || a == b then row
      else if u == a then row[b := 1]
      else if u == b then row[a := 1]
      else row
  }

  lemma {:induction false} ApplyByRows(m: Network, d: Directive)
    ensures Apply(m, d).Keys == m.Keys + Touched(d)
    ensures forall u :: Row(Apply(m, d), u) == Bump(Row(m, u), u, d)
  {
    match d
    case AddUserDirective(name) =>
    case AddFriendsDirective(a, b) =>
      if a != "" && b != "" && a != b {
        var once := PutEdge(m, a, b, 1);
        var r := PutEdge(once, b, a, 1);
        forall u ensures Row(r, u) == Bump(Row(m, u), u, d) {
          if u == a {
            assert r[a] == once[a];
          } else if u == b {
            assert Row(once, b) == Row(m, b);
          } else {
            assert Row(once, u) == Row(m, u);
          }
        }
      }
  }

  /** Two adjacency maps with the same vertices and the same rows are equal. */
  lemma EqualByRows(r1: Network, r2: Network)
    requires r1.Keys == r2.Keys
    requires forall u :: Row(r1, u) == Row(r2, u)
    ensures r1 == r2
  {
    forall u | u in r1 ensures r1[u] == r2[u] {
      assert Row(r1, u) == Row(r2, u);
    }
  }

  // ---------------------------------------------------------------------
  // Directives commute and are idempotent

  /** Two directives touch a row in either order with the same result. */
  lemma BumpCommutes(row: map<string, Int32>, u: string, d: Directive, e: Directive)
    ensures Bump(Bump(row, u, d), u, e) == Bump(Bump(row, u, e), u, d)
  {
  }

  /** Any two directives may be applied in either order. */
  lemma {:induction false} ApplyCommutes(m: Network, d: Directive, e: Directive)
    ensures Apply(Apply(m, d), e) == Apply(Apply(m, e), d)
  {
    var md, me := Apply(m, d), Apply(m, e);
    var de, ed := Apply(md, e), Apply(me, d);
    ApplyByRows(m, d);
    ApplyByRows(m, e);
    ApplyByRows(md, e);
    ApplyByRows(me, d);
    forall u ensures Row(de, u) == Row(ed, u) {
      assert Row(de, u) == Bump(Row(md, u), u, e);
      assert Row(ed, u) == Bump(Row(me, u), u, d);
      BumpCommutes(Row(m, u), u, d, e);
    }
    EqualByRows(de, ed);
  }

  /** A directive applied a second time changes nothing. */
  lemma {:induction false} ApplyIdempotent(m: Network, d: Directive)
    ensures Apply(Apply(m, d), d) == Apply(m, d)
  {
    match d
    case AddUserDirective(name) => UserIdempotent(m, name);
    case AddFriendsDirective(a, b) => FriendshipIdempotent(m, a, b);
  }

  /** A directive can be moved from after a replay to before it. */
  lemma {:induction false} ApplyThroughReplay(m: Network, ds: seq<Directive>, d: Directive)
    ensures Apply(Replay(m, ds), d) == Replay(Apply(m, d), ds)
    decreases |ds|
  {
    if ds != [] {
      ApplyThroughReplay(Apply(m, ds[0]), ds[1..], d);
      ApplyCommutes(m, ds[0], d);
    }
  }

  /** A replay already holds the effect of each of its own directives. */
  lemma {:induction false} ReplayAbsorbs(m: Network, ds: seq<Directive>, d: Directive)
    requires d in ds
    ensures Apply(Replay(m, ds), d) == Replay(m, ds)
    decreases |ds|
  {
    if ds[0] == d {
      ApplyThroughReplay(Apply(m, d), ds[1..], d);
      ApplyIdempotent(m, d);
    } else {
      ReplayAbsorbs(Apply(m, ds[0]), ds[1..], d);
    }
  }

  /** Replaying directives whose effects are all present changes nothing. */
  lemma {:induction false} ReplayFixed(s: Network, ds: seq<Directive>)
    requires forall d | d in ds :: Apply(s, d) == s
    ensures Replay(s, ds) == s
    decreases |ds|
  {
    if ds != [] {
      assert ds[0] in ds;
      ReplayFixed(s, ds[1..]);
    }
  }

  /** Reading the same directives twice gives the network of reading them once. */
  lemma {:induction false} ReplayIdempotent(m: Network, ds: seq<Directive>)
    ensures Replay(Replay(m, ds), ds) == Replay(m, ds)
  {
    forall d | d in ds ensures Apply(Replay(m, ds), d) == Replay(m, ds) {
      ReplayAbsorbs(m, ds, d);
    }
    ReplayFixed(Replay(m, ds), ds);
  }

  /** Replaying a concatenation is replaying its parts in turn. */
  lemma {:induction false} ReplayAppend(m: Network, xs: seq<Directive>, ys: seq<Directive>)
    ensures Replay(m, xs + ys) == Replay(Replay(m, xs), ys)
    decreases |xs|
  {
    if xs != [] {
      assert (xs + ys)[0] == xs[0] && (xs + ys)[1..] == xs[1..] + ys;
      ReplayAppend(Apply(m, xs[0]), xs[1..], ys);
    } else {
      assert xs + ys == ys;
    }
  }

  /**
   * Whatever the interleaving of two sources' directives, the network is the
   * one obtained by reading the first source and then the second.
   */
  lemma {:induction false} InterleavingIsSequential(m: Network, ds: seq<Directive>, xs: seq<Directive>, ys: seq<Directive>)
    requires Interleaving(ds, xs, ys)
    ensures Replay(m, ds) == Replay(Replay(m, xs), ys)
    decreases |ds|
  {
    if ds != [] {
      if xs != [] && ds[0] == xs[0] && Interleaving(ds[1..], xs[1..], ys) {
        InterleavingIsSequential(Apply(m, xs[0]), ds[1..], xs[1..], ys);
      } else {
        InterleavingIsSequential(Apply(m, ys[0]), ds[1..], xs, ys[1..]);
        ApplyThroughReplay(m, xs, ys[0]);
      }
    }
  }

  /** The concatenation of two sequences interleaves them. */
  lemma {:induction false} ConcatIsInterleaving(xs: seq<Directive>, ys: seq<Directive>)
    ensures Interleaving(xs + ys, xs, ys)
    decreases |xs| + |ys|
  {
    if xs != [] {
      assert (xs + ys)[1..] == xs[1..] + ys;
      ConcatIsInterleaving(xs[1..], ys);
    } else if ys != [] {
      assert (xs + ys)[1..] == xs + ys[1..];
      ConcatIsInterleaving(xs, ys[1..]);
    }
  }

  /** Two sources give the same network whichever is read first. */
  lemma {:induction false} SourcesCommute(m: Network, xs: seq<Directive>, ys: seq<Directive>)
    ensures Replay(Replay(m, xs), ys) == Replay(Replay(m, ys), xs)
  {
    ConcatIsInterleaving(ys, xs);
    SwapInterleaving(ys + xs, ys, xs);
    InterleavingIsSequential(m, ys + xs, xs, ys);
    ReplayAppend(m, ys, xs);
  }

  /** An interleaving of xs and ys is also one of ys and xs. */
  lemma {:induction false} SwapInterleaving(ds: seq<Directive>, xs: seq<Directive>, ys: seq<Directive>)
    requires Interleaving(ds, xs, ys)
    ensures Interleaving(ds, ys, xs)
    decreases |ds|
  {
    if ds != [] {
      if xs != [] && ds[0] == xs[0] && Interleaving(ds[1..], xs[1..], ys) {
        SwapInterleaving(ds[1..], xs[1..], ys);
      } else {
        SwapInterleaving(ds[1..], xs, ys[1..]);
      }
    }
  }

  // ---------------------------------------------------------------------
  // What a replay builds

  /** The users a sequence of directives creates when they are missing. */
  function Mentioned(ds: seq<Directive>): set<string>
    decreases |ds|
  {
    if ds == [] then {} else Touched(ds[0]) + Mentioned(ds[1..])
  }

  /** The directed edges a sequence of friendship directives puts. */
  function Links(ds: seq<Directive>): set<(string, string)>
    decreases |ds|
  {
    if ds == [] then {}
    else
      var here := match ds[0]
        case AddUserDirective(_) => {}
        case AddFriendsDirective(a, b) =>
          if a == "" || b == "" || a == b then {} else {(a, b), (b, a)};
      here + Links(ds[1..])
  }

  /**
   * After a replay the users are those there before plus every name a
   * directive mentions, and the edges are those there before plus both
   * directions of every friendship read.
   */
  lemma {:induction false} ReplayBuilds(m: Network, ds: seq<Directive>)
    ensures Replay(m, ds).Keys == m.Keys + Mentioned(ds)
    ensures Edges(Replay(m, ds)) == Edges(m) + Links(ds)
    decreases |ds|
  {
    if ds != [] {
      var m1 := Apply(m, ds[0]);
      ReplayBuilds(m1, ds[1..]);
      match ds[0]
      case AddUserDirective(name) =>
      case AddFriendsDirective(a, b) =>
        if a != "" && b != "" && a != b {
          FriendshipIsMutual(m, a, b);
        }
    }
  }

  /** Replaying directives keeps the graph invariant and mutual friendships. */
  lemma {:induction false} ReplayKeepsInvariants(m: Network, ds: seq<Directive>)
    requires WellFormed(m)
    ensures WellFormed(Replay(m, ds))
    ensures Symmetric(m) ==> Symmetric(Replay(m, ds))
    decreases |ds|
  {
    if ds != [] {
      match ds[0] {
        case AddUserDirective(name) =>
          MutationsKeepWellFormed(m, name, "", "");
          if Symmetric(m) {
            MutationsKeepSymmetry(m, name, "", "");
          }
        case AddFriendsDirective(a, b) =>
          MutationsKeepWellFormed(m, "", a, b);
          if Symmetric(m) {
            MutationsKeepSymmetry(m, "", a, b);
          }
      }
      ReplayKeepsInvariants(Apply(m, ds[0]), ds[1..]);
    }
  }

  // ---------------------------------------------------------------------
  // The reading loop

  /**
   * Reader.run without the file: the tokens are consumed left to right and
   * each complete directive is applied to the network. When a directive's
   * arguments run out the pass stops (`completed` is false); the directives
   * before it keep their effect.
   */
  method ReadTokens(fazebook: Fazebook, tokens: seq<string>) returns (completed: bool)
    requires fazebook.Valid()
    modifies fazebook.users
    ensures fazebook.Valid()
    ensures completed == Complete(tokens)
    ensures fazebook.users.adjacencyMap == Replay(old(fazebook.users.adjacencyMap), Parse(tokens))
  {
    var i := 0;
    while i < |tokens|
      invariant 0 <= i <= |tokens|
      invariant fazebook.Valid()
      invariant Complete(tokens) == Complete(tokens[i..])
      invariant Replay(old(fazebook.users.adjacencyMap), Parse(tokens))
             == Replay(fazebook.users.adjacencyMap, Parse(tokens[i..]))
    {
      var rest := tokens[i..];
      var data := tokens[i];
      i := i + 1;
      if data == "adduser" {
        if i == |tokens| {
          return false;
        }
        var user := tokens[i];
        i := i + 1;
        assert rest[2..] == tokens[i..];
        var _ := fazebook.AddUser(user);
      } else if data == "addfriends" {
        if i == |tokens| {
          return false;
        }
        var user1 := tokens[i];
        i := i + 1;
        if i == |tokens| {
          return false;
        }
        var user2 := tokens[i];
        i := i + 1;
        assert rest[3..] == tokens[i..];
        var _ := fazebook.AddFriends(user1, user2);
      } else {
        assert rest[1..] == tokens[i..];
      }
    }
    return true;
  }
}
