# Fazebook core, modelled in Dafny

Fazebook is a small social network. Users are the vertices of a directed
graph with positive integer weights (`EWDGraph<V>`), stored as a map from each
vertex to the map of its out-neighbours and edge weights. A friendship is a
pair of opposite edges of weight 1. Data sources are lists of whitespace-separated
directives (`adduser X`, `addfriends X Y`). One reader thread per source applies
them to the shared network, taking a lock for each directive.

The model has four modules:

- `Wrappers` (`wrappers.dfy`): `Option`, used where `peopleYouMayWannaKnow` can return `null`.
- `WeightedGraph` (`ewd_graph.dfy`): the adjacency map, the graph invariant
  `WellFormed`, the edge-set view `Edges`, and one pure function per graph
  operation (`InsertVertex`, `PutEdge`, `DeleteEdge`, `Neighbors`). The class
  `EWDGraph` has the `adjacencyMap` field and updates it in place. Each of its
  methods is proved against those functions.
- `Social` (`fazebook.dfy`): the friendship operations as functions
  (`WithUser`, `WithFriendship`, `WithoutFriend`, `Suggestions`) and lemmas about
  them. It also holds the class `Fazebook`, which owns one `EWDGraph<string>` and
  calls its methods as the Java class does. `PeopleYouMayWannaKnow` keeps the
  source's loop over the friend set.
- `Ingest` (`reader.dfy`): the token loop of `Reader.run` as the method
  `ReadTokens`, proved equal to `Replay(m, Parse(tokens))`. Here `Parse` turns
  tokens into directives and `Replay` applies them from left to right. The locked,
  per-directive concurrency of the readers is captured by the following results:
  - any two directives commute (`ApplyCommutes`);
  - every directive is idempotent (`ApplyIdempotent`);
  - hence every interleaving of two sources' directives gives the same network
    (`InterleavingIsSequential`, `SourcesCommute`);
  - reading a source twice gives the same network as reading it once
    (`ReplayIdempotent`).

Where the documentation comments and the code disagree, the model follows the
code:
- `getNeighborsOfVertex` returns an empty set, not `null`, for an unknown vertex.
- `unfriend` removes only the edge `a -> b`, although its comment says the
  friendship is terminated.

## Model

| member | source | states |
|---|---|---|
| WeightedGraph.InsertVertex | fazebook/EWDGraph.java:64-75 | the vertex set gains exactly `v`; a new vertex has an empty row; existing rows and the edge set are unchanged; the invariant is kept |
| WeightedGraph.PutEdge | fazebook/EWDGraph.java:126-148 | weight <= 0 or a self-loop leaves the map identical (no endpoint is created); otherwise the vertex set gains exactly src and dest, src's row gains dest with exactly weight `w` (overwriting), and every other entry keeps its weight |
| WeightedGraph.PutEdgeEdges | fazebook/EWDGraph.java:134-146 | an accepted edge adds exactly the pair (src, dest) to the edge set |
| WeightedGraph.PutEdgeWellFormed | fazebook/EWDGraph.java:132-145 | adding an edge keeps the invariant: every neighbour is a vertex, there are no self-loops, and all weights are positive |
| WeightedGraph.DeleteEdge | fazebook/EWDGraph.java:163-175 | an absent endpoint or edge leaves the map identical; otherwise the edge set loses exactly (src, dest), no vertex is removed, surviving weights are unchanged, and the invariant is kept |
| WeightedGraph.Neighbors | fazebook/EWDGraph.java:188-200 | the result is exactly the set of x with (v, x) an edge, and it is empty for an unknown vertex |
| WeightedGraph.EWDGraph.constructor | fazebook/EWDGraph.java:48-52 | a new graph is empty and satisfies the invariant |
| WeightedGraph.EWDGraph.NewEWDGraphVertex | fazebook/EWDGraph.java:64-75 | returns true iff `v` was absent; the new map is `InsertVertex` of the old; the invariant is kept |
| WeightedGraph.EWDGraph.IsEWDGraphVertex | fazebook/EWDGraph.java:86-90 | true iff `v` is a key of the map; nothing changes |
| WeightedGraph.EWDGraph.GetEWDGraphVertices | fazebook/EWDGraph.java:101-106 | returns exactly the key set; nothing changes |
| WeightedGraph.EWDGraph.NewEWDGraphEdge | fazebook/EWDGraph.java:126-148 | returns true iff weight > 0 and src != dest; the new map is `PutEdge` of the old; the invariant is kept |
| WeightedGraph.EWDGraph.RemoveEWDGraphEdge | fazebook/EWDGraph.java:163-175 | returns true iff both endpoints are vertices and the edge exists; the new map is `DeleteEdge` of the old; the invariant is kept |
| WeightedGraph.EWDGraph.GetNeighborsOfVertex | fazebook/EWDGraph.java:188-200 | returns the neighbour set (empty for an unknown vertex); nothing changes |
| Social.WithUser | fazebook/Fazebook.java:39-43 | the empty name changes nothing; otherwise the user set gains exactly the name, and no edge changes |
| Social.UserIdempotent | fazebook/Fazebook.java:39-43 | a second addUser of the same name leaves the network identical |
| Social.FriendshipIsMutual | fazebook/Fazebook.java:70-80 | for two distinct non-empty names, both become users, each becomes a friend of the other, and the edge set gains exactly (a, b) and (b, a) |
| Social.SelfFriendshipChangesNothing | fazebook/Fazebook.java:70-80 | addFriends(a, a) adds no vertex and no edge |
| Social.PutEdgeAgain | fazebook/EWDGraph.java:137-145 | putting an edge already present with the same weight leaves the map identical |
| Social.FriendshipIdempotent | fazebook/Fazebook.java:76-77 | a repeated addFriends of the same pair leaves the adjacency map identical |
| Social.UnfriendIsOneWay | fazebook/Fazebook.java:114-124 | when the guard holds, only the edge a -> b goes: b is no longer a friend of a, a stays a friend of b if it was one, and no user is removed |
| Social.BefriendThenUnfriend | tests/StudentTests.java:58-67 | addFriends(a, b) then unfriend(a, b) gives a its earlier friends back, while a remains a friend of b |
| Social.MutationsKeepSymmetry | fazebook/Fazebook.java:39-80 | if every edge has its reverse, it still does after addUser and after addFriends |
| Social.MutationsKeepWellFormed | fazebook/Fazebook.java:39-80 | addUser and addFriends keep the graph invariant |
| Social.ReachedViaStep | fazebook/Fazebook.java:143-147 | handling one more friend adds exactly that friend's friends (nothing if the friend is the user) |
| Social.SuggestionsExcludeSelf | fazebook/Fazebook.java:148-150 | a user is never among their own suggestions |
| Social.SuggestionsMayHoldFriends | fazebook/Fazebook.java:136-152 | in a triangle of friends, a direct friend is also suggested |
| Social.SuggestionsThroughChain | tests/StudentTests.java:69-78 | after friendships a-b and b-c among new users, the suggestions for a are exactly {c} |
| Social.ChainRows | tests/StudentTests.java:72-73 | after those two friendships, a's friends are {b} and b's are {a, c} |
| Social.Fazebook.constructor | fazebook/Fazebook.java:25 | a new network owns a fresh, empty graph |
| Social.Fazebook.AddUser | fazebook/Fazebook.java:39-43 | returns true iff the name is non-empty and was not a user; the network becomes `WithUser` of the old one |
| Social.Fazebook.GetAllUsers | fazebook/Fazebook.java:52-54 | returns exactly the set of users |
| Social.Fazebook.AddFriends | fazebook/Fazebook.java:70-80 | returns true iff both names are non-empty, whether or not anything changed; the network becomes `WithFriendship` of the old one |
| Social.Fazebook.GetFriends | fazebook/Fazebook.java:93-98 | returns the user's neighbour set, which is empty for an unknown user |
| Social.Fazebook.Unfriend | fazebook/Fazebook.java:114-124 | returns true iff both names are non-empty, both are users, and the second is a friend of the first; only then is the edge removed |
| Social.Fazebook.PeopleYouMayWannaKnow | fazebook/Fazebook.java:136-152 | `None` for the empty name; otherwise the union of the friends of every friend, without the user |
| Ingest.ParseConsumes | fazebook/Reader.java:50-67 | `adduser u` yields addUser(u) and consumes two tokens; `addfriends u v` yields addFriends(u, v) and consumes three; any other token is skipped alone; a directive missing an argument yields nothing |
| Ingest.ParseAppend | fazebook/Reader.java:50-68 | after a complete prefix, the rest of the tokens are parsed independently, so a truncated directive at the end keeps every earlier effect and adds none |
| Ingest.ApplyByRows | fazebook/Reader.java:56-66 | one directive adds its new users to the vertex set and changes exactly the rows of the two friends, by one entry each |
| Ingest.ApplyCommutes | fazebook/Reader.java:56-66 | any two directives give the same network in either order |
| Ingest.ApplyIdempotent | fazebook/Reader.java:56-66 | applying a directive twice equals applying it once |
| Ingest.ApplyThroughReplay | fazebook/Reader.java:50-68 | a directive applied after a replay can be applied before it instead |
| Ingest.ReplayIdempotent | tests/PublicTests.java:225-252 | reading the same directives a second time leaves the network as after the first reading |
| Ingest.ReplayAppend | fazebook/Reader.java:50-68 | replaying a concatenation replays its parts in turn |
| Ingest.InterleavingIsSequential | tests/PublicTests.java:295-337 | any whole-directive interleaving of two sources gives the network of reading one source and then the other |
| Ingest.SourcesCommute | tests/PublicTests.java:339-383 | the order in which two sources are read does not matter |
| Ingest.ReplayBuilds | tests/PublicTests.java:321-328 | after reading, the users are the earlier users plus every name mentioned, and the edges are the earlier edges plus both directions of every friendship read |
| Ingest.ReplayKeepsInvariants | fazebook/Reader.java:50-68 | reading keeps the graph invariant, and keeps every friendship mutual if it was before |
| Ingest.ReadTokens | fazebook/Reader.java:50-68 | the network after the loop is `Replay` of the parsed directives on the network before it, and the result says whether the tokens ran out inside a directive |

## Left out

- Threads and locking: `Fazebook extends Thread`, the start/join loop of `readSocialNetworkData` and its `InterruptedException` handling, `Reader extends Thread`, and the `synchronized` blocks. Their effect is modelled only as "each directive is applied atomically", through the interleaving lemmas in `Ingest`.
- File input: `File`, the whitespace tokenising of `Scanner`, the `IOException` handler and its stderr message. `ReadTokens` takes the tokens as a sequence.
- Ingest.ReadTokens: when a directive runs out of arguments, Java's `next()` throws `NoSuchElementException`, which the `IOException` handler does not catch, so the reader thread dies. The model stops the loop and returns `false` instead.
- The `Comparator` parameter of the `EWDGraph` constructor, which is only null-checked and never stored. `StringComparator` is not part of this model.
- Java `null`: strings and vertices are non-null values. This leaves out the `IllegalArgumentException` of the graph's null checks, the null returns of `getFriends(null)` and `peopleYouMayWannaKnow(null)`, and the `NullPointerException` that `addUser`, `addFriends` and `unfriend` raise on a null name (they call `isEmpty()` before the null test).
- `HashSet` iteration order and collection identity. Results are Dafny sets, so the snapshot copies are values.
- Edge weights are Java `int`s (`Int32`). Only their sign is ever tested, and the friendship layer always writes 1, so no overflow arises.
- The test harness: `TestData`, the `FileCreator` jar, and the creation and deletion of data files.
