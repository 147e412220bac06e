# VeloxServ routing, modelled and proved

VeloxServ picks the code that answers a request in three places, and this project models all three.

* **The router** (`src/Router.cpp`, `src/Router.hpp`) keeps one path-compressed radix tree per HTTP verb.
  Registration checks a pattern, walks the heap tree and edits it in place, splitting nodes where a pattern leaves a
  prefix half way. Lookup is a depth-first search with backtracking: static children first, then the parameter child,
  then the catch-all, with one stack of captures that is pushed to and cut back.
* **MIME lookup** (`src/MimeTypes.cpp`) scans a path backwards and consults a hash table with its own hash and
  equality. `HttpServer::mime_type` (`src/HttpServer.hpp`) is an older form of the same lookup.
* **The session** (`src/HttpSession.cpp`) walks the server's mutable route table for the longest prefix of a path.

The main result is that the router agrees with the simple thing it speeds up. `Runs.LookupAfter` performs any sequence
of registrations, good and bad, on a new router, then any lookup, and returns exactly what a linear scan over the list
of registrations returns: the same route with the same captures, or nothing. Its contract also says so in plain terms
(`AnswersRun`): which registration answers, and why no other one does.

## How the model is built

* A pattern is read as tokens, `Lit(c)`, `Param` or `CatchAll`, plus a list of names that plays no part in matching.
  `Captures` says what a token list matches; `Before` says which of two goes first: at the first token where they
  differ, a literal comes before a parameter and a parameter before a catch-all.
* `Node` is the heap object of `src/Router.hpp:44-62` with its own fields; `Router` owns `roots` and edits the nodes in
  place. Its ghost field `forest` holds the same trees as a value, each node with its *place*: its verb and the tokens
  from the root. `InSync` ties the two together. Every law about trees is a lemma on forests, so an edit at the current
  node says nothing about its ancestors; the methods show that the heap follows the edit.
* The ghost field `entered` of `Router` is a log that each call of `Search` extends with its node. It is no part of the
  original's state; it makes the cost of a lookup a fact about the calls made.
* `routes` is the ghost map from places to registered routes. `Settled` is the invariant between registrations: a
  well-formed tree with no dead branch that holds exactly `routes`.
* One C++ function may be several methods here: the split and the two ways of attaching a child (`SplitNode`,
  `AttachStatic`, `AttachSpecial`), the turn and the loop of `insert_route` (`InsertMarked`, `Walk`, `RootFor`,
  `StoreRoute`), and the three stages of the recursive search (`SearchStatics`, `SearchStatic`, `SearchParameter`)
  are methods of their own, in the order of the original.
* A byte of the original is a `char` here with a code below 256; everything holds for all characters. The 64-bit wrap-around
  of the extension hash is written out. Verbs and handlers are numbers that stand for the enumeration value and the
  handler object. The two MIME tables are two constants, as in the original. A hash table or ordered map is a `map`, walked in any order.

Files: `HttpTypes`, `Text` (string searches), `Tokens` (matching and precedence), `Patterns` (grammar, validator,
scanner), `RadixTree` (nodes and well-formedness), `TreeEdits` (edits on forests), `InsertionSteps` (the walk of one
registration), `Lookup` (what the search may conclude), `Router` (the class), `Canonical` (the tree is a function of its
routes), `Reference` (the linear scan and its laws), `Runs` and `RunOrder` (whole runs), `MimeTypes`, `Session`.

## Found on the way

`validate_pattern` accepts a `?` in literal text (`src/Router.cpp:39-93`), but `match` cuts the target at its first `?`
(`src/Router.cpp:119`), so such a route can never be reached. `ReachableIffQuestionFree` shows that a valid pattern can
be matched by some target if and only if its literals have no `?`; `QuestionPatternIsUnreachable` is the instance `/a?`.

## Model

| member | source | states |
|---|---|---|
| Text.StripQueryInverts | src/Router.cpp:119 | cutting at the first `?` gives back the path of a target, with any query or none |
| Tokens.MatchIffFill | src/Router.cpp:117-216 | `vs` are the captures of a path exactly when they fit the tokens (a parameter is a non-empty piece of one segment, a catch-all is neither empty nor `/`) and, put in their place, spell the path |
| Tokens.BeforeIffFirstDifference | src/Router.cpp:134-202 | precedence is decided by the first token where two patterns differ |
| Tokens.BeforeTransitive | src/Router.cpp:134-202 | precedence is transitive |
| Tokens.BeforeAsymmetric | src/Router.cpp:134-202 | no two patterns come before each other |
| Tokens.BeforeTotalOnMatches | src/Router.cpp:134-202 | two different patterns that match one path are always comparable |
| Patterns.ValidatePattern | src/Router.cpp:39-93 | accepts exactly the printed forms of the segment grammar; a text without a leading slash gets that error, any other rejected text the error of its first bad segment, read off the segment's text |
| Patterns.FaultIsSegmentError | src/Router.cpp:46-92 | the fault of the leftmost faulty marker is the error of the first bad segment: a marker not in front, no name, a second marker, or a catch-all that is not last |
| Patterns.FaultlessIffGrammatical | src/Router.cpp:46-92 | checking markers one by one and checking segments one by one accept the same texts |
| Patterns.ValidIffFaultless | src/Router.cpp:39-93 | a pattern is grammatical exactly when it starts with `/` and no marker in it is faulty |
| Patterns.PrintParse | src/Router.cpp:39-93 | parsing a rooted text into segments and printing them gives the text back |
| Patterns.ParsePrint | src/Router.cpp:39-93 | printing grammatical segments and parsing the text gives the segments back |
| Patterns.ScanTurn | src/Router.cpp:325-365 | one turn of the insertion loop reads literal text that ends in `/`, one special token and its name, and leaves a pattern tail; nothing is left after a catch-all |
| Patterns.ScannersAgree | src/Router.cpp:323-366 | on a valid pattern the insertion loop's scanner and the grammar give the same tokens and names |
| Patterns.ScanIsFaithful | src/Router.cpp:321-366 | the tokens and names of a valid pattern spell it, with one name for each special token, parameters that fill their segment and a catch-all only at the end |
| Patterns.SameTokensIffSameShape | src/Router.cpp:368-370 | two patterns have the same tokens exactly when they are equal up to parameter names |
| Patterns.SamePatternPlace | src/Router.cpp:368-370 | two valid patterns contend for one place exactly when only parameter names set them apart |
| RadixTree.Node.constructor | src/Router.hpp:44-62 | a new node is static, with no text, no children and no route |
| RadixTree.Node.SplitOff | src/Router.cpp:239-254 | the split itself: the suffix node takes the rest of the prefix, all children and the route; the head keeps its characters and that one child |
| RadixTree.SamePlace | src/Router.hpp:44-62 | in a well-formed forest no two nodes stand at one place |
| RadixTree.Descend | src/Router.hpp:44-62 | every node below `n` is reached through a child of `n` |
| RadixTree.UniqueParent | src/Router.hpp:52-58 | nodes are uniquely owned: no node hangs off two parents |
| TreeEdits.SplitWellFormed | src/Router.cpp:239-254 | a split keeps the tree well-formed |
| TreeEdits.SplitDenotes | src/Router.cpp:239-254 | a split leaves the set of routes unchanged |
| TreeEdits.SplitLean | src/Router.cpp:239-254 | a split in a compressed tree leaves only the split node to be completed |
| TreeEdits.SplitTextSize | src/Router.cpp:243-249 | a split conserves the prefix text |
| TreeEdits.AddStaticWellFormed | src/Router.cpp:261-267 | a new static leaf whose first character no sibling has keeps the tree well-formed |
| TreeEdits.AddSpecialWellFormed | src/Router.cpp:284-300 | a parameter or catch-all child below a place that ends in `/` keeps the tree well-formed |
| TreeEdits.HangDenotes | src/Router.cpp:261-300 | a new leaf leaves the set of routes unchanged |
| TreeEdits.SetRouteDenotes | src/Router.cpp:372-375 | storing a route adds exactly the node's place to the denoted routes |
| InsertionSteps.CommonPrefix | src/Router.cpp:22-37 | the length of the longest common prefix of two strings |
| InsertionSteps.SplitInserted | src/Router.cpp:235-258 | inserting the rest of the text after a split is inserting the text: same place reached, at most one node moved, two nodes added |
| InsertionSteps.NewLeafInserted | src/Router.cpp:261-271 | attaching one leaf is inserting the text when no child shares its first character |
| InsertionSteps.WalkStatic | src/Router.cpp:329-340 | a literal turn keeps the walk's invariant: if anything has changed, the current node is new ground with no route |
| InsertionSteps.WalkSpecial | src/Router.cpp:357-362 | so does a special turn, which then stands at a boundary |
| InsertionSteps.StoredRoutes | src/Router.cpp:372-375 | storing the route at the end of a walk settles the tree with one more route |
| InsertionSteps.StoredGrown | src/Router.cpp:317-375 | a registration with k markers adds at most 2k+2 nodes and perhaps a root, moves at most one node, and adds no more text than its own literals |
| InsertionSteps.TreeShape | src/Router.hpp:44-62 | the representation invariant in plain terms: where text, special children, leaves and routes may be, and that static nodes earn their keep |
| Lookup.StaticFound | src/Router.cpp:134-152 | the best route below the static child that fits is the best below the node, with the same captures |
| Lookup.StaticsFail | src/Router.cpp:134-156 | if no static child leads to a match, no route that goes on with a literal matches |
| Lookup.ParamFound | src/Router.cpp:158-185 | after the static children fail, the best route below the parameter child is the best, with the segment captured in front |
| Lookup.ParamFails | src/Router.cpp:158-188 | if the parameter child is absent, barred or fails, no route that goes on with a parameter matches |
| Lookup.CatchAllFound | src/Router.cpp:190-202 | after both fail, the catch-all is the best match for any rest other than nothing and `/` |
| Lookup.NothingFound | src/Router.cpp:128-204 | if all stages fail, no route below the node matches |
| Lookup.NextStaticApart | src/Router.cpp:135-156 | searches below different static children never enter the same node |
| Lookup.SubtreeParts | src/Router.cpp:122-205 | a node, the nodes below its static children and those below its parameter child are apart from each other and all in its subtree |
| Routing.Router.constructor | src/Router.hpp:21-23 | a new router has no trees and no routes |
| Routing.Router.SplitNode | src/Router.cpp:239-254 | the heap after a split is the split forest |
| Routing.Router.AttachStatic | src/Router.cpp:261-267 | the heap after attaching a static leaf is the forest with that leaf |
| Routing.Router.InsertStatic | src/Router.cpp:219-272 | returns the node whose place is the parent's place followed by the text; the tree stays well-formed and, but for that node, compressed; routes are unchanged; any change implies the node returned has no route |
| Routing.Router.EnterStatic | src/Router.cpp:235-258 | the same, through the child that shares the first character, split if need be |
| Routing.Router.InsertSpecial | src/Router.cpp:274-309 | both errors exactly when the type is static or the parent is special, with nothing changed; otherwise the child of that type, found or made |
| Routing.Router.AttachSpecial | src/Router.cpp:284-298 | the heap after attaching a special child is the forest with that child |
| Routing.Router.RootFor | src/Router.cpp:316-320 | the verb's root, made if it is missing, where the walk starts |
| Routing.Router.InsertMarked | src/Router.cpp:333-365 | one turn of the walk; the error results of `InsertSpecial` never come up |
| Routing.Router.Walk | src/Router.cpp:320-366 | the whole walk ends at the place of the pattern's tokens, with the pattern's names |
| Routing.Router.StoreRoute | src/Router.cpp:372-375 | settles the forest with the new route |
| Routing.Router.InsertRoute | src/Router.cpp:311-376 | a taken place is a duplicate and leaves forest and routes as they were; otherwise the route is added and nothing else |
| Routing.Router.AddRoute | src/Router.cpp:99-106 | every verdict with its exact condition, the validator's errors by the first bad segment; a rejected call changes nothing, an accepted one adds its route at its own verb and place only, within the space bound |
| Routing.Router.Search | src/Router.cpp:120-205 | finds the best route below the node, or proves there is none and restores the captures; every call logs its node, and the whole search logs nodes of the subtree, each once; calls nest no deeper than the remaining length plus one |
| Routing.Router.SearchStatics | src/Router.cpp:134-156 | the static stage: every child refuted, or the best route found; nodes below the static children are logged, each once |
| Routing.Router.SearchStatic | src/Router.cpp:138-155 | one static child: refuted with the captures restored, or the best route found; nodes of the child's subtree are logged, each once |
| Routing.Router.SearchParameter | src/Router.cpp:158-188 | the parameter stage: the pushed capture is taken back on failure; nodes below the parameter child are logged, each once |
| Routing.Router.Match | src/Router.cpp:108-217 | the route and captures of the unique best match for the query-stripped target among the verb's routes, or none if none matches; the search enters nodes of the verb's own tree, none of them twice |
| Canonical.NodesAreNeeded | src/Router.cpp:219-376 | a place has a node exactly when the routes need one there: a route ends there, a special token ends or follows there, or two literals part there |
| Canonical.TreeIsCanonical | src/Router.cpp:227-267 | two settled trees with the same routes have nodes at the same places with the same kind, prefix and route |
| Reference.WinnerUnique | src/Router.cpp:108-217 | the best match is unique |
| Reference.FrameLaw | src/Router.cpp:99-106 | after one more route the winner is the new pattern exactly when it has the verb, matches and outranks the old winner, and is the old winner otherwise |
| Reference.DuplicateLoses | src/Router.cpp:368-370 | a duplicate could not have won |
| Reference.LinearMatchWins | src/Router.cpp:108-217 | any winner among the routes a run leaves is what the linear scan over the run returns, with the same captures |
| Reference.AcceptedIffFirst | src/Router.cpp:99-106 | a registration in a run is accepted exactly when it is valid and no earlier valid one has its verb and tokens |
| Reference.RunHolds | src/Router.cpp:368-375 | the routes after a run are those of the accepted registrations, each with its own handler and names |
| Reference.WinnerAnswersRun | src/Router.cpp:108-217 | any winner among the routes a run leaves gives the reply that the run's registrations call for |
| Reference.OneMoreRegistration | src/Router.cpp:99-106 | one more registration in a run changes the winner only by winning itself; a matched target stays matched, and a rejected call or another verb's changes no reply |
| Reference.OrderIrrelevant | src/Router.cpp:135-156 | runs over the same registrations in any order leave the same routes and give the same replies |
| Reference.ReplyRebuildsPath | src/Router.cpp:213-216 | a reply has one value for each of the route's names, and the values put back into the pattern spell the path |
| Reference.InstantiateThenMatch | src/Router.cpp:117-202 | a registered pattern filled with fitting values, with any query or none, is matched by that pattern with those values unless one that comes before it also matches |
| Reference.ReachableIffQuestionFree | src/Router.cpp:39-119 | a valid pattern can be matched by some target exactly when its literals have no `?` |
| Reference.QuestionPatternIsUnreachable | src/Router.cpp:39-119 | `/a?` is accepted and no target matches it |
| Runs.Replay | src/Router.cpp:99-106 | after any run on an empty router, a registration was accepted exactly if it is valid and the first valid one for its verb and tokens; the routes are those of the accepted ones, each with its own handler and names, and no others; the total space is bounded |
| Runs.LookupAfter | src/Router.cpp:99-217 | after any run, a lookup answers with the handler, names and captures of the accepted matching registration that comes before all other matching patterns, and with none if no valid registration of the verb matches; that is what the linear scan returns |
| RunOrder.ReplayBoth | src/Router.cpp:227-267 | two orders of one set of registrations build the same trees, up to the order of siblings |
| MimeTypes.TablesAgree | src/HttpServer.hpp:76-94 | the two tables hold the same entries |
| MimeTypes.FoldIffSameButCase | src/MimeTypes.cpp:22-26 | folding tells exactly those texts apart that differ in more than the case of the letters A to Z |
| MimeTypes.ExtensionHash | src/MimeTypes.cpp:28-40 | the loop computes the hash of the folded text, wrapping around at every character |
| MimeTypes.HashIsPolynomial | src/MimeTypes.cpp:28-40 | that hash is the folded text's polynomial in 131, cut once to 64 bits |
| MimeTypes.ExtensionEqual | src/MimeTypes.cpp:42-61 | true exactly when the texts are the same but for the case of letters A to Z |
| MimeTypes.EqualKeysEqualHashes | src/MimeTypes.cpp:28-61 | keys that compare equal have equal hashes, at any length |
| MimeTypes.KeyShape | src/MimeTypes.cpp:73-90 | every key is lower-case, with its one dot in front and no `/`, and no type is the default |
| MimeTypes.FindType | src/MimeTypes.cpp:107-111 | looking only at keys of equal hash finds the entry of the folded extension, in any order |
| MimeTypes.FromPath | src/MimeTypes.cpp:96-115 | the backward scan gives the type of the folded text from the last dot of the last segment, else the default |
| MimeTypes.PathTypeByEnding | src/MimeTypes.cpp:96-115 | that type is the one of the key that the path ends with, letter case aside, and the default if it ends with no key |
| MimeTypes.CaseIsIgnored | src/MimeTypes.cpp:42-61 | paths that differ in letter case only have the same type |
| MimeTypes.MimeTypeByEnding | src/HttpServer.hpp:96-112 | the older lookup gives the type of the key that the path ends with letter for letter, and the default if it ends with no key |
| MimeTypes.PathTypeIsFoldedMimeType | src/HttpServer.hpp:96-112 | for every path the scan is the older lookup applied to the folded path |
| MimeTypes.FoldedLookupExtends | src/HttpServer.hpp:96-112 | the type of a path is that of its folding, and agrees with the older lookup wherever that one knows the type |
| MimeTypes.CapitalsTellThemApart | src/HttpServer.hpp:96-112 | the two lookups do differ: a path that ends in `.PNG` is an image for the scan and unknown to the older lookup |
| Session.RouteTable.constructor | src/HttpServer.hpp:49-51 | the table starts empty |
| Session.RouteTable.Route | src/HttpServer.hpp:57-59 | overwrites the entry of one path |
| Session.RouteTable.Select | src/HttpSession.cpp:59-70 | selects the longest non-empty key that starts the path, or none if there is none, in any order of the table |
| Session.LongestPrefixUnique | src/HttpSession.cpp:59-70 | that key is unique, so the order of the table does not matter |
| Session.TableHoldsLast | src/HttpServer.hpp:57-59 | the table holds the last handler registered for each path |
| Session.HandlerAfter | src/HttpSession.cpp:59-70 | after any run the handler chosen is the last one registered for the longest non-empty registered prefix |

## Left out

- Routing.Router.InsertSpecial: asks for a parent whose place ends in `/`, which the original does not check; `InsertMarked` shows that `insert_route` never calls it otherwise on a validated pattern.
- Routing.Router.InsertStatic: asks that text below a parameter node start with `/` and that none go below a catch-all, for the same reason.
- The lifetime of handlers and the references into the tree that a `MatchResult` carries: a reply here holds the route by value.
- Handler bodies, sockets, timers, the accept loop, signals and `main`: input and output over a library.
- URL parsing before the session's selection loop, and static file serving: they rest on foreign libraries and the file system.
- Configuration loading and validation, logging and the response factory: independent range checks and string building.
- The buckets of the standard hash table and the order of the standard map: only the hash and equality contract is used, and every walk is in any order.
- Memory exhaustion and other failures of allocation.
