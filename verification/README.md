# Verified models of the cloudos server

Five parts of the cloudos server are modelled in Dafny, each with the properties it is there for:

- **The app runtime cache.** `AppDAO` fills two caches lazily under double-checked locking, from an app
  repository on disk that install and uninstall tasks change before they clear the caches. `AppRuntimes`
  has the computation over the repository, also as the code writes it into mutable runtime objects;
  `ParentMerging` says what the merging of parents does for every visiting order, and `RuntimeContents`
  which apps the result has, in terms of the files on disk. `AppCache` is the protocol as a state machine
  with any number of concurrent calls, one step for each lock, read, write or access to the repository. Any
  access may fail, an uninstall deletes an app directory piece by piece, and
  an initialisation reads the repository directory by directory while others change it.
  `AppCacheInvariants`, `AppCacheFreshness`, `AppCacheDeadlock` and `AppCacheRuns` prove what holds in
  every interleaving.
- **Account groups.** Groups contain accounts and groups and may mirror other groups. `Graphs` has walks,
  cycles and the depth-first search that stands for the library's `containsCircularReference`.
  `AccountGroups` has the operations on values, `AccountGroupDAO` the same operations as methods of the
  two classes, `GroupOperations` what each operation refuses and stores, `AccountGroupRuns`,
  `GroupMemberLists` and `GroupWitnesses` what holds in every run.
- **The query-string parser purl.js.** `Purl` has its calls on values, `PurlObjects` the same code writing
  in place into objects and arrays that share structure while they are promoted, `PurlPaths`, `PurlLists`
  and `PurlRepeats` the trees that it builds, `PurlPairs` what one more pair does to any tree, and `PurlParam`
  the printer of the bundled jQuery and which values survive being printed and parsed. `Decimals` and `JavaScript` hold what the language supplies.
- **Translation lookup i18n.js** with its cache in the translation table itself (`I18n`).
- **Two loops over things that fail**: logging in to an installed app behind redirects (`AppLoading`, and
  `AppLoadingOutcomes` for how each run ends), and moving a downloaded bundle into the app library (`AppDownload`).

Code that updates objects, lists or maps step by step is a class or a method with loops, proved equal to a
function on values; the properties are then lemmas about those functions. Functions the code calls but
that live in a library are kept symbolic, as an uninterpreted datum or a free choice.

What the code does where a reader might expect something else:

- The two lock orders of `AppDAO` allow a circular wait, and a reset between the last check and the last read
  of a cache lets a call return null. Both are shown reachable, the first with its exact shape, the second
  with its exact condition.
- Member acyclicity does not make `buildGroupMemberList` end, because a mirror leads to the members of its
  source: three accepted operations reach a group for which it recurses for ever.
- `AccountGroup.setMirrors` appends, whatever its name says.
- Parent merging depends on the order of a hash map as soon as an app's parent declares another
  authentication than its own parent does.
- In `InstalledAppLoader` the checks for a null result of `followRedirects`, which announce that the user
  is sent to the main page, are never reached: past the limit the null is dereferenced inside
  `followRedirects`.
- A plural translation key that was once asked for directly hides the entry a count falls back on.
- In purl.js an array that so far has only properties which are no index, as `a[007]` makes it, loses them
  to the first name under the same key.
- An array of strings that holds an empty string does not survive being printed by the bundled jQuery and
  parsed by purl.js.
- If `BufferedResponse.isSuccess` excludes 3xx, as its name suggests, the code that follows the redirects of
  a login and registers the user is never reached.
- A download that stops after placing its bundle can never be completed without the overwrite flag.

## Model

| member | source | states |
|---|---|---|
| AppRuntimes.InitAvailableRuntimes | src/main/java/cloudos/dao/AppDAO.java:298-343 | On distinct mutable runtime objects the code computes the map that Compute gives for that repository, listing and hash order, and throws exactly when Compute fails. |
| AppRuntimes.MergeAllParents | src/main/java/cloudos/dao/AppDAO.java:330-340 | The in-place loop over the apps leaves every runtime object at the value of the merge on values, and fails exactly when that fails. |
| AppRuntimes.MergeParent | src/main/java/cloudos/dao/AppDAO.java:345-348 | The child takes over the parent's authentication and the merged details; the parent is not touched. |
| RuntimeContents.ComputeSucceedsExactly | src/main/java/cloudos/dao/AppDAO.java:298-343 | From the files of the repository alone: it succeeds if and only if each manifest of an active version names a plugin that is on the class path or in the jar of the app with that name, and the parent of each surviving manifest is offered too. |
| RuntimeContents.ComputeGivesOffered | src/main/java/cloudos/dao/AppDAO.java:176-189 | A name is in the computed map if and only if some directory has an active version whose readable manifest has that name. |
| RuntimeContents.ComputeGivesDeclared | src/main/java/cloudos/dao/AppDAO.java:321-343 | Of manifests with one name the one listed last counts; without a parent the app gets the authentication and details it declares, and under a parent that has none the authentication of the parent and its own details merged with the parent's. |
| RuntimeContents.FreshContents | src/main/java/cloudos/dao/AppDAO.java:298-343 | A fresh map has exactly the apps offered, there is none unless every plugin is found, and an app without a parent and a rival for its name has what it declares. |
| RuntimeContents.CachesGiveOffered | src/main/java/cloudos/dao/AppDAO.java:264-296 | In every interleaving, with the repository unchanged since the last clear: a filled runtime cache has exactly the apps offered, and a filled details cache gives for exactly these the details they declare, if no parent adds to them. |
| RuntimeContents.InstallActivates | src/main/java/cloudos/service/AppInstallTask.java:187-191 | The write of an install makes its version the one its app offers; other apps, versions and jars stay. |
| RuntimeContents.UninstallRemoves | src/main/java/cloudos/service/AppUninstallTask.java:69 | Each deletion of an uninstall takes from its own app only, and without the directory the app offers nothing. |
| ParentMerging.ParentsFirstInheritsTopmost | src/main/java/cloudos/dao/AppDAO.java:330-348 | Visiting parents before children, every app ends with the authentication of its topmost ancestor, at any depth. |
| ParentMerging.ChainExists | src/main/java/cloudos/dao/AppDAO.java:330-348 | In such an order every app has that chain of ancestors. |
| ParentMerging.AuthOrderIndependentExactly | src/main/java/cloudos/dao/AppDAO.java:330-348 | With all parents present, every visiting order gives each app the same authentication if and only if each parent (other than the app itself) that has a parent declares the same authentication as that one; details play no part. |
| ParentMerging.IndependentWhateverTheMerge | src/main/java/cloudos/dao/AppDAO.java:330-348 | For any type of details and any merge of them: if a parent is missing (all orders fail) or no app's parent, other than itself, has a parent, all visiting orders agree on everything. |
| ParentMerging.IndependentForEveryMergeExactly | src/main/java/cloudos/dao/AppDAO.java:330-348 | The orders agree for every possible merge of details if and only if that condition holds; a particular merge may need less. |
| ParentMerging.SymbolicStandsForAll | src/main/java/cloudos/dao/AppDAO.java:345-348 | Reading the symbolic result under any merge function gives what the loop with that function computes, failures included. |
| ParentMerging.GrandparentShowsOrder | src/main/java/cloudos/dao/AppDAO.java:330-348 | With a grandparent one order gives the app its parent's own authentication and another the grandparent's, and the symbolic details differ. |
| ParentMerging.FreshMapIsUnique | src/main/java/cloudos/dao/AppDAO.java:298-343 | If manifests carry their directory's name and no app has a grandparent, one repository has at most one result, whatever the listing and hash orders. |
| ParentMerging.FreshAuthIsUnique | src/main/java/cloudos/dao/AppDAO.java:298-343 | If only the declared authentications of parents and grandparents agree, all results agree on every app's authentication. |
| AppCacheFreshness.FreshSinceLastClear | src/main/java/cloudos/dao/AppDAO.java:264-377 | In every interleaving: if no step has changed the repository since the runtime cache was last cleared, by whichever call and whatever failed before, a filled cache equals a fresh computation over the repository as it is now, and every initialisation under way has read what is there now. |
| AppCacheFreshness.CacheIsFresh | src/main/java/cloudos/dao/AppDAO.java:264-343 | Hence, with no change of the repository still to be followed by its own reset, a filled runtime cache is fresh and a filled details cache is its projection. |
| AppCacheFreshness.CacheIsTheFreshMap | src/main/java/cloudos/dao/AppDAO.java:281-343 | Where the fresh map is unique, a cache filled with no change since the last clear is that map. |
| AppCacheFreshness.CleanIsUnchanged | src/main/java/cloudos/service/AppInstallTask.java:185-193 | If every task that changed the repository has cleared the cache since, the last change lies before a clear. |
| AppCacheFreshness.ClearIsFresh | src/main/java/cloudos/dao/AppDAO.java:370-377 | Clearing the cache makes everything fresh, whatever has changed before and whichever call changed it, finished or not: as the apps lock is held, no initialisation that read the old repository is under way. |
| AppCacheFreshness.DetailsFollowRuntimes | src/main/java/cloudos/dao/AppDAO.java:264-296 | Whenever details are cached the runtimes are, and the details are their projection, except between the two clears of resetApps; a runtimes call made under the details lock never finds null. |
| AppCacheInvariants.InvNext | src/main/java/cloudos/dao/AppDAO.java:264-377 | Every step keeps lock ownership, what each call knows of the cache at its place in the code, and the coupling of the caches. |
| AppCacheDeadlock.StuckExactlyInCircularWait | src/main/java/cloudos/dao/AppDAO.java:264-296 | A reachable state with an unfinished call is stuck exactly when a getAvailableAppDetails call and a resetApps call wait for each other's lock and every other unfinished call waits for one of the two. |
| AppCacheDeadlock.CircularWaitIsUnique | src/main/java/cloudos/dao/AppDAO.java:264-377 | There is at most one such pair. |
| AppCacheDeadlock.CircularWaitIsPermanent | src/main/java/cloudos/dao/AppDAO.java:264-377 | No step of any other call ends a circular wait. |
| AppCacheDeadlock.MovesWithoutResetWaiting | src/main/java/cloudos/dao/AppDAO.java:370-377 | A reachable state in which no resetApps waits for the details lock can always move. |
| AppCacheRuns.CircularWaitReachable | src/main/java/cloudos/dao/AppDAO.java:266-283 | The circular wait is reached from the start. |
| AppCacheRuns.FilledStays | src/main/java/cloudos/dao/AppDAO.java:281-296 | Until `apps` is cleared a filled runtime cache keeps its map. |
| AppCacheRuns.OnePublicationBetweenResets | src/main/java/cloudos/dao/AppDAO.java:281-296 | Between any two publications of a computed map lies a clear of `apps`. |
| AppCacheRuns.ReadsAgreeBetweenResets | src/main/java/cloudos/dao/AppDAO.java:295 | All calls that read a filled cache between two clears of `apps` read the same map. |
| AppCacheRuns.EmptyExactly | src/main/java/cloudos/dao/AppDAO.java:281-296 | Once filled, `apps` is null later if and only if it has been cleared since and no map published after that clear. |
| AppCacheRuns.DetailsEmptyExactly | src/main/java/cloudos/dao/AppDAO.java:264-277 | The same for `appDetails` and the step that fills it. |
| AppCacheRuns.RuntimesNullExactly | src/main/java/cloudos/dao/AppDAO.java:281-296 | A getAvailableRuntimes call that finishes without throwing has passed its last check and read `apps` again; it returns what it reads there, and that is null if and only if between the two `apps` was cleared and not published since. |
| AppCacheRuns.DetailsNullExactly | src/main/java/cloudos/dao/AppDAO.java:264-277 | The same for getAvailableAppDetails and `appDetails`. |
| AppCacheRuns.ThrowsExactly | src/main/java/cloudos/dao/AppDAO.java:285-291 | A call of either kind throws, or is about to, if and only if an initialisation of its own has failed. |
| AppCacheRuns.NonNullWithoutReset | src/main/java/cloudos/dao/AppDAO.java:264-296 | A finished call during which its cache is not cleared gives a map of its kind, unless an initialisation of its own has failed: then it throws. |
| AppCacheRuns.FinishedHasCleared | src/main/java/cloudos/dao/AppDAO.java:370-377 | An install, uninstall or refresh that finishes has cleared both caches, the runtime cache after its last change of the repository. |
| AppCacheRuns.NullReachable | src/main/java/cloudos/dao/AppDAO.java:295 | A call that has just filled the cache can still return null. |
| Graphs.ReplacingEdges | src/main/java/cloudos/dao/AccountGroupDAO.java:196-202 | In an acyclic graph, new edges for one node keep it acyclic exactly when no cycle is then reachable from that node. |
| Graphs.ContainsCircularReference | src/main/java/cloudos/dao/AccountGroupDAO.java:202 | The search ends and answers whether a cycle is reachable from the group. |
| AccountGroupDAO.AccountGroupDAO.CreatesCircularReference | src/main/java/cloudos/dao/AccountGroupDAO.java:185-215 | True exactly when a cycle is reachable from the group after its entry is replaced by the proposed members; an unknown recipient throws. |
| AccountGroupDAO.AccountGroupDAO.Create | src/main/java/cloudos/dao/AccountGroupDAO.java:77-102 | The new directory and the outcome, every refusal and every built-in group made on the way included, are those of Create on values. |
| AccountGroupDAO.AccountGroupDAO.Validate | src/main/java/cloudos/dao/AccountGroupDAO.java:238-272 | Which refusal is given first, and which mirror sources are created before it. |
| AccountGroupDAO.AccountGroupDAO.Update | src/main/java/cloudos/dao/AccountGroupDAO.java:104-130 | As Update on values: deletion for an empty request, refusal without any change, or the new entry. |
| AccountGroupDAO.AccountGroupDAO.Delete | src/main/java/cloudos/dao/AccountGroupDAO.java:56-70 | Removes the group unless some group mirrors it or it is built in; members that name it stay. |
| AccountGroupDAO.AccountGroupDAO.BuildGroupMemberList | src/main/java/cloudos/dao/AccountGroupDAO.java:136-161 | The recursion on the stored groups gives what Build on values gives for the same stack. |
| AccountGroupDAO.AccountGroupDAO.AddToDefaultGroup | src/main/java/cloudos/dao/AccountGroupDAO.java:40-46 | Creates the group if need be and adds the account once; nothing else changes. |
| AccountGroupDAO.AccountGroupDAO.AddToAdminGroup | src/main/java/cloudos/dao/AccountGroupDAO.java:48-54 | The same for the administrators. |
| AccountGroupDAO.AccountGroup.SetMembers | src/main/java/cloudos/model/AccountGroup.java:107-113 | The two loops, removing and adding one member at a time, leave SetMembers of the old list. |
| AccountGroupDAO.AccountGroup.RemoveMember | src/main/java/cloudos/model/AccountGroup.java:100 | The list without the first occurrence of the member. |
| AccountGroupRuns.MirrorsOnlyGrow | src/main/java/cloudos/model/AccountGroup.java:76 | As setMirrors appends, no update takes a mirror away: along every run in which a group stays, its mirrors only grow at the end, and no existing group that it mirrors can be deleted. |
| GroupOperations.CreateRefusesExisting | src/main/java/cloudos/dao/AccountGroupDAO.java:80 | Create refuses a name as existing exactly when a group has it, and then changes nothing. |
| GroupOperations.CreateExactly | src/main/java/cloudos/dao/AccountGroupDAO.java:77-102 | For a new name: the missing built-in groups named before the first bad mirror are created empty; a mirror is bad exactly when it is neither a group nor built in; each refusal has its exact condition and place in the order; what is stored has the description and the mirrors of the request and exactly its recipients, in order, none twice; a refusal leaves nothing else behind. |
| GroupOperations.DeleteExactly | src/main/java/cloudos/dao/AccountGroupDAO.java:56-70 | Only a group that no group mirrors and that is not built in goes, each refusal has its exact condition, and everything else stays. |
| GroupOperations.UpdateExactly | src/main/java/cloudos/dao/AccountGroupDAO.java:104-130 | An empty request deletes; an unknown group, an unknown recipient and a cycle are refused, exactly then and without effect; else the entry alone changes: the members become the recipients, the request's mirrors are appended, description and quota are the request's. |
| GroupOperations.AddExactly | src/main/java/cloudos/dao/AccountGroupDAO.java:40-54 | The account is a member afterwards, at the end if it was none; the other members, the rest of the entry and all other groups stay. |
| AccountGroupDAO.SetMembersIsExact | src/main/java/cloudos/model/AccountGroup.java:107-113 | On a duplicate-free list: exactly the wanted members, none twice, the kept ones first in their old order, then the new ones in request order. |
| AccountGroupDAO.MembersStayDistinct | src/main/java/cloudos/model/AccountGroup.java:97-113 | In every run of the group operations member lists stay duplicate-free. |
| AccountGroupRuns.StaysAcyclic | src/main/java/cloudos/dao/AccountGroupDAO.java:40-130 | In every run the member graph stays acyclic, with dangling member DNs and names that are created again. |
| AccountGroupRuns.UpdateAcceptedExactlyWhenAcyclic | src/main/java/cloudos/dao/AccountGroupDAO.java:117-129 | An update with existing recipients is stored exactly when the graph with the new members is acyclic, and then the group has exactly those members. |
| AccountGroupRuns.CreateRefusesExactlyCycles | src/main/java/cloudos/dao/AccountGroupDAO.java:238-272 | Create refuses for a circular reference exactly when nothing else is wrong and the new edges would close a cycle. |
| AccountGroupRuns.UpdateDanglesExactly | src/main/java/cloudos/dao/AccountGroupDAO.java:128 | An update leaves no dangling mirror exactly when the mirrors it names exist. |
| AccountGroupRuns.MirrorsNeverDangle | src/main/java/cloudos/dao/AccountGroupDAO.java:56-70 | No mirror dangles in any run whose updates name existing groups. |
| GroupMemberLists.BuiltListIsExact | src/main/java/cloudos/dao/AccountGroupDAO.java:136-161 | A list that is returned has exactly the DNs that some chain of mirror-then-member hops leads to: the last group's own members and its sources' accounts. |
| GroupMemberLists.EndsExactlyWithoutHopCycle | src/main/java/cloudos/dao/AccountGroupDAO.java:136-161 | With every hop resolving, the recursion ends if and only if no cycle of hops is reachable, a stack as deep as there are groups is then enough, and otherwise every stack overflows. |
| GroupMemberLists.WithoutHopCycle | src/main/java/cloudos/dao/AccountGroupDAO.java:136-161 | Without a cycle of hops it always ends: with a list if every hop resolves, else with a null pointer. |
| GroupMemberLists.NullMeansUnresolved | src/main/java/cloudos/dao/AccountGroupDAO.java:149 | A null pointer comes from a hop to a group that is gone. |
| GroupMemberLists.CreateStoresExactly | src/main/java/cloudos/dao/AccountGroupDAO.java:83-102 | A create that passes validate is stored, for every stack as deep as there are groups, exactly when for each mirror source all hops resolve without a cycle and some recipient or listed member comes together; with none it is refused as empty; and if some source fails, it is refused by a null pointer or an overflow whatever the stack. |
| GroupWitnesses.AcyclicMembersDoNotEnd | src/main/java/cloudos/dao/AccountGroupDAO.java:136-161 | Three accepted operations reach an acyclic, fully resolving directory in which the recursion overflows every stack. |
| GroupWitnesses.RevivedNameIsChecked | src/main/java/cloudos/dao/AccountGroupDAO.java:185-203 | A witness of CreateRefusesExactlyCycles: in one directory a deleted member leaves its DN behind, and creating it again with that group as a member is refused. |
| Purl.LastBraceInKey | src/main/resources/static/js/libs/purl.js:162-172 | The position of the first `=` that no open bracket comes before, or none: every earlier `=` is inside brackets. |
| PurlPaths.CutsPrintedPair | src/main/resources/static/js/libs/purl.js:128-147 | A printed pair is cut where key and value were joined, whatever the value holds. |
| PurlPaths.SplitBrackets | src/main/resources/static/js/libs/purl.js:111-114 | Splitting a bracketed key gives its components back. |
| PurlPaths.InsertAddsLeaf | src/main/resources/static/js/libs/purl.js:77-109 | Parsing at a free path adds that one leaf, keeps all others, and keeps arrays exactly where all keys are indices. |
| PurlPaths.ParsesToGivenLeaves | src/main/resources/static/js/libs/purl.js:69-149 | Distinct, prefix-free bracket paths give a tree in which each path reads its value and there is no other leaf. |
| PurlPaths.OrderOfPairsIsIrrelevant | src/main/resources/static/js/libs/purl.js:69-149 | The same pairs in any order give the same tree, arrays, objects and lengths included. |
| PurlPaths.QueryParsesToGivenLeaves | src/main/resources/static/js/libs/purl.js:128-149 | The same from the whole query string, through splitting and decoding. |
| PurlPaths.ParsingInvertsPrinting | src/main/resources/static/js/libs/purl.js:69-149 | Printing all leaves of a tree as pairs with explicit indices, in any order, and parsing them gives the tree back. |
| PurlParam.ParamRoundTripExactly | src/main/resources/static/js/libs/all.js:1 | For the bundled jQuery printer, which prints strings in arrays with empty brackets: parsing what it prints for an object gives the object back if and only if each of its values round-trips: no array in it is empty, ends in a hole or holds an empty string, no string lies directly behind a hole, and no inner object has only numbers as names. |
| PurlParam.HoleBeforeObjectComesBack | src/main/resources/static/js/libs/all.js:1 | A hole before an object, which is printed with its index, comes back. |
| PurlParam.AppliedBelow | src/main/resources/static/js/libs/purl.js:77-109 | Any number of pairs below one property change that property only, to what they make of it alone. |
| PurlLists.ParsesBracketLists | src/main/resources/static/js/libs/purl.js:91-97 | Repeated `k[]` pairs give, for each key, an array of exactly its values that are not empty, in order of occurrence. |
| PurlLists.EmptyStringIsLost | src/main/resources/static/js/libs/purl.js:92-93 | An array of one empty string, printed as `k[]=`, comes back as an empty array. |
| PurlPaths.LeavesDetermineTree | src/main/resources/static/js/libs/purl.js:69-109 | Trees of the parser's shape with the same leaves are equal, promoted arrays included. |
| PurlLists.ParsesToValueLists | src/main/resources/static/js/libs/purl.js:111-182 | Plain pairs store for each key its values in order of occurrence: a string for one, an array of exactly them for several. |
| PurlRepeats.ParsesRepeatedPaths | src/main/resources/static/js/libs/purl.js:69-149 | Bracket paths repeated and interleaved in any way, none a prefix of a different one: each reads its value if it occurs once, else an array of exactly its values in order of occurrence, and there are no other strings. |
| PurlPairs.BracketPair | src/main/resources/static/js/libs/purl.js:77-109 | One more pair, on any tree: below a string or function it writes nothing; else the key ends with the value, behind an array's elements, in place of an object or paired with a string; arrays on the way stay arrays only for digits; everything aside stays, unless it was in an array of length 0 that a name turns into an object. |
| PurlPairs.EmptyBracketsPair | src/main/resources/static/js/libs/purl.js:91-97 | The same for `[]` at the end: an array from the start, appended to without empty strings, in an object under the number of its properties; parts behind the empty brackets are ignored. |
| PurlPairs.PlainPair | src/main/resources/static/js/libs/purl.js:111-126 | A plain key: a string, one more element, or what is there, an object too, paired with the value; an inherited name pairs the function. No other property changes. |
| PurlPairs.ValueAtNoIndexIsLost | src/main/resources/static/js/libs/purl.js:69-70 | Digits that are no index, such as `007`, leave the array at length 0, and a name under the same key then loses their value. |
| PurlPairs.CutsAnyPair | src/main/resources/static/js/libs/purl.js:135-145 | How any pair is cut: without `=`, or with one in front, it is all key; else at the first `=` outside brackets, or the first of all if every one is inside. |
| PurlLists.AsManyValuesAsPairs | src/main/resources/static/js/libs/purl.js:111-182 | As many values are stored as there are pairs. |
| PurlObjects.Promote | src/main/resources/static/js/libs/purl.js:69-75 | A new object takes the array's place with the same properties, and the tree around it stays the same. |
| PurlObjects.Parse | src/main/resources/static/js/libs/purl.js:77-109 | The recursion that writes into nested objects in place changes the value of `parent[key]` to Parse of the old one, and nothing else in the tree. |
| PurlObjects.Set | src/main/resources/static/js/libs/purl.js:151-160 | In place: a new string, one more array element, or the old value paired with the new. |
| PurlObjects.Merge | src/main/resources/static/js/libs/purl.js:111-126 | In place, `parent.base` goes from a value to Merge of it. |
| PurlObjects.ParseString | src/main/resources/static/js/libs/purl.js:128-149 | The loop leaves an object tree that stands for ParseString on values, to which the theorems apply. |
| I18n.Translator.FindTemplate | src/main/resources/static/js/libs/i18n.js:31-49 | The result and the whole new table; a table that cannot be compiled throws and changes nothing. |
| I18n.Translator.TemplateOf | src/main/resources/static/js/libs/i18n.js:93-101 | The plural entry, else the entry without a count, else a recorded missing marker; never undefined. |
| I18n.LookupWalks | src/main/resources/static/js/libs/i18n.js:16-27 | In a table without dotted names, a path of names finds what walking from child to child leads to, and nothing exactly if a child on the way is missing. |
| I18n.WholeKeyFirst | src/main/resources/static/js/libs/i18n.js:19 | An entry under the whole key, dots or not, comes before the walk. |
| I18n.PathsAreAnswered | src/main/resources/static/js/libs/i18n.js:31-57 | After any calls, a path is answered with what the original table has along it: a compiled string, the function there, an exception for a table, else the missing marker; exists is true exactly if something is there that is no marker. |
| I18n.WholeKeysAreAnswered | src/main/resources/static/js/libs/i18n.js:19 | After any calls an entry under the whole key answers it. |
| I18n.CountsAreAnswered | src/main/resources/static/js/libs/i18n.js:93-101 | With a count, the child named by the plural form answers, else the path itself, unless the plural key was recorded as missing. |
| I18n.CachedLookup | src/main/resources/static/js/libs/i18n.js:16-27 | A cached table holds the whole dotted key itself, or is read exactly as the original. |
| I18n.CachesAfter | src/main/resources/static/js/libs/i18n.js:31-49 | After any calls, plural ones included, the table is the original plus results of lookups. |
| I18n.MemoisationIsTransparent | src/main/resources/static/js/libs/i18n.js:51-110 | After any calls a lookup without a count gives what the uncached lookup of the original table gives, and exists answers the same. |
| I18n.PluralTransparentExactly | src/main/resources/static/js/libs/i18n.js:93-101 | A lookup with a count gives the uncached result if and only if its plural key is not recorded as missing. |
| I18n.PluralKeyHidesFallback | src/main/resources/static/js/libs/i18n.js:93-101 | For every table and every sequence of calls that asks for a plural key that does not resolve: a count, which would fall back on the entry without it, gives the missing marker from then on. |
| AppLoading.InstalledAppLoader.FollowRedirects | src/main/java/cloudos/service/app/InstalledAppLoader.java:260-283 | The loop makes the requests of Follow on values and ends as it does. |
| AppLoading.InstalledAppLoader.LoadApp | src/main/java/cloudos/service/app/InstalledAppLoader.java:67-185 | The requests and the outcome are those of Load on values. |
| AppLoading.FollowsToFirstPage | src/main/java/cloudos/service/app/InstalledAppLoader.java:260-283 | One request for each redirect, at the location the page before gave, until the first answer that is none or the eleventh request, whose answer is given up. |
| AppLoading.FollowsExactly | src/main/java/cloudos/service/app/InstalledAppLoader.java:260-283 | Read off the app's answers: the null pointer exactly when eleven redirects follow each other and the eleventh request is answered, a page exactly if it is the first that is no redirect after at most ten, and else the IOException. |
| AppLoading.ShortChainIsFollowed | src/main/java/cloudos/service/app/InstalledAppLoader.java:260-283 | A chain of at most ten redirects takes exactly as many requests and ends at its first page that is none. |
| AppLoading.LongChainIsGivenUp | src/main/java/cloudos/service/app/InstalledAppLoader.java:268-281 | A longer one aborts after eleven requests, even if the eleventh is answered with a page. |
| AppLoading.RunShape | src/main/java/cloudos/service/app/InstalledAppLoader.java:83-180 | Every run is a checking visit, a fresh visit, one or two logins, redirects and a last registration, each part bounded. |
| AppLoading.AtMost35Requests | src/main/java/cloudos/service/app/InstalledAppLoader.java:71-185 | Whatever the app answers, at most 35 requests are proxied. |
| AppLoading.RegistrationIsUnreachable | src/main/java/cloudos/service/app/InstalledAppLoader.java:126-161 | If no answer is both a success and a 3xx, the redirects after a login are never followed, no registration is ever sent, and at most 24 requests are proxied. |
| AppLoading.BoundIsMet | src/main/java/cloudos/service/app/InstalledAppLoader.java:71-185 | Some answers make it 35, and some answers of which none is both a success and a 3xx make it 24. |
| AppLoading.RequestsAreCalledFor | src/main/java/cloudos/service/app/InstalledAppLoader.java:110-160 | Credentials are sent only on a login or error page with a form, again only after a refusal with new cookies; a registration only on a registration page without an error. |
| AppLoadingOutcomes.AbortsExactly | src/main/java/cloudos/service/app/InstalledAppLoader.java:67-185 | From the configuration and the app's answers alone: a run aborts exactly when a home page or an accepted login whose redirect is followed starts a long chain, along the visits that end at pages which lead there. |
| AppLoadingOutcomes.LocationExactly | src/main/java/cloudos/service/app/InstalledAppLoader.java:140-184 | The user is sent to a location exactly after an accepted login: to the page its redirect leads to if that is to be followed, no registration comes and the page is no login page; else to the location of the login's own answer where that is passed on; and otherwise to none. |
| AppLoadingOutcomes.FailsExactly | src/main/java/cloudos/service/app/InstalledAppLoader.java:67-185 | A run ends with an IOException exactly when its last request is not answered. |
| AppLoadingOutcomes.LogsInExactly | src/main/java/cloudos/service/app/InstalledAppLoader.java:110-138 | A request is a login exactly if the fresh visit just before it ends at a page that wants one, or the request before it is such a login whose answer calls for a repetition. |
| AppLoadingOutcomes.RegistersExactly | src/main/java/cloudos/service/app/InstalledAppLoader.java:144-161 | A registration is sent exactly when an accepted login leads to a registration page without an error. |
| AppDownload.AppLibrary.Execute | src/main/java/cloudos/service/AppDownloadTask.java:107-122 | Library, unpacked directory and ending are those of Place on values, for every failure of a file operation. |
| AppDownload.AppLibrary.MoveAll | src/main/java/cloudos/service/AppDownloadTask.java:124-148 | The loop with its early exits does what MoveEntries does. |
| AppDownload.NothingIsLost | src/main/java/cloudos/service/AppDownloadTask.java:94-148 | Without overwrite no file of the library is changed or removed, however the download ends and wherever it stops. |
| AppDownload.NothingIsLostInRuns | src/main/java/cloudos/service/AppDownloadTask.java:94-148 | The same for any number of downloads. |
| AppDownload.LaterDownloadsChangeNothing | src/main/java/cloudos/service/AppDownloadTask.java:108-112 | Once a bundle is in place, however it got there, downloads of it without overwrite change nothing. |
| AppDownload.PlacedBundleStays | src/main/java/cloudos/service/AppDownloadTask.java:113-148 | A download that has renamed its bundle leaves a bundle in place, however it ends and wherever it stops, unless it overwrites and an entry has the bundle's own path. |
| AppDownload.CompletedDownloadIsWhole | src/main/java/cloudos/service/AppDownloadTask.java:113-148 | A completed move phase has every entry in the version directory with its content, nothing left unpacked, the bundle in place and no other file changed. |
| AppDownload.StoppingLosesNoEntry | src/main/java/cloudos/service/AppDownloadTask.java:124-148 | If the process stops, every entry is still unpacked or already in place, overwriting or not. |
| AppDownload.SucceedsExactlyOnFreshPaths | src/main/java/cloudos/service/AppDownloadTask.java:108-130 | Without overwrite and with all file operations working, a download succeeds exactly when neither the bundle nor any entry exists and no entry has the bundle's path. |
| AppDownload.OverwritingReplaces | src/main/java/cloudos/service/AppDownloadTask.java:108-130 | With all file operations working, an overwriting download succeeds, replaces what was at its paths and changes nothing else. |
| AppDownload.EndingsAreCaused | src/main/java/cloudos/service/AppDownloadTask.java:107-148 | It is refused only if it may not overwrite, and always if the bundle is there then; it finds no files exactly if none are listed; it fails or stops only by a file operation that does. |
| AppDownload.SuccessMeansAllWorked | src/main/java/cloudos/service/AppDownloadTask.java:113-148 | It succeeds only if every move, and every deletion of an entry in its way, has worked. |
| AppDownload.OnlyItsOwnPathsChange | src/main/java/cloudos/service/AppDownloadTask.java:107-148 | However it ends, no path but those of the bundle and its entries changes, and none at all unless the bundle is placed. |

## Left out

- AppDAO: plugin class loading beyond whether the class is found, data bags, the download of assets, and
  the merge of two detail records, which is kept symbolic as the term that says what was merged. A
  manifest that cannot be read is part of the repository's content; any other access may fail at any
  moment.
- AppDAO: downloads that overwrite the active version; AppDownloadTask changes files without
  resetApps, so that freshness says nothing about it.
- AppInstallTask and AppUninstallTask: everything before the repository is changed (Chef and rooty
  messages, DNS, validation); each may end at any point there without effect.
- AccountGroupDAO: LDAP itself. Names are taken as lower-case, because LDAP and the mirror check ignore
  case; attribute values keep the order in which they were written; each operation is atomic.
- AccountGroupDAO: hash orders. A list made from a HashSet is modelled by first occurrences, as no
  property depends on its order; `recipients` is not null.
- AccountGroupDAO: the Java stack is a number of calls that still fit.
- AccountGroupDAO.AccountGroup.SetMembers: iterates over a copy of the old list; whether the library
  returns a copy is not visible in this repository.
- Purl: the built-in percent-decoding is a parameter of ParseString, and the regular expressions that take
  a URL apart are not modelled.
- Purl: reading or writing a property of a string or a function, which never changes the tree, is modelled
  as finding nothing. A key that names an inherited property is modelled as finding a function.
- PurlPaths.ParsesToGivenLeaves: leaves out keys that start with a bracket or have `=` in their first
  component, digit components that are no array index in canonical form, and inherited property names, for
  which the tree has other shapes; so do PurlRepeats and PurlPairs, but for the pairs that PurlPairs names.
- PurlParam.ParamRoundTripExactly: the same names are left out, and null, numbers, functions and the encoding
  of the pairs; the printer is modelled for an object, not for a form's array of names and values.
- PurlObjects: a write into a string or a function is a step without effect instead of a call.
- I18n: Handlebars helpers, observers and the rendering of a template; strings and functions have no
  children, `__proto__` is taken for a function, and the compiler is taken to throw on anything but a
  string.
- AppLoading: user registration through rooty, redis beyond whether it holds an AuthTransition, and what
  sendToApp writes and redirects to; resolving a relative location is left as the pair of location and
  base. `isSuccess` and `is3xx` are independent, because BufferedResponse is not part of this model, and
  proxyResponse never returns null.
- AppDownload: downloading, checking and unpacking the tarball before the move phase, the creation of
  empty directories, and the assets and the installation after it.
- Accounts, sessions, mail, DNS and certificates, and the rest of the REST and browser code: thin wrappers
  that would add only easy members.
