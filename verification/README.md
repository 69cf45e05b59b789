# Verification of the session server's Redis layer

This project models four parts of the session server and proves what they promise.

**Session store.** The Lua scripts `syn`, `upidx`, `fin`, `fin_delay`, `timeout_rm` and
`get_multi`, as methods over one Redis database (hashes with a time to live, one sorted set of
delayed closes, and the write statistic), and all runs of them with time passing in between
(`RedisDb`, `WriteStat`, `SessionScripts`, `SessionHistory`); what each of them leaves field by field
(`SessionEffects`); the numbers in their replies (`LuaNumber`), how `OnlineCtrl` reads the replies of
`timeout_rm` and `get_multi` (`OnlineReply`), and what it then knows (`SessionReplies`).

**Request tracking.** `RedisEvent` with its ring of 1,000,000 slots, the reply countdown, the
timeout multimap and the two callbacks (`RequestRing`); every interleaving of issuing, replies,
late and null replies, timer ticks and returning callers (`RingRuns`, `RingFates`); and the locks and
the condition variable of the synchronous path (`SyncWait`).

**Cluster controller and client.** One pass of `RedisCtrl::check` over ZooKeeper, where every
operation may fail, with or without having taken effect (`RedisCtrl`, with `ZkTree`, `Phases`,
`Legal`, `CtrlSteps` and `PassSpec`); which names it takes for clusters and addresses (`Naming`);
how it asks every Redis for its master and sends its commands (`Slaveof`, `Polling`, `Dispatch`);
runs of passes that complete or stop anywhere, with changes of the configuration in between
(`CtrlTrace`, `CtrlRuns`, `CtrlShown`, `CtrlOrder`, `CtrlGoals`); the lock between controllers
(`PassLock`); the client that parses `legal_nodes` and routes keys (`RedisHash`, `Ipv4`), and both
together (`EndToEnd`).

**CityHash.** 64-bit arithmetic (`Word64`, `XorBits`), what the hash functions compute (`CityHash`),
where they cannot lose information (`CityCollisions`), the hashes of some user ids and
some rounds worked out (`CityValues`, `CityRounds`), and how they run over memory (`CityBuffer`).

`Text`, `Decimal`, `Address`, `Options`, `Sequences` and `Choice` are shared helpers.

The imperative code is modelled by methods with loops; each is proved against a function or
relation on values, and the theorems about runs are lemmas about those. What such a function gives is
stated once more without it, by fields, texts, bytes or positions: `SessionEffects`, `Naming`,
`CityValues`, `RequestRing.AsyncWaits`, `RedisHash.HashSelects`. `RedisCtrl.Check` promises
`PassSpec.Outcome`, and the runs of `CtrlTrace` are sequences of such outcomes. Machine words are
integers with their wrap-around written out.

## Findings

- `get_check`, `src/RedisCtrl.cpp:322-326`: in the branch for a lower index the map entry is
  overwritten before the path to delete is formatted, so the node just reported is deleted. For
  any names the reported node survives if and only if the first accepted name in string order has
  the lowest index (`ZkTree.ReportedNodeSurvives`); the padded names that ZooKeeper assigns always
  meet this (`ZkTree.PaddedNodeSurvives`), r10 and r2 do not (`ZkTree.UnpaddedNodeLost`).
- `check_check`, `src/RedisCtrl.cpp:889-901`: an address ends up in both trees if and only if the
  creation of its error node took effect and the deletion of its sequence node did not
  (`CtrlGoals.WedgeArises`). From then on creating the error node fails, and every pass stops
  there, for all clusters, until that address answers or is taken out of the configuration
  (`CtrlGoals.WedgeLasts`). Without failing operations a pass completes exactly when no address is
  stuck like that, no address is configured twice and no cluster is configured empty
  (`PassSpec.Feasible`, `RedisCtrl.Check`).
- `get_lock`, `free_lock`, `src/RedisCtrl.cpp:382-405`: the lock node stays behind if and only if
  its creation took effect but was reported as failed, or its deletion failed; no controller then
  enters a pass until the session of its creator ends (`PassLock.LeaksExactly`,
  `PassLock.LeakLasts`), and a controller whose own session has ended never does
  (`PassLock.EndedStaysOut`).
- `check_redis`, `src/RedisCtrl.cpp:759-793`: answers are entered under the printed form of the
  endpoint and looked up under the configured text. An address in any other spelling, such as a
  host name or a port with a leading zero, passes `isvalid_addr` but never counts as answering,
  however healthy it is, and stays in the error tree (`PassSpec.HealthyExactly`).
- `cmd_async`, `src/RedisEvent.cpp:339-342`: with an empty address map the callback is never run
  (`RingFates.NoRequestForEmptyMap`, `RingFates.OnlyTheirCalls`).
- `timeout_rm` parses a key correctly exactly when the uid contains no dot
  (`SessionScripts.ParseInverts`).
- `timeout_rm` and `get_multi` reply `tonumber(uid)` (`script/timeout_rm.lua:27`,
  `script/get_multi.lua:12`), a double, while a uid is a 64-bit number
  (`logic_driver/LogicConnLayerProto.proto:24`). The right user is named if and only if the uid is
  the text of a 64-bit number that is a double (`LuaNumber.NamedExactly`), so always up to 2^53
  (`LuaNumber.SmallIsRepresentable`); user 9007199254740993 is reported as 9007199254740992
  (`LuaNumber.NamesAnother`), and in the reply of `get_multi` the sessions of both become one
  (`OnlineReply.TwoUsersAlike`). A uid that is no numeral leaves a gap: the list of `timeout_rm`
  shifts, and if there is one such uid nothing of the sweep is read (`OnlineReply.OneNonNumeral`).
- `syn` and `upidx` write the extension after the reserved fields, so that a pair named GATE
  replaces the gate argument, and fin_delay from the gate of the argument is then ignored
  (`SessionHistory.GateOf`, `SessionHistory.StaleCloseIgnored`); `OnlineCtrl::syn` appends the
  pairs of the client as they are (`online/OnlineCtrl.cpp:683`).
- The bound on RANK_W is 1000, but the range to remove is one too long: the 1001st member cuts the
  statistic to 999 (`WriteStat.WriteTrims`).


## Model

| member | source | states |
|---|---|---|
| `SessionScripts.ParseInverts` | script/timeout_rm.lua:19-22 | the key parsing of timeout_rm returns the uid and lc that built a session key if and only if the uid has no dot |
| `SessionScripts.SessionKeyInjective` | script/syn.lua:25-26 | different dotless (uid, lc) pairs never share a session key |
| `SessionScripts.KeysDisjoint` | script/syn.lua:25-27 | an index key is never a session key, and names one uid |
| `SessionScripts.SessionStore.Syn` | script/syn.lua:25-87 | the script, command by command with its cleanup and extension loops, turns the database into Bind of it: index fields exactly the live sessions plus the bound one, index expiry never shortened, session lease renewed, delayed close cancelled; it counts one write of the user, and replies 0 and the number of the sid. What Bind writes is stated field by field and second by second in SessionEffects |
| `SessionScripts.SessionStore.Cleanup` | script/upidx.lua:30-36 | after the loop the index has exactly the fields whose session exists; an index left without fields is gone |
| `SessionScripts.SessionStore.WriteSession` | script/syn.lua:42-47 | HMSET, HSETNX and the extension loop write the reserved fields, keep an older CV, and let extension fields override; the values are those of SessionEffects.FieldsAfterBind |
| `SessionScripts.BindInSteps` | script/upidx.lua:70-77 | the commands in their order amount to Bind, where the index of a uid with live sessions expires at the later of its old expiry and that of the bound session |
| `SessionEffects.FieldsAfterBind` | script/syn.lua:42-47 | every field of the session after syn or upidx, for any name: the last extension value of the name, and without one SID 0, RID the sid, GATE the gate, CT the decimal client type, CV what it held or else the version, any other name what it held |
| `SessionEffects.IndexAfterBind` | script/syn.lua:30-40 | every field of the index after syn or upidx: that of a live session keeps its value, one without a session is gone, and the bound one, if new, holds client type;version |
| `SessionEffects.LeaseAfterBind` | script/syn.lua:49-74 | the session is live for exactly 1200 seconds for client types 0 to 99, 60 for 100000 and 600 for any other; the index exactly as long, or until its old expiry if that is later and a session of the user was live |
| `SessionEffects.RestAfterBind` | script/syn.lua:77 | no other key changes, and of the delayed closes exactly that of the session is cancelled |
| `SessionEffects.RecordDecides` | script/upidx.lua:42-70 | after any run a live session holds the SID, RID and CT of its last syn or upidx, and expires when the seconds granted since that call are over |
| `SessionScripts.SessionStore.FinDelay` | script/fin_delay.lua:19-39 | a close is scheduled and GATE emptied only when the named gate is the one bound, otherwise the sessions do not change; one write of the user is counted either way |
| `SessionEffects.ScheduleTakes` | script/fin_delay.lua:30-39 | from the gate in the field GATE exactly that field becomes empty and exactly that close gets the deadline; from another gate, or without a session, no field, expiry or close changes |
| `SessionScripts.SessionStore.Fin` | script/fin.lua:17-36 | index field, session and delayed close are gone, one write of the user is counted, and the reply is what the index held before |
| `SessionScripts.SessionStore.TimeoutRm` | script/timeout_rm.lua:8-37 | exactly the due members lose session, index field and schedule; the reply is the flat list, in score order, of the number that tonumber gives for the uid (nothing if it gives none) and the index value, for those that were indexed before |
| `SessionScripts.SessionStore.UnindexAll` | script/timeout_rm.lua:18-32 | the loop over any order of distinct due keys removes each index field once and appends number and value of what it held, although earlier rounds may already have changed the same index |
| `SessionEffects.FinishTakes` | script/fin.lua:23-26 | fin takes every field of the session, its index field and its delayed close, and no other field, expiry or close |
| `SessionEffects.SweepClears` | script/timeout_rm.lua:11-35 | timeout_rm leaves exactly the closes with a later deadline, unchanged, and a second sweep with the same stamp does nothing |
| `SessionScripts.SessionStore.GetMulti` | script/get_multi.lua:2-22 | uid by uid in the order HKEYS gives, one entry per listed field, with the number of the uid, the field, and what the session holds; a field is listed if and only if its uid is queried and it is in the index |
| `SessionHistory.StepKeepsInv` | script/syn.lua:30-77 | every script and every expiry keeps: a live session is indexed, its index expires no earlier, and GATE is empty exactly while its key is in DLY_CK |
| `SessionHistory.RunInv` | script/fin_delay.lua:30-39 | that invariant holds after every run from the empty store |
| `SessionReplies.GetMultiComplete` | script/get_multi.lua:4-20 | after any run, OnlineCtrl reads a live session of a queried user under its own number if and only if that number is a double; if all queried numbers are, it reads each live session with its fields, and what it reads with fields is live |
| `SessionHistory.IndexExactAfterBind` | script/upidx.lua:30-40 | right after syn or upidx the index lists a session if and only if it is live |
| `SessionHistory.HistoryDecides` | script/fin_delay.lua:30-34 | for a live session GATE and the DLY_CK score are what the history says: the last GATE value that the latest syn/upidx wrote (an extension field of that name replaces the argument), unless that gate has sent fin_delay since, and then the deadline of the first one |
| `SessionHistory.SweepRemovesExactly` | script/timeout_rm.lua:11-35 | timeout_rm removes a live session if and only if the history has such a close with a deadline that has come |
| `SessionHistory.StaleCloseIgnored` | script/fin_delay.lua:32-39 | a fin_delay from another gate, or a second one, leaves the whole database unchanged |
| `SessionHistory.Conservation` | script/fin.lua:23-26 | over every run: index creations of a session equal offline reports plus silent removals plus one if it is indexed now |
| `SessionReplies.ReportsOnce` | script/timeout_rm.lua:25-29 | each due and indexed member is reported once and nothing else is; OnlineCtrl reads one pair per member with its own uid and value if and only if every reported uid is the text of a 64-bit number that is a double |
| `SessionReplies.SweepReplyExact` | script/timeout_rm.lua:13-37 | with uids that are texts of 64-bit numbers, after any run: the pairs that OnlineCtrl reads are the users and values of the online episodes that the sweep ends if and only if every reported number is a double |
| `SessionReplies.EachPair` | script/timeout_rm.lua:27 | if every uid is a numeral, a pair names a wrong user exactly when its own uid is not the text of a 64-bit number that is a double |
| `SessionReplies.ReportedExactly` | script/timeout_rm.lua:13-37 | after any run the sweep reports a session if and only if it ends its online episode |
| `LuaNumber.NearestIsNearest` | script/timeout_rm.lua:27 | the number of a text is a double, and no double is nearer to what the text says |
| `LuaNumber.SmallIsRepresentable` | script/timeout_rm.lua:27 | every number up to 2^53 in size is a double |
| `LuaNumber.ComesBack` | script/get_multi.lua:12 | a 64-bit number comes back from the reply if and only if it is a double |
| `LuaNumber.NamedExactly` | script/get_multi.lua:12 | the number in the reply has the uid as its text if and only if the uid is the text of a 64-bit number that is a double |
| `LuaNumber.NamesAnother` | script/timeout_rm.lua:27 | user 2^53 + 1 is reported as user 2^53 |
| `LuaNumber.NamesUpper` | script/timeout_rm.lua:27 | user 2^53 + 3 is reported as 2^53 + 4, and its negative as the negative of that |
| `OnlineReply.TimeoutPairs` | online/OnlineCtrl.cpp:633-650 | the loop takes the pairs of number and text from a list of even length, and nothing from a list of odd length |
| `OnlineReply.AllAreRead` | online/OnlineCtrl.cpp:633-650 | all reports of a sweep are read as pairs if and only if every one has a number |
| `OnlineReply.OneNonNumeral` | online/OnlineCtrl.cpp:633-639 | a single uid that is no numeral makes the list odd: nothing of that sweep is read |
| `OnlineReply.MultiSessions` | online/OnlineCtrl.cpp:590-597 | the loop over the reply of get_multi builds the sessions that ReadSessions says |
| `OnlineReply.OneUidSession` | online/OnlineCtrl.cpp:481-530 | an entry without a number is refused; another is added to what is there for its user and client |
| `OnlineReply.TwoUsersAlike` | online/OnlineCtrl.cpp:496-505 | two users with one number in the reply have their sessions of a client merged into one |
| `SessionScripts.SessionStore.CountWrite` | script/upidx.lua:79-84 | the three commands on RANK_W give Written |
| `WriteStat.WriteTrims` | script/syn.lua:80-84 | a write adds one to the count of its user and keeps RANK_W at 1000 members at most; a 1001st member cuts it to 999, all that go come before all that stay (by count, then name), and no count changes |
| `WriteStat.StatCounts` | script/syn.lua:80-84 | over any sequence of writes no user is counted too often, and the statistic is exact while at most 1000 users have written |
| `RequestRing.RedisEvent.GetCf` | src/RedisEvent.cpp:660-668 | the next slot, in range whatever the initial idx_ |
| `RequestRing.RedisEvent.SendAll` | src/RedisEvent.cpp:367-418 | the count wsz is the number of entries with fewer than 2048 arguments on a ready connection that accepts the command |
| `RequestRing.RedisEvent.CmdAsync` | src/RedisEvent.cpp:328-437 | slot, timer and argument are those of IssueAsync, which RequestRing.AsyncWaits states target by target; without an accepted send the callback runs at once and the slot stays idle |
| `RequestRing.RedisEvent.Cmd` | src/RedisEvent.cpp:491-580 | slot and argument of a synchronous request, which has no timer, are those of IssueSync, stated target by target in RequestRing.SyncWaits |
| `RequestRing.SentAreAccepted` | src/RedisEvent.cpp:367-418 | with distinct addresses as many are waited for as entries have fewer than 2048 arguments on a ready connection that accepts |
| `RequestRing.AsyncWaits` | src/RedisEvent.cpp:367-437 | after cmd_async an address is outstanding for the request if and only if an entry for it has fewer than 2048 arguments on a ready connection that accepts; f_ of the slot is the number of such entries; with none nothing waits and the callback has been run at once, once |
| `RequestRing.SyncWaits` | src/RedisEvent.cpp:491-580 | the same for cmd, whose caller need not wait if and only if there is no such entry |
| `RequestRing.RedisEvent.CmdDone` | src/RedisEvent.cpp:601-606 | a late caller resets its slot, an early one does not touch it |
| `RequestRing.RedisEvent.RedisCmdAsyncCb` | src/RedisEvent.cpp:161-214 | one reply: ignored on a reset slot, else counted down, stored if not null, and on the last one timer erased and callback run |
| `RequestRing.RedisEvent.RedisCmdCb` | src/RedisEvent.cpp:216-267 | one reply: error replies go to the error map, the last one wakes the caller |
| `RequestRing.RedisEvent.Erase` | src/RedisEvent.h:77-91 | one entry with this stamp and slot goes, all others stay in order |
| `RequestRing.RedisEvent.TimeoutCallback` | src/RedisEvent.cpp:744-774 | entries before the stamp are removed from the front; each that is still in use is reset and its callback run as timed out |
| `RingRuns.StepKeepsInv` | src/RedisEvent.h:16-29 | in every interleaving f_ counts the unanswered sends, d_ is the live argument, pending asynchronous requests have their timer entry, and no freed or foreign argument is touched |
| `RingRuns.GetCfFresh` | src/RedisEvent.cpp:660-668 | inside the window the slot handed out is idle and belongs to no outstanding reply, timer entry or waiting caller |
| `RingRuns.SlotReusedExactly` | src/RedisEvent.h:34-36 | the next slot is that of an earlier request if and only if it is exactly 1,000,000 requests later |
| `RingRuns.EraseTimerEffect` | src/RedisEvent.h:77-91 | erasing removes the entry of one request and nothing else, also among equal stamps |
| `RingRuns.ExpireInOrder` | src/RedisEvent.cpp:744-774 | the callbacks that one tick runs are those of requests whose deadline has passed, by deadline and, for one deadline, in the order in which the requests were issued |
| `RingFates.CallbackFollowsFate` | src/RedisEvent.cpp:205-212 | after any run the callbacks made for a request, and the replies they carry, are those of its own two-state automaton |
| `RingFates.DoneExactly` | src/RedisEvent.cpp:749-773 | that automaton is done if and only if all accepted sends are answered or a tick has passed the deadline; open, it waits for exactly the addresses not answered |
| `RingFates.ExactlyOnce` | src/RedisEvent.cpp:328-437 | in every run the callback of a cmd_async call is run once when all accepted sends are answered or a tick has passed its deadline, and not before; with an empty address map there is no request, and no callback is run but those of requests |
| `RingFates.CallbackGetsReplies` | src/RedisEvent.cpp:161-214 | what the callback gets, in every interleaving: exactly the replies that had come in when the request was settled, each under its address, and the word that it timed out if and only if an accepted send was still unanswered |
| `RingFates.NoRequestForEmptyMap` | src/RedisEvent.cpp:339-342 | cmd_async creates a request if and only if the address map is not empty; with an empty one nothing changes at all |
| `RingFates.OnlyTheirCalls` | src/RedisEvent.cpp:422-430 | every callback made in any run belongs to a request that was issued with one |
| `RingFates.CallerGetsReplies` | src/RedisEvent.cpp:243-265 | in every interleaving a caller that leaves cmd has exactly the replies that came in for its own request, errors apart from results; unless it was timed out, every accepted send has been answered |
| `SyncWait.StepKeepsInv` | src/RedisEvent.cpp:584-606 | every lock operation, reply, timeout and wake-up keeps the invariant of the lock protocol |
| `SyncWait.NoLostWakeup` | src/RedisEvent.cpp:584-599 | a caller asleep with no reply to come is about to be notified |
| `SyncWait.CallbackFindsCarg` | src/RedisEvent.cpp:230-238 | the callback works only on the argument of a caller that is still inside cmd and has not reset its slot |
| `SyncWait.ResultsAreStable` | src/RedisEvent.cpp:602-644 | once the caller reads its results without a lock, no step of any thread changes them |
| `SyncWait.OnTimeIsComplete` | src/RedisEvent.cpp:243-265 | a caller that was woken in time has the replies of all accepted sends except the null ones, a late one a part of them |
| `SyncWait.LockOrder` | src/RedisEvent.cpp:587-591 | a thread that holds a request mutex waits for no lock: mutex_ always comes first |
| `SyncWait.FirstMuxIsFree` | src/RedisEvent.cpp:587 | cmd takes its own mutex without waiting |
| `SyncWait.NoDeadlock` | src/RedisEvent.cpp:261-265 | a blocked thread waits for a lock whose holder can move, directly or after one more holder |
| `Text.DigitOrder` | src/RedisCtrl.cpp:912-915 | among equally long digit strings lexicographic and numeric order are the same |
| `Text.PaddedOrder` | src/RedisCtrl.cpp:912-915 | the order of padded node names is the order of their sequence numbers, and equal numbers mean equal names |
| `Text.SeqNamePadded` | src/RedisCtrl.cpp:26-44 | cut_idx recovers the sequence number from the name of a sequence node |
| `Text.LessExactly` | src/RedisCtrl.cpp:912-915 | the order of strings in the model is that of std::string: by the first character where two differ, or the shorter one first |
| `Text.CutIdxOf` | src/RedisCtrl.cpp:26-44 | cut_idx of a prefix and a printed number is that number if it fits a long, otherwise -1 |
| `Decimal.OfIntText` | src/Util.cpp:63-73 | decimal texts are written the highest digit first, behind a minus sign if negative |
| `ZkTree.ScanKeepsLowest` | src/RedisCtrl.cpp:299-333 | the inner loop of get_check keeps each address with its lowest sequence node and deletes everything else |
| `ZkTree.LowerIndexUnreachable` | src/RedisCtrl.cpp:322-326 | with padded names the branch for a lower index is never taken |
| `ZkTree.ReportedNodeSurvives` | src/RedisCtrl.cpp:299-333 | for any names, padded or not, the loop leaves of an address exactly the first accepted name in string order and reports one of the lowest index: the reported node is still there if and only if the first name has the lowest index |
| `ZkTree.PaddedNodeSurvives` | src/RedisCtrl.cpp:312-329 | with padded names the reported node is the first one and is still there |
| `ZkTree.UnpaddedNodeLost` | src/RedisCtrl.cpp:322-328 | of the unpadded nodes r10 and r2 of one address the loop reports r2 and deletes it |
| `RedisCtrl.RedisCtrl.GetClusterNode` | src/RedisCtrl.cpp:90-128 | clusters with their children; with ischeck only those that Configured keeps, which Naming states by the text of their names |
| `Naming.ConfiguredExactly` | src/RedisCtrl.cpp:90-128 | a cluster is configured if and only if it is in the configuration and behind the first "cluster" in its name comes the text of a long other than -1; an address is configured if and only if it is a child of that cluster with a host before the first colon and a port behind it that is not 0 |
| `Naming.NumberedClusters` | src/RedisCtrl.cpp:113-124 | "cluster" with a printed number is configured if and only if it is in the configuration and the number is a long other than -1; a printed host and port if and only if it is a child, the host is not empty and the port not 0 |
| `Naming.OtherNames` | src/RedisCtrl.cpp:26-44 | a name without "cluster" in it, or with no long behind the first one, is not configured |
| `Naming.AddressExactly` | src/Util.cpp:31-49 | str_ipv4 accepts a text if and only if there is a host before the first colon and what atoi reads behind it is not 0 |
| `Naming.AtoiExactly` | src/Util.cpp:40-42 | atoi gives a number other than 0 if and only if behind white space, a sign and digits there is a digit other than 0 |
| `Naming.FindExactly` | src/RedisCtrl.cpp:28-32 | find gives the first place where the text occurs, and npos if and only if it occurs nowhere |
| `RedisCtrl.RedisCtrl.GetConfig` | src/RedisCtrl.cpp:130-153 | succeeds with the clusters and addresses of Naming.ConfiguredExactly, and only on a configuration in which no such address is in two clusters; fails only on an operation or on such an address |
| `RedisCtrl.RedisCtrl.HasDuplicate` | src/RedisCtrl.cpp:137-148 | the one-set check finds a duplicate if and only if two clusters share an address |
| `RedisCtrl.RedisCtrl.GetCheck` | src/RedisCtrl.cpp:286-338 | on success the map is the inverse of what is left in the tree, one lowest node per address; however it stops, no lowest node is lost; a tidy tree is not written |
| `RedisCtrl.RedisCtrl.LogicCheckAdd` | src/RedisCtrl.cpp:654-709 | configured clusters exist in both trees and every configured address is in one of them; only configured addresses get nodes, wherever the loop stops |
| `RedisCtrl.RedisCtrl.LogicErrorRm` | src/RedisCtrl.cpp:576-611 | the error tree is cut down to the configuration, from a snapshot read before clusters were added |
| `RedisCtrl.RedisCtrl.LogicCheckRm` | src/RedisCtrl.cpp:613-651 | the check tree is cut down to the configuration, from a snapshot read before nodes were added; no node of a configured address goes |
| `RedisCtrl.RedisCtrl.CheckRedis` | src/RedisCtrl.cpp:727-805 | the loops and the recursion compute Poll: endpoints are asked by 64-bit number, answers entered under the printed address, and addresses not found asked again |
| `Polling.PollFinds` | src/RedisCtrl.cpp:734-802 | a configured address is found if and only if it survives the way to a number and back and its endpoint answers in some attempt; with the first answer, or with the last one if it is configured in another spelling besides |
| `PassSpec.HealthyExactly` | src/RedisCtrl.cpp:759-793 | a configured address counts as answering if and only if it is a dotted quad and a port as printed and its endpoint answers some attempt with two strings, the first of them "slaveof" |
| `PassSpec.AnswerExactly` | src/RedisCtrl.cpp:759-793 | what an answering address is taken to be slave of is what ip_port makes of the value of its first such answer, or of the last one if another spelling of it is configured |
| `PassSpec.HealthyIsCanonical` | src/RedisCtrl.cpp:710-726 | so every address that can be elected is read back as a master exactly as it was sent |
| `Slaveof.IpPortExactly` | src/RedisCtrl.cpp:710-726 | "host port" is read as "host:port", whatever stands between two blanks; no text as none, and a text without a blank as ERRORADDR |
| `Dispatch.ArgsExactly` | src/RedisCtrl.cpp:1117-1134 | what is sent is NO ONE for NO:ONE, and for a master its host and its printed port |
| `RedisCtrl.RedisCtrl.CheckError` | src/RedisCtrl.cpp:807-856 | exactly the answering addresses leave the error tree and get new nodes |
| `RedisCtrl.RedisCtrl.DemoteWith` | src/RedisCtrl.cpp:880-901 | for any fate of its two operations the tree is Demoted, and the call succeeds if and only if the address was not in the error tree and both succeeded |
| `RedisCtrl.RedisCtrl.CheckCheck` | src/RedisCtrl.cpp:859-910 | exactly the nodes of addresses that did not answer move to the error tree; without a failing operation it stops only on such an address that is there already |
| `RedisCtrl.RedisCtrl.SortRedis` | src/RedisCtrl.cpp:917-927 | the addresses come in the order of their sequence numbers |
| `RedisCtrl.RedisCtrl.Commands` | src/RedisCtrl.cpp:995-1033 | every address of the cluster gets the command its slaveof asks for and no other address is touched; the returns for a missing slaveof and for a second command are unreachable |
| `RedisCtrl.RedisCtrl.Elect` | src/RedisCtrl.cpp:957-1033 | the published list is the order of the live nodes, or one error address; it fails only on a cluster with neither |
| `Legal.ErrorPublished` | src/RedisCtrl.cpp:979-989 | of a cluster without a live node exactly one address is published, the least one of its error tree |
| `RedisCtrl.RedisCtrl.LegalCmp` | src/RedisCtrl.cpp:1045-1097 | on success legal_nodes is what was wanted; wherever it stops it has only old names or only wanted ones, every old name that is still wanted, and no cluster index twice |
| `RedisCtrl.RedisCtrl.GenLegal` | src/RedisCtrl.cpp:930-1043 | elects every cluster and asks for exactly the commands of all clusters, and then rewrites legal_nodes: wherever legal_cmp stops, only old or only elected names are there and none that is both is missing; fails only on an operation, a deserted cluster or a cluster without an index |
| `RedisCtrl.RedisCtrl.DoSlaveof` | src/RedisCtrl.cpp:1099-1174 | the loops and the recursion compute Sent: what each attempt sends by endpoint, and the commands left unacknowledged |
| `Dispatch.SentIsDelivered` | src/RedisCtrl.cpp:1104-1172 | an address is sent its own command in every attempt up to the first that it acknowledges, and nothing else; it is left over if and only if it acknowledges none |
| `RedisCtrl.RedisCtrl.Check` | src/RedisCtrl.cpp:407-557 | one pass, wherever it stops: what it keeps, what is decided and what legal_nodes has once the election is reached, what completion reaches, that a settled tree is not written, that without a failing operation it completes if and only if it is feasible, and what it then sends; which clusters and addresses it works on is Naming.ConfiguredExactly |
| `PassSpec.SafePhase` | src/RedisCtrl.cpp:494-545 | in each phase a configured address loses its lowest node only if it does not answer and is not in the error tree, and leaves the error tree only if it answers |
| `PassSpec.PassDivides` | src/RedisCtrl.cpp:494-545 | the chain of phases divides each configured cluster into check (answering) and error (the rest) |
| `PassSpec.Judged` | src/RedisCtrl.cpp:807-910 | check_check gets stuck on a cluster if and only if the pass found an address that does not answer both in the error tree and with a sequence node |
| `CtrlRuns.LeaderReigns` | src/RedisCtrl.cpp:995-1035 | over any run, with passes aborted at any operation, a lowest node whose address stays configured and answers is elected by every pass that reaches the election, also if legal_cmp then stops; a completed pass publishes the elected list |
| `CtrlRuns.MasterStays` | src/RedisCtrl.cpp:912-1035 | an elected master is elected again by every later pass that reaches the election, whatever stops where in between, as long as it is configured and answers |
| `CtrlShown.LeaderShown` | src/RedisCtrl.cpp:1035-1093 | over any run, wherever passes stop, with distinct configured indexes: once a loyal leader is the first address of every published name with the index of its cluster, it is so at every later state |
| `CtrlShown.MasterShown` | src/RedisCtrl.cpp:1045-1097 | a master that a completed pass elected is the first address of every name published with the index of its cluster at every later state, between passes and after aborted ones, while it is configured and answers |
| `CtrlShown.NeverWithdrawn` | src/RedisCtrl.cpp:1066-1093 | a published name that every later election wants again is there at every state |
| `CtrlOrder.NextOrder` | src/RedisCtrl.cpp:912-993 | after a pass that reached the election the order is the old one restricted to configured addresses that answer, followed by the newcomers: first those that were not in the error tree, then those that were, both in string order |
| `CtrlOrder.FirstMaster` | src/RedisCtrl.cpp:654-707 | the first master of a cluster new to the controller is the least of its addresses that answer |
| `CtrlOrder.Seniority` | src/RedisCtrl.cpp:807-910 | the same over any part of a run between two tidy states: those that kept their node first in their old order, all others after; whoever always answered is among the first |
| `CtrlOrder.RecoveredComesLast` | src/RedisCtrl.cpp:828-849 | an address that missed one pass that reached the election and is back in the next comes after all that stayed |
| `CtrlGoals.Partition` | src/RedisCtrl.cpp:494-545 | after a completed pass both trees have exactly the configured clusters, answering addresses have exactly one sequence node, the error tree has the rest |
| `CtrlGoals.FixedPoint` | src/RedisCtrl.cpp:407-557 | once every command was acknowledged and obeyed, the next pass with the same configuration and health writes nothing, sends no command, and every address is in its role |
| `CtrlGoals.WedgeArises` | src/RedisCtrl.cpp:889-900 | demoting an address leaves it in both trees if and only if the creation of the error node took effect and the deletion of the sequence node did not; it puts no other address of any cluster there |
| `CtrlGoals.InterruptedDemotion` | src/RedisCtrl.cpp:889-901 | every pass of a run that starts with such a demotion stops, until the address answers or leaves the configuration |
| `CtrlGoals.WedgeLasts` | src/RedisCtrl.cpp:889-891 | such an address stops every later pass until it answers or leaves the configuration |
| `CtrlGoals.PublishedOnce` | src/RedisCtrl.cpp:1081-1093 | over every run no cluster index is published twice |
| `Legal.LegalNamesUnique` | src/RedisCtrl.cpp:1055-1064 | clusters with different indexes publish each index once |
| `Legal.HeadOfLegal` | src/RedisCtrl.cpp:1058-1063 | the text before the first separator is the cluster index |
| `Legal.LegalNameText` | src/RedisCtrl.cpp:1055-1064 | the published name is the printed index, and every further address adds a semicolon and itself |
| `PassLock.OneWriter` | src/RedisCtrl.cpp:363-405 | in every run of any number of controllers, whatever operations fail and sessions end, at most one that can still write is inside a pass, and it owns the lock node |
| `PassLock.FreesItsOwn` | src/RedisCtrl.cpp:382-390 | although free_lock deletes by path, it never deletes the lock of another controller |
| `PassLock.LeaksExactly` | src/RedisCtrl.cpp:392-405 | the lock stays behind without a pass if and only if its creation took effect and was reported as failed, or its deletion failed |
| `PassLock.LeakLasts` | src/RedisCtrl.cpp:425-429 | from then on no controller enters a pass until the session that owns the node ends |
| `PassLock.EndedStaysOut` | src/RedisCtrl.h:75-90 | a controller whose session has ended never enters a pass again, as it keeps its handle |
| `RedisHash.PathSplit` | src/RedisHash.cpp:35-67 | the loop returns what the child means, or the code of the first error |
| `RedisHash.ParsesText` | src/RedisHash.cpp:35-67 | of any text: the number before the first semicolon and the addresses between the others, or which error, stated from the fields alone |
| `RedisHash.Splits` | src/RedisHash.cpp:37-43 | every text is such a head and addresses between semicolons |
| `RedisHash.ParseInvertsLegalName` | src/RedisHash.cpp:35-67 | path_split inverts the published name if and only if the list is not empty and the index fits an int; otherwise the exact error code |
| `RedisHash.ReadChildren` | src/RedisHash.cpp:96-114 | all children or none: one that cannot be parsed stops the update |
| `RedisHash.LastChildCounts` | src/RedisHash.cpp:96-114 | of several children with one index the last one read counts |
| `RedisHash.RedisHash.UpdateEnds` | src/RedisHash.cpp:146-179 | the fields hold every cluster as 64-bit numbers, and its rows sorted by address list |
| `RedisHash.RedisHash.Master` | src/RedisHash.cpp:228-251 | the first address of the row that the hash of the key selects, 0 if there is none; which row that is, is RedisHash.HashSelects |
| `RedisHash.RedisHash.SlaveFirst` | src/RedisHash.cpp:198-226 | an address after the first of that row if it has one, for any random number; which one that is, is RedisHash.RandSelects |
| `RedisHash.HashSelects` | src/RedisHash.cpp:198-251 | hash i selects the i-th of the lists, and so does every hash that differs by a multiple of their number, for master and slave; an empty list gives 0 |
| `RedisHash.RandSelects` | src/RedisHash.cpp:218-225 | random number j selects the j-th address after the first, and so does every number that differs by a multiple of their number; a list of one gives that one |
| `RedisHash.EveryOneIsReached` | src/RedisHash.cpp:198-251 | every cluster has a hash that selects it, one in each round, and every slave of it a random number |
| `RedisHash.RouteOf1001` | src/RedisHash.cpp:228-251 | of two clusters user 1001 goes to the second |
| `RedisHash.LexExactly` | src/RedisHash.cpp:140-143 | the rows are sorted by the order of std::vector: by the first place where two lists differ, or the shorter one first |
| `RedisHash.RoutingAgrees` | src/RedisHash.cpp:140-179 | clients with the same distinct lists route every key alike, however clusters are numbered or read |
| `RedisHash.SlaveBesideMaster` | src/RedisHash.cpp:198-226 | the slave is in the cluster of the master and differs from it when the list has more than one entry |
| `RedisHash.ClientRecovers` | src/RedisHash.cpp:94-114 | from what legal_cmp publishes, read in any order, the client recovers every list in order |
| `EndToEnd.ClientFollowsController` | src/RedisHash.cpp:70-116 | after a completed pass the first address of a cluster at every client is the elected master |
| `EndToEnd.ClientKeepsMaster` | src/RedisHash.cpp:70-116 | over any run, with passes aborted at any operation: after a completed pass that elects a master, at every later state a client that reads legal_nodes in any order can parse all of it, and has that master as the first address of the cluster or does not have the cluster, while the master is configured and answers |
| `Ipv4.NumberRoundTrip` | src/Util.cpp:12-29 | every 64-bit number is the number of the address it prints as |
| `Ipv4.HostPortRoundTrip` | src/Util.cpp:12-29 | a dotted host and a 32-bit port survive the way to a number and back |
| `Ipv4.NumberBytes` | src/Util.cpp:12-20 | the number of a dotted host and a port by its bytes: the port in the lower half, and above it the four numbers of the host, the first one lowest |
| `Ipv4.LoopbackNumber` | src/Util.cpp:12-20 | 127.0.0.1 and port 6379 are the number 0x0100007f000018eb |
| `Ipv4.NotDotted` | src/Util.cpp:15 | any other text becomes the number of 255.255.255.255 |
| `Ipv4.TextRoundTrip` | src/Util.cpp:51-73 | str_ipv4_int64 reads what int64_str_ipv4 prints, and refuses exactly port 0 |
| `Ipv4.AddressRoundTrip` | src/Util.cpp:31-73 | an address survives the round trip if and only if it is a dotted quad and a 32-bit port other than 0, both written the way they are printed |
| `Word64.ShiftMixTwice` | src/city.cpp:112-114 | xor with the value shifted by 47 undoes itself |
| `XorBits.XorBytes` | src/city.cpp:112-114 | Xor is the exclusive or of the eight bytes |
| `Word64.RotateBack` | src/city.cpp:100-110 | a rotation is undone by its complement |
| `Word64.MulUndo` | src/city.h:81-86 | multiplication by a constant with an inverse modulo 2^64 can be undone |
| `CityCollisions.HashLen16Bijective` | src/city.h:79-88 | for a fixed second word HashLen16 is a bijection of the first, with its inverse |
| `CityCollisions.SeededCollisions` | src/city.cpp:238-245 | two keys collide under equal seeds if and only if they collide without seeds |
| `CityCollisions.ShortKeysDiffer` | src/city.cpp:120-139 | equally long keys of 1 to 16 bytes that end alike (8, 4 or 1 bytes) collide if and only if they are equal |
| `CityCollisions.MiddleShows` | src/city.cpp:143-150 | keys of one length from 24 to 32 bytes that agree outside the bytes from 16 to the last 8 have one hash if and only if they are equal |
| `CityCollisions.WeakInvertible` | src/city.cpp:154-163 | WeakHashLen32WithSeeds loses nothing of its two seeds |
| `CityCollisions.WeakShows` | src/city.cpp:154-163 | each of its four words shows in its first result |
| `CityCollisions.HalfShows` | src/city.cpp:177-195 | 33 to 64 bytes: each of the four words of a half shows in its first result |
| `CityCollisions.Join64Shows` | src/city.cpp:196-197 | the end of the hash of 33 to 64 bytes is injective in the sum that goes into its first ShiftMix |
| `CityCollisions.HalvesShow` | src/city.cpp:196-197 | so each of vf, wf and ws shows in the hash |
| `CityRounds.HashOf45Bytes` | src/city.cpp:177-198 | the hash of the bytes 0 to 44 is 0x518740c5ca3688d7 |
| `CityRounds.MixIs` | src/city.cpp:222-233 | the round of the long hash on a state and a block that count from 1 to 15, all seven words of its result |
| `CityCollisions.Start64Shows` | src/city.cpp:213-218 | over 64 bytes: with the same last 64 the state before the loop is the same if and only if the first 8 bytes are |
| `CityCollisions.MixShowsLower` | src/city.cpp:222-233 | each of the first four words of a block shows in the state after its round |
| `CityCollisions.MixShowsUpper` | src/city.cpp:222-233 | and each of the last four |
| `CityCollisions.Final64Shows` | src/city.cpp:234-235 | each of y, z and v.first shows in the hash of over 64 bytes |
| `CityCollisions.MurmurStepBijective` | src/city.cpp:263-272 | for a fixed chunk one round of CityMurmur is a bijection of the state |
| `CityCollisions.MurmurStepSeesChunk` | src/city.cpp:263-272 | for a fixed state one round is injective in the chunk |
| `CityCollisions.OneChunkShows` | src/city.cpp:249-277 | keys that differ in exactly one chunk of the loop leave it in different states |
| `CityCollisions.MurmurStepSpreads` | src/city.cpp:263-272 | each half of the chunk shows in both words of the state that it goes into |
| `CityRounds.MurmurStepIs` | src/city.cpp:263-272 | the round of CityMurmur on a state and a chunk that count from 1 to 6, all four words |
| `CityCollisions.StartShows` | src/city.cpp:259-262 | the state before the loop of CityMurmur has both seeds and the last 8 bytes in it |
| `CityCollisions.ShortShows` | src/city.cpp:255-258 | up to 16 bytes it has exactly both seeds, the short hash and, from 8 bytes on, the first 8 |
| `CityCollisions.MurmurEndShows` | src/city.cpp:274-276 | each of a and d shows in the first word of CityMurmur |
| `CityCollisions.Start128Shows` | src/city.cpp:286-293 | the state of CityHash128WithSeed before its loop has exactly both seeds and the words at 0, 8 and 88 in it |
| `CityCollisions.BridgeInjective` | src/city.cpp:317-318 | the step between its loops loses nothing |
| `CityCollisions.MixTailShows` | src/city.cpp:320-328 | each word of a block of the tail shows in the state |
| `CityCollisions.Final128Shows` | src/city.cpp:332-335 | each of x, y and z shows in the first word of CityHash128WithSeed |
| `CityValues.HashOf3Digits` | src/city.cpp:130-137 | the hash of user 379 is 0x421069ec8b728816 |
| `CityValues.HashOf4Digits` | src/city.cpp:126-129 | the hash of user 1001 is 0x16697324f265cb |
| `CityValues.HashOf10Digits` | src/city.cpp:121-125 | the hash of user 1000000001 is 0xf6de7ac177232cb6 |
| `CityValues.HashOf17Digits` | src/city.cpp:143-150 | the hash of user 10000000000000001 is 0xffd9ab2534499ec0 |
| `CityValues.HashOf19Digits` | src/city.cpp:143-150 | the hash of user 9223372036854775807 is 0xcc771c7b2f966f35 |
| `CityBuffer.Buffer.HashLen0to16` | src/city.cpp:120-139 | value, every fetch in the buffer, exactly the bytes of the key read |
| `CityBuffer.Buffer.CityHash64` | src/city.cpp:200-236 | the same for every length; the values of decimal user ids of every length class up to 19 digits are in CityValues, what longer keys cannot lose in CityCollisions |
| `CityBuffer.Buffer.CityMurmur` | src/city.cpp:249-277 | the same, with the loop in rounds of 16 bytes |
| `CityBuffer.Buffer.CityHash128WithSeed` | src/city.cpp:279-336 | the same, with the unrolled loop and the tail blocks that step back |
| `CityBuffer.Buffer.CityHash128` | src/city.cpp:338-352 | the same, with the call that gets no buffer |
| `CityBuffer.LeadsToFold` | src/city.cpp:222-233 | a loop over given chunks leads to one state only, the one the specification names |

## Left out

- The guards on the number of KEYS and an odd number of ARGV: they only return an error.
- SessionScripts.SessionStore.Syn: client types are decimal integers and time is counted in whole seconds, so that a TTL is exact; the order of HKEYS and of equal scores is arbitrary.
- SessionHistory.RunInv: user ids have no dot, and the gate that a call writes is not empty. The first holds because callers send decimal ids; the second is an assumption about gates and clients.
- LuaNumber.LuaInt: tonumber is modelled on decimal integers with an optional sign; blanks, fractions, exponents and hexadecimal are not. Rounding is to the nearest double, ties to the even one, without the overflow beyond 2^1024; what does not fit a long long becomes the least one, as on x86-64.
- OnlineReply.OneUidSession: HGETALL is a map, so its list is always even; a field name with a zero byte, which the C string cuts short, is not modelled.
- OnlineReply.TimeoutPairs: this, like `OnlineReply.MultiSessions`, reads the reply of one Redis; the loop that joins those of all is not modelled.
- RingRuns.StepKeepsInv: hiredis answers each accepted send at most once, fewer than 1,000,000 requests are issued while an earlier one is outstanding, and user callbacks do not call back into RedisEvent; `RingRuns.SlotReusedExactly` says why the window is exact.
- RequestRing.RedisEvent.Cmd: the retry with EVAL after a NOSCRIPT error is not modelled.
- RequestRing.RedisEvent.RedisCmdAsyncCb: replies are opaque values; each address answers once, so inserting a reply and overwriting it are the same. Stamps are real numbers.
- PassLock.OneWriter: that ZooKeeper removes the node with the session, and refuses operations of an ended one, are postulates; SLAVEOF commands go to Redis and are not covered.
- SyncWait.NoLostWakeup: the condition variable has no spurious wake-ups.
- RedisCtrl.RedisCtrl.Check: that no one else writes during the pass is a premise here; `PassLock.OneWriter` is why it holds among controllers. The five root nodes, which init_path_check creates if they are missing, are a premise too. Node names are sequence nodes or names that cut_idx rejects. A sequence number that overflows 32 bits counts as a failed operation.
- RedisCtrl.RedisCtrl.CheckRedis: which endpoints reply to which attempt, and what, is a parameter; the timeouts and sleeps between attempts are not modelled. A port that does not fit an int is read as the number it spells.
- Slaveof.ConfigAfter: what CONFIG GET slaveof says after a SLAVEOF command is a postulate about Redis.
- CtrlGoals.FixedPoint: that a Redis which acknowledged SLAVEOF acts on it, and that health stays the same, are premises.
- Ipv4.NumberRoundTrip: inet_addr is modelled on four decimal numbers without leading zeros; its octal, hexadecimal and shorter forms are not, and the machine is little-endian.
- RedisHash.RedisHash.SlaveFirst: rand() is a parameter; the reader-writer lock around the fields is not modelled.
- CityBuffer.Buffer.CityHash64: words are loaded in little-endian order; the big-endian variant is not modelled.
- CityValues.HashOf17Digits: of the keys of 17 to 32 bytes this value and that of 19 digits are worked out, and `CityCollisions.MiddleShows` speaks of 24 to 32 bytes; for 17 to 23 bytes, where each byte goes into both words that are mixed last or into two windows, no absence of collisions is claimed.
- CityHash from line 354 on (the SSE CRC variants), and any claim about the quality of the hash.
- hiredis, libev, connection setup and the real ZooKeeper client: they appear as replies, ticks and operations that may fail.
- Protobuf handlers, LogicCore dispatch, hooks, logging, script loading and call statistics.
- `script/upidx2.lua`, `script/get_session_info.lua` and `script/get_session_ope.lua`: not loaded, or plain reads.
