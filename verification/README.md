# Verification of the location-gated chat server

This project models the stateful, time-driven core of the chat backend in Dafny and proves what
it promises its users. Five components are covered.

* **Rate limiting.** One key's deque and its checks (`SlidingWindow`), the Redis sorted-set script
  (`RedisWindow`), the limiter objects with their failover (`RateLimit`), what their replies promise a
  caller (`RetryReply`), a whole cluster of them under any schedule of Redis failures (`Failover`), and
  the budget that a user's room and private messages share over all processes (`SendBudget`).
* **Realtime sockets.** Freshness and the geofence hysteresis (`Location`), the gates of the REST
  paths (`Sessions`), the two socket loops as state machines with the objects that run them
  (`RoomSocket`, `DmSocket`), and what their replies say about a session so far (`RoomReplies`,
  `DmReplies`).
* **Fan-out.** One process's registry and delivery loop (`Registry`), and the cluster protocol of
  registries, an ordered bus, serial listeners and local fallback (`FanOut`), with where a socket's
  broadcasts begin and end (`FanOutRun`).
* **The ephemeral message store.** Tables, constraints, cascades and transactions (`Store`), the
  invariant every transaction keeps (`StoreInvariant`), the read queries (`Reads`), the purges
  (`Cleanup`), what readers can tell of them (`Invisible`), whole runs (`StoreRun`), the lists, photos,
  sweeps and unnoticed cleanups such runs lead to (`ListRun`, `PhotoRun`, `ActivityRun`, `Unnoticed`),
  the services statement by statement
  (`StoreService`), and the race of two callers opening one chat (`Pairing`).
* **The settings cache**, with misses that read and fill in separate steps (`SettingsCache`), and how
  soon a lowered message limit takes hold through it (`LimitChange`).

Conventions shared by the modules:

* Time is an integer number of ticks. The socket and limiter modules take the number of ticks per
  second as a parameter, so no clock resolution is ruled out; the store counts microseconds.
* Clock readings, fresh identifiers, received frames and the outcome of every Redis call come from
  outside as parameters, and so are universally quantified in each theorem.
* `Fault`, `Failed` and `Raised` stand for the exception `ratelimit.py:51` raises when the limit is
  zero or less and the deque is empty. Lines 53-54 of that file can never be reached, because line
  51 has already read the oldest hit.
* `Failover` reads the shared sorted set through the deque's verdict and all clocks as one;
  `Failover.ChargeIsOutcome` shows that under that clock the limiter objects, script and all, do just
  what it says.
* Classes carry the fields the source mutates. Each method is proved against a function of the old
  state, and the theorems are about that function.

Where the code and what is said about it differ, the model follows the code:

* `dm.py:107-108` promises one budget per user across room and private messages. When
  Redis fails, each process adds a budget of its own; `SendBudget.OneBudgetPerUserExactly` says
  exactly when the promise holds, and `SendBudget.SharedBudget` what holds always.
* `ratelimit.py:40-42` promises that a slot frees up after the reported seconds. That fails when the
  limit is lowered, before the report or after it: `SlidingWindow.RetryTooShortAfterLimitDrop` and
  `SlidingWindow.RetryTooShortBeforeLimitDrop` are such runs. For the seconds either backend reports
  and any limit in force at the retry, `SlidingWindow.RetrySufficesExactly` says exactly when the
  promise holds.
* `location.py:73-74` says a user is removed after the grace window outside. With a grace of zero or
  less the first outside fix only warns; `Location.RuleNeedsPositiveGrace` is the exact condition,
  and `RoomSocket.DepartureBoundExactly` the one for the bound the socket then keeps or loses.
* `realtime.py:12-13` says a message is never delivered both ways. `FanOut.NeverTwiceExactly` shows
  that this holds exactly as long as no publish reaches the bus and raises all the same.
* `settings_repo.py:3-4` offers `invalidate` to make an update visible. A call that missed earlier
  can put the old value back; `SettingsCache.InvalidateWorksExactly` says exactly from which states,
  and `SettingsCache.InvalidateReliableExactly` that some run from the empty cache leads to one.
* `cleanup.py:10-14` says only message rows go by expiration. A pass also reaps idle connections and
  rooms, and with them messages that are still shown, if those are kept for a shorter time than
  messages; the three retention settings are independent. `Unnoticed.InvisibleExactly` is the exact
  condition under which no reader can tell that a pass ran.

## Model

| member | source | states |
|---|---|---|
| SlidingWindow.DequeIsWindowOfLog | backend/app/core/ratelimit.py:44-57 | after any run of checks, with any limits, the deque is exactly the admitted history inside the window ending at the last check: lazy trimming refines the untrimmed log |
| SlidingWindow.NextLive | backend/app/core/ratelimit.py:44-48 | what the next check finds after trimming is the window of the full history ending then |
| SlidingWindow.VerdictByHistory | backend/app/core/ratelimit.py:50-58 | admitted if and only if fewer than `limit` hits were admitted in the window ending now; the exception occurs exactly for a limit of at most zero and an empty window; a rejection's remainder is positive and at most the window |
| SlidingWindow.WindowBound | backend/app/core/ratelimit.py:37-58 | with all limits at most L, no window (t-W, t] anywhere holds more than L admissions |
| SlidingWindow.GreedyIsOptimal | backend/app/core/ratelimit.py:37-58 | with a constant limit the limiter admits at least as many attempts as any selection of them that respects the window bound, and its k-th admission is never later than the selection's |
| SlidingWindow.RetryIsExact | backend/app/core/ratelimit.py:50-55 | with a constant limit and nothing admitted since a rejection, the next attempt is admitted if and only if it comes at or after the remainder reported then |
| SlidingWindow.RejectedIsFull | backend/app/core/ratelimit.py:50-51 | a rejecting deque holds exactly `limit` hits and the remainder counts down to the oldest |
| SlidingWindow.RetryUnderAnyLimit | backend/app/core/ratelimit.py:50-55 | under changing limits the slot frees exactly when the limit-th newest hit ages out |
| SlidingWindow.RetrySufficesExactly | backend/app/core/ratelimit.py:40-55 | for the whole seconds either backend reports and for every limit the caller may meet when it comes back: all attempts from then on with that limit are admitted, nothing being admitted in between, if and only if the limit exceeds the number of hits found, or is positive and the limit-th newest of them has aged out by then |
| SlidingWindow.RetryTooShortAfterLimitDrop | backend/app/core/ratelimit.py:40-42 | a concrete run in which a caller rejected after the limit was lowered waits the reported seconds and is rejected again |
| SlidingWindow.RetryTooShortBeforeLimitDrop | backend/app/core/ratelimit.py:40-42 | a concrete run in which the limit is lowered after the report, and the caller is rejected again |
| SlidingWindow.LateBound | backend/app/core/ratelimit.py:37-58 | if every check after some time has a limit of at most L, no window wholly after it holds more than L admissions, whatever came before |
| SlidingWindow.RetryRounding | backend/app/core/ratelimit.py:120-126 | the in-process seconds strictly exceed the remainder, the Redis seconds cover it, each by at most one second, and they differ, by one, exactly when the remainder is a whole number of seconds |
| SlidingWindow.RetrySecondsSuffice | backend/app/core/ratelimit.py:55-58 | waiting the seconds either backend reports is sufficient; coming a second earlier than the in-process figure, or before that, is not |
| RedisWindow.ExpiryIsTrim | backend/app/core/ratelimit.py:80-87 | letting the key expire one window after the last add never loses a hit that trimming would have kept |
| RedisWindow.SetIsDeque | backend/app/core/ratelimit.py:71-89 | for every run the sorted set and the deque hold the same hits, whichever due expiries were carried out |
| RedisWindow.SameDecisions | backend/app/core/ratelimit.py:71-89 | script and deque make identical decisions, with the same remainder, on the same timestamps, for all runs |
| RedisWindow.ExpiresAfterLastHit | backend/app/core/ratelimit.py:80-89 | over every run of executions a stored key holds something and expires a full window after the last hit it admitted; rejections do not put that off |
| RateLimit.SlidingWindowLimiter.PopExpired | backend/app/core/ratelimit.py:47-48 | the trimming loop drops a prefix, nothing past the cutoff, and leaves nothing up to it |
| RateLimit.SlidingWindowLimiter.Check | backend/app/core/ratelimit.py:37-58 | every key's caller gets the verdict its own history calls for, exactly that check is recorded, and other keys are left alone |
| RateLimit.SlidingWindowLimiter.Reset | backend/app/core/ratelimit.py:60-65 | forgets one key's history, or all of them, and nothing else |
| RateLimit.RedisServer.Eval | backend/app/core/ratelimit.py:71-89 | one execution of the script: the stored key is always what its run of executions leaves |
| RateLimit.MessageRateLimiter.Check | backend/app/core/ratelimit.py:110-126 | Redis decides when it answers and then the in-process history is untouched; otherwise the in-process limiter decides, also when the script ran and its answer was lost, in which case both histories grow; other keys are left alone; what its replies are worth is the subject of the next five rows |
| RetryReply.RedisReplyIsHonest | backend/app/core/ratelimit.py:110-120 | a caller whose reply from Redis was `s` seconds, 1 <= s <= window, is allowed at every time from its check plus s seconds on, and at none up to a second before that, the limit being constant and nothing admitted since |
| RetryReply.LocalReplyIsHonest | backend/app/core/ratelimit.py:40-58 | the same for the in-process reply, where s may be one second more than the window |
| RetryReply.ToldSeconds | backend/app/core/ratelimit.py:50-126 | under any limits a rejected caller is told at least one second, by Redis at most the window, in process at most one more |
| RetryReply.SendEnds | backend/app/api/rooms.py:97-104 | a send past its gate is accepted exactly when the limiter allows it, fails exactly when the in-process limiter decides with a limit of at most zero and an empty window, and is otherwise rate limited with the limiter's seconds |
| RetryReply.RetryAfterIsHonest | backend/app/api/rooms.py:97-104 | a sender who is told `retry_after` and waits it gets in, and one who comes more than a second too early does not, by either backend, the limit being constant and nothing admitted in between |
| RateLimit.ChargeRecords | backend/app/core/ratelimit.py:110-126 | an allowed check is exactly one hit in the history that decided it, a refused one none there; the other history stands, except that a lost reply may have taken one shared slot |
| Failover.FailoverBound | backend/app/core/ratelimit.py:110-126 | N instances together allow one key at most (N+1)*L times in any window, under every schedule of failures, lost replies included |
| Failover.AllowedAreRecorded | backend/app/core/ratelimit.py:110-126 | every allowed check is a hit in the shared history or in one instance's own |
| Failover.FailoverBoundIsTight | backend/app/core/ratelimit.py:110-126 | for every N and L some schedule of failures reaches (N+1)*L at one instant |
| Failover.HealthyBound | backend/app/core/ratelimit.py:110-120 | while Redis answers, the limit is one budget for the whole cluster |
| Failover.LocalBound | backend/app/core/ratelimit.py:121-126 | while Redis answers nothing, each process has a budget of its own: with one process the limit itself |
| Failover.OneBudgetExactly | backend/app/core/ratelimit.py:110-126 | the limit is never exceeded cluster-wide if and only if Redis answers every check, or answers none and there is one process |
| Failover.ChargeIsOutcome | backend/app/core/ratelimit.py:110-126 | a check of the limiter object, script and all, is allowed exactly when the cluster model allows it, and leaves the histories the model says |
| SendBudget.SharedBudget | backend/app/api/dm.py:106-113 | over rooms and private messages, REST and socket, text and photo, N processes and every schedule of Redis failures, no window holds the admissions of more than (N+1)*L persisted messages of a user; a message counts when it was let through, which on the REST paths is after its transaction, and so its `sent_at`, began |
| SendBudget.SharedBudgetIsTight | backend/app/api/dm.py:106-113 | and some schedule reaches that at one instant |
| SendBudget.SharedBudgetHealthy | backend/app/api/dm.py:106-113 | while Redis answers every charged check the bound is L for the whole cluster |
| SendBudget.SharedBudgetLocal | backend/app/api/dm.py:106-113 | while Redis answers none it is N*L: L on a single server without Redis |
| SendBudget.OneBudgetPerUserExactly | backend/app/api/dm.py:106-113 | the documented single budget holds if and only if Redis answers every check, or answers none and there is one process |
| SendBudget.PersistedAreAdmitted | backend/app/api/rooms.py:206-282 | no window holds more persisted messages than checks the deployed limiters allowed; a photo whose body turns out unusable costs one and stores nothing |
| SendBudget.PersistedExactly | backend/app/api/rooms.py:206-282 | the messages persisted in a window are, in number, exactly the posts in it that were admitted and met their surface's conditions: a fresh fix for a room, also inside the area for a photo, also a recipient located there for a private message, a usable image for a photo, nothing for the first message of a new room |
| SendBudget.SendIsPost | backend/app/api/dm.py:266-334 | a post of that model is one gated send through its instance's limiter object: accepted and charged in the same cases |
| Sessions.SendAdmitsOnce | backend/app/api/rooms.py:97-104 | a send the gate refuses is not charged; an accepted one is exactly one hit in the history that decided it, Redis or in-process, and a rate-limited one none there |
| Sessions.CheckSendRate | backend/app/api/rooms.py:97-104 | one send asks the user's own key of the shared limiter, Redis first: the verdict its histories call for, one more check in them, and every other user's histories untouched |
| Sessions.CleanIsEmpty | backend/app/api/rooms.py:476-478 | a text is dropped if and only if it holds nothing but white space in the sense of `str.isspace`, and what is sent is never over 2000 characters |
| Sessions.CleanIsStripped | backend/app/api/rooms.py:476-478 | what is sent is what lies between the white space at both ends, or its first 2000 characters |
| Sessions.CoerceExactly | backend/app/api/rooms.py:339-348 | a frame reports a position if and only if both coordinates are numbers within [-90, 90] and [-180, 180], and then that one |
| Sessions.GatesExactly | backend/app/api/dm.py:281-326 | the room, room photo and private gates on the same rows: without the room all say so; then a user with a missing or old fix is refused as stale by all three; from outside only a room text passes; and a private message also needs a recipient located inside |
| Location.RemovalExactly | backend/app/services/location.py:82-91 | for every trace the last fix removes if and only if it is not the first of the trailing run of outside fixes and that run began at least the grace ago |
| Location.RuleNeedsPositiveGrace | backend/app/services/location.py:72-76 | removal exactly when the trailing outside run began at least the grace ago, as documented, holds for all traces if and only if the grace is positive |
| Location.SinceIsRunStart | backend/app/services/location.py:80-91 | the tracker's clock is always the start of the maximal trailing run of outside fixes |
| Location.RemovedHasNoTimeLeft | backend/app/services/location.py:93-98 | a removal leaves zero seconds remaining |
| Location.WarnedIsThenRemoved | backend/app/services/location.py:82-98 | after a warning, whatever outside fixes come in between, an outside fix at least one second past the reported remainder is a removal, and one before it is not |
| Location.GeofenceTracker.Observe | backend/app/services/location.py:82-91 | the answer is the one the whole trace of fixes calls for |
| RoomSocket.MirrorIsRow | backend/app/api/rooms.py:394-397 | over every run of frames the in-process timestamp equals the stored one |
| RoomSocket.MessageMatchesRest | backend/app/api/rooms.py:473-509 | a non-blank message gets the verdict, and leaves the limiter, that the REST path evaluated on the stored row would; exactly while the room exists; what that verdict is, is the next row |
| RoomReplies.MessageByHistory | backend/app/api/rooms.py:473-509 | over every run from a connect: a non-blank message on the open socket is refused as stale, and nothing is charged, if and only if the user's last fix, in the session or before it, is missing or older than the freshness window; any other gets the limiter's verdict |
| RoomReplies.JunkIsHarmless | backend/app/api/rooms.py:411-478 | a location frame is refused exactly if it reports no valid position, frames of other types and blank texts are passed over, and none of them changes anything |
| RoomReplies.ClosesExactly | backend/app/api/rooms.py:410-519 | the socket is open until a removal, a frame that handling raises on, or a send that fails; stale or rate-limited users stay connected |
| RoomSocket.NoMessageAfterDeparture | backend/app/api/rooms.py:410-509 | with positive grace, once the trailing run of outside fixes begins at t0, no message is accepted at or after t0 + grace + freshness, although outside fixes keep refreshing the mirror |
| RoomSocket.DepartureBoundIsTight | backend/app/api/rooms.py:410-509 | for every positive grace and every nonnegative freshness a message is still accepted one tick earlier |
| RoomSocket.DepartureBoundExactly | backend/app/api/rooms.py:410-509 | the departure bound holds over all sessions if and only if the grace is positive or the freshness window lets no message through, given a position outside the area |
| RoomSocket.NoGraceBreaksBound | backend/app/api/rooms.py:410-509 | for every grace of at most zero and every nonnegative freshness window some session breaks the bound |
| RoomSocket.EjectedExactly | backend/app/api/rooms.py:415-471 | over every run of frames, a valid fix on an open socket ejects if and only if it is outside, not the first of the trailing run of outside fixes, and that run began at least the grace ago; it is acknowledged if and only if it is inside, and warned on otherwise; bad fixes, messages and junk do not count |
| RoomSocket.WarningIsHonest | backend/app/api/rooms.py:447-468 | whatever comes after a warning except an inside fix, and while the user is still connected, an outside fix one second past the figure sent with it, or later, ejects, and one before that figure does not |
| RoomSocket.RemovalIsFinal | backend/app/api/rooms.py:460-470 | no frame is handled after a removal, and none changes the row or the budget |
| RoomSocket.Session.Serve | backend/app/api/rooms.py:410-519 | the loop answers each frame as the state machine does, in order, stops at a removal or an exception, a broken frame included, and closes with 4403 exactly after a removal |
| DmSocket.MessageMatchesGate | backend/app/api/dm.py:266-334 | for every run from connect, stale or fresh, and every non-blank message, the socket's verdict and its effect on the limiter are those of the two-sided gate on the stored rows; exactly while the room exists |
| DmReplies.MessageByHistory | backend/app/api/dm.py:599-664 | over every run from a connect: a non-blank message is refused as stale if and only if the user's last fix is missing or too old, else as out of range if and only if that fix is outside, else as unanswerable if and only if the peer's current row is missing, old or outside, and a refusal changes nothing; any other gets the limiter's verdict |
| DmReplies.FixReplyExactly | backend/app/api/dm.py:528-597 | over every run from a connect, a valid fix on the open socket is acknowledged if and only if it is inside, answered with an exit if and only if it is outside, not the first of the trailing run of outside fixes, and that run began at least the grace ago, and with a warning otherwise; the socket stays open in each case |
| DmReplies.WarningIsHonest | backend/app/api/dm.py:567-597 | as in rooms: one second past the figure of a warning an outside fix is answered with an exit, before the figure with a warning, whatever came between except an inside fix |
| DmReplies.JunkIsHarmless | backend/app/api/dm.py:528-604 | a location frame is refused exactly if it reports no valid position, frames of other types and blank texts are passed over, and none of them changes anything |
| DmReplies.ClosesExactly | backend/app/api/dm.py:524-669 | the socket is open until a frame that handling raises on or a send that fails |
| DmSocket.RunMirrors | backend/app/api/dm.py:488-571 | the mirrored timestamp equals the stored one, and while the fix is fresh the presence flag says whether the stored position is in the area |
| DmSocket.BroadcastsAlternate | backend/app/api/dm.py:493-586 | own-presence broadcasts start with true, strictly alternate, and end at the current flag; a running outside clock means the flag is down |
| DmSocket.RemovalIsSilent | backend/app/api/dm.py:583-597 | the broadcast in the removal branch never fires, and removal leaves the socket open |
| DmSocket.NoMessageWhileOutside | backend/app/api/dm.py:552-625 | after an outside fix no message is accepted until a later fix is inside; there is no grace as in rooms |
| DmSocket.ActivityCoversMessage | backend/app/api/dm.py:482-664 | the activity clock a session leaves on its connection is never older than any message it got accepted |
| DmReplies.ActivityIsLast | backend/app/api/dm.py:482-664 | the activity clock is the time of the last accepted message or return into the area, and of the connect if there was neither |
| DmSocket.DisconnectPresence | backend/app/api/dm.py:670-688 | the presence announced on disconnect is the socket's own flag while the fix is fresh and false afterwards |
| DmSocket.Session.Serve | backend/app/api/dm.py:524-688 | the loop answers each frame as the state machine does, in order, and ends with the presence the stored row shows |
| Registry.JoinThenLeave | backend/app/realtime.py:87-97 | connecting and disconnecting a socket restores the registry, empty rooms included |
| Registry.RoomManager.Disconnect | backend/app/realtime.py:91-97 | removes the socket, and its room with the last socket; an unknown socket or room changes nothing |
| Registry.RoomManager.Count | backend/app/realtime.py:99-100 | the number of sockets in the room, zero for an unknown one |
| Registry.RoomManager.DeliverLocal | backend/app/realtime.py:123-132 | every live socket of the room receives the payload once, nobody else anything, and exactly the failed sockets leave |
| FanOut.DeliversTheSegment | backend/app/realtime.py:87-152 | under every interleaving of publishes, listener steps, single sends, connects, disconnects and deaths, a connected live socket has received exactly its channel's bus positions from its join point to where its instance has served it, in order, none twice; the next two rows say where that point is |
| FanOutRun.NothingFromBeforeStart | backend/app/realtime.py:54-66 | whatever happens later, no socket of an instance ever receives a broadcast that was published before that instance subscribed |
| FanOutRun.ServedFromConnect | backend/app/realtime.py:87-152 | a socket never receives a position its instance had begun to deliver when it connected, and from an idle instance that had delivered everything only what was published later; while connected and alive it receives of all later ones that its instance has served exactly those of its room |
| FanOutRun.OnlyWhatWasUnderWay | backend/app/realtime.py:91-132 | after its disconnect a socket is out of the registry for good and is sent at most what was already under way to it: one bus position, and fallback broadcasts made before |
| FanOutRun.DeadAreDropped | backend/app/realtime.py:123-132 | a dead socket is out of the registry once its instance has finished the next delivery to its room |
| FanOutRun.DeadAreDroppedByFallback | backend/app/realtime.py:116-132 | and likewise once the fallback delivery of a broadcast to its room has ended |
| FanOutRun.LiveUntilDisconnect | backend/app/realtime.py:87-132 | nobody else is dropped: a socket that is alive is registered from its connect until its disconnect |
| FanOutRun.NeverStuck | backend/app/realtime.py:134-152 | in every reachable state, a listener with anything left to deliver has a step it can take |
| FanOut.StepKeepsInv | backend/app/realtime.py:87-152 | every step of the protocol keeps the delivery invariant |
| FanOut.BusAtMostOnce | backend/app/realtime.py:123-152 | every socket, dead or disconnected ones included, has received over the bus only its channel's positions, in bus order, none twice |
| FanOut.FallbackAtMostOnce | backend/app/realtime.py:116-121 | a payload sent by fallback reaches a socket at most once, and only in its room on the originating instance |
| FanOut.FallbackCompletes | backend/app/realtime.py:116-132 | once the local delivery of a broadcast whose publish raised is over, every socket that was in the room on its instance when it was made, and is still alive, has received it |
| FanOut.NeverBothPaths | backend/app/realtime.py:110-121 | both paths deliver the same broadcast to a socket, connected or gone, only if its publish took effect and raised |
| FanOut.LostReplyDuplicates | backend/app/realtime.py:110-121 | and then they can: a run in which a connected socket has a broadcast twice |
| FanOut.NeverTwiceExactly | backend/app/realtime.py:12-13 | for every set of publish outcomes: no run with these outcomes ever gives any socket a broadcast twice, over the bus, by fallback or by both, if and only if a lost reply is not among them |
| Pairing.PairIsUnordered | backend/app/services/dm.py:26-31 | two callers resolve to the same pair if and only if they name the same two users |
| Pairing.PairIsCanonical | backend/app/services/dm.py:26-39 | the pair is ordered, exactly its two users participate, and the other's other is oneself |
| Pairing.OneConnectionPerPair | backend/app/services/dm.py:50-69 | under any interleaving of insert-or-ignore and select steps of any number of callers, no call is left without a row, and two calls get the same row if and only if they name the same two users |
| StoreInvariant.SendTextKeeps | backend/app/services/rooms.py:195-205 | inserting a text and bumping the clock keeps every constraint and leaves no message newer than its parent's activity clock |
| StoreInvariant.SendPhotoKeeps | backend/app/services/photos.py:34-90 | a photo send keeps the store in order: one photo exactly on each photo message, one owner on each photo |
| StoreInvariant.MarkReadKeeps | backend/app/services/dm.py:161-175 | marking read keeps the store in order |
| StoreInvariant.OpenPairKeeps | backend/app/models/nearby_connection.py:57-64 | opening a chat keeps pairs canonical and unique |
| StoreInvariant.DeleteParentsKeeps | backend/app/models/message_photo.py:43-71 | deleting rooms or connections with their cascades leaves no orphan message and no photo without its one owner |
| StoreInvariant.DeleteMsgsKeeps | backend/app/models/message_photo.py:43-71 | deleting messages with the cascade to photos leaves every constraint intact |
| StoreRun.RunKeeps | backend/app/services/dm.py:104-130 | over any run from the empty store of sends, photos, reads, openings and cleanups, all constraints hold and no message is newer than the clock that decides whether its parent is swept |
| StoreRun.UnreadIsPending | backend/app/services/dm.py:133-175 | over any run, a viewer's unread count is the number of unexpired messages the peer sent since the viewer's last `mark_read`; the run may hold any cleanups whose message and connection cutoffs are no later than the reader's, with rooms swept in any way |
| StoreRun.ReadIsPrivate | backend/app/services/dm.py:161-175 | one participant's read never changes the other's count, nor any count of another connection |
| ListRun.ListIsPosted | backend/app/services/dm.py:178-206 | over any run whose cleanups use no later cutoff than the reader's on that side, private or room, a list is exactly the last `limit` unexpired sends to it that were carried out, in event order, each with its sender, time and text or photo |
| StoreRun.SentIsListedLast | backend/app/services/dm.py:116-206 | a text or photo just sent is the last row of the next list, with its sender, time, text and photo |
| PhotoRun.ServedExactly | backend/app/services/photos.py:93-125 | round trip over every run of sends, reads and cleanups: a token is answered with these bytes of this type if and only if some unexpired upload sent exactly those under it, in a room, or in a connection whose two participants include the viewer; cleanups may use any cutoff no later than the reader's on the side the photo was sent on |
| PhotoRun.UploadIsServed | backend/app/services/photos.py:93-125 | every unexpired upload stays served as it was sent, whatever was sent, read or cleaned up since, and to nobody but those who could use its room or connection then |
| PhotoRun.ServedWasUploaded | backend/app/services/photos.py:93-125 | nothing else is ever served, under any cleanups |
| StoreRun.SentPhotoIsServed | backend/app/services/photos.py:93-125 | one step of it: right after its upload a photo is served with its own bytes and type, in a room to anyone and in a connection to its two participants, unless it has expired, and to nobody else |
| Reads.ListIsLatest | backend/app/services/dm.py:178-206 | a list is exactly the last `limit` live messages, ascending by (sent_at, id), each once, with its photo exactly when it is a photo message |
| Reads.OneRowEach | backend/app/services/rooms.py:174-191 | the joins give one row per message: the sender exists and there is at most one photo |
| Reads.ListMessages | backend/app/services/rooms.py:190-192 | the in-place reversal returns the query's rows oldest first |
| Cleanup.CleanupKeeps | backend/app/services/cleanup.py:149-184 | a pass leaves exactly the parents active since their cutoff, the messages of those sent since theirs, and the photos of those |
| Cleanup.CleanupIsConfluent | backend/app/services/cleanup.py:149-184 | with no writes between, cleanup at one time and again later leaves the store that the later one alone leaves |
| Cleanup.PurgeOrderIsIrrelevant | backend/app/services/cleanup.py:91-146 | neither the order of the purges nor repeating them changes the store that is left |
| Cleanup.CleanupAccounts | backend/app/services/cleanup.py:79-108 | in the connection, room and both message tables, rows before are rows after, plus rows counted, plus messages removed by cascade |
| Cleanup.PhotosAccount | backend/app/models/message_photo.py:43-71 | in the photo table, rows before are rows after plus one for each photo message that went |
| StoreInvariant.PhotosAreMessages | backend/app/models/message_photo.py:43-71 | a store in order has exactly as many photos as photo messages |
| Cleanup.CleanupKeepsOrder | backend/app/models/message_photo.py:43-71 | a pass keeps every constraint, and a photo is left if and only if its message is |
| ActivityRun.ActivityIsLastUse | backend/app/services/cleanup.py:111-146 | over every run the activity clock of a room or connection shows the last message or photo sent to it or return into range, or, if there was none, its creation |
| ActivityRun.SweptExactly | backend/app/services/cleanup.py:111-146 | after every run a pass removes a connection, or a room if rooms are swept, if and only if that last use is more than the configured days ago |
| ActivityRun.MessageSweptExactly | backend/app/services/cleanup.py:91-108 | and a message if and only if it is more than the configured hours old or its room or connection goes |
| Invisible.CleanupIsInvisible | backend/app/services/cleanup.py:149-184 | if connections and swept rooms are kept at least as long as messages, every list, unread count and photo a reader gets, then or later, is the same whether the pass ran or not |
| Unnoticed.InvisibleExactly | backend/app/services/cleanup.py:149-184 | that condition is necessary as well: after every run of the services a cleanup goes unnoticed, if and only if it holds, or retention is negative and nothing is ever shown |
| Unnoticed.UnnoticedOnSideExactly | backend/app/services/cleanup.py:149-184 | for one pass and one reader: after every run, no private list or count, or no room list, changes if and only if no cutoff the pass uses on that side is later than the reader's, or the reader's lies in the future |
| StoreService.Database.CreateMessage | backend/app/services/dm.py:116-130 | insert and bump in one transaction, or nothing |
| StoreService.Database.CreatePhotoMessage | backend/app/services/photos.py:34-90 | message, photo and bump in one transaction, or nothing |
| StoreService.Database.GetOrCreateConnection | backend/app/services/dm.py:50-69 | returns the one row of the two users, whichever way round they are given |
| StoreService.Database.MarkConversationRead | backend/app/services/dm.py:161-175 | the viewer's count becomes zero and rows already read keep their first read time |
| StoreService.Database.TouchParent | backend/app/services/dm.py:104-113 | that activity clock shows now and every other what it showed; no row comes, goes or changes otherwise, a missing parent is no error, and a store in order stays in order |
| StoreService.Database.PurgeExpiredMessages | backend/app/services/cleanup.py:91-108 | deletes and counts exactly the messages older than the retention; a message exactly that old stays |
| StoreService.Database.PurgeInactiveRooms | backend/app/services/cleanup.py:111-128 | deletes and counts exactly the rooms idle since before the cutoff, an unused room measured from its creation |
| StoreService.Database.PurgeInactiveConnections | backend/app/services/cleanup.py:131-146 | deletes and counts exactly the connections idle since before the cutoff |
| StoreService.Database.RunCleanupPass | backend/app/services/cleanup.py:149-184 | the pass, its report, and the balance of rows before, after, reported and cascaded |
| SettingsCache.HitIsRecent | backend/app/core/settings_repo.py:28-37 | under every interleaving a hit returns a value the database, or the default, held less than one lifetime earlier |
| SettingsCache.MissIsCurrent | backend/app/core/settings_repo.py:34-37 | a miss returns a value held while the call was under way |
| SettingsCache.UpdateTakesHold | backend/app/core/settings_repo.py:28-37 | after an update that no other follows, every call that begins later, by at least one lifetime, is answered with the new value, by a hit or a miss, under every interleaving |
| LimitChange.LoweredLimitTakesHold | backend/app/api/dm.py:106-113 | after the message limit is changed to L and left alone, no window that lies wholly more than one cache lifetime and one lookup later holds more than L of a limiter's admissions for a key, under every interleaving of lookups, fills and invalidations |
| SettingsCache.InvalidateWorksExactly | backend/app/core/settings_repo.py:40-44 | after an invalidation every later hit sees the current value or a newer one if and only if no call in flight has already read an outdated value still within its lifetime |
| SettingsCache.InvalidateReliableExactly | backend/app/core/settings_repo.py:3-4 | over all runs from the empty cache, an invalidation is always effective if and only if values have no lifetime at all |
| SettingsCache.SettingsRepo.Lookup | backend/app/core/settings_repo.py:28-34 | a hit returns a value held less than one lifetime before, over everything that has happened to the cache and the table; a miss leaves a call in flight that began now |
| SettingsCache.SettingsRepo.Fill | backend/app/core/settings_repo.py:34-37 | returns and caches a value held while the call was under way, for one lifetime from the miss, not from the read |
| SettingsCache.SettingsRepo.Drop | backend/app/core/settings_repo.py:40-44 | forgets the named key, or all, and no other; its later hits see the table as it is now or later if and only if no call in flight carries an outdated value |

## Left out

- Floating-point rounding of clock readings and of `math.ceil(retry_ms / 1000)`: times are integer ticks.
- Geometry: haversine, PostGIS `ST_DWithin` and geohash cells. A room's area is an arbitrary set of positions, one set for all of them, so the sphere and spheroid distances are taken to agree.
- Two clocks in one socket: the source reads the wall clock for freshness, the monotonic clock for the grace, and the database clock for the stored timestamp; here one clock reading serves a frame.
- A process restart, which forgets its deques: in the budget bounds a restarted process counts as one more instance.
- Redis losing its data: the shared key is taken to hold what its script executions left until it expires.
- Clock disagreement between instances: `Failover` uses one clock for the Redis server and all processes.
- Redis TIME is taken never to run backwards, and member UUIDs never to repeat. The order Redis gives entries of equal score is not modelled; no decision depends on it.
- The sockets' own calls into the registry, joining at connect and leaving at the end: `Registry` and `FanOut` treat joins and leaves as events of their own.
- Frames are atomic and this socket is the only writer of its user's row: several devices, logout and REST location refreshes during a session are not covered.
- Greeting frames at connect, and the token, room and participant checks before it.
- A room or connection deleted under an open socket: an accepted message then fails to be stored; the socket models stop at the verdict.
- FanOut.DeliversTheSegment: says nothing about how bus and fallback deliveries interleave on one socket, because the model records them in two sequences.
- A crashed listener, dropped non-JSON payloads and shutdown: they are listeners that take no further step, so safety holds and delivery is not promised.
- StoreRun.UnreadIsPending: a connection id is only ever opened with the viewer in the pair, which random UUIDs give; deleting users is not modelled.
- Overlapping transactions: `now()` is the transaction's start, so activity clocks are proved for serial transactions in time order.
- One room per geohash, members counts, display names, the connection list and the in-range dots.
- The cleanup scheduler and its advisory lock: confluence covers repeated passes.
- Authentication, profiles, avatars, image sanitizing, JSON, logging, migrations and the web client.
