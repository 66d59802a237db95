# A verified model of ntfy's stateful core

ntfy is a publish/subscribe server for push notifications. This Dafny project models the parts of it that carry
most of its state and branching, and proves what they are meant to guarantee, over all inputs and all runs; where
requests, tickers and background passes work on the same state at once, over the interleavings of their steps. It covers
seven components.

* **Access control** (`Text`, `Ordering`, `Wildcards`, `AccessTable`, `AccessSteps`, `AccessEffects`,
  `OwnerAccess`, `Provisioning`, `Manager`, `Reserving`). The access table maps (user, stored pattern) to a row. `Like`
  is SQLite's `LIKE ... ESCAPE '\'`, `FirstRow` the ordered query behind an authorization; `Answer` is the policy it is
  meant to implement, stated on patterns. `Step` is every operation on users, tiers and access rows, of the user manager
  and of the reservation handlers, as one step; `Reserving` takes the reservation handlers apart into their checks and
  their write. The class `Manager.Manager` has the tables as fields; its methods follow the code, are proved against
  those functions, and say besides, row by row and field by field, what they leave.
* **Action buttons in the simple format** (`ActionSyntax`, `ActionParser`, `ActionText`, `ActionPrinting`). The class
  `ActionParser.ActionParser` advances a position through the input as the code does, and is proved against functions
  on the text still to come. A printer, which the code does not have, gives the round trips; it writes sections with
  any white space that the format allows, and says for itself what white space, keys and separators are.
* **Message store, scheduled delivery and polling** (`MessageTable`, `MessageCache`, `Delivery`, `Polling`). The
  classes follow the statements of the code; `Delivery` and `Polling` are the state machines whose steps those
  statements are.
* **Batching queue** (`BatchingQueue`): the locked sections on an array that is reused, and the interleavings of
  producers, ticker and consumer.
* **Limiters and attachment cache** (`Limits`, `Uploads`): the objects, and uploads and removals that interleave.
* **Web push store, invites, social limiter** (`WebPushStore`, `Invites`, `SocialLimiter`).
* **Sizes** (`Sizes`): printing and reading sizes.

`dafny verify dfyconfig.toml` checks everything. The clock, new random ids, the outcome of a token bucket, the JSON
decoder's result, the pieces a reader delivers and the existence of a user at sending time are parameters or
nondeterministic choices. A database transaction is one atomic step, and a failed one leaves the tables as they were.

## Where the code and its promises differ

The models follow the code. For each promise that does not hold throughout, a theorem gives the exact condition, and a
lemma a case in which it fails.

* A topic is given to `LIKE` in escaped form when a reservation is checked for overlaps (user/manager.go:1785). The
  check is exact if and only if the topic has no underscore (`OverlapCheckExact`). With one, a grant of another user
  can survive the reservation (`NoForeignRowExactly`), and an older grant to the owner can outrank it, unless the
  topic consists of 64 underscores (`OwnerServedExactly`).
* "Longer" patterns are to come first (user/manager.go:1266). They are compared by the length of the stored form, in
  which every underscore counts twice, so this holds if and only if the topic has no underscore
  (`LongerFirstExactly`).
* Rows of equal length and equal write flag come in any order. That never affects writes; it affects reads exactly
  when the tied rows disagree (`WriteAnswerUnique`, `ReadAnswerUnique`), which is possible for every topic (`ReadOpen`).
* Others get exactly what a reservation lets everyone do if and only if the owner's reservations of topics that differ
  in case only agree with it or are outranked by it (`OthersGetEveryoneExactly`, `VariantLetsIn`).
* A reservation handler checks that the topic is free, then the count, and then writes, each as a statement of its own.
  Ownership is kept if and only if at most one handler at a time is under way for a topic (`OwnershipKeptExactly`); a
  write keeps it exactly if no other user has reserved the topic by then (`ReserveKeepsOwnedExactly`, `BothReserve`). A
  user's limit is kept if and only if at most one handler of that user is under way, and the user's role and tier are
  left alone meanwhile (`LimitKeptExactly`).
* Reserving a topic and then releasing it restores the table exactly if the user had no row for it and everyone had none
  (`ReserveThenRelease`), so never if it was reserved already (`ReserveAgainThenRelease`).
* Reservation limits are not checked when an admin becomes a regular user or a tier is redefined; in every run they hold
  if and only if the reservations fit at each of those moments (`RunKeepsUserLimit`, `DemotionKeepsLimits`,
  `DemotionExceeds`, `RedefinitionExceeds`).
* A configuration that lists one user with two roles or two passwords changes that user at every start
  (`ProvisionStableExactly`).
* A quoted value reads back if and only if it holds no NUL and does not end in a backslash (`QuotedSectionRoundTrip`).
* A message that is deferred because it is not due yet is never sent if it is stored only after it has become due
  (`DeferredSentExactly`); every message may be (`StoredTooLate`).
* A scheduled message that is replaced, or whose topic is deleted, is still sent if and only if the pass under way holds
  it (`CancelledSentExactly`).
* One scheduled message per sequence id is kept if and only if at most one publish request at a time is under way for
  it (`OneScheduledExactly`).
* The first poll that finds a message published returns it if and only if the message was due when it was inserted
  (`FirstPollReturnsExactly`).
* The batching queue delivers in order if and only if at most one batch is in flight at a time (`OrderKeptExactly`).
* A refused write takes its charge back from fixed limiters only. All refused writes on a list of limiters leave every
  one of them as it was if and only if no rate limiter is listed in front of another entry (`RestoredExactly`).
* The attachment cache keeps its limit if and only if at most one upload at a time is under way and none while a removal
  takes stock (`Uploads.LimitKeptExactly`): half-written files are counted by a removal and again when they are finished.
  If uploads go on between measuring the directory and setting the total, the size of the files has no bound at all
  (`Uploads.DiskBoundedExactly`). A removal that meets an invalid file id leaves the total as it was (`FileCache.Remove`).
* The per-address limit on web push endpoints is passed exactly by moving a known endpoint to a full address
  (`LimitPassedByMoving`, `LimitPassed`).
* An invite is used up by a request that fails behind its increment; a request fails exactly if its name is taken, its
  password cannot be hashed, or a topic of the invite is not a valid pattern (`FailuresUseUp`, `FailsExactly`,
  `WastedUse`).
* The social limiter keeps its intervals, although it forgets, if and only if they are no longer than 301 seconds
  (`AcceptedApartExactly`, `ForgettingHarmlessExactly`).
* The comment on `FormatSize` says that its output can be parsed again. The letter T is not one that `ParseSize`
  reads, so this fails from 2^40 on; from 2^50 on `FormatSize` runs past its unit letters; negative sizes are printed
  but refused (`FormatThenParse`, `FormatSize`, `NegativeRefused`).
* Polling since time stamp 1 returns nothing, because that value marks "no messages" (`MessageCache.Messages`).

## Model

| member | source | states |
|---|---|---|
| Wildcards.LikeIsGlob | user/manager.go:2161-2173 | For every text, LIKE on the stored form of a pattern matches exactly the instances of the pattern, with `*` as the only wildcard and ASCII case ignored |
| Wildcards.WildcardRoundTrip | user/manager.go:2161-2177 | Reading a stored pattern back gives the original, for exactly the patterns without `%` |
| Wildcards.StoredPatternsDistinct | user/manager.go:2161-2173 | Distinct patterns never share a stored row |
| Wildcards.StoredLength | user/manager.go:178 | The length by which rows are ordered is the pattern's length plus its number of underscores |
| Wildcards.EscapeLikeUnfold | user/manager.go:2614-2619 | The three successive replacements escape every character exactly once |
| Wildcards.SearchFindsSubstrings | user/manager.go:2622-2624 | A user search matches exactly the strings in which the query occurs, ASCII case ignored, whatever wildcards or escape characters the query holds |
| AccessTable.StoredTopic | user/manager.go:2171-2177 | An allowed topic is stored under a key from which it can be read back |
| AccessTable.EveryoneSortsLast | user/manager.go:178 | `*` is below every allowed username, so a user's own rows come before the rows of everyone |
| AccessTable.RowMeaning | user/manager.go:177-178 | Whether a row qualifies, and how it is ranked, in terms of the pattern it stands for |
| AccessTable.FirstRowDecides | user/manager.go:173-179 | The rows that the ordered query may return first are exactly the user's weightiest covering patterns, write-granting ones preferred, or those of everyone if the user has none |
| AccessTable.FirstRowExists | user/manager.go:173-179 | Some qualifying row comes first as soon as any qualifies |
| AccessTable.WriteAnswerUnique | user/manager.go:178 | The order of ties never changes whether a write is allowed |
| AccessTable.ReadAnswerUnique | user/manager.go:178 | The order of ties cannot change whether a read is allowed if and only if the tied rows agree on reading |
| OwnerAccess.ReadOpen | user/manager.go:178 | For every topic there is a table in which a read may be answered either way |
| AccessTable.ReserveKeepsOwned | user/manager.go:1853-1869 | Reserving a free topic keeps ownership: owned rows are their owner's, with full access, or everyone's, and all owned rows of a topic share the owner |
| AccessTable.ReserveKeepsOwnedExactly | user/manager.go:1853-1869 | Writing a reservation keeps ownership if and only if no other user has the topic reserved at that moment |
| AccessTable.BothReserve | user/manager.go:1781-1869 | A topic that is free for two users is lost to ownership when both write |
| AccessTable.OneReservationPerTopic | user/manager.go:233-238 | No topic is reserved by two users |
| AccessTable.ReserveThenRelease | user/manager.go:1851-1898 | Adding and then removing a reservation restores the whole table if and only if neither of its rows was there before |
| AccessTable.ReserveAgainThenRelease | user/manager.go:1851-1898 | For a topic that the user has reserved already it never does |
| AccessTable.OverlapCheckExact | user/manager.go:251-256 | The overlap check refuses a topic exactly when a row that the user does not own covers it, on every table, if and only if the topic has no underscore |
| AccessTable.OverlookedPattern | user/manager.go:1785 | For every topic with an underscore there is a wildcard that covers the topic but not its escaped form |
| AccessSteps.AccessShape | user/manager.go:257-268 | Every operation other than grants and reservations only deletes rows |
| AccessSteps.StepKeepsValid | user/manager.go:1781-1898 | Every operation keeps the keys, references, stored patterns and ownership of the tables |
| AccessSteps.RunKeepsOwnership | user/manager.go:207-256 | In every run no topic is reserved by two users and every owned row belongs to its owner or to everyone |
| AccessSteps.StepKeepsUserLimit | server/server_account.go:453-471 | Every operation keeps a user within the reservation limit if and only if, when it makes the user a regular one or redefines the user's tier, the reservations fit |
| AccessSteps.RunKeepsUserLimit | server/server_account.go:453-471 | In every state of a run a regular user holds at most as many reservations as the tier, as it is then defined, allows, if and only if they fit whenever the user is made a regular one or the tier is redefined |
| AccessSteps.RunKeepsLimits | server/server_account.go:453-471 | With roles and tier definitions fixed, in every run all regular users hold at most as many reservations as their tiers allow, none without a tier |
| AccessSteps.DemotionKeepsLimits | user/manager.go:1701-1725 | Making an admin a regular user keeps the limits if and only if the admin's reservations already fit |
| AccessSteps.DemotionExceeds | user/manager.go:1701-1725 | For every topic, a run in which an admin's reservation exceeds the limit after demotion |
| AccessSteps.RedefinitionExceeds | user/manager.go:1915-1920 | For every topic, a run in which redefining a tier leaves a user above the limit |
| AccessSteps.TrimOutcome | server/server_account.go:531-552 | When trimming does nothing, when it fails, and what it releases |
| AccessSteps.TrimKeepsFirst | server/server_account.go:531-546 | Trimming keeps exactly the first reservations in topic order, and leaves other users' reservations and other topics' rows alone |
| AccessSteps.TrimThenChangeTier | server/server_payments.go:441-466 | After trimming to a tier's limit the change to that tier cannot fail, nor can dropping the tier after trimming to none |
| AccessSteps.EscapingKeepsOrder | user/manager.go:213 | Ordering reservations by stored topic orders them by topic |
| AccessEffects.LongerFirstExactly | user/manager.go:1264-1268 | The longest of the covering patterns decides, in every table, if and only if the topic has no underscore |
| AccessEffects.GrantTakesEffect | user/manager.go:1806-1823 | A granted row decides the user's requests in the state that AllowAccess leaves, reading and writing as granted, wherever it outweighs the user's other patterns |
| AccessSteps.GrantStores | user/manager.go:1806-1823 | An accepted grant stores exactly the given permission, without an owner and not provisioned, in the row of the user and the stored pattern, and changes nothing else |
| AccessEffects.GrantThenReset | user/manager.go:1806-1848 | Granting a pattern and resetting it restores the whole state if and only if the user had, and owned, no row for it before |
| AccessEffects.ResetFallsBack | user/manager.go:1827-1848 | Once all access of a user is reset, every request of the user is answered as an anonymous one |
| AccessEffects.OwnerHasFullAccess | user/manager.go:1781-1869 | Once a topic without underscores is reserved, its owner may read and write it, whatever other rows, ties and defaults there are |
| OwnerAccess.OwnerServedExactly | user/manager.go:1781-1869 | For every topic: its owner may read and write it in every table if and only if it has no underscore or consists of 64 of them |
| OwnerAccess.OutrankingPattern | user/manager.go:251-256 | Every other topic with an underscore has a pattern that the overlap check does not see and that ranks no lower than the reservation |
| AccessEffects.OthersFollowEveryone | user/manager.go:1781-1869 | Nobody else has a row that covers the topic, and all rows of everyone that do are the owner's |
| AccessEffects.ReservationWeight | user/manager.go:178 | Reservations that cover a topic all rank equal |
| AccessEffects.OthersRows | user/manager.go:1781-1869 | The rows that may answer others are exactly the owner's rows of everyone for the topic and for topics that differ in case only |
| AccessEffects.OthersAnswerExactly | user/manager.go:1851-1869 | What others are answered, reading and writing, in terms of those rows alone |
| AccessEffects.OthersWriteExactly | user/manager.go:1851-1869 | Others may write if and only if the owner's reservation, or one that differs from it only in case, lets everyone write |
| AccessEffects.OthersGetEveryoneExactly | user/manager.go:1851-1869 | Others may read and write exactly as the reservation lets everyone if and only if the owner's case variants agree with it or are outranked |
| AccessEffects.VariantLetsIn | user/manager.go:1851-1869 | For every topic with a case variant, a table in which reserving it for nobody does not keep others out |
| AccessEffects.NoForeignRowExactly | user/manager.go:1781-1801 | No other user keeps a row that covers a reserved topic, in any table, if and only if the topic has no underscore |
| AccessEffects.ForeignGrantSurvives | user/manager.go:1781-1801 | For every topic with an underscore there is a table in which the reservation goes through and another user still writes |
| Reserving.SequentialHandler | server/server_account.go:453-481 | Without interruption the checks and the write do what the handler does as one step |
| Reserving.OwnershipKeptExactly | server/server_account.go:455-481 | Ownership is kept in all runs with at most n handlers at a time for each topic, whatever comes in between, if and only if n is at most one |
| Reserving.BothWrite | server/server_account.go:455-481 | Any two users can both end up with a reservation of any topic |
| Reserving.LimitKeptExactly | server/server_account.go:457-481 | A user's limit is kept in all runs with at most n handlers of that user at a time if and only if there are none, or one and the user's role, tier and limit are left alone meanwhile |
| Reserving.TierChangesMeanwhile | server/server_account.go:457-481 | A change of tier between count and write can break the limit |
| Reserving.TwoOfOneUser | server/server_account.go:457-481 | So can two handlers of one user |
| Provisioning.ReplacedUnique | user/manager.go:2094-2119 | Provisioning grants gives one table for every order in which the configured users are visited |
| Provisioning.ReplacedStable | user/manager.go:2090-2119 | Provisioning the grants again changes nothing |
| Provisioning.ProvisionedRows | user/manager.go:2096-2118 | Afterwards the provisioned rows are exactly the configured grants |
| Provisioning.LastGrantWins | user/manager.go:2109-2116 | Of duplicate grants the last one wins |
| Provisioning.GrantStep | user/manager.go:2110-2115 | One reset and grant extends what has been replaced so far by one grant |
| Provisioning.ReplacedKeepsOwned | user/manager.go:2096-2118 | Provisioned grants leave every surviving reservation as it was |
| Provisioning.ProvisionSettles | user/manager.go:2044-2088 | After a run every listed user is provisioned with the listed role and password, and nobody else is provisioned |
| Provisioning.ProvisionTwice | user/manager.go:2019-2041 | A successful run leaves one state whatever the visiting order, and a second run succeeds and leaves it as it is |
| Provisioning.ProvisionKeepsValid | user/manager.go:2019-2041 | A run keeps the tables consistent, ownership included |
| Provisioning.ProvisionStableExactly | user/manager.go:2046-2088 | A second run over the users changes nothing from any state if and only if no user is listed with two roles or two passwords |
| Provisioning.RunRows | user/manager.go:2019-2119 | What a successful run does to every row, grants, displaced rows, stale users and promotions to admin included |
| Provisioning.RunAccounts | user/manager.go:2044-2088 | Who exists after a successful run, with which tier, and who is untouched |
| Provisioning.ProvisionUsersSucceeds | user/manager.go:2046-2088 | Users are provisioned if and only if every listed entry can be added, or what differs can be changed |
| Provisioning.FindRoleFirst | user/manager.go:2101-2103 | Of entries listed under one name the first decides whether grants are allowed |
| Provisioning.AcceptedExactly | user/manager.go:2099-2117 | Grants are accepted exactly for everyone and for listed users that are not listed first as admins, if each is for an existing user and a valid pattern |
| Manager.Manager.Authorize | user/manager.go:1254-1292 | Admins are always allowed; every other answer is one that the policy on patterns gives |
| Manager.Manager.AllowAccess | user/manager.go:1806-1823 | Refuses invalid names, patterns and unknown users; otherwise stores the row with the permission as given, and leaves users, tiers and all other rows alone |
| Manager.Manager.Upsert | user/manager.go:193-198 | Succeeds exactly for known users, touches no other row, and leaves no row to or of an unknown user |
| Manager.Manager.ResetAccess | user/manager.go:1827-1848 | The four cases of what is deleted, and what is refused |
| Manager.Manager.AllowReservation | user/manager.go:1781-1801 | Refuses invalid names, and otherwise accepts exactly if no row of others matches; for an unknown user, if no row without an owner does |
| Manager.Manager.AddReservation | user/manager.go:1853-1869 | Writes both rows or none |
| Manager.Manager.HandleReservationAdd | server/server_account.go:436-486 | The gated reservation: refusals in order; both rows, with full access for the owner and the given one for everyone |
| Manager.Manager.RemoveReservations | user/manager.go:1873-1898 | Releases exactly the given topics, for any list of topics, or refuses and changes nothing |
| Manager.Manager.HandleReservationDelete | server/server_account.go:490-526 | Releases a topic exactly if the user has reserved it: the user's and everyone's rows of the topic go, and those they own, and no others |
| Manager.Manager.Reservations | user/manager.go:1580-1603 | The reserved topics, in order, each once |
| Manager.ReservationsListed | user/manager.go:224-231 | The topics listed are those of the rows the user owns, and no others |
| Manager.CollectExcess | server/server_account.go:539-542 | The topics past the limit, last one first |
| Manager.Manager.TrimReservations | server/server_account.go:531-552 | Releases exactly the reservations past the limit |
| Manager.Manager.ChangeTier | user/manager.go:1736-1750 | Refused exactly if a lowered limit is exceeded; otherwise sets the tier only |
| Manager.Manager.ResetTier | user/manager.go:1753-1761 | Refused exactly if more than no reservation is held under a tier; otherwise drops the tier only |
| Manager.Manager.AddTier | user/manager.go:1904-1912 | Adds a tier under a new code |
| Manager.Manager.UpdateTier | user/manager.go:1915-1920 | Redefines a tier, whatever its users hold |
| Manager.Manager.RemoveTier | user/manager.go:1923-1932 | Removes a tier that no user is on |
| Manager.Manager.CheckReservationsLimit | user/manager.go:1763-1777 | Which of the three outcomes is given when |
| Manager.Manager.AddUser | user/manager.go:1295-1334 | Adds an unprovisioned user without a tier, or refuses |
| Manager.Manager.ChangePassword | user/manager.go:1658-1697 | Changes the password only, or refuses, in that order, unknown users, provisioned users and bad passwords |
| Manager.Manager.RemoveUser | user/manager.go:1336-1356 | Refuses unknown and provisioned users; the user's rows and owned rows go with the user |
| Manager.Manager.ChangeRole | user/manager.go:1701-1725 | Changes the role; an admin's access rows are dropped |
| Manager.Manager.Provision | user/manager.go:2019-2041 | All or nothing. On success every listed entry, grant and token owner was acceptable; the last grant listed for a user and pattern is stored as given, and any other row is there if and only if it was there unprovisioned, no grant displaces it, and neither its user nor its owner is stale or has become an admin; tiers and unlisted users stay |
| Manager.Manager.CheckTokens | user/manager.go:2137-2146 | Tokens are accepted exactly for listed users and everyone, if they exist |
| Manager.Manager.ProvisionListedUsers | user/manager.go:2046-2088 | Removes stale users, adds or updates the listed ones, or fails; the lemmas on ProvisionUsers say what that does to rows and accounts |
| Manager.Manager.ProvisionGrants | user/manager.go:2094-2119 | Visiting users in any order replaces the provisioned rows by the configured grants, the last duplicate winning |
| ActionParser.ActionParser.SlurpSpaces | server/actions.go:287-295 | Skips exactly the white space at hand |
| ActionParser.ActionParser.ParseKey | server/actions.go:229-236 | Takes a key with its equals sign and the white space on either side of it, or nothing |
| ActionText.TakesKey | server/actions.go:31 | A key of letters, digits, dots, dashes and underscores is found with any white space on either side of the equals sign |
| ActionText.TakesNoKey | server/actions.go:31 | No key is found unless the text begins with such letters, white space and an equals sign |
| ActionParser.ActionParser.ParseValue | server/actions.go:241-253 | Takes an unquoted value up to and with its separator, trimmed |
| ActionParser.ActionParser.FindClosingQuote | server/actions.go:260-272 | Finds the first quote that no backslash precedes, or the end of the input |
| ActionParser.ActionParser.ParseQuotedValue | server/actions.go:257-284 | Takes a quoted value with its separator, quotes unescaped; an open quote or other text behind it is an error |
| ActionParser.ActionParser.ParseSection | server/actions.go:211-225 | Takes one section; the position never goes back nor past the end |
| ActionParser.ActionParser.ParseAction | server/actions.go:137-154 | Takes one action, advancing the position unless it was at the end; terminates on every input |
| ActionParser.ActionParser.Parse | server/actions.go:122-133 | Reads all actions; terminates on every input, and on success all input is consumed |
| ActionSyntax.TakeSection | server/actions.go:211-225 | Every section that is not the last of its action takes at least one character |
| ActionSyntax.TakeAction | server/actions.go:137-154 | Every action takes at least one character |
| ActionSyntax.ClosingQuote | server/actions.go:260-272 | The offset found is that of a quote inside the text |
| ActionParser.ParseActionsText | server/actions.go:42-80 | Normalization and the order of complaints, in both formats |
| ActionText.QuotedSectionRoundTrip | server/actions.go:211-284 | A section printed in quotes, with any white space in front of it, around its equals sign and behind its quote, reads back as its key and value if and only if the value holds no NUL and does not end in a backslash |
| ActionText.SectionRoundTrip | server/actions.go:211-253 | Every section that can be written as it is, bare or quoted, keyed or positional, with any white space in front, around its equals sign and around its value, reads back and leaves the text behind its separator |
| ActionText.BadQuotesRefused | server/actions.go:257-284 | A quoted value that is followed by anything but white space and a separator is refused |
| ActionPrinting.ActionsRoundTrip | server/actions.go:122-154 | Printed lists of sections parse to what the sections mean, errors included, whatever white space each is written with |
| ActionPrinting.PositionalAsNamed | server/actions.go:158-176 | The first sections of an action mean the same without their keys: action, label, and the address of a view or http action or the value of a copy action |
| ActionPrinting.WrittenRoundTrip | server/actions.go:122-284 | Actions parse back to themselves, all fields, headers and extras, however they are written: bare or quoted, in any order of headers and extras, with any white space |
| ActionPrinting.PrintableIsWritten | server/actions.go:122-284 | Every action whose texts can be quoted can be written, in quotes of either kind, with headers and extras in any order |
| ActionPrinting.UnnamedRefused | server/actions.go:158-176 | A section without a key is refused exactly from the fourth on, or as the third of an action that takes neither an address nor a value |
| ActionPrinting.KnownKeysExactly | server/actions.go:175-204 | A key is known if and only if it is a field in any case or begins as a header or an extra does; only the switch can refuse its value |
| ActionPrinting.ClearExactly | server/actions.go:186-191 | The switch is on for true, yes and 1, off for false, no and 0, in any case, and nothing else is taken |
| ActionPrinting.AnyCase | server/actions.go:181 | A field is set under its name in any case |
| ActionPrinting.ComplaintExactly | server/actions.go:65-77 | Exactly the actions that are not well formed draw a complaint, and which one they draw |
| ActionPrinting.RefusedExactly | server/actions.go:61-79 | Too many actions are refused as such, before the first that is not well formed is complained about |
| ActionPrinting.NormalizeExactly | server/actions.go:55-59 | Normalization changes the case of the action's name and of the method, and nothing else |
| ActionPrinting.AcceptedExactly | server/actions.go:42-80 | Accepted is exactly what was read, normalized, if there are at most three actions and all are well formed; JSON exactly if the trimmed text begins with a bracket |
| ActionPrinting.AcceptedIsValid | server/actions.go:56-80 | Whatever is accepted is at most three actions, in normal form and well formed |
| ActionPrinting.ParseActionsRoundTrip | server/actions.go:42-80 | Actions that are well formed and in normal form go through trimming, parsing, normalization and validation unchanged, however they are written out |
| MessageTable.Ordered | server/message_cache.go:149-154 | The selected rows, by time and then by id, each once |
| MessageCache.MessageCache.AddMessages | server/message_cache.go:450-536 | A batch is stored whole, message by message under the ids that follow, published exactly if due at insertion, and nothing else changes; or nothing is stored |
| MessageCache.InsertedRows | server/message_cache.go:450-536 | What each id holds after a batch |
| MessageCache.MessageCache.DeleteScheduledBySequenceID | server/message_cache.go:768-802 | Leaves nothing scheduled for the topic and sequence id, touches nothing published and nothing elsewhere, and returns the message ids of what is gone |
| MessageCache.MessageCache.Messages | server/message_cache.go:538-595 | None, the newest, those behind a message id or from a time on, all of them if the message id is gone: every answered row is of the topic asked for, published unless scheduled ones are asked for, and behind the resume row or from the given time on, scheduled ones excepted behind an id; every such row is answered; in time order, each once |
| MessageCache.MessageCache.DeleteMessages | server/message_cache.go:750-764 | Deletes exactly the rows with the given message ids |
| MessageCache.Server.HandleTopicDelete | server/server_admin.go:358-386 | Deletes all messages of the topic and no others, if the name can be a topic's |
| MessageCache.Server.ExpireTopic | server/server_account.go:519-524 | All published messages of the topic go at once; what is scheduled, anywhere, stays scheduled; elsewhere exactly what has expired anyway goes |
| MessageCache.Server.HandlePublish | server/server.go:954-1008 | Hands out or defers the message, and stores it in place of the scheduled ones of its sequence |
| MessageCache.Server.HandleActionMessage | server/server.go:1066-1117 | A delete or clear message is handed out and stored; a delete also drops what is scheduled |
| MessageCache.Server.SendDelayedMessages | server/server.go:2120-2168 | One pass hands out the messages of exactly the rows that were unpublished and due and whose user exists, each once, in time order, and publishes exactly the rows that share their message id with one of them |
| MessageCache.Server.PruneMessages | server/server_manager.go:171-192 | Deletes exactly the rows that share their message id with a published message that has expired |
| MessageCache.MarkedAllGives | server/server.go:2120-2168 | What the marks of a pass leave in each row |
| MessageCache.PassPublishes | server/server.go:2120-2168 | After a pass a due row is published if and only if the user of a due message with its id exists |
| MessageCache.DueMessages | server/message_cache.go:149-154 | The messages due are exactly those of the rows that are unpublished and whose time has come |
| MessageCache.SentAreDue | server/server.go:2120-2168 | What a pass hands out are exactly the message ids of due rows whose user exists |
| Delivery.RunKeepsInv | server/server.go:954-1008 | What every interleaving of handlers, sender, ticks, pruning and topic removal keeps |
| Delivery.NeverSentTwice | server/server.go:2120-2168 | In no run is a message handed to its subscribers twice |
| Delivery.NeverSentEarly | server/message_cache.go:149-154 | In no run is a message handed out before its time |
| Delivery.PruneSparesUnpublished | server/server_manager.go:171-192 | No prune, whenever it selected its messages, removes an unpublished row |
| Delivery.StaysUntilSent | server/message_cache.go:149-156 | A scheduled message that is not cancelled stays scheduled until it is sent, whatever else happens |
| Delivery.FirstPassServes | server/server.go:2120-2168 | A pass that begins at or after the due time has, when it ends, handed the message out, unless its own user was gone |
| Delivery.SequentialPass | server/server.go:2120-2168 | An uninterrupted pass of the step model does what the sender's loop does |
| Delivery.SequentialHandler | server/server.go:954-1008 | An uninterrupted handler of the step model does what the publish handler does |
| Delivery.WaitingCanBeSent | server/server.go:2120-2168 | From every reachable state in which a message waits, some run sends it |
| Delivery.LostForever | server/message_cache.go:474 | A message that counts as published without having been handed out is never sent |
| Delivery.DeferredSentExactly | server/server.go:954-1008 | A deferred message can still be sent once stored if and only if it is stored before its due time |
| Delivery.StoredTooLate | server/server.go:954-1008 | Every message that is to be sent later can come to be stored too late |
| Delivery.CancelledSentExactly | server/message_cache.go:768-802 | A scheduled message that is replaced or whose topic is deleted can still be sent if and only if the pass under way holds it |
| Delivery.OneScheduledPerSequence | server/server.go:991-1008 | With at most one handler at a time for each topic and sequence id, none ever has two scheduled messages |
| Delivery.OneScheduledExactly | server/server.go:991-1008 | That is kept in all runs with at most n such handlers at a time if and only if n is at most one |
| Delivery.InterleavedHandlersLeaveTwo | server/server.go:991-1008 | Any two messages to be scheduled under one sequence id can both end up scheduled |
| Polling.PollReturnsUnseen | server/message_cache.go:563-587 | In every run a poll returns every row inserted as published since the poll before and still there, whichever message of whichever earlier answer the client resumes behind, even a deleted one |
| Polling.FirstPollReturns | server/message_cache.go:130-135 | The first poll behind the insertion of a message that is due returns it if it is still there |
| Polling.FirstPollReturnsExactly | server/message_cache.go:130-135 | For every message: the first poll that finds it published returns it, in every run, if and only if it was due when it was inserted |
| Polling.ScheduledRowPassedOver | server/message_cache.go:130-135 | Every scheduled message is passed over in some run |
| Polling.LatestBySequenceId | web/src/app/Poller.js:91-100 | For every sequence of the answer, the newest message, the last one among equals |
| Polling.LatestOfOrdered | web/src/app/Poller.js:91-100 | In a time-ordered answer that is the last message of the sequence |
| Polling.AnswerIsTimeOrdered | server/message_cache.go:130-135 | Answers are in time order |
| Polling.Subscription.Poll | web/src/app/Poller.js:42-76 | By the answer alone: the newest message of each sequence is put; what else is left was there before, unchanged, in a sequence that does not end in a deletion; all such messages stay; and the client resumes behind one of the messages put, if there are any |
| Polling.Subscription.AddNotifications | web/src/app/SubscriptionManager.js:214-224 | Puts all given messages over what was there and resumes behind one of them |
| BatchingQueue.BatchingQueue.Append | util/batching_queue.go:50 | Appends in place or into a larger array |
| BatchingQueue.BatchingQueue.DequeueAll | util/batching_queue.go:66-71 | Copies the buffer out and truncates it; no emitted batch ever changes although the array is reused |
| BatchingQueue.BatchingQueue.EnqueueLocked | util/batching_queue.go:48-60 | Batch and buffer after one element: all elements in order as one batch if that makes the batch size, else none and the element waits |
| BatchingQueue.BatchingQueue.TickLocked | util/batching_queue.go:73-86 | The ticker takes out whatever is buffered |
| BatchingQueue.NothingLost | util/batching_queue.go:48-86 | Under every interleaving, batches in dequeue order followed by the buffer are what was enqueued, and that is what is buffered, in flight or delivered |
| BatchingQueue.BatchesFit | util/batching_queue.go:48-86 | Batches are never empty nor longer than the batch size |
| BatchingQueue.FullWithoutTicker | util/batching_queue.go:48-60 | In all runs without the ticker every batch is full, and the buffer holds what the number of elements leaves when divided by the batch size |
| BatchingQueue.OneSenderKeepsOrder | util/batching_queue.go:55-59 | With at most one batch in flight at a time, elements are delivered in the order in which they were enqueued, however many are enqueued meanwhile |
| BatchingQueue.OrderKeptExactly | util/batching_queue.go:55-59 | For every batch size, the order is kept in all runs with at most n batches in flight if and only if n is at most one |
| BatchingQueue.TwoSendersMayReorder | util/batching_queue.go:55-59 | Two batches in flight may be delivered in the other order |
| Limits.Limiter.AllowN | util/limit.go:60-138 | Charges the limiter or refuses; a rate limiter refuses to give back |
| Limits.RefuserExists | util/limit.go:174-183 | For all values and bucket answers some position is the first to refuse, or none |
| Limits.RefuserUnique | util/limit.go:174-183 | There is only one |
| Limits.LimitWriter.ChargeAll | util/limit.go:174-183 | Charges the limiters in order up to the first that refuses |
| Limits.LimitWriter.Revert | util/limit.go:177-180 | Takes the charges back from the fixed limiters, repeated ones included |
| Limits.LimitWriter.Write | util/limit.go:174-188 | Refused exactly if some limiter refuses in its turn; what every limiter then holds, and that nothing is sent; an accepted write charges every limiter once per listing |
| Limits.WriteExactly | util/limit.go:174-188 | Limiters that are listed once each are all charged by the size of an accepted write and, if fixed, not at all by a refused one; fixed ones refuse exactly if the size is too much for one of them |
| Limits.RestoredExactly | util/limit.go:174-188 | All refused writes on a list of limiters leave every one as it was, whatever their values and answers, if and only if no rate limiter is listed in front of another entry |
| Limits.LimitWriter.Copy | server/file_cache.go:43-73 | Nothing is written beyond what any fixed limiter had left at the start |
| Limits.FileCache.Write | server/file_cache.go:43-73 | The stored size, the total and the errors; nothing is stored if the reader fails; the total never passes the limit, nor grows once it has |
| Uploads.LimitKeptExactly | server/file_cache.go:43-95 | Total and files stay within the limit in all runs of uploads and removals if and only if there is at most one upload at a time and none while a removal takes stock |
| Uploads.StockDuringUpload | server/file_cache.go:75-95 | A removal during a single upload can bring the total to twice the limit |
| Uploads.TwoUploads | server/file_cache.go:43-73 | So can two uploads at a time |
| Uploads.TotalWithin | server/file_cache.go:43-95 | With n uploads at a time the files stay within n times the limit and the total within twice that, unless uploads go on between measuring and setting the total |
| Uploads.DiskBoundedExactly | server/file_cache.go:75-95 | The files have a bound at all if and only if uploads do not go on between measuring and setting the total, or there are none |
| Limits.FileCache.Remove | server/file_cache.go:75-95 | Deletes the files and takes stock, or stops at an invalid id, with the total exactly as far off as before if only empty files were deleted |
| Limits.FileCache.Remaining | server/file_cache.go:103-111 | Exactly what brings the total to the limit, nothing once it is reached |
| Limits.DirSizeSplit | server/file_cache.go:113-128 | The total size does not depend on the order in which files are counted |
| Limits.SizeOf | server/file_cache.go:113-128 | Adds up all files |
| WebPushStore.IpCount | server/webpush_store.go:145-170 | Counting rows of an address counts its endpoints |
| WebPushStore.PutStandsFor | server/webpush_store.go:145-202 | Writing a row and replacing its topics registers the endpoint and changes nothing else |
| WebPushStore.DropStandsFor | server/webpush_store.go:258-280 | Deleting rows forgets exactly their endpoints, whether or not topic rows go too |
| WebPushStore.JoinGivesEndpoints | server/webpush_store.go:59-84 | The join yields exactly the live endpoints registered for the topic |
| WebPushStore.LimitPassedByMoving | server/webpush_store.go:145-202 | An upsert takes an address past the limit if and only if it moves a known endpoint to an address that is full |
| WebPushStore.LimitPassed | server/webpush_store.go:145-202 | Every address can be filled and then passed in that way |
| WebPushStore.WebPushStore.UpsertSubscription | server/webpush_store.go:145-202 | Registers the endpoint with the given row and exactly the given topics, or changes nothing; refused exactly if a topic is repeated or a new endpoint's address has ten; no other endpoint is touched |
| WebPushStore.WebPushStore.SubscriptionsForTopic | server/webpush_store.go:205-212 | Exactly the endpoints whose last successful registration holds the topic, in order, each once |
| WebPushStore.WebPushStore.RemoveSubscriptionsByEndpoint | server/webpush_store.go:258-261 | Forgets one endpoint |
| WebPushStore.WebPushStore.RemoveSubscriptionsByUserID | server/webpush_store.go:264-270 | Forgets exactly the endpoints of one user; the empty user is refused |
| WebPushStore.WebPushStore.RemoveExpiredSubscriptions | server/webpush_store.go:273-280 | Forgets exactly what has not been updated since the cutoff and leaves no topic row without a subscription |
| Invites.InviteTable.Create | server/server_invite.go:81-102 | A new invite holds what was asked for, at least one use and seven days by default, and can be looked up at once unless its given expiry is past; no other invite is touched |
| Invites.InviteTable.Use | server/server_invite.go:222-238 | Exactly the invites with uses left can be used; a use raises the count by one, within the limit, and touches no other invite |
| Invites.LookUpExactly | server/server_invite.go:361-382 | A look-up lets a request pass exactly if it is well formed and the invite is there, has not expired and has uses left |
| Invites.TopicsReadBack | server/server_invite.go:247-256 | Topics joined by commas, with or without white space around them, are the topics granted, in order |
| Invites.SuccessesWithinLimit | server/server_invite.go:201-352 | In every interleaving the use count is the number of requests past their increment; no more requests succeed than that, nor than the limit, not even once the invite is deleted |
| Invites.UseCountGrows | server/server_invite.go:222-238 | While an invite exists its use count never decreases |
| Invites.FailuresUseUp | server/server_invite.go:222-252 | In every run the use count is the number of successes if and only if no request has failed, or is under way, behind its increment |
| Invites.FailsExactly | server/server_invite.go:240-283 | A counted request that is carried through succeeds if and only if its name is free and its password can be hashed, or the joining user exists, and all topics are valid patterns; otherwise it has used the invite up |
| Invites.WastedUse | server/server_invite.go:240-252 | Runs in which a redeem for a taken name, or a join with an invalid topic, uses an invite up without a success |
| SocialLimiter.SocialRateLimiter.Allow | server/server_social.go:40-50 | A refused event changes nothing; after an accepted one the subject is refused exactly until the next interval has passed, and no other key is affected |
| SocialLimiter.SocialRateLimiter.Cleanup | server/server_social.go:52-69 | Forgets exactly the entries older than the keep time |
| SocialLimiter.KeyInjective | server/server_social.go:41 | Different (event, user, topic) have different keys, as events and users hold no colon |
| SocialLimiter.ForgettingIsHarmless | server/server_social.go:40-69 | With intervals up to 301 seconds every run is answered as by a limiter that never forgets |
| SocialLimiter.ForgettingHarmlessExactly | server/server_social.go:40-69 | 301 seconds is exactly the longest interval for which that holds |
| SocialLimiter.AcceptedApart | server/server_social.go:40-69 | Two accepted events of one subject are at least the later one's interval apart, for intervals up to 301 seconds, whatever events and cleanups come between |
| SocialLimiter.AcceptedApartExactly | server/server_social.go:40-69 | 301 seconds is exactly the longest interval for which that holds |
| Sizes.FormatSize | util/util.go:255-266 | The size in the largest unit that is not above it, rounded down; where the unit letters run out |
| Sizes.LargestUnitUnique | util/util.go:255-266 | That unit is unique |
| Sizes.FormatThenParse | util/util.go:230-266 | What a printed size reads back as: the rounded size below 2^40, refused above |
| Sizes.RoundingLoss | util/util.go:255-266 | The loss is less than one unit, none exactly for whole units, and a second round trip changes nothing |
| Sizes.NegativeRefused | util/util.go:230-253 | Printed negative sizes are refused |
| Sizes.ParsesUnits | util/util.go:230-251 | A number alone is bytes; with a unit letter in either case it is that many units, up to the overflow of a 64-bit product |
| Sizes.ParsesExactly | util/util.go:230-251 | Exactly the texts of digits that stand for a 64-bit number, with or without a unit letter, are sizes |

## Left out

* JSON, HTTP, SMTP, Twilio, Stripe, Firebase, Matrix and web push sending, logging, metrics and schema migrations. What the JSON decoder makes of an action list is a parameter; error values stand for error messages.
* UTF-8: text is a sequence of characters, so byte lengths and positions are lengths and positions in characters, and the check for valid UTF-8 in front of the action parser is not modelled.
* Case mapping to characters outside ASCII: action names and HTTP methods are mapped as far as the result is ASCII, so other letters of a method are left as they are.
* Hashing: a password comes as its hash, and the hashes that are valid and strong enough are a parameter. Tokens themselves (provisioning checks for whom they are listed), sessions, preferences, user ids (users are identified by name, which nothing here renames), marking users as deleted, group creation.
* Actions are values that are updated field by field, not records mutated in place, because no other reference to one exists while it is parsed. Random action ids are not modelled.
* Integer widths of limits and counters, except for the wrap-around when a size is multiplied by its unit.
* The internals of the token bucket: a rate limiter may grant or refuse any positive amount.
* Database and file system failures, crashes and restarts; the statements of one transaction are not interleaved with others.
* Live fan-out to subscribers and what happens behind it: handing a message to its topic is one step, and it is not modelled whether a subscriber is connected.
* Queued message writes: the cache is written synchronously.
* Attachments: removal together with messages, expiry, per-visitor bandwidth. A removal deletes complete files only, and reads the size of the directory in one step.
* Operations other than reservations, uploads, publishing, sending, pruning, invites and the batching queue are single steps; in particular a tier change, whose check and write are separate statements as well.
* Polling by the web client with scheduled rows included, or from a time on, as far as resuming is concerned; the browser database beyond one subscription.
* The account subscriptions that an invite adds; the grants of one request are one step. The expiry warnings of web push.
* Profiles, reactions, blocking, slash commands, templates, the React application and the service worker.
- Limits.FileCache.Write: one call at a time and no removal during it; for both at once see Uploads.LimitKeptExactly.
- Limits.LimitWriter.Write: rate limiters are charged and keep the charge; when their buckets refill is not modelled.
- Delivery.NeverSentTwice: for one sender and synchronous writes without failures; a failed mark would let the message be sent again.
- Polling.Subscription.Poll: given the part of the answer that the client's own age filter lets through.
