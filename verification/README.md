# A verified model of a small publishing platform

The platform is a set of small services kept consistent by one append-only event stream,
`BLOG_EVENTS`. Posts, accounts, comments, media files and a search index live in different services;
each service owns its tables, appends events, and follows the events of the others through durable
consumers. This project models that behaviour in Dafny and proves what it keeps.

Tables are maps, the stream is a sequence and a consumer is a position in it. Each service is a class
whose methods change its tables and append to a shared stream, as the services do; each method is
proved equal, on tables, stream and reply, to a step function on values, and the theorems over whole
runs are about those step functions.

| files | what they model |
|---|---|
| Basics, Text, SlugWords, Utf8 | collections; white space, lower-casing, splitting, tag fields, slugs and the words of a title; UTF-8 |
| Slugs, Tags, Posts, PostHistory, PostTraces, PostService | slug search, the tags table, the post service, its runs, what its calls leave, and its event traces |
| Events, Search, SearchIndexer, Agreement | the stream, the search indexer with crashes and fresh starts, index against tables |
| Identity, Replication, AccountHistory, AuthService, UserService | two copies of an account kept in step by three event types, and where roles and profile fields come from |
| Sessions, SessionHistory | logins and refresh-token rotation, and who may log in and refresh |
| Comments, CommentHistory, CommentService, Threads, ThreadOrder, ThreadPages | the reply forest, which comments remain, its rendering and its order, and the page of it that a post shows |
| Captcha, CaptchaTokens, CaptchaIssues, CaptchaPipeline, CaptchaRestarts | challenges, single-use tokens, and both together |
| Listing, MediaLibrary | visibility, paging, the client that fetches all pages, orphaned media |
| ContentDisposition, Filenames, ClientAddress | a header with its parser, stored file names, the forwarded-address walk |

## What turned out not to hold

Each of these has a lemma with a concrete input, and the exact condition under which the code does
meet the property.

- A post whose tags are refused after its row is written is never announced, so it is in no index and
  its publication is not announced. That happens to tags that lower-casing makes equal, to a tag with a
  NUL and to a tag that is too long once lower-cased (`Agreement.RepeatedTagLosesPost`,
  `Agreement.EqualTagsLosePost`, `Agreement.NulTagLosesPost`, `Agreement.LongTagLosesPost`,
  `PostTraces.RepeatedTagLosesPublication`), and likewise to a post whose event the broker does not carry
  (`Agreement.LargeEventLosesPost`). Conditions: `Tags.TagsArriveIff`, `Agreement.NewPostIndexedIffPasses`,
  `Agreement.UpdateIndexedIff`, `PostTraces.CreationIsAnnouncedIffPasses`.
- An indexer that is stopped between finding its volume empty and deleting its durable consumer, or whose
  deletion fails, is caught up for good without the older posts (`Search.InterruptedStartLosesPost`;
  conditions in `Search.SuffixIsWholeIff`, `Agreement.DrainedIndexShowsRows`).
- The page of a post shows the newest twenty comments at most, and none of a thread whose first comment is
  older: after twenty replies to the only comment it shows nothing (`ThreadPages.TwentyRepliesHideThread`;
  condition in `ThreadPages.PageShowsIffRootIsRecent`).
- When the posts cannot be fetched, the media tab offers every file for deletion
  (`MediaLibrary.FailedFetchOffersEmbedded`; condition in the contract of `MediaLibrary.FindOrphans`).
- A created event delivered again after the account was deleted brings the profile back
  (`Replication.RedeliveryRevivesAccount`; conditions in `Replication.RestartRevivesNoneIff`,
  `Replication.DeleteIsFinalIff`).
- An update of an account can stay refused for ever (`Replication.UpdateCanStick`; condition in
  `Replication.UpdatesArriveIff`).
- A message that reaches the search indexer again after newer ones of the same post can put old text
  into the index (`Search.LateRedeliveryDoesHarm`; condition in `Search.LateRedeliveryIsHarmlessIff`).
- The auth service accepts a captcha token a second time in the second of its expiry, and the gateway
  from then on as long as its token library calls the token valid
  (`CaptchaTokens.TokenAcceptedTwiceAtExpiry`, `CaptchaTokens.TokenAcceptedAgainAtGateway`; conditions in
  `CaptchaTokens.SecondUseOnlyAtExpiry`, `CaptchaTokens.GatewayWindow`). A restart of the auth service
  forgets all used tokens (`CaptchaRestarts.RestartAcceptsTwice`; condition in
  `CaptchaPipeline.OneLifeAcceptsOnce`).
- A right captcha answer followed by NUL characters counts (`Captcha.RightAnswerWithNulExample`;
  condition in `Captcha.AnswerMatchesIff`).
- A slug cut at 200 characters may end in a dash, and then it is not its own slug
  (`Text.CutLeavesDash`; condition in `Text.SlugifyAgain`). The titles that the request schema admits
  are never cut (`Text.ShortTitleIsNotCut`).
- Text in front of a forwarded-address header does matter if it is not visible ASCII: the header can
  then no longer be read (`ClientAddress.UnreadableTextHidesClient`; condition in
  `ClientAddress.PrependedTextIsIgnored`).

## How to read the models

- A service call is one atomic step: table writes and published events together. The services have
  no outbox, so a crash between the two loses the event; such a crash is not a step here.
- In the runs, each event type is delivered in order to each consumer. Redelivery is a restart from an
  earlier acknowledged position, and a message whose handler fails stays the next one to be delivered.
  A single message that comes back later, after newer ones, is treated for the search index by
  `Search.LateRedeliveryIsHarmlessIff` and `Search.NextEventRepairs`.
- The consumers of the account services exist before the first event, since they ask for new messages
  only.
- A fresh UUID or token is a value that was never drawn before. The sets and records `drawn`, `born`,
  `past`, `made`, `tries`, `issued`, `accepted`, `lives`, `base`, `promoted`, `ignored`, `stale`,
  `silenced` and `unannounced` are not kept by the services; the theorems need them to speak of what happened.
- Two conditions of `Identity.Allowed`, on deleting an account and on going back with the created
  consumer, are not enforced by the services. They are the exact conditions of the lemmas named above.
- Modules PostHistory, SessionHistory and CommentHistory say what the tables hold after any run in terms
  of the calls alone, by definitions that do not mention the step functions. AccountHistory also looks at
  the tables as a call finds them, since names and addresses may be taken.
- No service code writes the column `active` of a credential; `Sessions.OpSetActive` is an operator's
  change of it.
- The limit of the broker is a predicate on events. It is consulted for created and updated events of
  posts only, which hold the content; all other events are of bounded size and always carried.
- The runtime's lower-casing of tags, the token library's verdict at the gateway, address parsing,
  clocks, fresh ids and the order of a database query are parameters.
- The event table of the repository's README (README.md:94-106) has the user service publish
  `user.created` and names no consumer of `user.updated`; in the code the auth service publishes the
  former and consumes the latter and `user.deleted`. It also calls the search consumer
  `search-service` (README.md:108), which the code names `search-indexer`. The models follow the code.

## Model

| member | source | states |
|---|---|---|
| Search.ApplyForgets | crates/search/src/subscriber.rs:92-142 | each event either overwrites the whole document of its post, whatever was there, or leaves it untouched |
| Search.ActKeepsInv | crates/search/src/subscriber.rs:40-87 | publication, delivery, acknowledgement, a start on the old volume (also after a crash) or on an empty one, and reaching the stream with or without the deletion of the consumer all keep the bounded-staleness invariant |
| Search.RunKeepsInv | crates/search/src/subscriber.rs:40-87 | bounded staleness: after any run each document is the one that the events from the base of the index up to some position between cursor and highest processed position describe |
| Search.SuffixIsWholeIff | crates/search/src/index.rs:58-62 | an index built from some position on is the fold of the whole log if and only if every post last written before it was deleted by that write |
| Search.CrashReplayRefinesFold | crates/search/src/subscriber.rs:40-87 | for every run, interrupted fresh starts included: at the highest position ever processed the index is the fold of the log from its base up to there, and that is the fold of the whole prefix if and only if nothing was lost |
| Search.CarefulReplayRefinesFold | crates/search/src/subscriber.rs:40-45 | when every process that found its volume empty gets to delete the consumer, it is always the fold of the whole prefix |
| Search.InterruptedStartLosesPost | crates/search/src/main.rs:28-40 | concrete run: a process stopped between the new volume and the deletion of the consumer leaves a subscriber that is caught up for good with an empty index |
| Search.DrainingIsExact | crates/search/src/subscriber.rs:63-87 | from every reachable state, consuming the rest of the stream yields the fold of the log from the base of the index |
| Search.LateRedeliveryIsHarmlessIff | crates/search/src/subscriber.rs:79-86 | a message that comes back alone after newer ones (its acknowledgement was lost, or its handler failed) changes nothing if and only if the last event of its post writes the same document or deletion |
| Search.NextEventRepairs | crates/search/src/subscriber.rs:92-142 | whatever such a message did to its post, the next event of that post repairs it |
| Search.LateRedeliveryDoesHarm | crates/search/src/subscriber.rs:79-86 | concrete input: a created event that comes back after an update puts the old text into the index |
| SearchIndexer.ViewOfWithout | crates/search/src/index.rs:171-174 | deleting by term removes exactly the documents of that post |
| SearchIndexer.ViewOfReplaced | crates/search/src/index.rs:146-160 | deleting by term and adding keeps one document for each post and replaces exactly that one |
| SearchIndexer.SearchIndex.AddPost | crates/search/src/index.rs:123-163 | a writable index afterwards maps this post to exactly the new document and every other post as before; a read-only one refuses and is unchanged |
| SearchIndexer.SearchIndex.DeletePost | crates/search/src/index.rs:165-177 | a writable index afterwards lacks exactly this post; a read-only one refuses and is unchanged |
| SearchIndexer.SearchIndex.Handle | crates/search/src/subscriber.rs:71-77 | dispatch and handlers together take the step of the fold; an error changes nothing |
| SearchIndexer.Subscribe | crates/search/src/subscriber.rs:40-87 | one life of the subscriber ends fully acknowledged, whether the deletion of the stale consumer worked or not: an empty index becomes the fold from the start of delivery, the fold of the whole log if and only if nothing was lost; from every reachable state the index becomes the fold from its base |
| Agreement.StepKeepsAgreement | services/post/src/services/post.ts:65-107 | every operation of the post service keeps tables and folded log in agreement, post by post |
| Agreement.DrainedIndexShowsRows | crates/search/src/subscriber.rs:92-142 | whole system, any calls, crashes and new volumes: a drained index holds only live posts, shows for each whose last write was announced title, slug, content, joined tags and (unless silently archived) status of its row, and lacks exactly those of them last written before its base |
| Agreement.DrainedIndexAgrees | crates/search/src/subscriber.rs:92-142 | when every fresh start gets to delete the consumer, the drained index is the fold of the whole log and agrees with the tables post by post |
| Agreement.DrainedIndexIsCompleteIff | crates/search/src/subscriber.rs:92-142 | when all calls arrive, the drained index holds exactly the live posts if and only if none of them was last written before its base |
| Agreement.DrainedIndexIsComplete | crates/search/src/subscriber.rs:92-142 | when also every fresh start gets to delete the consumer, it does hold exactly the live posts with the text of their rows |
| Agreement.SafeMovesArrive | services/post/src/services/post.ts:80-97 | calls whose lower-cased tags are distinct, short and without NUL all arrive, as long as the broker carries their events |
| Agreement.NewPostIndexedIffPasses | services/post/src/services/post.ts:80-97 | for every lower-casing and every limit of the broker: a new post reaches the index if and only if its lower-cased tags hold no NUL, fit the column (over-long ones by losing blanks, and then not onto a stored name), are distinct as stored, and the broker carries the event |
| Agreement.UpdateIndexedIff | services/post/src/services/post.ts:207-228 | an accepted update, of a stale post too, leaves index and row in agreement if and only if it passes that check or the indexed document already shows the row the request asks for, with the tags the post is left with |
| Agreement.CurrentUpdateIndexedIff | services/post/src/services/post.ts:193-228 | for a post that was in agreement: if and only if it passes the check, or asks for nothing new and leaves the joined tags as they were |
| Agreement.EqualTagsLosePost | services/post/src/services/post.ts:71-86 | any two tags that lower-casing makes equal, accented letters included, leave a new post live and in no index |
| Agreement.RepeatedTagLosesPost | services/post/src/services/post.ts:71-86 | concrete input: a post created under the tags a and A is live and in no index |
| Agreement.NulTagLosesPost | services/post/src/services/post.ts:43-51 | concrete input: so is one created under a tag that is a NUL |
| Agreement.LongTagLosesPost | services/post/src/db/schema.ts:17 | concrete input: so is one created under 26 dotted capitals I, which lower-case to 52 characters |
| Agreement.LargeEventLosesPost | services/post/src/services/post.ts:92-97 | concrete input: so is one whose content exceeds what the broker carries |
| Slugs.CandidateInjective | services/post/src/services/post.ts:34 | different counters give different candidates, because decimal numerals are injective |
| Slugs.TakenCandidatesFit | services/post/src/services/post.ts:26-35 | pigeonhole: n taken candidates need n different slugs in the table |
| Slugs.FirstFree | services/post/src/services/post.ts:23-36 | the search ends after at most one probe more than there are slugs, at a free candidate all of whose predecessors are taken |
| Slugs.FirstFreeIsUnique | services/post/src/services/post.ts:26-35 | there is only one such candidate, so the order s, s-1, s-2 fixes the result |
| Slugs.CandidatesAreNumbered | services/post/src/services/post.ts:24-34 | the first candidate is the base, each later one the base, a dash and its number in decimal digits without a leading zero |
| Slugs.SlugLength | services/post/src/services/post.ts:14-36 | a slug is at most 201 characters longer than the numeral of the post count |
| Slugs.SlugFitsColumn | services/post/src/db/schema.ts:7 | below 10^49 posts every slug fits its column of 250 characters |
| Tags.TagsArriveIff | services/post/src/services/post.ts:38-54 | the tags of a request arrive if and only if they pass the check above, and then they arrive as cut to the column, in order |
| Tags.SafeNamesArrive | services/post/src/services/post.ts:38-54 | distinct short names without NUL arrive unchanged, whatever the table holds |
| Tags.AddTagsKeepsColumn | services/post/src/db/schema.ts:17 | no stored name exceeds the column, not even after a request that failed part-way |
| Tags.AddTagsStores | services/post/src/services/post.ts:43-51 | the tags table grows by exactly the names entered: all of them, or those before the first refused one |
| Tags.EqualTagsAreRefused | services/post/src/db/schema.ts:24-26 | two tags that become equal never arrive |
| Tags.LongLoweredTagIsRefused | services/post/src/db/schema.ts:17 | a tag within the request schema that is too long once lower-cased never arrives |
| Posts.CallArrivesIffPasses | services/post/src/services/post.ts:80-97 | what a call finds out about its tags and its event is what the caller could have checked beforehand |
| Posts.SafeCallsArrive | services/post/src/services/post.ts:80-97 | a run of calls with safe tags arrives as a whole, as long as the broker carries their events |
| Posts.SlugIsFree | services/post/src/services/post.ts:23-36 | the chosen slug belongs to no other post and is a candidate of the title |
| Posts.RunKeepsTables | services/post/src/services/post.ts:182-254 | over every run no two posts share a slug, every slug is a candidate of its title, published posts have a publication date, tag names fit their column, and tag rows are distinct and belong to posts |
| Posts.SameTitleKeepsOrImprovesSlug | services/post/src/services/post.ts:195-198 | retitling to the unchanged title never moves a post to a later candidate than the one it holds |
| Posts.PublicationDateIsFinal | services/post/src/services/post.ts:200-205 | over every run a publication date, once set, never changes, across archiving and republishing |
| Posts.RunNeverRevives | services/post/src/services/post.ts:240-254 | a deleted post never exists again |
| PostHistory.TableHoldsLastGiven | services/post/src/services/post.ts:182-254 | over every run, read off the calls alone: a post exists if and only if it was created and not deleted since by an admin or by the writer named as author at its creation; its author is that one, its title, content and status are the ones last given in a call of those two or by archiving the posts of the author, and its dates are those of the first and the last such call and of the first that published it |
| PostHistory.TagsHoldLastGiven | services/post/src/services/post.ts:207-218 | over every run the tags of a post are those of the last such call that gave any, lower-cased and in their order if they are distinct, short and without NUL, and otherwise at most none at all |
| PostHistory.SlugFollowsTitle | services/post/src/services/post.ts:195-198 | a call that gives a title, and may, gives the post the first candidate for that title that no other post holds; every other call leaves the slug |
| PostHistory.AuthorNeverChanges | services/post/src/services/post.ts:193-207 | the author of a post never changes, in any run |
| PostHistory.OnlyTheEntitledChange | services/post/src/services/post.ts:240-249 | after any run a call removes a post if and only if it is a deletion by an admin or by the writer who is its first author, and changes its row or its tags only if it is an update by one of these two or archives the posts of that author |
| PostHistory.RefusedIff | services/post/src/services/post.ts:185-191 | which updates and deletions are answered with not found and with forbidden, and that all other deletions succeed, in terms of the creation and the calls since |
| PostHistory.RepliesShowPost | services/post/src/services/post.ts:237 | a creation succeeds if and only if it arrives, an update if and only if it also is rightful; the reply shows the row and the tags that the post then has |
| PostHistory.AppendedEventsDescribePost | services/post/src/services/post.ts:90-104 | each event that a call appends carries title, slug, content, tags, status and author of the post as the call leaves it |
| PostTraces.CreateAnnounces | services/post/src/services/post.ts:90-104 | what one creation appends about any post: nothing unless tags and event arrive, else created and perhaps published |
| PostTraces.UpdateAnnounces | services/post/src/services/post.ts:222-235 | what one update appends about any post, including refusals, failed tag insertions and refused events |
| PostTraces.RunKeepsTrace | services/post/src/services/post.ts:90-104 | over every run the events of a post read created, perhaps published, then updates each perhaps followed by published, then perhaps deleted; without the first two if its creation failed after the row was written; and the post exists if and only if they do not end in a deletion |
| PostTraces.CreationIsAnnouncedIffPasses | services/post/src/services/post.ts:80-97 | a new post gets its created event if and only if its call passes the check |
| PostTraces.ArrivingCallsAnnounceEverything | services/post/src/services/post.ts:80-97 | when all calls of a run arrive, none of its posts stays unannounced |
| PostTraces.PublicationsAreCounted | services/post/src/services/post.ts:230-235 | over every run published events plus the entries into published made by failing calls number exactly the entries into published |
| PostTraces.EveryPublicationAnnouncedOnce | services/post/src/services/post.ts:230-235 | when all calls arrive, each entry into published is announced exactly once |
| PostTraces.EqualTagsLosePublication | services/post/src/services/post.ts:80-104 | a post created as published under two tags that lower-casing makes equal is never announced |
| PostTraces.RepeatedTagLosesPublication | services/post/src/services/post.ts:80-104 | concrete input: the tags a and A |
| PostService.PostService.EnsureUniqueSlug | services/post/src/services/post.ts:23-36 | the loop terminates and returns the first free candidate, the excluded post not counting |
| PostService.PostService.EnsureTag | services/post/src/services/post.ts:43-51 | a NUL, a name too long for the column and a cut name that is stored already are refused and change nothing; else one tag of this (cut) name exists afterwards, older tags keep their ids, and names stay unique |
| PostService.PostService.EnsureTags | services/post/src/services/post.ts:38-54 | the ids name the lower-cased tags as stored, in order, and only missing names are added; at the first refusal it fails and keeps what it added before |
| PostService.PostService.GetPostTags | services/post/src/services/post.ts:56-63 | the join yields the names of the post, and nothing for a post without tags |
| PostService.PostService.AttachTags | services/post/src/services/post.ts:80-86 | succeeds if and only if every tag is entered and no two are the same; the tags table grows either way, the rows of other posts never change |
| PostService.PostService.StoreNewPost | services/post/src/services/post.ts:68-88 | writes the row under the first free slug, then the tags; a refused tag leaves the row behind |
| PostService.PostService.CreatePost | services/post/src/services/post.ts:65-107 | takes the creation step of module Posts on tables, stream and reply, including the failures after the row is written |
| PostService.PostService.Rewrite | services/post/src/services/post.ts:193-205 | the row an update writes: absent and empty fields keep their value, the first publication sets the date |
| PostService.PostService.ReplaceTags | services/post/src/services/post.ts:209-218 | given tags replace all old ones; a refused or repeated one leaves the post without tags |
| PostService.PostService.UpdatePost | services/post/src/services/post.ts:182-238 | takes the update step of module Posts on tables, stream and reply, with every refusal |
| PostService.PostService.DeletePost | services/post/src/services/post.ts:240-254 | takes the deletion step: row, tag rows by cascade, one event, with every refusal |
| PostService.PostService.HandleUserDeleted | services/post/src/subscribers/user-deleted.ts:31-34 | archives exactly the posts of the author and appends nothing to the stream |
| Replication.PendingIsLastWriter | services/auth/src/subscribers/user-updated.ts:30-38 | applying partial updates in order leaves in each field the last value given to it |
| Replication.RunKeepsInv | services/auth/src/subscribers/user-updated.ts:25-45 | every call, delivery and permitted restart keeps the replication invariant of every account |
| Replication.CopiesDifferByPendingUpdates | services/user/src/services/user.ts:86-108 | over every run and interleaving of the three consumers: the pending updates applied to a credential give its profile; only the role can differ, after a bootstrap promotion no later role change overwrote |
| Replication.LoneCredentialIsExplained | services/user/src/subscribers/user-created.ts:29-37 | a credential without a profile has a pending created or deleted event, or its created event met a conflict |
| Replication.DrainedCopiesAgree | services/auth/src/subscribers/user-updated.ts:25-45 | when all three consumers are drained, both copies agree except for promotions and conflicts |
| Replication.UpdatesArriveIff | services/auth/src/subscribers/user-updated.ts:25-45 | the updated consumer can read its way to the end of the stream if and only if none of the pending updates, applied in order, meets a name or an address of another credential |
| Replication.UpdateCanStick | services/auth/src/subscribers/user-updated.ts:35-44 | concrete run: a rename collides for ever with an account whose created event was ignored, and that account can be neither renamed nor deleted |
| Replication.DeletedAccountStaysDeleted | services/user/src/services/user.ts:113-125 | once its deletion is published an account has no profile again, in any later run |
| Replication.RestartRevivesNoneIff | services/user/src/subscribers/user-created.ts:24-45 | after the created consumer goes back, no later run gives a deleted account a profile if and only if no account passed again was deleted |
| Replication.DeleteIsFinalIff | services/user/src/services/user.ts:113-125 | after an account is deleted, no later run gives it a profile again if and only if its created event does not await redelivery |
| Replication.RedeliveryRevivesAccount | services/user/src/subscribers/user-created.ts:29-40 | concrete run: a redelivered created event brings a deleted profile back, without a credential |
| Replication.RunKeepsUniqueColumns | services/auth/src/services/auth.ts:26-31 | user names and addresses stay unique in both tables over every run |
| AccountHistory.RunExplainsRoles | services/auth/src/services/auth.ts:24-52 | over every run, each role of a credential, of a profile and of a created event is user, or admin by a bootstrap that enrolled the account or met its address, or one that a call named for this account |
| AccountHistory.OthersStayUsers | services/auth/src/services/auth.ts:34 | a run without a bootstrap and without a call that names a role leaves everybody an ordinary user, in both tables and in the stream |
| AccountHistory.RegisterIff | services/auth/src/services/auth.ts:24-53 | a registration succeeds if and only if no credential has the name or the address, as an ordinary user in table and event |
| AccountHistory.BootstrapMakesAdmin | services/auth/src/services/auth.ts:161-202 | after any run the bootstrap makes the owner of the address an admin and nobody else; without an owner it enrols a new admin unless the name is taken |
| AccountHistory.UpdateUserWrites | services/user/src/services/user.ts:80-108 | a change of profile is accepted if and only if the profile exists and no other has the resulting name or address; it writes exactly the given fields of this profile and appends one event that gives just them |
| AccountHistory.UpdateUserRoleWrites | services/user/src/services/user.ts:41-70 | naming a role changes the role of that profile, nothing else of it and no other, and appends one event with the role only |
| AccountHistory.ProfileShowsLastBio | services/user/src/services/user.ts:86-90 | over every run a profile shows the biography last given in an accepted change since it was inserted |
| AuthService.AuthService.Enrol | services/auth/src/services/auth.ts:35-50 | adds exactly one credential and appends exactly its created event |
| AuthService.AuthService.Register | services/auth/src/services/auth.ts:24-53 | refuses if and only if name or address is taken, else takes the enrolment step with the role user |
| AuthService.AuthService.Login | services/auth/src/services/auth.ts:55-89 | for the credential with the address, if any: takes the login step, with the stored user name and role in the access token |
| AuthService.AuthService.Refresh | services/auth/src/services/auth.ts:91-129 | takes the rotation step; the access token carries the current name and role of the owner of the spent token |
| AuthService.AuthService.ChangePassword | services/auth/src/services/auth.ts:131-152 | takes the password step: new secret, all rows of the user gone, accounts untouched |
| AuthService.AuthService.BootstrapAdmin | services/auth/src/services/auth.ts:161-202 | promotes the owner of the address or enrols an admin; fails if and only if the address is free and the name is taken |
| AuthService.AuthService.MergeFields | services/auth/src/subscribers/user-updated.ts:30-33 | only given, nonempty fields replace those of the credential |
| AuthService.AuthService.TakeUpdated | services/auth/src/subscribers/user-updated.ts:25-45 | takes the delivery step; an update that a unique column refuses stays to be delivered |
| AuthService.AuthService.TakeDeleted | services/auth/src/subscribers/user-deleted.ts:25-34 | takes the delivery step and ends the sessions of the removed user by cascade |
| UserService.UserService.UpdateUser | services/user/src/services/user.ts:80-111 | takes the profile step of module Identity on table, stream and reply |
| UserService.UserService.UpdateUserRole | services/user/src/services/user.ts:41-70 | takes the role step of module Identity on table, stream and reply |
| UserService.UserService.DeleteUser | services/user/src/services/user.ts:113-125 | takes the deletion step of module Identity on table, stream and reply |
| UserService.UserService.TakeCreated | services/user/src/subscribers/user-created.ts:24-45 | takes the delivery step: inserts the profile unless id, name or address is in use |
| Sessions.TokenRowsCountLogins | services/auth/src/services/auth.ts:109-126 | over every serial run a user has exactly as many token rows as logins since the last password change or removal |
| Sessions.TokenTableCountsLogins | services/auth/src/services/auth.ts:144-151 | the same from the empty tables |
| Sessions.TokensAreSingleUse | services/auth/src/services/auth.ts:109-110 | over every serial run each raw token is redeemed at most once and no live row is of a redeemed token |
| Sessions.RunKeepsProvenance | services/auth/src/services/auth.ts:91-128 | every live token descends, through successful refreshes, from a login of the same user with no later password change or removal |
| Sessions.RefreshNeedsLogin | services/auth/src/services/auth.ts:91-107 | a refresh succeeds only with such a token, never redeemed before |
| SessionHistory.LoginIff | services/auth/src/services/auth.ts:55-66 | after any run a login succeeds if and only if the password is the one last set for the user (on adding, or by a change that named the one before it, with no removal since) and the user is active |
| SessionHistory.ChangePasswordIff | services/auth/src/services/auth.ts:131-142 | a password is changed if and only if the one last set is named; an unknown user is told apart |
| SessionHistory.RefreshIff | services/auth/src/services/auth.ts:91-107 | a refresh succeeds if and only if its token was handed out by a login or a refresh, neither redeemed nor ended by a change of password or a removal since, has not expired, and its user is active |
| SessionHistory.TableHoldsLiveTokens | services/auth/src/services/auth.ts:109-126 | over every run the token table holds exactly these tokens, each with its user and its expiry |
| Comments.RunKeepsForest | services/comment/src/services/comment.ts:20-35 | over every run of creation, single deletion, deletion by post and by author: a parent was created before its child, so links form no cycle, and a surviving parent is on the same post |
| Comments.RunKeepsParents | services/comment/src/subscribers/post-deleted.ts:29 | creating comments and deleting whole posts leaves no comment without its parent |
| CommentHistory.TableHoldsLiving | services/comment/src/services/comment.ts:14-35 | over every run, read off the calls alone: the table holds exactly the comments created under no parent or under one that was there on the same post, and not taken away since |
| CommentHistory.GoneIff | services/comment/src/services/comment.ts:97-107 | a comment is gone later if and only if its author or an admin deleted it, or its post or its author went; until then it never changes |
| CommentHistory.LogTellsCalls | services/comment/src/services/comment.ts:37-47 | over every run the stream holds one event for each creation and each single deletion, in their order, and no other |
| CommentHistory.RefusedIff | services/comment/src/services/comment.ts:98-105 | which creations and deletions are refused, in terms of the calls before |
| CommentService.CommentService.CreateComment | services/comment/src/services/comment.ts:14-48 | takes the creation step on table, stream and reply; a parent missing or on another post is refused |
| CommentService.CommentService.DeleteComment | services/comment/src/services/comment.ts:97-115 | takes the deletion step; a missing comment and a foreign one are refused alike |
| CommentService.CommentService.HandlePostDeleted | services/comment/src/subscribers/post-deleted.ts:29 | deletes exactly the comments of the post and appends nothing |
| CommentService.CommentService.HandleUserDeleted | services/comment/src/subscribers/user-deleted.ts:29 | deletes exactly the comments of the author and appends nothing |
| Threads.BuildReplyMap | services/frontend/src/pages/PostPage.tsx:220-225 | the one-pass map holds, for every id, exactly the replies to it in list order |
| Threads.ChainIsUnique | services/frontend/src/pages/PostPage.tsx:232-279 | a comment has at most one chain of parents to a parentless comment, even among cyclic links |
| Threads.ChainFits | services/frontend/src/pages/PostPage.tsx:232-279 | such a chain is no longer than the list, which is why the recursion ends |
| Threads.BelowIsDisjoint | services/frontend/src/pages/PostPage.tsx:272-276 | the threads below two different siblings share no comment |
| Threads.RenderCommentContents | services/frontend/src/pages/PostPage.tsx:232-279 | rendering a comment emits exactly the comments whose chain passes through it |
| Threads.PageShowsRootedOnce | services/frontend/src/pages/PostPage.tsx:218-279 | for every list with distinct ids, cyclic or not: no comment appears twice, and one appears if and only if its chain inside the list reaches a parentless comment |
| ThreadOrder.PageKeepsOrder | services/frontend/src/pages/PostPage.tsx:218-279 | of two shown comments the one above the other stands first; where their chains part, the one under the sibling that the list names first |
| ThreadOrder.ChainsAreOrdered | services/frontend/src/pages/PostPage.tsx:218-279 | any two chains are ordered in this way, so the whole page is determined |
| ThreadPages.GetCommentsByPost | services/comment/src/services/comment.ts:50-71 | returns the requested page of the comments of the post, newest first, and their total |
| ThreadPages.OfPostIsNewestFirst | services/comment/src/services/comment.ts:53-59 | what the query selects from the table is the list of exactly the comments of the post, newest first |
| ThreadPages.NewestFirstExists | services/comment/src/services/comment.ts:57 | every reachable table has such a list for every post |
| ThreadPages.WindowShowsIff | services/frontend/src/pages/PostPage.tsx:167-279 | after any run, deletions included: of the newest comments it receives, the page shows exactly those whose chain of parents survives and begins among them, none twice |
| ThreadPages.WindowByAge | services/comment/src/services/comment.ts:57-59 | a comment is among the newest m of its post if and only if fewer than m are newer |
| ThreadPages.PageShowsIffRootIsRecent | services/frontend/src/pages/PostPage.tsx:167-279 | service and page together, without single or author deletions: a comment is shown if and only if the parentless comment above it has fewer than limit newer comments on the post |
| ThreadPages.ShortPageShowsEveryComment | services/comment/src/routes/comments.ts:39-41 | as long as a post has no more comments than the limit, its page shows each of them exactly once |
| ThreadPages.RepliesHideThread | services/comment/src/routes/comments.ts:39-41 | once a comment has limit replies, its page shows nothing at all |
| ThreadPages.TwentyRepliesHideThread | services/shared/src/schemas.ts:58-61 | concrete input: one comment and twenty replies, under the default limit |
| ThreadPages.NineteenRepliesDoNot | services/shared/src/schemas.ts:58-61 | with nineteen the page still shows the whole thread |
| Captcha.AnswerMatchesIff | services/captcha/src/captcha.ts:176-186 | an answer counts if and only if its lower-cased text is the expected one up to trailing NUL characters, which the padding hides |
| Captcha.RightAnswerWithNulExample | services/captcha/src/captcha.ts:176-186 | concrete input: a right answer with a NUL behind it counts |
| Captcha.PruningIsUnobservable | services/captcha/src/captcha.ts:197-206 | with a nondecreasing clock the store with cleanups at arbitrary moments answers exactly as one that never prunes |
| Captcha.ChallengeIsPassedIff | services/captcha/src/captcha.ts:154-186 | from picture to verdict: a new challenge is passed exactly within two minutes and by exactly the answers that agree with its text up to case and trailing NULs |
| Captcha.ChallengeStore.VerifyChallenge | services/captcha/src/captcha.ts:169-193 | the challenge is gone afterwards in every case, and the verdict is that of its answer and lifetime |
| Captcha.ChallengeStore.Cleanup | services/captcha/src/captcha.ts:197-206 | the loop removes exactly the expired challenges |
| CaptchaTokens.UseKeepsFaithful | services/auth/src/routes/auth.ts:45-57 | after each use the pruned map still knows every token id exactly as the full record does, and a use succeeds if and only if the record does not block it |
| CaptchaTokens.PrunedMapAnswersAsRecord | crates/gateway/src/middleware/auth.rs:250-273 | over every sequence of attempts in clock order, whatever their retentions, an id is refused if and only if an earlier use of it is retained beyond now |
| CaptchaTokens.UsedPruningIsUnobservable | crates/gateway/src/middleware/auth.rs:250-273 | over every sequence of attempts in clock order, each before the expiry of its id, the pruned map answers exactly as the plain ever-growing set of accepted ids |
| CaptchaTokens.AuthAcceptsIff | services/auth/src/routes/auth.ts:12-58 | given everything it ever accepted, the auth service lets exactly the signed tokens pass that are marked as verified, not expired, and without an id or with one under which no use is retained beyond now; and every token when the check is switched off |
| CaptchaTokens.AuthRemembers | services/auth/src/routes/auth.ts:45-57 | it then remembers the id until the expiry of the token, or for 300 seconds without one, and otherwise nothing more |
| CaptchaTokens.GatewayAcceptsIff | crates/gateway/src/middleware/auth.rs:229-282 | the same for the gateway, where the library judges signature and expiry and an empty id counts as an id |
| CaptchaTokens.SecondUseOnlyAtExpiry | services/auth/src/routes/auth.ts:40-57 | a token accepted before is accepted again if and only if the check falls in the very second of its expiry |
| CaptchaTokens.GatewayWindow | crates/gateway/src/middleware/auth.rs:250-273 | with a library that allows some leeway behind the expiry, a token accepted before is accepted again by the gateway if and only if the check falls between expiry and end of the leeway |
| CaptchaTokens.TokenAcceptedTwiceAtExpiry | services/auth/src/routes/auth.ts:40-57 | concrete input: at that second the auth service accepts the same token twice |
| CaptchaTokens.TokenAcceptedAgainAtGateway | crates/gateway/src/middleware/auth.rs:250-273 | concrete input: the gateway accepts a used token again at its expiry |
| CaptchaTokens.UsedTokens.PruneExpired | services/auth/src/routes/auth.ts:46-50 | the loop removes exactly the entries whose expiry is reached |
| CaptchaTokens.UsedTokens.VerifyAtAuth | services/auth/src/routes/auth.ts:12-58 | takes the step of the auth check on map and reply, error by error |
| CaptchaTokens.UsedTokens.VerifyAtGateway | crates/gateway/src/middleware/auth.rs:229-282 | takes the step of the gateway check on map and reply, error by error |
| CaptchaIssues.StepKeepsIssues | services/captcha/src/captcha.ts:169-193 | every step keeps: each token was issued for a try of its own, a right answer in time, before which no answer had been sent to that challenge |
| CaptchaPipeline.EarlyUseIsFirst | services/auth/src/routes/auth.ts:40-57 | a check that succeeds before expiry is the first successful one with its token |
| CaptchaPipeline.UsesMapToAnsweredChallenges | services/auth/src/routes/auth.ts:35-57 | over every run with a monotone clock and restarts of both services: tokens map one-to-one to challenges, each answered correctly, in time, by the first of all tries at it; and within each life of the auth service the checks that succeed before expiry map one-to-one to issued tokens |
| CaptchaPipeline.OneLifeAcceptsOnce | services/auth/src/routes/auth.ts:8-9 | without a restart of the auth service, no token is accepted twice before its expiry in the whole run |
| CaptchaRestarts.RestartAcceptsTwice | services/auth/src/routes/auth.ts:8-9 | concrete run: with one, it can be |
| CaptchaIssues.TriedChallengeIssuesNothing | services/captcha/src/captcha.ts:170-173 | once an answer was sent for a challenge, no later answer to it yields a token |
| CaptchaIssues.RestartEndsChallenges | services/captcha/src/captcha.ts:10 | a restart of the captcha service forgets the open challenges, so that no answer to one of them yields a token |
| Listing.ListedMayBeFetched | services/post/src/services/post.ts:143-160 | for every caller and query, each listed post may be fetched directly by that caller |
| Listing.ListedIffFetchable | services/post/src/routes/posts.ts:20-29 | a post is listed by some query of a caller if and only if that caller may fetch it directly |
| Listing.ListedIff | services/post/src/services/post.ts:143-160 | a post of the table is listed if and only if it is by the author asked for, if any; is published, unless the caller is an admin or the writer whose posts are asked for; and has the status asked for, if one of these two asks for any |
| Listing.ListIsFilteredTable | services/post/src/routes/posts.ts:20-29 | the list is the table in its order without the posts that fail that condition |
| Listing.PagesCoverList | services/post/src/services/post.ts:163 | pages one to ceil(total/limit) concatenate to the filtered list |
| Listing.ListPosts | services/post/src/services/post.ts:139-180 | the imperative selection returns the page of exactly the matching posts, and their total |
| Listing.FetchAllPosts | services/frontend/src/pages/admin/AdminMediaTab.tsx:80-92 | the client loop terminates on a fixed table and returns every matching post exactly once, in order |
| MediaLibrary.ExtractAllMediaIds | services/frontend/src/pages/admin/AdminMediaTab.tsx:62-68 | the scanning loop returns the ids of all leftmost greedy matches in order |
| MediaLibrary.EmbeddedIsCaptured | services/frontend/src/pages/admin/AdminMediaTab.tsx:62-68 | no earlier match swallows an embedded link, and the greedy run ends at its parenthesis: the id is captured exactly |
| MediaLibrary.CapturedIsPresent | services/frontend/src/pages/admin/AdminMediaTab.tsx:62-68 | every captured text is an id whose address occurs in the content |
| MediaLibrary.FindOrphans | services/frontend/src/pages/admin/AdminMediaTab.tsx:108-131 | client and server together: no file offered for deletion is embedded in a post if and only if the posts could be fetched or none of them embeds any of the files |
| MediaLibrary.FetchedProtects | services/frontend/src/pages/admin/AdminMediaTab.tsx:111-120 | when the posts were fetched, no file that one of them embeds is offered |
| MediaLibrary.FailedFetchOffersEmbedded | services/frontend/src/pages/admin/AdminMediaTab.tsx:97-131 | concrete input: when fetching them failed, a file that the only post shows is offered |
| MediaLibrary.UnmentionedIsOffered | services/frontend/src/pages/admin/AdminMediaTab.tsx:130-131 | a file whose address occurs in no post is offered |
| MediaLibrary.OrphansAreFiltered | services/frontend/src/pages/admin/AdminMediaTab.tsx:130-131 | the files offered are the media list in its order without the referenced ones |
| Text.SlugifyShape | services/post/src/services/post.ts:14-20 | a slug base is [a-z0-9-], at most 200 characters, without leading dash, with a trailing dash only at exactly 200 |
| SlugWords.UncutJoinsWords | services/post/src/services/post.ts:14-20 | the uncut slug base of every title is the list of words of what is kept of it (the nonempty pieces between white space and underscores), joined by single dashes, without the dashes at both ends |
| SlugWords.DashesAreStripped | services/post/src/services/post.ts:19 | at both ends exactly the dashes are missing from the joined words |
| SlugWords.UncutWithoutDashes | services/post/src/services/post.ts:18-19 | for a title without dashes it is exactly the words joined by dashes |
| SlugWords.RunBecomesOneDash | services/post/src/services/post.ts:18 | whatever run of white space and underscores stands between two words, the slug has one dash there |
| SlugWords.CapitalsCountAsSmall | services/post/src/services/post.ts:16 | a capital letter counts as the small one, anywhere in a title |
| SlugWords.OtherCharactersVanish | services/post/src/services/post.ts:17 | punctuation and letters outside ASCII leave no trace (two letters with an ASCII lower-case form excepted) |
| Text.SlugifyAgain | services/post/src/services/post.ts:14-20 | a slug base is its own slug base if and only if not both the uncut slug exceeds 200 characters and its 200th is a dash |
| Text.ShortTitleIsNotCut | services/shared/src/schemas.ts:37 | a title within the limit of the request schema is never cut, so its slug base is final |
| Text.CutLeavesDash | services/post/src/services/post.ts:20 | concrete input: 199 letters, a dash and a letter |
| Text.SlugifyStabilizes | services/post/src/services/post.ts:14-20 | from the second application on, slugify changes nothing |
| Text.SplitAppend | crates/gateway/src/middleware/rate_limit.rs:68 | a separator between two texts puts the pieces of the one before the pieces of the other |
| Text.ParsedTagsArePlain | services/frontend/src/pages/EditPage.tsx:266 | parsed tags are nonempty, without comma and without outer white space |
| Text.TagFieldRoundTrip | services/frontend/src/pages/EditPage.tsx:198 | opening and saving a post keeps its tag list if and only if every tag is plain in that sense |
| Text.ParsedTagsRoundTrip | services/frontend/src/pages/EditPage.tsx:266 | for every text typed into the field, printing and parsing the parsed list gives the same list |
| Tags.EditedTagsAreShown | services/frontend/src/pages/SearchPage.tsx:99-103 | for every lower-casing that keeps plain tags plain: the tags the editor parses, the service stores and the indexer joins are the tags the search page parses |
| Utf8.DecodeEncode | crates/media/src/handlers.rs:420 | decoding the UTF-8 bytes of a text gives the text back |
| Utf8.EncodeInjective | services/captcha/src/captcha.ts:176-177 | different texts have different UTF-8 bytes |
| ContentDisposition.HeaderIsPrintable | crates/media/src/handlers.rs:433-440 | the header of every name is printable ASCII, so the fallback is never taken |
| ContentDisposition.ContentDispositionHeader | crates/media/src/handlers.rs:406-441 | the byte loop, the format and the fallback together build exactly the header |
| ContentDisposition.PercentRoundTrip | crates/media/src/handlers.rs:419-431 | percent-decoding by section 3.2.1 of RFC 5987 inverts the encoding, for all bytes |
| ContentDisposition.HeaderIsRead | crates/media/src/handlers.rs:433-436 | a parser for the grammar of section 4.1 of RFC 6266 reads kind, ASCII name and extended value back unambiguously |
| ContentDisposition.AsciiNameIsRead | crates/media/src/handlers.rs:406-417 | a reader without the extended value gets the visible ASCII characters of the name except quotes and backslashes, or the name download if there are none |
| ContentDisposition.PercentByteWrites | crates/media/src/handlers.rs:419-430 | letters, digits and the twelve marks stand for themselves, every other byte is a percent sign and two capital hexadecimal digits |
| ContentDisposition.ExtTextIsRead | crates/media/src/handlers.rs:433-436 | the extended value reads as charset UTF-8, no language and the original bytes |
| ContentDisposition.HeaderRoundTrip | crates/media/src/handlers.rs:406-441 | reading the header of a file gives back exactly its original name, whatever it is |
| Filenames.LastComponent | crates/media/src/handlers.rs:345 | the longest suffix without a path separator |
| Filenames.CutIsLongestFit | crates/media/src/handlers.rs:350-358 | a prefix takes at most 255 UTF-8 bytes if and only if it is no longer than the cut |
| Filenames.Truncate | crates/media/src/handlers.rs:350-358 | the accumulating loop computes that cut |
| Filenames.SanitizeFilename | crates/media/src/handlers.rs:343-365 | component, control characters, cut and fallback together compute the stored name |
| Filenames.SanitizedIsClean | crates/media/src/handlers.rs:343-365 | every stored name is nonempty, not all dots, at most 255 bytes, without separators and control characters |
| Filenames.FallsBackIff | crates/media/src/handlers.rs:360-364 | a text of which nothing but dots is kept is stored as upload, every other one as its cut |
| Filenames.SanitizeFixpoints | crates/media/src/handlers.rs:343-365 | a name is left alone if and only if it has a character that is no dot, takes at most 255 bytes, and holds no slash, no backslash and no control character |
| Filenames.SanitizeIdempotent | crates/media/src/handlers.rs:343-365 | sanitizing a stored name changes nothing |
| Filenames.SanitizedIsLongestPrefix | crates/media/src/handlers.rs:350-365 | unless it falls back, the stored name is the longest prefix of the cleaned component within 255 bytes |
| Filenames.DirectoryIsIgnored | crates/media/src/handlers.rs:345 | a directory in front of a name does not change the stored name |
| ClientAddress.ExtractClientIp | crates/gateway/src/middleware/rate_limit.rs:42-83 | the reverse loop with its early returns computes the walk |
| ClientAddress.WalkStops | crates/gateway/src/middleware/rate_limit.rs:68-78 | the walk yields the rightmost entry that is not a trusted address, and nothing when all are trusted |
| ClientAddress.ClientIsPeerOrForwarded | crates/gateway/src/middleware/rate_limit.rs:55-82 | the client is the peer, or an untrusted header entry all of whose right-hand neighbours are trusted, and then the peer is trusted |
| ClientAddress.ForwardedIff | crates/gateway/src/middleware/rate_limit.rs:62-79 | exactly when the header makes the walk leave the peer for a given address |
| ClientAddress.PaddedEntryIsRead | crates/gateway/src/middleware/rate_limit.rs:68-70 | an entry reads the same with blanks and tabs around it |
| ClientAddress.PrependedTextIsIgnored | crates/gateway/src/middleware/rate_limit.rs:62-79 | text and a comma put in front of a header at which the walk stops change nothing if and only if the text is visible ASCII or the result was the peer anyway |
| ClientAddress.UnreadableTextHidesClient | crates/gateway/src/middleware/rate_limit.rs:63-66 | concrete input: an accented letter in front of the header makes the gateway count the peer |
| ClientAddress.TrustedTailIsSkipped | crates/gateway/src/middleware/rate_limit.rs:62-79 | when every entry is trusted, the walk goes on into the text in front |

## Left out

- Crashes between a table write and the publication after it, and interleavings inside one call (two
  concurrent refreshes of one token, two concurrent creations under one slug): calls are serial steps.
- Individually delayed redelivery of one old event after newer ones as a step of the runs, for the index
  beyond the lemmas named above, and for accounts and comments altogether.
- Texts outside the tags that the database refuses (a NUL in a title or content): the call fails before
  anything is written. Lone surrogates of a JavaScript string do not exist in a Dafny string.
- Replication.RestartRevivesNoneIff: the run it builds renames profiles to any unused nonempty text; the formats of names and addresses in the request schemas are not modelled.
- Captcha.ChallengeStore.GenerateChallenge: the drawing of the random characters is not modelled, the text is an argument.
- SearchIndexer.Subscribe: the index is writable, as the indexer opens it.
- Malformed payloads and failing handlers of the search indexer, retention, acknowledgement timeouts
  and clustering of the stream.
- PostService.PostService.GetPostTags: the join is modelled in insertion order, although the query asks for none.
- Listing.ListPosts: the order of the query is a given fixed order of the table; rows with equal creation times could change places between two queries.
- ThreadPages.GetCommentsByPost: as for posts, the comments come in a given order, and comments created at the same instant have no order of their own in the query.
- Slugs.FirstFree: the counter is an unbounded integer, not a JavaScript number.
- Text.SlugifyShape: lower-casing outside ASCII is modelled only for the two characters whose lower-case form contains an ASCII letter, because all others are dropped by the next step.
- Captcha.AnswerMatchesIff: lower-casing outside ASCII as for slugs; the text of a picture is ASCII.
- ContentDisposition.HeaderIsRead: the parser reads tokens, quoted strings and parameters; obsolete line folding and comments of older grammars are not part of it.
- ClientAddress.ExtractClientIp: only the first header line of that name is seen, as in the code; how an address is written back as text is not modelled.
- CaptchaTokens.UsedTokens.VerifyAtGateway: signature and expiry are checked by a library; its verdict is a parameter.
- Sessions.RefreshNeedsLogin: hashes and secrets are injective and cannot be guessed.
- Length limits of request schemas other than those named above (tags, titles, names, passwords), and time stamps set by database defaults on tags, comments and accounts.
- The fields of a profile that no event carries beyond the biography, the active flag of a profile, and the reply shapes of the HTTP routes.
- `sanitize_extension`, `sanitize_content_type`, media storage, notifications, user listing and the comment listing of the admin page: single branches or plain reads.
- The check of a route that only writers and admins create posts, which calls the service behind one comparison of the role.
- HTTP and database wiring, health checks, configuration, CORS, public paths, the key-set cache and access-token verification at the gateway, and the rate limiter itself.
- Query parsing, scoring and snippets of the search index: library code.
- Rendering of captcha pictures, React components and styles, Markdown rendering.
- Deployment files: configuration with no algorithm.
