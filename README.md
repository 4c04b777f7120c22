# Pull-request bookkeeping of the Skara tooling, verified in Dafny

This project models two parts of the Skara tooling for OpenJDK.

The first is the decision logic in `GitHubPullRequest`. This is the logic
that interprets what the GitHub forge answers about a pull request:
- the review listing, collapsed to the latest review of each reviewer and sorted by reviewer id;
- the review-state strings and the events `addReview` posts;
- the review comments, threaded through an id-to-comment map;
- the check-run listing, keyed by name;
- the check-run query `updateCheck` posts;
- the body, the labels, and the 404 rule of `removeLabel`.

JSON objects become plain records (`ReviewRecord`, `CommentRecord`,
`CheckRunRecord`). A user is a `User(id, userName)` that has already been
looked up. Timestamps are opaque strings.

The second is the contributor commands of the pull-request bot, as
`ContributorTests` fixes them. The bot's command classes are not part of
this model, so `ContributorBot` is a reference state machine:
- `/contributor add|remove Full Name <email>` edits an ordered list of contributors;
- every command gets a reply;
- only the author of the pull request may issue commands;
- each contributor is credited by a `Co-authored-by: Full Name <email>` line in the commit message;
- the "can now be integrated" notice is posted once, then refreshed in place;
- `/integrate` records the commit message.

A bot run answers the comments posted since the previous run, then posts the notice. It is specified by the pure function `BotRun` on a `Snapshot`, which holds the comment stream, how far it has been handled, and the contributors. The class `PullRequest` holds the same state in fields, and its `Run` method is proved against `BotRun`. `ContributorScenarios` drives the class through the two tests, `simple` and `invalidCommandAuthor`. The assertions of the tests become `ensures` clauses of the scenario methods. A reply the test reads as the last comment is taken from the stream after the run. The test's count of comments that contain a phrase is `MentionCount`, a count of comments with a line containing the phrase. The credit-line searches become membership of `CreditLine` in the notice or the commit message. The materialised repository is left out (see below).

Modules:
- `Wrappers`: `Option`, `Result` and `Outcome`.
- `StringOrder`: Java's natural order on strings, sorted key lists, and an insertion sort.
- `GitHubReviews`: `getReviews` and `addReview`.
- `GitHubReviewComments`: `parseReviewComment` and `getReviewComments`.
- `GitHubChecks`: `getChecks` and `updateCheck`.
- `GitHubFields`: `getBody`, `getLabels` and `removeLabel`.
- `ContributorBot` and `ContributorScenarios`: the bot.

## Model

| member | source | states |
|---|---|---|
| GitHubReviews.ParseVerdict | host/src/main/java/org/openjdk/skara/host/github/GitHubPullRequest.java:74-84 | "APPROVED" decodes to Approved, "REQUEST_CHANGES" to Disapproved, and every other state string to NoVerdict, each as an if-and-only-if |
| GitHubReviews.ParseReviews | host/src/main/java/org/openjdk/skara/host/github/GitHubPullRequest.java:68-87 | one review per record, in listing order, each decoded from its own record |
| GitHubReviews.LatestByReviewer | host/src/main/java/org/openjdk/skara/host/github/GitHubPullRequest.java:89-92 | each review in the map is filed under its reviewer's id |
| GitHubReviews.LatestByReviewerSpec | host/src/main/java/org/openjdk/skara/host/github/GitHubPullRequest.java:89-92 | the map filled by the loop has exactly the reviewers' ids as keys; each entry is a review of that reviewer from the input; and every review that is its reviewer's last one is the entry for that reviewer (later puts overwrite earlier ones) |
| GitHubReviews.EntriesOfLatestAreCollapse | host/src/main/java/org/openjdk/skara/host/github/GitHubPullRequest.java:89-97 | taking the map's values sorted by key gives the collapse: strictly ascending reviewer ids, the same reviewer set as the input, and each reviewer's last review |
| GitHubReviews.GetReviews | host/src/main/java/org/openjdk/skara/host/github/GitHubPullRequest.java:66-98 | the loop that fills the map, followed by the sort, returns the collapse of the decoded listing, with no more reviews than records |
| GitHubReviews.CollapseUnique | host/src/main/java/org/openjdk/skara/host/github/GitHubPullRequest.java:94-97 | there is exactly one collapse of a listing, so the result of getReviews is determined by the listing |
| GitHubReviews.EntryIsLatest | host/src/main/java/org/openjdk/skara/host/github/GitHubPullRequest.java:89-92 | every review returned is the last review of its reviewer in the listing |
| GitHubReviews.IdsBound | host/src/main/java/org/openjdk/skara/host/github/GitHubPullRequest.java:89-97 | there are no more distinct reviewer ids than reviews |
| GitHubReviews.LatestWinsExample | host/src/main/java/org/openjdk/skara/host/github/GitHubPullRequest.java:66-98 | on a concrete listing, a later disapproval replaces an approval by the same reviewer, and a review of an older commit is still returned, because reviews are not filtered by commit |
| GitHubReviews.AddReviewQuery | host/src/main/java/org/openjdk/skara/host/github/GitHubPullRequest.java:101-115 | Approved posts "APPROVE", Disapproved posts "REQUEST_CHANGES" and NoVerdict posts "COMMENT", each as an if-and-only-if; a body is sent exactly when the verdict is not Approved |
| GitHubReviews.AddReviewEventInjective | host/src/main/java/org/openjdk/skara/host/github/GitHubPullRequest.java:103-114 | two verdicts post the same event exactly when they are equal |
| GitHubReviewComments.ParseReviewComment | host/src/main/java/org/openjdk/skara/host/github/GitHubPullRequest.java:121-135 | every field is copied from the record; a comment without a parent starts a thread named by its own id, and a reply inherits its parent's thread id |
| GitHubReviewComments.LastWithId | host/src/main/java/org/openjdk/skara/host/github/GitHubPullRequest.java:170-179 | the comment the id-to-comment map holds for an id is the last earlier record with that id, or none if there is no such record |
| GitHubReviewComments.GetReviewComments | host/src/main/java/org/openjdk/skara/host/github/GitHubPullRequest.java:162-182 | the output has the input's length and order; the comment at position i has as its parent the output comment of the last earlier record whose id is its in_reply_to_id, and has no parent when there is none; its thread id follows ParseReviewComment |
| GitHubReviewComments.ThreadIdNamesRoot | host/src/main/java/org/openjdk/skara/host/github/GitHubPullRequest.java:123 | every thread id is the id of a parentless comment at or before that position |
| GitHubChecks.DecodeCheck | host/src/main/java/org/openjdk/skara/host/github/GitHubPullRequest.java:273-287 | name, commit and start are copied; the check is finished iff the status is "completed"; it succeeded iff it is completed with conclusion "success"; completed_at is read only for a completed run; metadata is present iff external_id is |
| GitHubChecks.GetChecksSpec | host/src/main/java/org/openjdk/skara/host/github/GitHubPullRequest.java:268-288 | getChecks succeeds iff no two runs share a name; on success the keys are exactly the run names and each name maps to its run's decoded check; on failure the error names a name that two runs share |
| GitHubChecks.GetChecks | host/src/main/java/org/openjdk/skara/host/github/GitHubPullRequest.java:268-288 | on success, every key maps to the check of that name |
| GitHubChecks.LevelName | host/src/main/java/org/openjdk/skara/host/github/GitHubPullRequest.java:320-330 | "notice" iff NOTICE, "warning" iff WARNING, "failure" iff FAILURE |
| GitHubChecks.LevelNameInjective | host/src/main/java/org/openjdk/skara/host/github/GitHubPullRequest.java:320-330 | NOTICE, WARNING and FAILURE are sent as three distinct strings |
| GitHubChecks.EncodeAnnotation | host/src/main/java/org/openjdk/skara/host/github/GitHubPullRequest.java:313-334 | an annotation's level is sent under its level name |
| GitHubChecks.UpdateCheckQuery | host/src/main/java/org/openjdk/skara/host/github/GitHubPullRequest.java:304-359 | the posted query always has status "completed"; it has a conclusion and completed_at iff the check is not in progress, with "success" iff SUCCESS and "failure" iff FAILURE, and completed_at defaults to the clock; it has an output iff both title and summary are present, and then one annotation per annotation, in order |
| GitHubChecks.UpdateThenDecode | host/src/main/java/org/openjdk/skara/host/github/GitHubPullRequest.java:340-356 | for a finished check, decoding the run that was posted gives back its name, commit, start, status, metadata and completion time |
| GitHubFields.GetBody | host/src/main/java/org/openjdk/skara/host/github/GitHubPullRequest.java:210-216 | a null body reads as "", and any other body is returned unchanged |
| GitHubFields.GetLabels | host/src/main/java/org/openjdk/skara/host/github/GitHubPullRequest.java:390-396 | the label names come back in ascending order, as a permutation of the listing |
| GitHubFields.AscendingPermutationUnique | host/src/main/java/org/openjdk/skara/host/github/GitHubPullRequest.java:394 | there is only one ascending arrangement of a list of names, so the result of getLabels is determined |
| GitHubFields.RemoveLabel | host/src/main/java/org/openjdk/skara/host/github/GitHubPullRequest.java:377-387 | the call succeeds iff the delete succeeded or the forge answered 404; any other status is an "Invalid response" error |
| GitHubFields.RemoveLabelIdempotent | host/src/main/java/org/openjdk/skara/host/github/GitHubPullRequest.java:379-383 | against a forge that answers 404 for a label that is not set, removing a label succeeds and leaves it unset, and removing it again also succeeds and changes nothing |
| StringOrder.LessIsStrictTotalOrder | host/src/main/java/org/openjdk/skara/host/github/GitHubPullRequest.java:95 | the order used to sort keys is irreflexive, transitive and total |
| StringOrder.SortedKeys | host/src/main/java/org/openjdk/skara/host/github/GitHubPullRequest.java:94-95 | the keys of a map in strictly ascending order, each exactly once |
| StringOrder.StrictlyAscendingUnique | host/src/main/java/org/openjdk/skara/host/github/GitHubPullRequest.java:94-95 | two strictly ascending lists with the same elements are equal |
| StringOrder.SortStrings | host/src/main/java/org/openjdk/skara/host/github/GitHubPullRequest.java:394 | the result is ascending and a permutation of the input |
| ContributorBot.ParseFormat | bots/pr/src/test/java/org/openjdk/skara/bots/pr/ContributorTests.java:69 | a valid contributor is read back from its "Full Name <email>" text |
| ContributorBot.FormatParse | bots/pr/src/test/java/org/openjdk/skara/bots/pr/ContributorTests.java:69 | whatever the bot reads as a contributor is valid, and formatting it gives back the text |
| ContributorBot.CreditLineInjective | bots/pr/src/test/java/org/openjdk/skara/bots/pr/ContributorTests.java:99-106 | two valid contributors get the same "Co-authored-by: " line only when they are the same contributor |
| ContributorBot.ParseContributorLines | bots/pr/src/test/java/org/openjdk/skara/bots/pr/ContributorTests.java:68-80 | the add line and the remove line of a valid contributor are read as those commands on that contributor |
| ContributorBot.ParseVerbLine | bots/pr/src/test/java/org/openjdk/skara/bots/pr/ContributorTests.java:62 | a "/contributor" line is read by its arguments |
| ContributorBot.UnreadableArgumentsAreSyntaxError | bots/pr/src/test/java/org/openjdk/skara/bots/pr/ContributorTests.java:61-62 | "/contributor hello" is a syntax error |
| ContributorBot.IndexOf | bots/pr/src/test/java/org/openjdk/skara/bots/pr/ContributorTests.java:69 | the first position of a character, or none when it does not occur; the name is cut there |
| ContributorBot.Without | bots/pr/src/test/java/org/openjdk/skara/bots/pr/ContributorTests.java:75-80 | the list without one contributor: the other members stay and no duplicate appears |
| ContributorBot.WithoutKeepsOrder | bots/pr/src/test/java/org/openjdk/skara/bots/pr/ContributorTests.java:75-80 | removing the contributor at position k of a duplicate-free list leaves the members before and after k, in their order |
| ContributorBot.AddStep | bots/pr/src/test/java/org/openjdk/skara/bots/pr/ContributorTests.java:68-73 | after "add", the contributor is listed; the old list is kept as a prefix with no duplicate added; and the reply contains "successfully added" |
| ContributorBot.RemoveStep | bots/pr/src/test/java/org/openjdk/skara/bots/pr/ContributorTests.java:75-87 | after "remove", the contributor is absent and the others stay, in their order when the list has no duplicate; a present contributor gets "successfully removed"; an absent one leaves the list unchanged and gets "was not found" |
| ContributorBot.RemoveTwice | bots/pr/src/test/java/org/openjdk/skara/bots/pr/ContributorTests.java:75-87 | removing twice leaves the list of the first removal, and the second reply says "was not found" |
| ContributorBot.CreditLine | bots/pr/src/test/java/org/openjdk/skara/bots/pr/ContributorTests.java:99-106 | the line starts with "Co-authored-by: ", and for a valid contributor the rest reads back as that contributor |
| ContributorBot.CommitMessage | bots/pr/src/test/java/org/openjdk/skara/bots/pr/ContributorTests.java:138-146 | the title; then, if there are contributors, a blank line and one credit line per contributor, in list order; the message is the title alone iff there are none |
| ContributorBot.CreditedIff | bots/pr/src/test/java/org/openjdk/skara/bots/pr/ContributorTests.java:141-146 | the commit message holds a contributor's exact credit line iff the contributor is listed |
| ContributorBot.NoticeBody | bots/pr/src/test/java/org/openjdk/skara/bots/pr/ContributorTests.java:99-111 | the notice body reads as the readiness notice |
| ContributorBot.NoticeIndex | bots/pr/src/test/java/org/openjdk/skara/bots/pr/ContributorTests.java:108-111 | the position of the bot's first notice, or none when there is no notice |
| ContributorBot.PostNoticeSpec | bots/pr/src/test/java/org/openjdk/skara/bots/pr/ContributorTests.java:108-124 | on a stream with at most one notice, posting leaves exactly one notice, which carries the new body; posting the same body again changes nothing |
| ContributorBot.RepliesAreNoNotices | bots/pr/src/test/java/org/openjdk/skara/bots/pr/ContributorTests.java:108-111 | no reply of the bot counts as a notice |
| ContributorBot.Handle | bots/pr/src/test/java/org/openjdk/skara/bots/pr/ContributorTests.java:61-91 | a comment gets a reply iff it is a command; a command from anyone but the author changes nothing and is answered with the "Only the author" reply; the commit message is recorded only on a ready change not yet integrated, and then it is the message of the current list; a duplicate-free list stays so |
| ContributorBot.BotRun | bots/pr/src/test/java/org/openjdk/skara/bots/pr/ContributorTests.java:63 | after a run every comment is handled; the stream only grows; every comment that is not the bot's notice stays where it was, unchanged |
| ContributorBot.ReplayKeepsDistinct | bots/pr/src/test/java/org/openjdk/skara/bots/pr/ContributorTests.java:89-91 | answering commands never lists a contributor twice |
| ContributorBot.NoticeAtMostOnce | bots/pr/src/test/java/org/openjdk/skara/bots/pr/ContributorTests.java:95-111 | a run keeps at most one notice; after a run on a ready, unintegrated change there is exactly one, showing the current commit message |
| ContributorBot.RunKeepsDistinct | bots/pr/src/test/java/org/openjdk/skara/bots/pr/ContributorTests.java:89-91 | a bot run keeps the contributor list free of duplicates |
| ContributorBot.BotRunIdempotent | bots/pr/src/test/java/org/openjdk/skara/bots/pr/ContributorTests.java:96-97 | running the bot a second time on an unchanged pull request changes nothing |
| ContributorBot.NonAuthorCommandRefused | bots/pr/src/test/java/org/openjdk/skara/bots/pr/ContributorTests.java:173-182 | a command from anyone but the author adds exactly one "Only the author" reply and changes no contributor; running again adds no second reply |
| ContributorBot.ApprovalMakesReady | bots/pr/src/test/java/org/openjdk/skara/bots/pr/ContributorTests.java:93-97 | an approval of the head commit by a census reviewer makes the change ready |
| ContributorBot.LaterVerdictWithdrawsApproval | host/src/main/java/org/openjdk/skara/host/github/GitHubPullRequest.java:89-92 | only the latest review counts: if the sole reviewer's last verdict is not an approval, the change is not ready |
| ContributorBot.PullRequest.constructor | bots/pr/src/test/java/org/openjdk/skara/bots/pr/ContributorTests.java:41-59 | a new pull request has no comments, reviews or contributors, and is not integrated |
| ContributorBot.PullRequest.AddComment | bots/pr/src/test/java/org/openjdk/skara/bots/pr/ContributorTests.java:62 | a comment is appended to the stream; nothing else changes |
| ContributorBot.PullRequest.AddReview | bots/pr/src/test/java/org/openjdk/skara/bots/pr/ContributorTests.java:94-95 | a review of the head commit is appended; nothing else changes |
| ContributorBot.PullRequest.AddContributor | bots/pr/src/test/java/org/openjdk/skara/bots/pr/ContributorTests.java:68-73 | the list and the reply are those of AddStep, and the list stays free of duplicates |
| ContributorBot.PullRequest.RemoveContributor | bots/pr/src/test/java/org/openjdk/skara/bots/pr/ContributorTests.java:75-87 | the loop that filters the list gives the list and the reply of RemoveStep |
| ContributorBot.PullRequest.Answer | bots/pr/src/test/java/org/openjdk/skara/bots/pr/ContributorTests.java:61-91 | one comment is answered as Handle says: non-commands are ignored; commands from anyone but the author are refused; syntax errors get the syntax reply; add and remove go through the list steps; and /integrate records the commit message on a ready change |
| ContributorBot.PullRequest.PostNoticeIfReady | bots/pr/src/test/java/org/openjdk/skara/bots/pr/ContributorTests.java:99-111 | the stream after the notice step: on a ready, unintegrated change the notice is posted or refreshed in place |
| ContributorBot.PullRequest.Run | bots/pr/src/test/java/org/openjdk/skara/bots/pr/ContributorTests.java:63 | the loop over the pending comments, followed by the notice step, leaves exactly the state that BotRun specifies, and keeps the class invariant |
| ContributorScenarios.RunOnOneComment | bots/pr/src/test/java/org/openjdk/skara/bots/pr/ContributorTests.java:62-63 | a run that finds one new comment appends its reply, then takes the notice step |
| ContributorScenarios.RunOnNothing | bots/pr/src/test/java/org/openjdk/skara/bots/pr/ContributorTests.java:96-97 | a run that finds no new comment only takes the notice step |
| ContributorScenarios.ReplyStaysLast | bots/pr/src/test/java/org/openjdk/skara/bots/pr/ContributorTests.java:66 | a reply is still the last comment after the notice step, when a notice already exists or none is due |
| ContributorScenarios.OneCommentRun | bots/pr/src/test/java/org/openjdk/skara/bots/pr/ContributorTests.java:62-66 | after one comment by the author and one run, the ledger is the one Handle gives and the reply, if any, is the last comment |
| ContributorScenarios.PostAndRun | bots/pr/src/test/java/org/openjdk/skara/bots/pr/ContributorTests.java:62-66 | the author posts a line and the bot runs once; the line's command is handled and its reply is the last comment; a letter that the line and the reply lack stays out of every comment but the notice |
| ContributorScenarios.PostAdd | bots/pr/src/test/java/org/openjdk/skara/bots/pr/ContributorTests.java:69-73 | posting an add line and running gives AddStep's list and reply, and the reply is the last comment |
| ContributorScenarios.PostRemove | bots/pr/src/test/java/org/openjdk/skara/bots/pr/ContributorTests.java:76-80 | posting a remove line and running gives RemoveStep's list and reply, and the reply is the last comment |
| ContributorScenarios.PostUnreadable | bots/pr/src/test/java/org/openjdk/skara/bots/pr/ContributorTests.java:61-66 | posting "/contributor hello" and running changes no contributor, and the last comment is the syntax reply |
| ContributorScenarios.PostIntegrate | bots/pr/src/test/java/org/openjdk/skara/bots/pr/ContributorTests.java:127-131 | "/integrate" on a ready change records the commit message of the current contributors, and the last comment is the reply naming the pushed commit |
| ContributorScenarios.RunIdle | bots/pr/src/test/java/org/openjdk/skara/bots/pr/ContributorTests.java:96-97 | a run with no new comment only posts or refreshes the notice |
| ContributorScenarios.ListSteps | bots/pr/src/test/java/org/openjdk/skara/bots/pr/ContributorTests.java:68-87 | adding to an empty list, removing, then removing again give [c], [] and [], with the three replies the test expects |
| ContributorScenarios.SyntaxReplyNamesSyntax | bots/pr/src/test/java/org/openjdk/skara/bots/pr/ContributorTests.java:66 | the syntax-error reply contains "Syntax" |
| ContributorScenarios.PushedReplySaysPushed | bots/pr/src/test/java/org/openjdk/skara/bots/pr/ContributorTests.java:131 | the integration reply contains "Pushed as commit" |
| ContributorScenarios.NoticeSaysIntegrable | bots/pr/src/test/java/org/openjdk/skara/bots/pr/ContributorTests.java:109 | the notice's first line contains "change can now be integrated" |
| ContributorScenarios.OnlyAuthorReplyNamesAuthor | bots/pr/src/test/java/org/openjdk/skara/bots/pr/ContributorTests.java:178-181 | the refusal contains "Only the author" |
| ContributorScenarios.MentionsAreNotices | bots/pr/src/test/java/org/openjdk/skara/bots/pr/ContributorTests.java:108-111 | when every comment but the bot's notices lacks a letter of the phrase, the comments mentioning the phrase are exactly the notices |
| ContributorScenarios.MissingCharacter | bots/pr/src/test/java/org/openjdk/skara/bots/pr/ContributorTests.java:108-111 | a text that lacks a letter of a phrase does not contain the phrase |
| ContributorScenarios.RunKeepsClear | bots/pr/src/test/java/org/openjdk/skara/bots/pr/ContributorTests.java:62-63 | a run on one comment keeps every letter the comment and its reply lack out of every comment but the notice |
| ContributorScenarios.AnnounceKeepsClear | bots/pr/src/test/java/org/openjdk/skara/bots/pr/ContributorTests.java:96-97 | the notice step changes no comment but the notice |
| ContributorScenarios.AddThenRemove | bots/pr/src/test/java/org/openjdk/skara/bots/pr/ContributorTests.java:61-80 | the last comment after each of the three runs contains "Syntax", "successfully added" and "successfully removed" in turn, leaving no contributor |
| ContributorScenarios.RemoveAgainThenAdd | bots/pr/src/test/java/org/openjdk/skara/bots/pr/ContributorTests.java:82-91 | the last comment after each run contains "was not found", then "successfully added", leaving Test Person as the only contributor |
| ContributorScenarios.ApproveAndWait | bots/pr/src/test/java/org/openjdk/skara/bots/pr/ContributorTests.java:93-106 | after the approval and two runs the change is ready, there is exactly one notice, and it shows the commit message of the current list; no other comment changes |
| ContributorScenarios.AddAndWait | bots/pr/src/test/java/org/openjdk/skara/bots/pr/ContributorTests.java:113-124 | after a second contributor is added and two runs, the returned notice is the body of the stream's one notice, which shows the commit message with the new list |
| ContributorScenarios.AddSecondAndIntegrate | bots/pr/src/test/java/org/openjdk/skara/bots/pr/ContributorTests.java:113-146 | the stream's notice before "/integrate" credits both contributors; after it the last comment is the reply, which contains "Pushed as commit", and the recorded commit message credits Test Person |
| ContributorScenarios.OpenAndApprove | bots/pr/src/test/java/org/openjdk/skara/bots/pr/ContributorTests.java:61-111 | the last comments of the five opening runs contain the expected phrases in order; after the approval the stream's notice credits Test Person and exactly one comment mentions "change can now be integrated" |
| ContributorScenarios.SimpleScenario | bots/pr/src/test/java/org/openjdk/skara/bots/pr/ContributorTests.java:37-148 | the six last-comment replies of the simple test in order; exactly one comment mentioning "change can now be integrated"; the stream's notice after the approval credits Test Person, and the stream's notice after the second add credits Another Person; and the integrated commit message crediting Test Person |
| ContributorScenarios.InvalidCommandAuthorScenario | bots/pr/src/test/java/org/openjdk/skara/bots/pr/ContributorTests.java:150-184 | after an outsider's command and a run, exactly one comment mentions "Only the author", and no contributor is added |
| ContributorScenarios.OutsiderRun | bots/pr/src/test/java/org/openjdk/skara/bots/pr/ContributorTests.java:173-175 | a run on the outsider's command appends only the "Only the author" reply and leaves the ledger as it was |

## Left out

- REST, URL and JSON plumbing (`request.get/post/patch/delete`, `execute`, field access): records stand in for the JSON objects, and the methods return the query they would post.
- User lookups through `getUserDetails`: records carry an already resolved `User`.
- Date-time parsing and formatting, and `ZonedDateTime.now`: timestamps are opaque strings, and the clock's reading is the parameter `now` of `UpdateCheckQuery`.
- `getWebUrl`, `getAssignees`/`setAssignees`, `setBody`, `setState`, `addLabel`, `createCheck`, `addReviewComment`/`addReviewCommentReply`, the comment calls and the simple getters: these are forge round-trips with no decision logic.
- vcs/src/main/java/org/openjdk/skara/vcs/openjdk/Issue.java is not part of this model: its parsing delegates to a commit-message pattern that is not part of this model, and what remains is a two-field value class.
- webrev/src/main/java/org/openjdk/skara/webrev/RawView.java is not part of this model: it only writes files and emits HTML through webrev code that is not part of this model.
- The test harness of `ContributorTests`: credentials, temporary repositories, commits, pushes and `Repository.materialize`. The pushed commit's hash is a parameter (`PushHash`), and "the commit on master" is the commit message recorded by `/integrate`.
- Concurrent bot instances and races between runs: a run is one atomic step.
- StringOrder.Less: compares characters by code point, while `String.compareTo` compares UTF-16 code units. The two orders agree on characters up to U+FFFF and can differ for characters above it, which Java stores as surrogate pairs; no character encoding is modelled.
- ContributorBot.Ready: the census rules are reduced to "the latest review of some census reviewer approves the head commit". The real bot's other integration checks are not modelled.
- ContributorBot.ParseCommand: the exact command syntax and the reply texts belong to the bot's command classes, which are not part of this model. The model's wording keeps every phrase the tests look for ("Syntax", "successfully added", "successfully removed", "was not found", "Only the author", "change can now be integrated", "Pushed as commit").
- ContributorBot.PullRequest.Run: the bot's record of the comments it has handled is modelled as the counter `handled`.
- ContributorScenarios.SimpleScenario: the credit lines are stated as `CreditLine(TestPerson())`. That term is by definition "Co-authored-by: " followed by "Test Person <test@test.test>"; the literal text is not compared.
- ContributorBot.CommitMessage: the layout around the `Co-authored-by` trailers is the model's own: the title, a blank line, then the credit lines. The bot's message format is not part of this model, so the message has no pull-request body, no issue-reference lines and no other trailers; the tests check only that the credit line is present.
- GitHubChecks.UpdateCheckQuery: the source always sends status "completed", even for a check that is in progress. The model keeps this, so `UpdateThenDecode` is stated for finished checks only.
- GitHubChecks.DecodeCheck: a check read from the listing has no title, summary or annotations, as in the source's builder.
