# falcon2jira comment sync, modelled in Dafny

falcon2jira copies closed CrowdStrike alerts into Jira: for every closed alert it finds the open
tickets whose description mentions the alert id, changes their status and assignee, and copies
the alert's comments onto each ticket. It keeps no state between runs. A comment counts as
already copied when some existing Jira comment, flattened to plain text, contains both the
attribution line `Comment from CrowdStrike by <author> on <time>:` and the comment's text.

This project models the decision logic of that path as pure functions. Every remote call is an
input or an oracle:

- the alert list is an input sequence;
- the ticket search is a function from alert id to an optional key list;
- the directory lookup is a function from email to an optional record list;
- a ticket's existing comments are an input sequence of documents;
- whether Jira created a posted comment is an oracle indexed by the post's position;
- the local-time rendering `datetime.fromtimestamp(t).strftime(...)` is an uninterpreted function
  `Formatter = int -> string`.

Modules, one per concern of `falcon2jira.py`:

- `Wrappers`: `Option`, for absent JSON keys and failed requests.
- `Strings`: Python's `needle in hay` on strings (`IsSubstring`), plus a search method.
- `Adf`: the Atlassian Document Format tree as the sync reads it, and the flattening of a
  comment body into one string.
- `Timestamps`: `parse_timestamp`. It splits at the first `.`, then reads the fixed form
  `YYYY-MM-DDTHH:MM:SS` as UTC and returns epoch seconds, with proleptic-Gregorian ordinal
  arithmetic as Python's `datetime` does it. Any failure returns 0.
- `CommentSync`: the per-ticket dedup and post decision, the two-paragraph document
  `add_jira_comment` builds, the loops of `sync_comments`, and the loop over all mapped tickets.
- `Idempotence`: what a second run does against the ticket as the first run left it.
- `IssueMapping`: the alert-to-ticket join of `jira_fetch`.
- `AccountLookup`: the sentinel guard and first-result rule of `find_jira_account_id`.

The program aims to copy each alert comment onto a ticket exactly once across runs. The model
shows that a second run posts nothing (`Idempotence.SecondPassPostsNothing`) under these
conditions:
- every non-empty comment of the alert carries a timestamp;
- the tracker created every post of the first run;
- the ticket returns each posted body unchanged;
- both runs render times with the same `Formatter`, that is, in the same host time zone.

A run on a host in another time zone posts a dated comment again. For example, a run at UTC+1
re-posts a comment that a UTC run already copied (`Idempotence.RenderingChangeReposts`). With one
rendering for both runs, every second-run post is an undated comment, or one whose first-run
posts all failed (`Idempotence.SecondPassRepostsOnlyUndatedOrFailed`).

Comments without a timestamp are a different case. The check looks for
`... on Unknown Date:`, but the posted copy carries the rendering of `parse_timestamp("") = 0`.
So on a ticket where no comment contains the text `Unknown Date`, such a comment is posted
again on every run (`Idempotence.UndatedNeverRecognised`, `Idempotence.UndatedExampleReposted`).
The model keeps this behaviour as written.

## Model

| member | source | states |
|---|---|---|
| Strings.Contains | falcon2jira.py:412 | the search answers true exactly when the needle is a contiguous slice of the haystack |
| Strings.EmptyIsSubstring | falcon2jira.py:412 | the empty string is in every string |
| Adf.Flatten | falcon2jira.py:374-378 | a body that is not a JSON object, or has no `content` key, flattens to the empty string |
| Adf.FlattenNodesAppend | falcon2jira.py:379-383 | flattening distributes over concatenation of the top-level node list, with no separator between nodes |
| Adf.ParagraphTextAppend | falcon2jira.py:381-383 | the runs of a paragraph are concatenated in order with no separator |
| Adf.FlattenIgnoresOtherNodes | falcon2jira.py:380 | a top-level node that is not a `paragraph` with `content` can be inserted anywhere without changing the flattened text |
| Adf.ParagraphIgnoresOtherRuns | falcon2jira.py:382 | a paragraph child whose type is not `text` contributes nothing wherever it stands |
| Adf.RunOccurs | falcon2jira.py:381-383 | the text of every text run occurs as a contiguous piece of its paragraph's text |
| Adf.NodeOccurs | falcon2jira.py:379-383 | the text of every top-level node occurs as a contiguous piece of the flattened string |
| Adf.TextRunOccurs | falcon2jira.py:379-383 | the text of every text run of every paragraph occurs as a contiguous piece of the flattened string |
| Adf.ParagraphRuns | falcon2jira.py:381-383 | the inner loop over a paragraph's children accumulates exactly the paragraph's text |
| Adf.FlattenComment | falcon2jira.py:375-383 | the nested accumulation loop computes exactly the flattening |
| Timestamps.BeforeDot | falcon2jira.py:272 | `split('.')[0]`: the result is a dot-free prefix of the input, and it is either all of the input or followed by a `.` |
| Timestamps.BeforeDotOfFraction | falcon2jira.py:272 | a dot-free text followed by `.` and any fraction splits back to that text |
| Timestamps.ParseFields | falcon2jira.py:272 | the fixed format yields fields only for a text of the exact shape whose fields form a valid date and time (year 1-9999, real day of month, seconds 0-59) |
| Timestamps.ParseTimestamp | falcon2jira.py:260-277 | an unparsable text yields 0; every result lies between 0001-01-01T00:00:00 and 9999-12-31T23:59:59 in epoch seconds |
| Timestamps.ParseIgnoresFraction | falcon2jira.py:272 | the result depends only on the text before the first `.`: appending a fraction never changes it |
| Timestamps.ParseIsoText | falcon2jira.py:272-274 | round trip: a valid date-time written in the fixed format, with or without a fraction, parses to its own epoch seconds |
| Timestamps.ParseRejectsTrailingText | falcon2jira.py:272-277 | text after the seconds that is not a fraction, such as a bare `Z`, makes the parse yield 0 |
| Timestamps.ParseRejectsZoneLetter | falcon2jira.py:272-277 | `2024-01-01T00:00:00Z` yields 0 |
| Timestamps.ParseEpochIsZero | falcon2jira.py:273-277 | `1970-01-01T00:00:00` yields 0, the same value as a failed parse |
| Timestamps.ParseExample | falcon2jira.py:272-274 | `2024-01-01T00:00:00.000Z` yields 1704067200 |
| Timestamps.DaysBeforeYearStep | falcon2jira.py:274 | consecutive years' day counts differ by 366 in leap years and 365 otherwise |
| Timestamps.DaysBeforeYearCounts | falcon2jira.py:274 | the closed-form day count before a year equals the year lengths summed one by one |
| Timestamps.EpochSecondsMonotone | falcon2jira.py:273-274 | a chronologically earlier valid date-time gets strictly fewer epoch seconds, so the conversion is injective |
| Timestamps.EpochInRange | falcon2jira.py:274 | every valid date-time converts to a value within the range of years 1 to 9999 |
| CommentSync.CommentDocument | falcon2jira.py:294-328 | the posted body is a version-1 document of two paragraphs: the bold attribution line with the parsed time, then the raw text; it flattens back to the attribution line followed by the text |
| CommentSync.CheckedTimeMatchesPosted | falcon2jira.py:294-295 | for a non-empty timestamp the time the check looks for (lines 401-404) is the time the post writes |
| CommentSync.SyncTicket | falcon2jira.py:360-425 | existing comments are fetched exactly when the alert has comments; each post has a non-empty text that no existing comment holds; the count is the number of accepted posts and at most the number of non-empty comments |
| CommentSync.CountCreatedIsCardinality | falcon2jira.py:389-423 | `synced_count` equals the number of posts the tracker accepted |
| CommentSync.ToPostAppend | falcon2jira.py:392-419 | the decision is made comment by comment: deciding two stretches of comments is deciding each |
| CommentSync.ToPostMultiplicity | falcon2jira.py:372-421 | a comment needing a post is posted as often as it occurs in the alert, and one that does not is never posted, since the existing set is never updated |
| CommentSync.EmptyCommentIgnored | falcon2jira.py:395-398 | a comment with an empty value, inserted anywhere, changes neither the posts nor the count |
| CommentSync.SingleCommentDecision | falcon2jira.py:407-421 | a non-empty comment is skipped if and only if some existing text contains both its prefix and its text; otherwise exactly one post with its author, text and timestamp is attempted |
| CommentSync.DuplicatesBothPosted | falcon2jira.py:372-421 | two identical comments needing a post are both posted in the same run |
| CommentSync.ScanExisting | falcon2jira.py:410-414 | the scan with early exit answers true exactly when some existing text contains both strings |
| CommentSync.DecideComment | falcon2jira.py:393-418 | the per-comment decision posts exactly the non-empty comments that the scan does not find |
| CommentSync.CollectExisting | falcon2jira.py:372-386 | the existing set is the set of flattened bodies of the ticket's comments |
| CommentSync.WalkComments | falcon2jira.py:389-423 | the loop over the alert's comments attempts exactly the decided posts, in order, and counts the accepted ones |
| CommentSync.SyncTicketLoop | falcon2jira.py:359-425 | the imperative per-ticket pass agrees with the functional pass |
| CommentSync.SyncComments | falcon2jira.py:358-359 | one outcome per mapped entry, in order |
| CommentSync.SyncCommentsIndependent | falcon2jira.py:358-425 | given the comment list fetched for it, entry i's outcome is the single-ticket pass over its own comments and post answers; earlier entries can affect it only through that fetched list |
| CommentSync.SyncTicketOracleExt | falcon2jira.py:420-422 | a ticket's pass depends on the tracker only through the answers it gives to the posts |
| Idempotence.DatedCopyRecognised | falcon2jira.py:294-412 | a ticket that holds the copy posted for a comment with a non-empty timestamp makes the check skip that comment |
| Idempotence.NeedsPostAntitone | falcon2jira.py:411-414 | more existing comments can only turn a post into a skip |
| Idempotence.SecondPassRepostsOnlyUndatedOrFailed | falcon2jira.py:372-423 | rerun against the ticket plus the copies created in the first run, a comment is posted again only if its timestamp is empty or all its first-run posts failed |
| Idempotence.SecondPassPostsNothing | falcon2jira.py:372-423 | when every non-empty comment has a timestamp and every first-run post was created, the rerun posts nothing and counts 0 |
| Idempotence.UndatedNeverRecognised | falcon2jira.py:294-295 | a comment with an empty timestamp (checked as "Unknown Date" at lines 401 and 407) is never found among comments that do not mention "Unknown Date" |
| Idempotence.UndatedExampleReposted | falcon2jira.py:277-412 | with epoch 0 rendered as 1970-01-01 00:00:00, a ticket already holding the posted copy of an undated comment receives it again |
| Idempotence.DatedExampleFirstPass | falcon2jira.py:389-421 | a ticket without comments receives one post of the comment "Investigated" by a@example.com at 2024-01-01T00:00:00.000Z |
| Idempotence.DatedExampleDocument | falcon2jira.py:294-308 | the copy posted for the comment "Investigated" by a@example.com at 2024-01-01T00:00:00.000Z flattens, in UTC, to the attribution line for a@example.com at 2024-01-01 00:00:00 followed by `Investigated` |
| Idempotence.DatedExampleSecondPass | falcon2jira.py:407-418 | a ticket holding the copy posted for the comment "Investigated" by a@example.com at 2024-01-01T00:00:00.000Z receives nothing and counts 0 |
| Idempotence.ShiftedTimeNotFound | falcon2jira.py:406-412 | the attribution line with one rendering of the time is not found in a copy posted with a different rendering of the same length, followed by a text of at most twelve characters |
| Idempotence.ChangedRenderingReposts | falcon2jira.py:401-412 | a dated comment whose text has at most twelve characters is posted again by a run whose rendering of its time differs from, but has the same length as, the rendering in the copy the ticket holds |
| Idempotence.RenderingChangeReposts | falcon2jira.py:401-412 | a run at UTC+1, which renders 2024-01-01T00:00:00.000Z as 2024-01-01 01:00:00, posts the comment "Investigated" by a@example.com again to a ticket holding the copy a UTC run posted: the check needs the same rendering at line 404 as the posting used at line 295 |
| Idempotence.LaterEntrySkipsEarlierCopy | falcon2jira.py:369-421 | when a later entry's fetched comment list holds the copies the tracker created for an earlier entry, as for a ticket that two alerts map to, no dated comment the earlier entry posted is attempted again |
| IssueMapping.JiraFetch | falcon2jira.py:50-77 | the number of entries is the total number of keys found; every entry names a key that the search returned for that entry's own alert id |
| IssueMapping.JiraFetchAppend | falcon2jira.py:50-71 | the mapping distributes over concatenation of the alert list, so entries follow alert order |
| IssueMapping.UnmatchedAlertContributesNothing | falcon2jira.py:60-77 | an alert whose search failed or found no ticket contributes no entry, wherever it stands |
| IssueMapping.JiraFetchEntry | falcon2jira.py:62-71 | the j-th key of the i-th alert is the entry right after the entries of the earlier alerts, and it copies that alert's id, owner and comments |
| AccountLookup.FindAccountId | falcon2jira.py:209-230 | empty and "Unassigned" emails give no account; otherwise the result is the first record's account id, or none when the search failed or returned no record |
| AccountLookup.SentinelSkipsDirectory | falcon2jira.py:209-210 | for the empty email and the sentinel the directory is never consulted: any two directories give the same absent result |
| AccountLookup.FirstRecordDecides | falcon2jira.py:221-224 | records after the first never change the answer |
| AccountLookup.FailedSearchLikeEmpty | falcon2jira.py:221-230 | a failed or non-200 search answers like an empty result: no account |

## Left out

- HTTP and SDK calls (`requests.*`, falconpy `Alerts`), their status-code checks and all logging: they become inputs and oracles as described above.
- Environment loading and validation at import time (falcon2jira.py:15-33): process configuration, not logic.
- `falcon_fetch` (falcon2jira.py:121-165): a remote call whose result is the alert-list input of `IssueMapping.JiraFetch`.
- `get_jira_comments` (falcon2jira.py:233-257): its result is the `bodies` input of a ticket's pass; a failed request is the empty list.
- CommentSync.SyncComments: the comment list fetched for each entry (falcon2jira.py:369) is an input. The fetch for an entry happens after the posts of earlier entries (falcon2jira.py:421), so for a ticket whose description mentions two alert ids it already holds the copies created for the first entry. The model does not derive that list from the earlier posts. `Idempotence.LaterEntrySkipsEarlierCopy` states the consequence when the list does hold them: a shared dated comment reaches the ticket once.
- Idempotence.ChangedRenderingReposts: proved only for comment texts of at most twelve characters and renderings of equal length. With a longer text, the offset argument would have to rule out the attribution line occurring inside the text itself.
- `change_jira_status` and `change_jira_issue_assignee` (falcon2jira.py:88-118, 168-196): loops of independent remote mutations with no computed result. Only the account lookup they depend on is modelled.
- `lambda_handler` (falcon2jira.py:428-470): response shaping and JSON serialisation.
- The search query string (falcon2jira.py:51-54): the search is an oracle keyed by alert id, so two alerts with the same id get the same answer.
- Local-time rendering (falcon2jira.py:295, 404): it depends on the host time zone, so it is the uninterpreted `Formatter`. Its exceptions for out-of-range values, which abort `sync_comments`, are not modelled. The idempotence lemmas assume both runs use one `Formatter`, that is, the same host time zone.
- JSON values of unexpected types: a node that is not an object or a `text` that is not a string raises in the source. The datatypes exclude them, and an absent key is an `Option`.
- Timestamps.ParseTimestamp: accepts only the strict fixed-width form, with `T` or `t` as the separator. `strptime` also accepts single-digit and space-padded fields and non-ASCII digits; those inputs yield 0 in the model.
- Timestamps.ParseTimestamp: returns an integer where the source returns a float. The value is always whole seconds, well inside the exactly representable range.
- Python set iteration order in the duplicate scan (falcon2jira.py:411-414): the scan's outcome depends only on whether some element matches, so the model picks elements in any order.
