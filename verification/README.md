# Autonomous-vehicle ethics survey and forum — a Dafny model

`final_app.py` is a Streamlit application. Participants enter their details,
answer a catalogue of questions about the ethics of autonomous vehicles, and
discuss on a forum of posts with threaded comments. A regulation generator
turns the collected answers into a prompt for a language model.

This project models the logic under those pages. It covers:

- the text forms: the user name, new posts, comments and replies are
  accepted only when something is left after Python's `str.strip()`, and
  the stripped text is what gets stored (`Text`, `Forum`);
- the answer keys `"Q<n>"` given to the questionnaire's answers, and how
  the prompt builder maps a key back to its question, `int(key[1:]) - 1`,
  using Python's negative indexing (`Survey`);
- the prompt text built for one batch of responses, and the cutting of all
  responses into batches of ten (`Prompt`);
- the threaded comment display `display_comments` (`Threads`, `ThreadReach`):
  - for each comment in list order whose parent matches, it shows the
    comment at the current level, then recurses over the whole list for
    its replies one level deeper;
  - the model proves which comments this shows, in what order, with what
    nesting, and that each is shown exactly once;
- an index-based rendering of the same thread, proved equal to the
  page's walk (`ThreadIndex`);
- the forum tables as append-only sequences with autoincrement ids. The
  forms keep the comment table in a shape where the page's walk shows
  every comment of a post exactly once (`Forum`).

Database rows are values: a `Comment` is the row of the `comments` table,
and `get_comments` becomes a filter of the table in insertion order. Each
line of the walk is a `Line(comment, depth)`, where `depth` is the
indentation level the page renders.

The ids of `comments` are generated by `AUTOINCREMENT`, so every reply
points to a smaller id than its own. The model states this as the
precondition `ParentsBelow`. It also gives the model's walk a decreasing
measure: the recursion goes from a parent to a strictly larger id.

## Model

| member | source | states |
|---|---|---|
| Text.Validate | final_app.py:509-510 | the text is accepted exactly when it holds a non-whitespace character; an accepted result is non-empty and is the `strip()` of the input |
| Text.Trim | final_app.py:245-246 | the result is the input minus a leading and a trailing run of whitespace, found by scanning forward from the start and backward from the end; neither end of the result is whitespace |
| Text.StripUnique | final_app.py:245-246 | there is only one way to strip a string: any two tight cores of the same string are equal |
| Text.TrimIdempotent | final_app.py:551-552 | stripping an already stripped reply changes nothing |
| Text.TrimEmptyIff | final_app.py:567-568 | the stripped comment is empty exactly when every character of it is whitespace |
| Text.Accept | final_app.py:509 | the test `if text.strip():` passes exactly when the text holds some non-whitespace character |
| Text.ValidateExamples | final_app.py:509-514 | an empty or all-blank text is refused, and "hello" is accepted unchanged |
| Survey.Decimal | final_app.py:489 | the index written into a key is a non-empty digit string with no leading zero unless it is 0 |
| Survey.Key | final_app.py:489 | the key `f"Q{idx}"`, for a number Python can print, is "Q" followed by digits, and decoding it the way the prompt builder does gives back position `idx - 1` |
| Survey.ParseInt | final_app.py:196 | `int()` of a digit string succeeds exactly when the string is non-empty, all ASCII digits and at most 4300 digits long (Python's default limit); otherwise it is the `ValueError` branch |
| Survey.DecimalMono | final_app.py:489 | a larger number never has a shorter decimal text, so the keys of the first `n` questions are no longer than the key of question `n` |
| Survey.ParseDecimal | final_app.py:196 | parsing the decimal text of a number, when it is within the digit limit, gives the number back |
| Survey.KeyIndex | final_app.py:196 | `int(key[1:]) - 1` is defined exactly when the key has 1 to 4300 characters after its first and all of those are digits; the value is at least -1 |
| Survey.PyIndex | final_app.py:196 | Python indexing succeeds exactly for `-len <= k < len`, and a negative index counts from the end |
| Survey.KeyRoundTrip | final_app.py:467-489 | the key of question number `idx` (1-based) maps back to index `idx - 1` and so to that same question |
| Survey.KeyInjective | final_app.py:489 | different question numbers get different keys |
| Survey.CollectAnswers | final_app.py:465-489 | the answers dictionary has one entry per question in order; entry `k` holds the k-th answer under the key "Q" followed by the decimal text of `k + 1`, which decodes to index `k`; the keys are distinct |
| Survey.KeyZeroPicksLastQuestion | final_app.py:196 | the key "Q0" decodes to index -1, which Python resolves to the last question and not to an error |
| Prompt.QuestionFor | final_app.py:196 | a key resolves exactly when it decodes and the index is in range for Python indexing; the question returned is the one Python indexing picks, counting a negative index from the end; an error names the key and says whether the key failed to decode or the index was out of range |
| Prompt.AppendEntries | final_app.py:195-197 | the loop over one user's answers succeeds exactly when all keys resolve, and then appends their question/answer blocks in order; a failure is the error of the first key that does not resolve, which decides between `ValueError` and `IndexError` |
| Prompt.FirstFailureUnique | final_app.py:195-196 | the error the loop raises is determined by the answers: two first failures of the same answers are the same error |
| Prompt.FirstFailureExample | final_app.py:195-196 | with one question and keys "Q99" then "Qx", the loop raises the out-of-range error for "Q99" and never the decoding error for "Qx" |
| Prompt.PreparePrompt | final_app.py:191-198 | the prompt is built exactly when every key of the batch resolves; it is the fixed header followed by the users' sections; a failure is the first failure of the first user whose keys do not all resolve |
| Prompt.BatchFirstFailureUnique | final_app.py:193-196 | the error `prepare_prompt` raises on a batch is determined by the batch |
| Prompt.UsersTextIsNumberedBlocks | final_app.py:193-197 | the body of the prompt is the concatenation, for users numbered from 1, of "User k Responses:" followed by that user's question/answer blocks |
| Prompt.EntriesTextIsEntryBlocks | final_app.py:195-197 | one user's section is the concatenation of the blocks "question\nAnswer: answer\n\n", one per answer, in the answers' order |
| Prompt.CollectedAnswersResolve | final_app.py:196 | every key the questionnaire produces resolves, and to the question it was made for |
| Prompt.PySlice | final_app.py:159 | a Python slice clipped to the list: its length, and element `k` is `xs[lo + k]` |
| Prompt.Batches | final_app.py:155-159 | batch `b` is the slice `all[10b:10b+10]`; the batches, concatenated, give back all responses in order; there are ceil(n/10) of them, each of 1 to 10 responses, all but the last exactly 10 |
| Prompt.BatchPrompts | final_app.py:155-163 | the run goes through exactly when every response's keys resolve, and then builds ceil(n/10) prompts; prompt `p` is exactly the header followed by the users' sections of batch `p`; when the run stops, the prompts already built are returned and the error is the one `prepare_prompt` raises on the next batch |
| Prompt.PromptsFor | final_app.py:158-163 | the loop builds the prompt of each batch in order, and stops at the first batch with a key that does not resolve, with the error `prepare_prompt` raises on it |
| Prompt.BatchFailure | final_app.py:158-161 | a key that fails inside one batch means the responses as a whole do not all resolve |
| Prompt.FlattenResolves | final_app.py:158-161 | when every batch resolves, so does the whole list of responses |
| Prompt.FlattenMember | final_app.py:158-159 | every response placed in a batch is one of the responses |
| Threads.MaxId | final_app.py:44-56 | the largest comment id bounds every id and belongs to a listed comment; it serves as the termination measure of the walk |
| Threads.Scan | final_app.py:531-558 | every line shows a listed comment at depth at least the level; a line at the level itself shows a reply to the parent from the part of the list still to scan |
| Threads.Walk | final_app.py:531-558 | a walk that shows anything opens with a listed reply to its target, at the walk's own level |
| Threads.ScanFirst | final_app.py:532-544 | the first line a scan emits shows a reply to the parent from the rest of the list, at the scan's level |
| Threads.Children | final_app.py:541 | the replies selected by the test `comment_parent_id == parent_id` are listed comments with that parent, and there are no more of them than comments |
| Threads.ChildrenMembers | final_app.py:541 | a comment is selected exactly when it is listed and its parent is the one tested |
| Threads.ChildrenInListOrder | final_app.py:532-541 | the replies to one parent keep the order of the list, which is creation order |
| Threads.ScanIsBlocks | final_app.py:532-558 | the loop over the rest of the list emits, for each reply to the parent in order, its line and then its whole reply walk |
| Threads.WalkLayout | final_app.py:531-558 | the walk of a parent is the blocks of its replies in list order, each reply followed by the walk of its own replies one level deeper |
| Threads.AtDepthAppend | final_app.py:543-544 | the lines shown at one indentation level in two consecutive runs of output are those of the first followed by those of the second |
| Threads.ScanTopLevel | final_app.py:532-558 | the lines a scan shows at its own level are exactly the replies to its parent in the rest of the list, in order |
| Threads.TopLevelIsChildren | final_app.py:531-560 | the lines a walk shows at its own level are exactly the replies to its parent in list order, and nothing is shown above that level |
| Threads.WalkNested | final_app.py:541-558 | the walk is a well-nested listing: lines at the level are replies to the parent; any deeper line comes after a line one level up that shows its parent, with only deeper lines in between |
| Threads.ScanNested | final_app.py:532-558 | each scan of the loop produces such a well-nested listing |
| Threads.ReplyScenario | final_app.py:531-560 | a post with comment C1 and a reply C2 to it shows C1 at level 0 and then C2 at level 1, and nothing else |
| ThreadReach.Lookup | final_app.py:54 | the lookup finds a listed comment with the wanted id, or reports that no listed comment has it |
| ThreadReach.LookupFinds | final_app.py:46 | with unique ids, looking up a listed comment's id finds that comment |
| ThreadReach.ScanMember | final_app.py:532-558 | a line is emitted by the loop exactly when it belongs to a reply to the parent in the rest: it is that reply's line or a line of the reply's own walk |
| ThreadReach.ReplyShown | final_app.py:541-544 | every listed reply to a parent is shown by the parent's walk, at the walk's level |
| ThreadReach.SubtreeShown | final_app.py:558 | everything the walk of a reply shows is also shown by the walk of its parent |
| ThreadReach.ChainEndUnique | final_app.py:49 | following parent links the same number of times always ends at the same parent |
| ThreadReach.RootChainLengthUnique | final_app.py:49 | a comment reaches a top-level comment after one fixed number of parent links |
| ThreadReach.WalkSound | final_app.py:531-558 | every line of a parent's walk shows a listed comment whose parent chain reaches that parent in exactly (depth - level) links |
| ThreadReach.WalkComplete | final_app.py:531-558 | every listed comment whose parent chain reaches the parent in `n` links is shown at level + n |
| ThreadReach.ShownIffChain | final_app.py:531-560 | the page shows comment `c` at depth `d` exactly when `c` is listed and following its parent `d` times reaches a top-level comment |
| ThreadReach.ShownIffRooted | final_app.py:531-560 | a listed comment is shown, at some depth, exactly when its chain of parents ends at a top-level comment |
| ThreadReach.OrphanHidden | final_app.py:541 | a reply whose parent is not among the listed comments is never shown |
| ThreadReach.ScanDistinct | final_app.py:532-558 | with unique ids no comment is emitted twice by the loop |
| ThreadReach.ShownExactlyOnce | final_app.py:531-560 | with unique ids, a rooted comment is shown and no comment appears on two lines |
| ThreadReach.MinId | final_app.py:44-56 | the smallest comment id bounds every id from below and belongs to a listed comment; it serves as the induction measure for chains of parents |
| ThreadReach.RootedWhenParentsListed | final_app.py:546-558 | when every reply's parent is listed, every listed comment is rooted, so it is shown |
| ThreadIndex.BuildIndex | final_app.py:531-541 | one pass over the list files each comment under its parent; for every parent the stored replies are the list's replies in order |
| ThreadIndex.Render | final_app.py:531-558 | every line rendered from the index shows a listed comment, at a depth at least the level |
| ThreadIndex.RenderIsBlocks | final_app.py:532-558 | rendering from the index, from reply `j` on, gives the reply blocks of the list walk from that reply on |
| ThreadIndex.RenderAgrees | final_app.py:531-558 | rendering from the index shows exactly the lines of the page's walk, in the same order |
| ThreadIndex.ThreadComments | final_app.py:528-560 | the index-based rendering of a post's comments equals the page's walk from the top level |
| Forum.NextId | final_app.py:15 | an autoincrement id is positive and larger than every id already used |
| Forum.SubmitDetails | final_app.py:244-250 | the details form succeeds exactly when the stripped name is non-empty, and otherwise reports an empty name; on success one user row is appended with the stripped name under a fresh id, and that id is returned for the session |
| Forum.CreatePost | final_app.py:505-516 | a post is created exactly when a user is signed in and the text strips to something; the two refusals are told apart; one row is appended for that user, with the stripped text and a fresh id |
| Forum.CreatePostExamples | final_app.py:508-514 | an empty or blank post is refused; "hello" appends exactly one post holding "hello" |
| Forum.Insert | final_app.py:106-114 | a comment row is appended exactly when signed in with non-blank text; it has the given post, user and parent, the stripped text and an id above all existing ones |
| Forum.InsertKeepsTableOk | final_app.py:44-56 | appending a row with a fresh id whose parent is an older comment of the same post keeps ids unique, parents older and parents in the same post |
| Forum.AddComment | final_app.py:562-574 | the comment form appends one top-level comment of that post, by the signed-in user, with the stripped text and an id above every existing one, exactly when signed in with non-blank text; otherwise it names the refusal |
| Forum.AddCommentKeepsTableOk | final_app.py:566-568 | a successful top-level comment keeps the comment table in shape |
| Forum.AddReply | final_app.py:547-556 | the reply form appends one reply to the chosen comment in the same post, by the signed-in user, with the stripped text and an id above every existing one, exactly when signed in with non-blank text; otherwise it names the refusal |
| Forum.AddReplyKeepsTableOk | final_app.py:550-552 | a successful reply to any comment of the table keeps the comment table in shape |
| Forum.PostComments | final_app.py:129-142 | the comments of one post are exactly the table's comments with that post id, in table order |
| Forum.SubsequenceUnique | final_app.py:137-138 | filtering a table with unique ids keeps the ids unique |
| Forum.PostCommentsReady | final_app.py:528 | in a table kept by the forms, a post's comments have unique ids, older parents, and every reply's parent among them |
| Forum.EveryCommentShownOnce | final_app.py:520-560 | in a table kept by the forms, the thread of a post shows every comment of that post, and none twice |

## Left out

- The database connection, its commits and the clock are not modelled. Tables are sequences of rows; `created_at` order is insertion order, so `ORDER BY created_at ASC` is the table order.
- The `CURRENT_TIMESTAMP` values are not modelled. Two rows created within the same second could be returned by SQLite in either order; the model fixes insertion order.
- `get_posts` is not modelled. It lists posts newest first. Its join with `users` drops a post whose author row is missing; the forms only insert posts for the signed-in user, so no post is dropped.
- The join with `users` in `get_comments` is not modelled. A comment whose author row is missing would be dropped by the join; the forms only insert comments for the signed-in user.
- Rendering is not modelled: the `&nbsp;` indentation markup, the author name and timestamp text, expanders, buttons and widget keys. The model emits the comment and its indentation level instead.
- Streamlit's page selection, session state and `experimental_rerun` are not modelled. The signed-in user is an `Option` parameter.
- The HTTP calls to the language-model endpoint (`generate_regulation` and the regulation page) are not modelled; they are I/O. Neither are the streamed response handling and the writing of `regulations.txt`.
- The regulation page builds an aggregate prompt from Python `repr` strings of whole database rows (lines 588-593). It is not modelled, because it depends on the Python representation of tuples and of the timestamp text.
- The question catalogue's texts and widget kinds (lines 256-463) are not modelled. Questions are strings, and answers are the already-rendered strings of whatever the widgets returned.
- `fetch_all_responses` reads a `user_responses` table that `init_db` never creates; the model takes the list of decoded answer dictionaries as its input.
- `insert_responses` stores one row per answer in `responses`; the model keeps the dictionary form used by the prompt builder and does not model that table.
- `init_db` opens `data__1.db` while every other function opens `data.db`; the model has one store.
- `prepare_prompt` reads the global `questions`, which is only defined while the questionnaire page runs; the model passes the question list as a parameter.
- Survey.ParseInt: only runs of ASCII digits are parsed, leading zeros included, up to the 4300-digit limit. Python's `int()` also accepts a sign, surrounding whitespace, underscores and other Unicode digits, and such keys are reported as not resolving here.
- Survey.Key: requires the number's decimal text to be at most 4300 digits long. Beyond that, Python's `f"Q{idx}"` itself raises `ValueError`, which is not modelled; the catalog has 45 questions.
- Survey.KeyIndex: the first character of the key is skipped whatever it is, as in the source; only its digits are checked.
- Prompt.BatchPrompts: the prompts are collected instead of being sent to the service one at a time; what the service returns is ignored by the source and is not modelled.
- Threads.Walk: requires every reply to point to a smaller id, as autoincrement ids guarantee for rows the forms insert. Lists with a forward reference (a reply whose parent has a larger id) or a cycle of parents are excluded, although the source handles them without error. It shows a forward reply normally under its parent. It never reaches a cycle from the top level, so the cycle and everything below it are hidden. With unique ids the source's walk ends on every list.
- Threads.Walk: Python's recursion limit (about 1000 frames) is not modelled. A chain of replies about a thousand deep makes the page raise `RecursionError`, even without a cycle; the model shows the whole chain.
- Ids are unbounded integers; SQLite's 64-bit rowid limit is not modelled.
- Forum.AddReply: requires the target comment to be listed and to belong to the post, because the page only offers the reply form under comments it displays for that post.
