# News pipeline: cleaners, repair ladder, producer, consumer and notifier in Dafny

The system is a small news pipeline. A producer crawls finance news pages and publishes them
to a queue. A consumer takes each message and has a language model summarise it into JSON.
It cleans the model's reply and stores the result in MongoDB and in a Zilliz vector
collection. A notifier reads every user's topic preferences and the latest news documents,
then emails each interested user a newsletter built from an HTML template. A chat service
cleans model replies with a cleaner of its own.

This project models the sequential logic inside that I/O glue:

- `PyStrings`: the Python string operations the code relies on.
  - `" ".join(s.split())`, with Python's whitespace set.
  - `str.replace`: one non-overlapping pass from left to right.
  - `str.strip(chars)`.
  - `str.split(sep, 1)`.
- `PyValues`: parsed values, and what a parser or a dumper can do.
  - A parser accepts, rejects with its own decode error, or raises some other exception.
  - A dumper returns text or raises.
- `NewsCleaner`: `clean_json` of the consumer (`news_extractor-main/subscriber.py`).
- `ChatCleaner`: `json_cleaner` of the chat service (`chat-main/settings/utils.py`).
- `CleanerExamples`: both cleaners worked out on short replies.
- `JsonFormat`: the `format_json` repair ladder of the producer (`news_extractor-main/main.py`).
- `Producer`: the producer's crawl-and-publish cycle, as a class holding `data_in`.
- `Consumer`: one pass of `listen_to_queue`, as a class holding the queue and both stores.
  A ghost trace records what happened, in order.
- `Notifier`: `find_user_and_news` and `prepare_news_letter` (`news_extractor-main/notifier.py`).
  - the user dictionary, the triple-nested match filter and the newsletter;
  - the split of the template page into start and end;
  - a class holding the template and the outbox.

External services, parsers and serialisers are function-typed parameters, and so is the
language model. They are `loads`, `literal`, `dumps`, `show` (Python's `str` on a value),
`fetch`, `encode`, `summarise`, `clean`, `topicsOf` and `render`. Success flags
(`mongoUp`, `zillizUp`, `azureAccepts`, `pubsubAccepts`) say whether a remote call returns or
raises.

## Behaviour worth knowing

The model keeps each of these facts about the code:

- The consumer parses the cleaned reply with `json.loads` alone. The producer defines
  `format_json` and never calls it.
- The producer publishes one payload per cycle, after the loop over sources
  (`news_extractor-main/main.py:120-122`).
  - `data_in` then holds only the last source's URL and page, so the Yahoo page is never
    published.
- An exception from a fetch, a publish, the model call or a preference parse ends the loop
  that raised it. Among the remote calls, only the two store saves of the consumer swallow
  their errors; `clean_json` and `format_json` also catch the errors of their own parses.
- The consumer deletes the message before it summarises it. A failed model call loses the
  message.
- `clean_json` deletes `"https://"` and then `"https:"`, so `"http://x"` survives unchanged.
  The fence-with-tag deletions (`"```python"` and the like) can never match after the plain
  fence deletion, so a tag such as `python` survives. `"json"` is deleted anywhere in the text.
- MongoDB's `insert_one` accepts only a dictionary. It gives that dictionary an `_id` in place,
  before sending, so the text Zilliz stores includes the `_id`. A string reply never reaches
  MongoDB.
- `add_texts(str(data))` hands Zilliz a string, which iterates by character: every character
  becomes a text of its own.
- A user's topic list is used as it is stored; no topic is checked against a fixed set.

## Model

| member | source | states |
|---|---|---|
| PyStrings.Collapse | news_extractor-main/subscriber.py:45 | `" ".join(s.split())`, with Python's whitespace set; its properties are the `Collapse…` lemmas below |
| PyStrings.Replace | news_extractor-main/subscriber.py:46-55 | `s.replace(pat, rep)`: one pass from left to right, each match replaced and skipped, no overlaps; an empty pattern inserts `rep` around every character |
| PyStrings.Delete | news_extractor-main/subscriber.py:48-55 | `s.replace(pat, "")`; its properties are the `Delete…` lemmas below |
| PyStrings.CollapseSingleSpaced | news_extractor-main/subscriber.py:45 | after `" ".join(s.split())` the only whitespace is the plain space, with none leading, none trailing and never two in a row |
| PyStrings.CollapseKeepsNonSpace | news_extractor-main/subscriber.py:45 | the whitespace collapse keeps every other character, in order, and adds none |
| PyStrings.CollapseNotLonger | news_extractor-main/subscriber.py:45 | the collapse never lengthens the text, and shortens it when the text starts with whitespace and holds a word |
| PyStrings.CollapseFixesSingleSpaced | chat-main/settings/utils.py:29 | a text that is already single-spaced is left unchanged by the collapse |
| PyStrings.CollapseIdempotent | chat-main/settings/utils.py:29 | collapsing twice is collapsing once |
| PyStrings.DeleteShrinks | news_extractor-main/subscriber.py:48-55 | a `replace(p, "")` only removes characters: the multiset of the result is within the input's |
| PyStrings.DeleteCharRemovesAll | news_extractor-main/subscriber.py:48 | deleting a one-character pattern leaves no copy of that character |
| PyStrings.DeleteFenceLeavesNone | news_extractor-main/subscriber.py:49 | after deleting "```" in one pass, no three backticks in a row remain |
| PyStrings.CollapseKeepsSpaceFree | news_extractor-main/subscriber.py:45 | a stretch of the text without whitespace is still a stretch of the collapsed text: the collapse never cuts a word |
| PyStrings.DeleteChangesIffContains | news_extractor-main/subscriber.py:48-55 | `replace(p, "")` changes the text exactly when `p` occurs in it, and then removes at least `len(p)` characters |
| PyStrings.DeleteKeepsPiece | news_extractor-main/subscriber.py:48-55 | `replace(p, "")` keeps a piece that no occurrence of `p` can overlap, and the result holds the piece at least as many times as the input |
| PyStrings.DeleteKeepsOccurrence | news_extractor-main/subscriber.py:48-55 | each occurrence of a piece that no match of `p` overlaps stays in place: `replace(p, "")` gives the deletion of the text before it, the piece, then the deletion of the text after it |
| PyStrings.DeleteAround | news_extractor-main/subscriber.py:48-55 | for a piece that `p` cannot overlap, `(u + piece + v).replace(p, "")` is `u.replace(p, "") + piece + v.replace(p, "")` |
| PyStrings.DeleteKeepsOccurrences | news_extractor-main/subscriber.py:48-55 | `replace(p, "")` never lowers the number of places where a piece that `p` cannot overlap occurs |
| PyStrings.CollapseKeepsOccurrences | news_extractor-main/subscriber.py:45 | the collapse never lowers the number of places where a whitespace-free piece occurs |
| PyStrings.NonSpaceDeleteChar | chat-main/settings/utils.py:35 | deleting a character other than whitespace commutes with dropping whitespace |
| PyStrings.Strip | news_extractor-main/main.py:75 | neither end of `strip(chars)`'s result is in `chars` |
| PyStrings.StripIsSlice | news_extractor-main/main.py:75 | `strip(chars)` is the slice left once every leading and trailing character in `chars` is cut |
| PyStrings.SplitOnce | news_extractor-main/notifier.py:29-30 | `split(sep, 1)` has two parts exactly when `sep` occurs; the parts surround the first occurrence |
| NewsCleaner.CleanText | news_extractor-main/subscriber.py:44-55 | the text the consumer's cleaner hands to `json.loads`: the collapse, then the ten replacements in source order |
| NewsCleaner.CleanJson | news_extractor-main/subscriber.py:42-62 | never raises: the result is the parsed value exactly when `json.loads` accepts the cleaned text, and otherwise the cleaned text |
| NewsCleaner.CleanJsonTextShape | news_extractor-main/subscriber.py:44-62 | the text handed back holds no backslash and no whitespace but the plain space, and is never longer than the reply |
| NewsCleaner.SpaceRewritesAreNoOps | news_extractor-main/subscriber.py:45-47 | after line 45 the text is single-spaced, so the replacements at lines 46-47 change nothing |
| NewsCleaner.TagRewritesAreNoOps | news_extractor-main/subscriber.py:49-52 | after line 49 no "```" remains, so the tagged-fence deletions at lines 50-52 change nothing |
| NewsCleaner.CleanTextHasNoControl | news_extractor-main/subscriber.py:45-55 | the cleaned text has no backslash, newline, tab or carriage return: its only whitespace is the plain space |
| NewsCleaner.CleanTextNotLonger | news_extractor-main/subscriber.py:44-55 | the cleaned text is never longer than the reply |
| NewsCleaner.CleanTextShortened | news_extractor-main/subscriber.py:45-55 | the cleaner is the whitespace collapse followed by five deletions: backslash, "```", "json", "https://", "https:" |
| NewsCleaner.JsonStepFiresIffPresent | news_extractor-main/subscriber.py:53 | deleting "json" leaves the text unchanged exactly when "json" does not occur in it, and otherwise shortens it by at least four |
| NewsCleaner.HttpSurvivesSchemeDeletion | news_extractor-main/subscriber.py:54-55 | deleting "https://" and then "https:" keeps "http://", and never lowers the number of its occurrences |
| NewsCleaner.DeletionsKeepHttp | news_extractor-main/subscriber.py:48-55 | the five deletions after the collapse keep "http://", and never lower the number of its occurrences |
| NewsCleaner.DeletionsAroundHttp | news_extractor-main/subscriber.py:48-55 | each "http://" passes the five deletions in place: the text before it and the text after it are cleaned on their own |
| NewsCleaner.HttpLinkKept | news_extractor-main/subscriber.py:44-55 | a reply holding "http://" gives a cleaned text holding "http://", and the cleaned text holds at least as many "http://" as the reply |
| CleanerExamples.PythonTagSurvives | news_extractor-main/subscriber.py:49-52 | a reply "```python" comes out as "python": the tag outlives the fence |
| CleanerExamples.JsonDeletedAnywhere | news_extractor-main/subscriber.py:53 | "json" is deleted wherever it stands: "a json b" comes out as "a  b", with a double space |
| CleanerExamples.HttpsDropped | news_extractor-main/subscriber.py:54-55 | "x https://y" comes out as "x y" |
| CleanerExamples.HttpKept | news_extractor-main/subscriber.py:54-55 | "http://x" comes out unchanged |
| CleanerExamples.FenceCanReappear | news_extractor-main/subscriber.py:49-53 | "``json`" comes out as "```": deleting "json" can rebuild a fence after line 49 |
| CleanerExamples.ConsumerCleanerExtendsChatCleaner | news_extractor-main/subscriber.py:45-55 | the consumer's cleaner is the chat cleaner followed by deleting "```", "json", "https://" and "https:" |
| CleanerExamples.ChatCleanerKeepsFence | chat-main/settings/utils.py:29-35 | the chat cleaner passes "```json {}" unchanged |
| CleanerExamples.BackslashLeavesDoubleSpace | chat-main/settings/utils.py:29-35 | the chat cleaner turns "a \ b" into "a  b": the backslash deletion runs after the space tidying |
| ChatCleaner.AsText | chat-main/settings/utils.py:26 | `str(data)`: text unchanged, any other value through `str` |
| ChatCleaner.CleanerText | chat-main/settings/utils.py:28-35 | the text the chat cleaner hands to `json.loads`: the collapse, then the four replacements in source order |
| ChatCleaner.JsonCleaner | chat-main/settings/utils.py:18-44 | never raises: the parsed value when `json.loads` accepts the cleaned text, otherwise the cleaned text, not the original; that text has no backslash, only plain spaces as whitespace, and is never longer than `str(data)` |
| ChatCleaner.SpaceRewritesAreNoOps | chat-main/settings/utils.py:29-35 | the replacements at lines 32-34 change nothing, so the cleaner is the collapse followed by deleting backslashes |
| ChatCleaner.CleanerTextShape | chat-main/settings/utils.py:29-35 | the cleaned text has no backslash, newline, carriage return or tab, and is never longer than the input |
| ChatCleaner.CleanerOnPlainText | chat-main/settings/utils.py:29-35 | on an input without backslashes the result has no leading, trailing or double space, and cleaning again changes nothing |
| ChatCleaner.OnlyWhitespaceAndBackslashesEdited | chat-main/settings/utils.py:29-35 | the only edits are to whitespace and backslashes: every other character is kept in order, so fences, "json" and "https://" survive |
| ChatCleaner.SpaceFreePiecesKept | chat-main/settings/utils.py:29-35 | a stretch of the reply without whitespace and backslashes is a stretch of the cleaned text, so "```", "json" and "https://" survive whole |
| JsonFormat.Prepared | news_extractor-main/main.py:61 | newlines deleted, then "\_ns" deleted, each in one pass |
| JsonFormat.QuoteKeys | news_extractor-main/main.py:78 | `re.sub(r'(\w+):', r'"\1":', …)`: a left-to-right scan quoting each maximal word run that a colon follows |
| JsonFormat.Repaired | news_extractor-main/main.py:75-78 | outer braces stripped, then keys quoted |
| JsonFormat.ErrorText | news_extractor-main/main.py:103 | "Error formatting JSON: " followed by the exception's message |
| JsonFormat.PreparedHasNoNewline | news_extractor-main/main.py:61 | after line 61 the text holds no newline |
| JsonFormat.MarkerCanReappear | news_extractor-main/main.py:61 | one deletion pass of "\_ns" can leave a "\_ns" behind |
| JsonFormat.QuoteKeysLeavesNoBareKey | news_extractor-main/main.py:78 | after the substitution no word character stands right before a colon |
| JsonFormat.QuoteKeysFixesQuoted | news_extractor-main/main.py:78 | a text without a bare key is left unchanged by the substitution |
| JsonFormat.QuoteKeysIdempotent | news_extractor-main/main.py:78 | quoting keys twice is quoting them once |
| JsonFormat.QuoteKeysOnlyAddsQuotes | news_extractor-main/main.py:78 | the substitution only inserts double quotes: deleting them gives back the input without its quotes |
| JsonFormat.QuoteKeysEnds | news_extractor-main/main.py:78 | the substitution keeps the last character, and the first is kept or becomes a quote |
| JsonFormat.QuoteKeysWrapsKey | news_extractor-main/main.py:78 | a maximal word run followed by a colon comes out as the run in double quotes and the colon, and the text on either side is rewritten on its own |
| JsonFormat.QuoteKeysSplit | news_extractor-main/main.py:78 | a text ending in a non-word character is rewritten independently of what follows it |
| JsonFormat.RepairedShape | news_extractor-main/main.py:75-79 | the repaired text neither starts nor ends with a brace, so line 79's braces are the only outer pair |
| JsonFormat.ParseLadder | news_extractor-main/main.py:64-81 | strict JSON first, the literal parse only after a decode error, the repair only after both reject; anything the repaired parse raises gives back the repaired text; other exceptions escape |
| JsonFormat.LiteralOnlyAfterJsonRejects | news_extractor-main/main.py:64-70 | when `json.loads` does not reject the text, `ast.literal_eval` has no say in the outcome |
| JsonFormat.RepairOnlyAfterBothReject | news_extractor-main/main.py:71-81 | after both parsers reject, the outcome is the parse of the repaired text in one pair of braces, or that repaired text |
| JsonFormat.WithMarkdown | news_extractor-main/main.py:87-93 | a dictionary with a "markdown" text gains "markdown_parsed" exactly when that text parses; otherwise it is unchanged |
| JsonFormat.WithMarkdownKeepsEntries | news_extractor-main/main.py:87-93 | every entry other than "markdown_parsed" is kept |
| JsonFormat.FormatJson | news_extractor-main/main.py:57-103 | always returns a string; a value that is not text skips all parsing; whenever the ladder gives a value (strict JSON, the literal parse or the repair), the result is the dump of that value after the markdown step, or "Error formatting JSON: " and the message when the dump raises; a parser exception that escapes is reported the same way; a failed repair returns the repaired text |
| JsonFormat.GaveUpText | news_extractor-main/main.py:75-81 | the text returned when the repair fails has no newline, has every key quoted and has no outer brace |
| JsonFormat.JsonFirst | news_extractor-main/main.py:59-99 | a text `json.loads` accepts after line 61 is dumped from that value, with its markdown parsed |
| JsonFormat.LiteralRoute | news_extractor-main/main.py:64-68 | a text `json.loads` rejects and `ast.literal_eval` accepts is dumped from the literal value after the markdown step, or reported when the dump raises |
| JsonFormat.RepairRoute | news_extractor-main/main.py:71-79 | a text both parsers reject, whose braced repair parses, is dumped from the repaired value after the markdown step, or reported when the dump raises |
| Producer.Accumulate | news_extractor-main/main.py:110-116 | the sources in order, each fetched page overwriting "url" and "data"; a failed fetch stops the cycle |
| Producer.LastSourceWins | news_extractor-main/main.py:111-116 | after a full cycle "url" and "data" hold the last source and its page |
| Producer.OnlyUrlAndDataKeys | news_extractor-main/main.py:109-116 | starting from `{}`, `data_in` has no keys or exactly "url" and "data" |
| Producer.CycleForgetsPrevious | news_extractor-main/main.py:110-116 | a completed cycle does not depend on what the previous cycle left |
| Producer.Publisher.constructor | news_extractor-main/main.py:109 | `data_in` starts empty and nothing has been sent |
| Producer.Publisher.RunCycle | news_extractor-main/main.py:111-122 | `data_in` ends as the accumulation of the fetched pages; one payload goes to Azure and then to Pub/Sub, and the first exception stops the rest |
| Producer.SamePayloadAzureFirst | news_extractor-main/main.py:120-122 | at most two messages per cycle, Azure's first, both with the same payload |
| Producer.OnlyLastSourcePublished | news_extractor-main/main.py:108-122 | with both fetches succeeding, the Google Finance page is published and the Yahoo page is not |
| Consumer.MongoDocument | news_extractor-main/subscriber.py:29 | what `insert_one` takes: only a dictionary, given the new `_id` when it has none |
| Consumer.ZillizSubject | news_extractor-main/subscriber.py:29-36 | the value `str` is applied to at line 36: the dictionary MongoDB took, `_id` included, or the cleaned value as it was |
| Consumer.Shown | news_extractor-main/subscriber.py:36 | `str(data)` on the cleaner's result: text unchanged, any other value through `str` |
| Consumer.Texts | news_extractor-main/subscriber.py:36 | `add_texts` on a string stores one text per character |
| Consumer.SaveEvents | news_extractor-main/subscriber.py:27-39 | both saves are attempted, each either succeeding or swallowing its error |
| Consumer.AfterDelete | news_extractor-main/subscriber.py:85-89 | a raising model call ends the pass with nothing saved; otherwise the summary is followed by exactly two events, a MongoDB insert or failure and then a Zilliz add or failure |
| Consumer.StepEvents | news_extractor-main/subscriber.py:77-91 | a pass is idle exactly when the queue is empty |
| Consumer.DeleteBeforePersist | news_extractor-main/subscriber.py:77-89 | the message is received and deleted before the summary and before either store write |
| Consumer.ZillizIndependentOfMongo | news_extractor-main/subscriber.py:27-39 | a MongoDB failure does not change what Zilliz receives |
| Consumer.StoresSeeSameOutput | news_extractor-main/subscriber.py:86-89 | both stores get the same `clean_json` output; Zilliz gets the text of the very dictionary MongoDB took, `_id` included |
| Consumer.LostOnSummaryFailure | news_extractor-main/subscriber.py:80-85 | when the model call raises, the deleted message is lost and nothing is stored |
| Consumer.GainsMatchEvents | news_extractor-main/subscriber.py:27-39 | the stores gain exactly what the save events record |
| Consumer.Listener.constructor | news_extractor-main/subscriber.py:74-77 | the pending messages, empty stores, empty trace |
| Consumer.Listener.Take | news_extractor-main/subscriber.py:77-80 | the oldest message is taken and at once deleted from the queue; nothing is stored |
| Consumer.Listener.Process | news_extractor-main/subscriber.py:84-89 | the loop goes on exactly when the model call returns; MongoDB and Zilliz each gain what their save delivered |
| Consumer.Listener.Step | news_extractor-main/subscriber.py:76-91 | one pass: the queue loses its head, the trace gains the pass's events, and the stores gain what was saved |
| Notifier.ArticleMatches | news_extractor-main/notifier.py:102-111 | every matched article of a source has a followed topic and names that source |
| Notifier.Matches | news_extractor-main/notifier.py:99-111 | every item of a user's matched list has a topic the user follows |
| Notifier.MatchesIsInOrderFilter | news_extractor-main/notifier.py:98-111 | the matched list is the in-order filter over documents, then sources, then articles, with nothing re-sorted or merged |
| Notifier.MatchedItemsCopyArticles | news_extractor-main/notifier.py:101-111 | an item is matched exactly when a scanned source holds an article with a followed topic whose title, summary, link and topic it copies, and it names that source |
| Notifier.CollectFromSource | news_extractor-main/notifier.py:102-111 | the innermost loop appends exactly the source's matching articles |
| Notifier.CollectFromDocument | news_extractor-main/notifier.py:101-111 | the middle loop appends the matches of each source in stored order |
| Notifier.CollectMatches | news_extractor-main/notifier.py:99-111 | the triple loop builds exactly the matched list |
| Notifier.Put | news_extractor-main/notifier.py:95 | setting a key keeps the dictionary's keys distinct and its key order; a new key goes last |
| Notifier.UserDict | news_extractor-main/notifier.py:92-95 | the user dictionary has distinct keys, each with a value |
| Notifier.UserDictFails | news_extractor-main/notifier.py:93-95 | the run stops before any email exactly when some preference fails to parse |
| Notifier.LastPreferenceWins | news_extractor-main/notifier.py:93-95 | a later record for the same user overwrites an earlier one |
| Notifier.UserDictKeys | news_extractor-main/notifier.py:92-95 | the dictionary's users are exactly those with a preference record |
| Notifier.BuildUserDict | news_extractor-main/notifier.py:92-95 | the loop builds exactly the user dictionary, or stops at the first failing preference |
| Notifier.LatestNews | news_extractor-main/notifier.py:97 | at most three documents are scanned, newest `_id` first |
| Notifier.Filled | news_extractor-main/notifier.py:35-53 | the template copy after the writes of lines 37-53 for one item |
| Notifier.FillWritesPresentSlots | news_extractor-main/notifier.py:37-53 | a slot is written only if the template has it; heading, paragraph, link, link text "Read More on " plus source, first span topic, second span source, image from picsum.photos seeded by the title |
| Notifier.RefillForgetsEarlierItem | news_extractor-main/notifier.py:37-53 | every written slot is overwritten whole: a second fill erases the first |
| Notifier.ArticleNode.constructor | news_extractor-main/notifier.py:35 | the copy has the template's slots |
| Notifier.ArticleNode.Fill | news_extractor-main/notifier.py:37-53 | the copy's slots become the filled slots |
| Notifier.Body | news_extractor-main/notifier.py:34-54 | the rendered filled fragments of the items, in order |
| Notifier.Newsletter | news_extractor-main/notifier.py:32-57 | the template start, the body, the template end |
| Notifier.BodyAppend | news_extractor-main/notifier.py:34-54 | the rendered body of a list is the bodies of its parts, one after the other |
| Notifier.NewsletterShape | news_extractor-main/notifier.py:32-57 | the newsletter is the template start, one rendered fragment per item in order, then the template end; no items give start plus end |
| Notifier.RenderCopy | news_extractor-main/notifier.py:35-54 | one item is rendered from a filled fresh copy of the template |
| Notifier.PrepareNewsLetter | news_extractor-main/notifier.py:32-57 | the loop builds the newsletter and leaves the template unchanged, so the same list renders the same way twice |
| Notifier.TemplateParts | news_extractor-main/notifier.py:27-30 | the parts exist exactly when the fragment text is non-empty and occurs in the page; neither holds a newline |
| Notifier.TemplatePartsSplitPage | news_extractor-main/notifier.py:28-30 | the start comes from the page before the fragment's first occurrence and the end from the page after it |
| Notifier.Emails | news_extractor-main/notifier.py:98-113 | at most one email per user of the dictionary |
| Notifier.EmailsOnePerUser | news_extractor-main/notifier.py:98-113 | users with distinct names get emails with distinct recipients: no user is emailed twice |
| Notifier.EmailExactlyWhenMatched | news_extractor-main/notifier.py:112-113 | an email goes out exactly to the users with a non-empty matched list, and carries the newsletter of that list |
| Notifier.Notifier.constructor | news_extractor-main/notifier.py:22-30 | the loaded template, its start and end, an empty outbox |
| Notifier.Notifier.Notify | news_extractor-main/notifier.py:99-113 | one user gets an email with the newsletter of their matches exactly when there are any |
| Notifier.Notifier.NotifyAll | news_extractor-main/notifier.py:98-113 | users are handled in dictionary order, and each user's emails are the ones `Emails` lists |
| Notifier.Notifier.FindUserAndNews | news_extractor-main/notifier.py:91-113 | a failing preference sends nothing; otherwise the outbox gains the emails for the dictionary's users over the latest three documents, and the template is unchanged |

## Left out

- Network and storage clients are not modelled:
  - OpenAI;
  - MongoDB `find`/`sort`/`limit`/`insert_one`;
  - Milvus `add_texts`;
  - the Azure queue;
  - Pub/Sub;
  - Firecrawl `scrape_url` and `extract_news`;
  - the Novu request in `send_email` (`news_extractor-main/notifier.py:61-84`);
  - `uuid4`.

  The language model, the fetches, the stores' reads and the new MongoDB `_id` are
  parameters; the store writes and the publishes have success flags. The Novu request is
  taken to succeed. The Azure queue's `receive_message` and `delete_message` always succeed
  in the model.
- The `while True` loops and their `time.sleep` calls (14400 s, 21600 s, 43200 s) are not modelled. The model covers one pass, one cycle and one run. Concurrency and at-least-once queue delivery are left out with them.
- The internals of `json.loads`, `ast.literal_eval`, `json.dumps` and `str` on values are not modelled. They are uninterpreted function parameters.
- BeautifulSoup parsing and serialisation are not modelled.
  - The fragment is a record of the slots a fill can write, and `str(article)` is the `render` parameter.
  - The missing-template check at `news_extractor-main/notifier.py:24-25` depends on HTML parsing and is not modelled.
  - Slots are taken to be separate elements; a slot nested in another slot is not modelled.
- JsonFormat.IsWordChar: `\w` is taken as ASCII letters, digits and `_`. Python's `\w` on text also matches non-ASCII letters and digits.
- JsonFormat.WithMarkdown: `format_json` adds "markdown_parsed" to a dictionary argument in place. The model returns a new value, so the caller seeing its own dictionary change is not captured.
- ChatCleaner.JsonCleaner: `str(data)` is taken to succeed. If it raised, `json_cleaner` would return the original `data`.
- NewsCleaner.CleanJson takes the reply as text. A reply with no content (`str(None)`) is not distinguished from the text "None".
- Consumer.Listener.Take: `receive_message` and `delete_message` (`news_extractor-main/subscriber.py:77`, `:80`) are taken to succeed. A `delete_message` that raises, leaving the message queued and ending the loop, is not modelled.
- Consumer.Listener.Step takes the cleaner as its `clean` parameter; the loop passes `clean_json`. This keeps the pass independent of the cleaner's definition.
- Notifier.UserDict: `topicsOf` stands for `json.loads(preference)["topics"]` and returns a list of topics. A topics value that is a string, where `in` would test substrings, is not modelled.
- Notifier.Matches: articles are records with a title, a summary, a link and a topic. Documents map sources to lists of such records. The KeyError and TypeError raised on other shapes are not modelled.
- Notifier.LatestNews: the store is listed in ascending `_id` order. The model takes ObjectId order to be insertion order.
- Notifier.Notifier.Notify: every triggered email is recorded. An exception raised by `send_email` is not modelled.
- Producer.Publisher.RunCycle: the JSON text is the `encode` parameter, taken to be total. The UTF-8 and base64 encoding of the Azure message is not modelled.
- `chat-main/main.py` is not part of this model. Neither are `news_summarizer`, `get_latest_news_yahoo` and `get_data_from_milvus` in `chat-main/settings/utils.py`: they are I/O wrappers around services whose behaviour is not visible.
