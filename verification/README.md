# Blog content pipeline — a verified model

The system is a chain of Python scripts that produce a blog. They share one
storage bucket and hand work to each other through folders:

- `head_agent.py` reads the newest topic cards ("fichas") and asks a
  language model for a new theme and topics. It saves the answer as a new
  card named after the UTC time.
- `draft_agent.py` takes the oldest card without a draft ("rascunho") and
  writes one paragraph per topic.
- `design_agent.py` takes the oldest draft without an HTML page for the
  target language and has the model lay it out as a page.
- `post_blog.py` takes the latest page, cleans it, adds a cover image and
  publishes it.
- `main.py` runs the stages in order and stops at the first failure.
- `utils.py` holds the shared helpers.

The model keeps the parts that decide what happens:

- which work item is next;
- how names, folders and keys are derived;
- how text is cleaned and prompts are assembled;
- which error ends a run.

Storage listings, downloads, model replies, the JSON codec and the clock
are parameters, so each `...Run` function is one run of a script over
given inputs.

Modules:

- `Wrappers`: Option and Result.
- `Strings`: Python's `isspace`, `lower`, `find`/`rfind`, `strip` and
  `replace(p, "")`, and decimal digits.
- `Lines`: `splitlines` and `"\n".join`.
- `Seqs`: filtering and images.
- `Ordering`: Python's string order and the stable `sorted`.
- `Dicts`: Python dicts as ordered association lists.
- `Pending`: a reference definition of "the pending work items" shared by
  both resolvers.
- `Patterns`: the regular expressions used by `post_blog.py`, with
  `re.search` and `re.sub`.
- `Utils`, `DraftAgent`, `DesignAgent`, `HeadAgent`, `PostBlog`, `Driver`:
  one module per script.

## Model

| member | source | states |
|---|---|---|
| Utils.GetEnv | scripts/utils.py:12-16 | a required lookup fails exactly when the variable is unset with no default, or its value (or the default) is empty; otherwise the result is the variable's value when set, else the default |
| Utils.EmptyVariableHidesDefault | scripts/utils.py:12-16 | a variable set to "" hides the default: a required lookup fails and an optional one yields "" |
| Utils.GetEnvOr | scripts/utils.py:12-16 | an optional lookup with a default yields the variable's value when it is set, else the default |
| Utils.FilterJsonBlobs | scripts/utils.py:45-46 | the result is an order-preserving sub-list of the names; it keeps exactly the names whose lower-cased form ends in ".json", with their multiplicities |
| Utils.GetBasename | scripts/utils.py:48-50 | the base name is a suffix of the path with no '/', preceded in the path by '/' when shorter; a name without '/' is its own base name |
| Utils.BasenameOfPath | scripts/utils.py:48-50 | the base name of "dir/name" is name when name has no '/' |
| Utils.SplitExtRoot | scripts/design_agent.py:123 | `os.path.splitext(p)[0]`: the root is a prefix of the path; it is shorter than the path exactly when the path has an extension (a last '.' with no later '.' or '/', preceded in its component by a character other than '.'), and then it stops at that '.' |
| Utils.RootOfHtmlName | scripts/post_blog.py:120 | stripping the extension of "x.html" gives back x when x has no '/' and is not all dots |
| Utils.BeforeDash | scripts/design_agent.py:125 | `split('-')[0]`: the longest prefix with no '-', stopping at the first '-' |
| Utils.SortByTimestamp | scripts/utils.py:81-82 | the result is a permutation of the input, ordered by base name, and names with equal base names keep their input order (stability) |
| Utils.StripMdFence | scripts/utils.py:52-55 | no line of the result is a fence line, and every line of the result is a line of the stripped input |
| Utils.StripMdFenceLines | scripts/utils.py:52-55 | the lines of the result are exactly the non-fence lines of the stripped input, in order |
| Utils.DropFencedByParity | scripts/utils.py:58-67 | the toggle loop keeps exactly the non-fence lines preceded by an even number of fence lines |
| Utils.DocumentStart | scripts/utils.py:69-71 | the start is the first "<!DOCTYPE html>" or, failing that, the first "<html>"; none when neither occurs |
| Utils.Document | scripts/utils.py:69-75 | on the stripped fence-free text of `extract_html_block`: when a document start exists and the last "</html>" follows it, the result is exactly that span, opening with the tag and closing with "</html>"; otherwise it is the whole stripped fence-free text |
| Utils.ExtractHtmlBlock | scripts/utils.py:57-75 | `extract_html_block` is the document inside the stripped newline-join of the lines kept by fence parity: the lines outside fenced blocks, with the fence lines themselves dropped |
| Utils.StrippedSpan | scripts/utils.py:73-74 | a span from an opening tag to a later "</html>" is already stripped and keeps both tags |
| Strings.Strip | scripts/utils.py:62 | the result is trimmed and no longer than the input; a trimmed input is unchanged |
| Strings.StripIdempotent | scripts/utils.py:68 | stripping twice is stripping once |
| Strings.RemoveAll | scripts/draft_agent.py:67 | `replace(p, "")` is never longer than its input and changes nothing when p does not occur |
| Lines.SplitLines | scripts/utils.py:53 | no line of the result contains a line break |
| Lines.SplitJoin | scripts/utils.py:53-55 | splitting the newline-join of break-free lines gives back the lines, except a trailing empty one |
| Ordering.LexLeTotal | scripts/utils.py:82 | Python's string order is total, which `sorted` relies on |
| Ordering.LexLeTrans | scripts/utils.py:82 | Python's string order is transitive |
| Ordering.LexLeAntisym | scripts/utils.py:82 | two strings each at most the other are equal |
| Ordering.SortByDistinct | scripts/design_agent.py:128 | sorting elements with distinct keys gives strictly ascending keys |
| Ordering.LastOfKeyClass | scripts/utils.py:81-82 | among elements with one key, the last listed is the last of that key class |
| Dicts.Get | scripts/design_agent.py:59 | a lookup finds a pair of the dict, and finds nothing exactly when the key is absent |
| Dicts.Put | scripts/draft_agent.py:72 | assignment keeps keys unique, stores the pair, keeps every other entry, and adds the key to the key set |
| Dicts.Comprehension | scripts/draft_agent.py:13 | the dict comprehension has one entry per distinct key, its key set is the image of the list, and each entry holds the last element listed with its key |
| Dicts.ValuesExceptFacts | scripts/draft_agent.py:16 | the values whose keys are outside the excluded set have exactly the remaining keys, once each |
| Pending.PendingSetUnique | scripts/draft_agent.py:12-18 | at most one list satisfies the definition of the pending items, so both resolvers are pinned down by it |
| Pending.PendingMember | scripts/draft_agent.py:12-18 | an item that is the last one listed for a key not yet done is in the pending list |
| Pending.PendingHeadIsOldest | scripts/draft_agent.py:57-61 | the pending list is empty exactly when every key is done; otherwise its head is an input whose key is not done and is the least such key |
| DraftAgent.FindPendingFichas | scripts/draft_agent.py:12-18 | the result holds, for each card base name that is no draft's base name, the last card listed with it, once, in strictly ascending base-name order, and nothing else |
| DraftAgent.DraftContent | scripts/draft_agent.py:69-72 | the draft mapping has one entry per distinct topic, each holding that topic's paragraph |
| DraftAgent.BuildRascunho | scripts/draft_agent.py:65-79 | the record copies theme and topics (topics default to []), maps exactly the topics to their paragraphs, and uses the card's own timestamp when present, else the stamp from its name |
| DraftAgent.Stamp | scripts/draft_agent.py:67 | the stamp is never longer than the card's base name |
| DraftAgent.OutputPath | scripts/draft_agent.py:80 | the draft is saved directly in the draft folder, with base name "<stamp>.json" |
| DraftAgent.SavedDraftClearsFicha | scripts/draft_agent.py:67-81 | a card named "<stamp>.json" gets a draft of the same base name, and once listed the card is no longer pending |
| DraftAgent.MisnamedCardStaysPending | scripts/draft_agent.py:67-81 | a card whose base name has no lower-case ".json" is saved under "<name>.json" and stays pending for ever |
| DraftAgent.UpperCaseCard | scripts/utils.py:45-46 | every card named "<s>.JSON" whose stem holds no ".json" passes the case-insensitive extension filter, keeps "<s>.JSON" as base name, and has no ".json" to remove, so it meets the conditions under which a card stays pending |
| DraftAgent.DraftRun | scripts/draft_agent.py:42-82 | a configuration error exactly when BUCKET_NAME or OPENAI_API_KEY is missing; nothing pending exactly when every card's base name is a draft's; otherwise the target is the oldest pending card, the last one listed under that base name (as the name-to-card dict keeps it); the run saves exactly when the card can be read, and the saved record is the one built from that card and its stamp, under "<RASCUNHO_FOLDER>/<stamp>.json" |
| DesignAgent.HtmlKey | scripts/design_agent.py:125 | a page's match key contains no '-' |
| DesignAgent.FindPendingRascunhos | scripts/design_agent.py:122-129 | the result holds, for each draft key that is no page's match key for this language, the last draft listed with it, once, in ascending key order, and nothing else |
| DesignAgent.LookupAll | scripts/design_agent.py:129 | looking up each pending key yields one dict entry per key, in key order |
| DesignAgent.OpenKeys | scripts/design_agent.py:128 | the filtered key list holds exactly the keys not done, each once |
| DesignAgent.LanguageIsolation | scripts/design_agent.py:126 | adding pages for other languages leaves the pending list unchanged |
| DesignAgent.DashedDraftStaysPending | scripts/design_agent.py:123-127 | a draft whose key contains '-' is pending whatever pages exist |
| DesignAgent.PageKey | scripts/design_agent.py:162-173 | the page saved for base name b (no '-' or '/') counts for its language and has match key b |
| DesignAgent.SavedPageClearsDraft | scripts/design_agent.py:122-129 | once the page "<folder>/<b>-<lang>.html" is listed, no draft with key b is pending for that language |
| DesignAgent.PagePath | scripts/design_agent.py:173 | the page is saved directly in the page folder, and its base name is "<key>-<lang>.html" when neither part holds a '/' |
| DesignAgent.ParagraphBlockAppend | scripts/design_agent.py:57-60 | the paragraph block of concatenated topic lists is the concatenation of their blocks, so it has one section per topic in topic order |
| DesignAgent.MissingTopicIsEmpty | scripts/design_agent.py:59-60 | a topic missing from the draft mapping gets an empty paragraph |
| DesignAgent.BuildPrompt | scripts/design_agent.py:55-120 | the prompt fails (a key error) exactly when the draft mapping is missing and there are topics; otherwise it starts with the language's header and the theme, embeds the CSS, and ends with the paragraph block |
| DesignAgent.LanguageSwitch | scripts/design_agent.py:61-113 | "pt" selects the Portuguese header and any other language the English one |
| DesignAgent.DesignRun | scripts/design_agent.py:131-175 | a configuration error exactly when BUCKET_NAME or OPENAI_API_KEY is missing; nothing pending exactly when every draft key is matched; otherwise, for the oldest pending draft (the last one listed under that key, as the key-to-draft dict keeps it), an unreadable draft, a missing or empty theme or topic list, and a missing "draft" mapping each stop the run exactly in their own case, and in the remaining case the page saved at "<folder>/<key>-<lang>.html" is the stripped model reply to the built prompt |
| DesignAgent.DesignFor | scripts/design_agent.py:154-175 | for the chosen draft: unreadable exactly when it cannot be read, missing theme or topics exactly when one is absent or empty, no draft mapping exactly when the prompt cannot be built, and otherwise the page saved for the built prompt |
| HeadAgent.FetchLastJsons | scripts/head_agent.py:16-29 | returns the texts of the window of newest cards, computed by the download loop |
| HeadAgent.PadRecent | scripts/head_agent.py:23-29 | the loop downloads the window's cards in order and pads with "vazio" to exactly n entries |
| HeadAgent.LastJsons | scripts/head_agent.py:16-29 | there are always exactly n texts |
| HeadAgent.NonEmptyIndices | scripts/head_agent.py:43-47 | the positions of the non-"vazio" entries: all of them, each once, in increasing order |
| HeadAgent.Articles | scripts/head_agent.py:43-47 | one labelled article per non-"vazio" entry, in order, labelled with the entry's original position |
| HeadAgent.BuildPrompt | scripts/head_agent.py:31-58 | the first-post prompt exactly when every entry is "vazio"; otherwise the labelled articles separated by blank lines |
| HeadAgent.LetterRun | scripts/head_agent.py:66 | the run of ASCII letters at the start of a text, as far as it goes |
| HeadAgent.HeadStripFence | scripts/head_agent.py:60-68 | the result is trimmed, and a text without backticks is only stripped |
| HeadAgent.FenceRoundTrip | scripts/head_agent.py:64-68 | a trimmed JSON body wrapped in a "```json" fence comes back unchanged |
| HeadAgent.StampOf | scripts/head_agent.py:101 | the time stamp has 15 characters with '_' at position 8 |
| HeadAgent.DigitsOrder | scripts/head_agent.py:101 | for digit strings of equal length, string order is numeric order |
| HeadAgent.StampOrder | scripts/head_agent.py:101-102 | card names sort in time order: one stamp is at most another exactly when its instant is not later |
| HeadAgent.PartValues | scripts/head_agent.py:101 | the date and time fields read back as the numbers they were written from |
| HeadAgent.HeadRun | scripts/head_agent.py:70-104 | a configuration error exactly when BUCKET_NAME or OPENAI_API_KEY is missing; an unparsable reply is reported and not saved; a parsed reply is saved as "<FICHAUM_FOLDER>/<stamp>.json" with the re-serialised value |
| HeadAgent.BucketDefaultShadowed | scripts/head_agent.py:72-78 | the "linkedin-article" default never takes effect: without BUCKET_NAME the run stops with a configuration error |
| Patterns.TagEnd | scripts/post_blog.py:87 | `[^>]*>`: the first '>' at or after a position, or none when there is none |
| Patterns.DoctypeAt | scripts/post_blog.py:87 | the pattern matches exactly at a case-insensitive "<!doctype" with a later '>', and spans through that '>' and the whitespace after it |
| Patterns.TitleElementAt | scripts/post_blog.py:95 | the lazy title pattern matches exactly at a case-insensitive "<title>" with a later "</title>", and ends at the first such closing tag |
| Patterns.HtmlOpenAt | scripts/post_blog.py:96 | the pattern matches exactly at a case-insensitive "<html" with a later '>', through the first '>' |
| Patterns.H1At | scripts/post_blog.py:98-103 | a match starts at "<h1", runs to the end of its tag, then to the title case-insensitively, framed by whitespace, and then "</h1>" |
| Patterns.H1Content | scripts/post_blog.py:98-103 | the stripped content of a matched heading equals the title case-insensitively |
| Patterns.StripFramed | scripts/post_blog.py:92 | stripping a trimmed text framed by whitespace gives back that text |
| Patterns.Search | scripts/post_blog.py:88 | `re.search` finds the leftmost position where the pattern matches, and none when it matches nowhere |
| Patterns.Sub | scripts/post_blog.py:87-103 | `re.sub(…, "")` is never longer than its input |
| Patterns.SubUnmatched | scripts/post_blog.py:87-103 | `re.sub(…, "")` changes nothing when the pattern matches at no position |
| Patterns.SubLeftmost | scripts/post_blog.py:87-103 | `re.sub` keeps the text before the leftmost match, drops the match and goes on after it |
| PostBlog.HtmlBlobs | scripts/post_blog.py:66 | the result is an order-preserving sub-list of the names; it keeps exactly the names whose lower-cased form ends in ".html", with their multiplicities |
| PostBlog.LatestHtml | scripts/post_blog.py:66-75 | none exactly when no name is a page; otherwise a page with the greatest base name, the last listed among pages with that base name |
| PostBlog.LeadingDoctypeDropped | scripts/post_blog.py:87 | a leading doctype declaration and the whitespace after it are removed |
| PostBlog.WithoutDoctype | scripts/post_blog.py:87 | deleting the declarations never lengthens the page, and a page with no "<!doctype" in any case is left unchanged |
| PostBlog.TitleSpan | scripts/post_blog.py:88-91 | none exactly when no "<title>" is followed by a "</title>" (case-insensitive); otherwise the content bounds of the leftmost such element, closed at the first "</title>" |
| PostBlog.Title | scripts/post_blog.py:88-92 | a title exactly when the title element exists; it is the stripped element content |
| PostBlog.Clean | scripts/post_blog.py:95-104 | the cleaned body is trimmed and never longer than the page |
| PostBlog.CleanPlainText | scripts/post_blog.py:95-104 | a body with no tags and no occurrence of the title is only stripped |
| PostBlog.CoverImage | scripts/post_blog.py:134-136 | the cover tag opens with `<p><img src="`; for an address without '"' the attribute value read up to the next '"' is exactly that address; the tag ends with `" alt="Capa: <title>" style="max-width:100%;height:auto;"></p>` and a newline, the title read back from its place; and its length is that of these parts together, so nothing else is in it |
| PostBlog.CoverPath | scripts/post_blog.py:120-121 | the cover is saved directly in the page folder, and its base name is the page's base name without its extension, plus ".jpg" |
| PostBlog.NoTagNoMatch | scripts/post_blog.py:87-103 | none of the page patterns matches text without '<' |
| PostBlog.CoverBesidePage | scripts/post_blog.py:120-121 | the cover of "dir/stem.html" is "<folder>/stem.jpg" |
| PostBlog.BlogRun | scripts/post_blog.py:44-149 | a missing required variable is a configuration error; no page exactly when the folder has none; no title exactly when the chosen page has no title element; otherwise, given OPENAI_API_KEY, the post carries the blog id, the title, and the cover image prefix followed by the cleaned body, with the cover beside the page |
| Driver.ExitStatus | scripts/main.py:31 | the exit status is below 256 and equals the code for codes 0 to 255 |
| Driver.Drive | scripts/main.py:19-36 | the stages started are a prefix of the list, all but the last of them succeeded; the run completes exactly when every stage succeeds, and otherwise ends with the status of the last one started, which failed |
| Driver.FirstFailureStops | scripts/main.py:31-35 | with the first failure at stage i, stages 0 to i are started, no later one, and the run exits with stage i's status |
| Driver.AllStagesRun | scripts/main.py:11-17 | when every stage succeeds, the five scripts run in the listed order and the run completes with status 0 |

## Left out

- Storage: listing, downloading and uploading blobs, `make_public` and bucket validation are not modelled. A listing is a function from folder to names, a download is a function from name to text, and a failed download or upload is not modelled at all.
- Language model and image calls: the paragraph writer, the chat replies, the image URL and the image download are opaque parameters.
- JSON: `json.loads` is a parameter returning an Option, and `json.dumps` is not modelled. A card or draft whose `theme`, `topics` or `timestamp` is not a string (or a list of strings) is not modelled.
- Prompt wording and `CSS_CONTENT` are opaque strings (`Wording`, `HeadWording`); only how they are assembled is modelled.
- The image prompt of `post_blog.py` and the image size options are not modelled.
- `set_gcp_credentials`, `load_env` and `print_log` have no effect on the modelled decisions. They are left out, and so is the `OPENAI_MODEL` variable.
- `get_blogger_service` (token refresh, token file rewrite) and the Blogger insert call are left out; `BlogRun` ends with the post body it would send.
- `post_page_linkedin.py` and `get_token_blogger.py` are not part of this model: they are network plumbing and an interactive OAuth flow.
- `main.py` output: capturing and echoing stdout/stderr is not modelled, and neither is a script file that does not exist. A stage is seen only through its return code.
- `main.py` starts every stage with no arguments, so the design stage always runs with its default language "en". The model takes the language as a parameter and follows the code on this point.
- The clock: `HeadRun` takes the UTC time as a parameter. `StampOf` requires a year from 1000 to 9999, because `strftime("%Y")` output for years outside that range is platform-dependent.
- Strings.Lower: case folding covers ASCII and Latin-1 only. Python's full Unicode lowering and the regex engine's special case-insensitive folds (dotless i, long s, the Kelvin sign) are not modelled.
- HeadAgent.LetterRun: `[a-z]` under IGNORECASE is modelled as ASCII letters only; the regex engine also lets a few non-ASCII letters fold into that range.
- Patterns.H1At: the title inside the heading pattern is matched as a literal string (what `re.escape` produces), for titles that are already stripped, which is what `Title` returns.
- PostBlog.Clean: the contract states only that the result is trimmed and not longer than the page; the exact text follows from `Patterns.SubLeftmost` and `Strings.RemoveAll` step by step rather than from one closed-form statement.
- HeadAgent.FetchLastJsons: the window is stated against `LastJsons`, whose selection of the newest cards is given by `Utils.SortByTimestamp`; the download order is not stated separately.
- A draft's "draft" mapping is an entry list whose keys are not required to be unique. `json.loads` keeps the last value of a repeated key, while `Dicts.Get` returns the first; the model does not say which value a repeated topic gets, so prompts built from drafts with repeated keys are not modelled faithfully.
- The draft and design stages' behaviour when a download or JSON parse raises is reduced to a distinct outcome (`UnreadableFicha`, `UnreadableDraft`) instead of an uncaught exception.
