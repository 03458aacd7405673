# mastodon-bot: a Dafny model of one bot run

`bot.py` is a run-once Mastodon bot. Each run flips a coin. On heads it posts a random
paragraph of `content/text.txt`. On tails it picks a random image from
`content/images`, uploads it to the instance's media endpoint and, if the upload
returns an id, posts that image with a random paragraph as its caption.

The model keeps the decisions and leaves the effects as inputs:

- `PyStr` (`pystr.dfy`) defines the Python string operations the bot relies on, each
  on `seq<char>`:
  - `str.split` on a literal separator, with the `find` scan behind it;
  - `strip()`;
  - `lower()`;
  - `endswith`, also its tuple form;
  - the newline translation that text-mode `open` applies.
- `Content` (`content.dfy`) models `get_random_text` and `get_random_image`, plus the
  `os.path.join` and `os.path.basename` calls on image paths. The file contents, the
  directory listing and the `random.choice` draws are parameters.
- `Mastodon` (`mastodon.dfy`) models two things:
  - the form `post_status` sends;
  - the rule by which `upload_media` turns the media endpoint's answer into a media
    id or an exception.
- `Bot` (`bot.dfy`) models `main`. `Run` maps the coin and a `World` of inputs to the
  requests the run issues (`Upload`, `Post`) and the exception that ends it, if any.
- `Wrappers` (`wrappers.dfy`) holds `Option` and `Result`.

Modelling choices:

- `random.choice(cands)` with draw `pick` is `cands[pick % |cands|]`. `ChooseCovers`
  and `RandomTextCovers` prove that every candidate can be drawn.
- `World.textFile` holds the decoded contents of `content/text.txt` as stored. It is
  `None` when `open` or `read` at bot.py:43-44 raises: a missing file, no read
  permission, a directory in its place, or bytes that are not UTF-8.
- Text mode turns `\r\n` and a lone `\r` into `\n` before `split("\n\n")` runs.
  `RandomText` applies `UniversalNewlines` to the stored contents, so a file written
  with Windows line ends still splits at its blank lines.
- `get_random_text` raises in two kinds of situation, both `Failure` values:
  - `Unreadable`: opening or reading the file raises;
  - `NoParagraph`: `random.choice` gets an empty list.
- `upload_media` can raise in two places:
  - `open(file_path, "rb")` at bot.py:31, when the chosen entry is not a readable
    file (`World.imageOpens`);
  - `r.json().get("id")` at bot.py:36, on a 200 answer whose body is not JSON or is
    JSON but not an object (`UploadBody`).

  A crash at bot.py:36 happens after the upload request was sent.
- Facts about the code that shape the model:
  - With no text the run raises. `random.choice` at bot.py:45 raises on an empty list,
    and `main` calls `get_random_text` in both branches (bot.py:68, 75).
  - In the image branch that call comes before the image check (bot.py:75-76). A
    failed text read therefore ends the run before any request is sent, even when an
    image is available.
  - The image post's caption is the chosen paragraph (bot.py:75, 80). It is never
    empty.
  - The coin at bot.py:66 picks one branch per run. Paragraphs and images are never
    drawn from one shared pool.
- `text or ""` at bot.py:80 is modelled as written. `PostedTextIsParagraph` proves the
  empty fallback is never taken, because a successful `get_random_text` never
  returns an empty string.

## Model

| member | source | states |
|---|---|---|
| PyStr.Find | bot.py:44 | the index returned is an occurrence of the separator and no earlier index is one; `None` means the separator occurs nowhere |
| PyStr.FindFromSpec | bot.py:44 | the scan resumed at `i` finds no occurrence before the one it returns, and returns `None` only when none occurs at or after `i` |
| PyStr.FindFromOccurs | bot.py:44 | what the resumed scan returns is an occurrence of the separator |
| PyStr.FindFromFirst | bot.py:44 | an occurrence with none before it, from `i` on, is exactly what the resumed scan returns |
| PyStr.Split | bot.py:44 | `split` always returns at least one piece |
| PyStr.SplitJoin | bot.py:44 | joining the pieces of `split("\n\n")` with the separator gives back the file text |
| PyStr.SplitLastFree | bot.py:44 | the last piece of the split holds no separator |
| PyStr.SplitLeftmost | bot.py:44 | every other piece, with the separator put back after it, has its leftmost separator at its end, so the split cuts at leftmost non-overlapping occurrences |
| PyStr.SplitPieceFree | bot.py:44 | no piece of the split holds the separator |
| PyStr.UniversalNewlines | bot.py:43 | text-mode reading leaves no `\r` and never lengthens the text |
| PyStr.UniversalNewlinesSpace | bot.py:43 | the translated text is whitespace only iff the stored text is |
| PyStr.UniversalNewlinesPrefix | bot.py:43 | a stretch without `\r` is read as stored, in order, and the translation continues after it |
| PyStr.UniversalNewlinesNoCR | bot.py:43 | text without `\r` is read exactly as stored |
| PyStr.UniversalNewlinesCRLF | bot.py:43 | `\r\n` is read as one newline and the rest is translated on its own |
| PyStr.UniversalNewlinesCR | bot.py:43 | a `\r` not followed by `\n` is read as one newline and the rest is translated on its own |
| PyStr.UniversalNewlinesExample | bot.py:43 | the stored text "A", CRLF, CRLF, "B" reads as "A", blank line, "B" |
| PyStr.Strip | bot.py:45 | `strip()` never lengthens its argument |
| PyStr.SpaceEndSpec | bot.py:45 | the leading run `strip()` removes is all whitespace and stops at the first other character |
| PyStr.SpaceStartSpec | bot.py:45 | the trailing run `strip()` removes is all whitespace and stops after the last other character |
| PyStr.StripSlice | bot.py:45 | `strip()` gives a slice of its argument with only whitespace removed on either side |
| PyStr.StripEmpty | bot.py:45 | `strip()` is empty iff its argument is whitespace only, so a chunk is falsy after stripping exactly then |
| PyStr.StripEnds | bot.py:45 | a non-empty `strip()` neither starts nor ends with whitespace |
| PyStr.StripTrimmed | bot.py:45 | a string with no whitespace at either end is its own `strip()` |
| PyStr.StripIdempotent | bot.py:45 | stripping a stripped paragraph changes nothing |
| PyStr.StripFree | bot.py:44-45 | stripping a chunk that holds no separator leaves a string that holds none |
| PyStr.AllSpaceJoin | bot.py:44 | text joined with a whitespace separator is whitespace only iff every piece is |
| PyStr.Lower | bot.py:52 | `lower()` keeps the length and folds each character |
| PyStr.LowerUpper | bot.py:52 | lower-casing forgets an earlier upper-casing |
| PyStr.EndsWith | bot.py:52 | a string that ends with the suffix is its prefix followed by the suffix |
| PyStr.EndsWithIff | bot.py:52 | `endswith(e)` holds iff the name is some string followed by `e` |
| PyStr.EndsWithAny | bot.py:52 | `endswith` with a tuple holds only when some member of the tuple matches |
| PyStr.EndsWithAnyIff | bot.py:52 | `endswith` with a tuple holds iff it holds for one member of the tuple |
| Content.Choose | bot.py:45 | `random.choice` returns an element of its list |
| Content.ChooseCovers | bot.py:45 | every element of the list can be chosen |
| Content.NonBlank | bot.py:45 | the filtered list is no longer than the list of chunks |
| Content.NonBlankMembers | bot.py:44-45 | a string is a paragraph candidate iff it is non-empty and is the `strip()` of some chunk |
| Content.NonBlankTrimmed | bot.py:45 | every candidate is non-empty and has no leading or trailing whitespace |
| Content.NonBlankAppend | bot.py:45 | filtering distributes over concatenation, so candidates keep chunk order |
| Content.NonBlankAt | bot.py:45 | a chunk is dropped exactly when it is whitespace only; otherwise its `strip()` takes its place between its neighbours' candidates |
| Content.Paragraphs | bot.py:44-45 | every paragraph is non-empty and has no whitespace at either end |
| Content.ParagraphsEmpty | bot.py:44-45 | there is no paragraph iff the whole text is whitespace only |
| Content.ParagraphsFree | bot.py:44-45 | no paragraph contains a blank-line separator |
| Content.ParagraphsExample | bot.py:44-45 | the text "A", blank line, "B", two newlines gives exactly the paragraphs `["A", "B"]` |
| Content.RandomText | bot.py:41-45 | an unreadable file raises; a whitespace-only file raises on the empty choice; otherwise the result is a paragraph of the translated text, non-empty and trimmed |
| Content.RandomTextCovers | bot.py:41-45 | every paragraph of a readable file is the result for some draw |
| Content.IsImageName | bot.py:52 | a kept name is at least four characters long, the length of the shortest extension |
| Content.IsImageNameIff | bot.py:52 | a name qualifies iff its lower-cased form is some string followed by one of `.jpg .jpeg .png .gif .webp` |
| Content.IsImageNameIgnoresCase | bot.py:52 | upper-casing a name does not change whether it is kept |
| Content.ImageNames | bot.py:52 | every kept name qualifies and there are at most as many as entries |
| Content.ImageNamesMembers | bot.py:52 | a name is kept iff it is in the listing and qualifies |
| Content.ImageNamesAppend | bot.py:52 | the filter distributes over concatenation, so kept names keep the listing's order |
| Content.ImageNamesExample | bot.py:52 | the listing `a.JPG`, `b.txt`, `c.webp` keeps exactly `a.JPG` and `c.webp` |
| Content.JoinPath | bot.py:55 | `os.path.basename` of the joined path gives back a slash-free entry name |
| Content.BaseName | bot.py:32 | `os.path.basename` is the longest slash-free suffix of the path |
| Content.RandomImage | bot.py:47-55 | `None` iff the directory is missing or no entry qualifies; otherwise the directory joined with a qualifying entry |
| Mastodon.StatusForm | bot.py:17-22 | the form has `status` equal to the text verbatim and `visibility` equal to `public`; it has `media_ids[]` equal to the one-element list `[media_id]` exactly when the id is truthy; it has no other key |
| Mastodon.MediaId | bot.py:35-39 | a non-200 answer yields no id; a 200 answer whose body is a JSON object yields that object's `id` (or none); an id comes only from a 200 answer with a JSON object holding it; a 200 answer raises iff its body is not a JSON object, with a decode error iff it is not JSON |
| Bot.UploadAndPost | bot.py:28-39 | the upload step crashes iff the image does not open or the answer cannot be read; the upload comes first and a post, if any, last and only when nothing crashed |
| Bot.Run | bot.py:59-82 | a run crashes iff `get_random_text` raises, or, on tails with an image, the image does not open or the upload answer cannot be read; it issues at most two requests, an upload only first, and a post only last and only when nothing crashed |
| Bot.TextBranch | bot.py:66-71 | heads: no upload, and exactly one post of the chosen paragraph verbatim without media |
| Bot.ImageBranchNoImage | bot.py:72-82 | tails without a qualifying image: no request and no exception |
| Bot.ImageBranchWithImage | bot.py:72-80 | tails with an image: an image that does not open ends the run with no request; otherwise the upload comes first, under the entry's own name; a post follows iff the endpoint answered 200 with an object holding a non-empty id; that post carries the paragraph and that one id |
| Bot.PostNeedsUpload | bot.py:76-80 | a post with media comes right after an upload that answered 200 with exactly the attached id |
| Bot.PostedTextIsParagraph | bot.py:68-80 | every posted status is a non-empty paragraph of the text file, so the empty-caption fallback is never used |
| Bot.UploadIsListedImage | bot.py:31-33 | the uploaded file is a qualifying entry of the image directory, sent under that entry's name |
| Bot.NoTextNoRequests | bot.py:66-75 | an unreadable or whitespace-only text file ends the run in the text exception before any request, in both branches |

## Left out

- The HTTP calls (`requests.post`), the file reads and the directory listing are I/O. The model takes their results as inputs:
  - the media endpoint's answer is `UploadResponse`;
  - the text file is an `Option<string>`;
  - the listing is an `Option<seq<string>>`;
  - whether the image opens is a `bool`.
- Transport errors from `requests` are not modelled. Neither is `os.listdir` failing on a path that exists but is not a readable directory.
- Mastodon.MediaId: takes a JSON `id` member as a string. A non-string `id`, which the form encoder would send in its string form, is not distinguished.
- `random.choice` is an explicit draw parameter, not a uniform distribution.
- Content.JoinPath: is `dir + "/" + name`, and Content.BaseName splits on `/` only: both follow POSIX path rules. On Windows `os.path.join` uses `\` and `os.path.basename` also splits on `\`. Listing entries are relative names, so `os.path.join`'s absolute-path rule never applies.
- PyStr.Lower: folds only ASCII `A`..`Z` and keeps the length. Python's `lower()` also folds non-ASCII characters, and two of them give ASCII letters:
  - U+212A lowers to `k`, which occurs in no extension;
  - U+0130 lowers to `i` followed by U+0307, which lengthens the string. The combining dot always follows that `i`, so `.gif` cannot match through it.

  Which names are kept is therefore unaffected.
- `strip()` uses Python's whitespace set (`str.isspace`) by code point. UTF-8 decoding of the text file is not modelled; the stored text is taken as already decoded.
- Access token, `HEADERS`, the instance URL, the Asia/Shanghai timestamp and all `print` output (including the 30-character preview at bot.py:70) are configuration or logging.
- The HTTP status of the status post is printed, not acted on, so the model does not include it.
- test_post.py sends one fixed request and has no logic to model.
