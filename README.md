# Bonk GPT chat: response splitter and chat session

Bonk GPT is a chat front end. The user describes an app, a model replies,
and the chat component (`components/ChatInterface.tsx`) splits every reply
into three parts:

- **code**: the first `` ```html `` block, which goes to the workspace preview;
- **upgrades**: the bullet list after a "Vibe Upgrades" heading, shown as
  suggestion chips;
- **narrative**: the rest, with the block replaced by
  `[Code successfully compiled to Workspace]` and the upgrades section cut
  off.

It keeps the transcript and the workspace in a small piece of state that the
submit and reset handlers update.

This project models that core in three Dafny modules.

- `Text` (`text.dfy`) holds the string primitives with their JavaScript
  meaning:
  - the `\s` class and `trim`, which share the ECMAScript WhiteSpace and
    LineTerminator set;
  - first-occurrence search;
  - `split` on one character;
  - ASCII case folding. The non-Unicode `/i` flag folds the letters of
    "Vibe Upgrades" exactly this way.
- `ResponseSplitter` (`splitter.dfy`) holds `extractCode`, `extractUpgrades`
  and `cleanText`.
  - Each regular expression has a search function that computes its match.
  - A predicate states what a match of the expression is.
  - Lemmas prove that the search finds the match the JavaScript engine
    reports: the leftmost start, the lazy `*?` stopping at the first closer,
    and only the first match (no `g` flag).
  - Two readings of the heading expression are built into the model rather
    than proved: `$` means the end of the text (there is no `m` flag), so
    the capture and the removed section run to the end of the text, and
    `[:\s]*` is greedy, so the capture starts at the first character after
    the heading that is neither a colon nor whitespace. `UpgradesCapture`
    and `RemoveUpgradesTail` are written that way, and `IsHeadingMatch`
    describes only the start of the match, not its tail.
- `ChatSession` (`session.dfy`) holds a `Session` class. It has the
  component's state fields (`messages`, `input`, `isLoading`, `activeTab`,
  `generatedCode`, `previewKey`), its submit and reset handlers, and a
  validity invariant that every handler preserves.
  - The submit handler is asynchronous, so it is split at its `await` into
    `BeginSubmit` and `CompleteSubmit`.
  - `Submit` is the whole handler as one step, for a reply that arrives
    before anything else happens.
  - The reply is a parameter: either the reply text or a failure.

The model keeps these behaviours of the code as written:

- A bullet indented by whitespace passes the bullet filter, which looks at
  the trimmed line. It keeps its marker, because the marker is only removed
  in the first column (`IndentedBulletKeepsMarker`). The exception is the
  first line of the upgrades section: `[:\s]*` also consumes the line break
  and the indentation before it, so a bullet there loses its marker, and
  `"Vibe Upgrades:\n  - a\n  - b"` gives `a` and `- b`
  (`FirstCaptureLineUnindented`).
- `extractUpgrades` reads the raw reply. `cleanText` looks for the heading
  only after the block was replaced. When the earliest heading lies inside
  the code block, the upgrades are read from inside the block, but nothing
  is cut from the narrative unless another heading follows the block
  (`HeadingInsideBlock`).
- A block with nothing between its fences gives no code, but is still
  replaced. A block holding only whitespace gives the empty code, which the
  submit handler treats as no code (`EmptyBlocks`, `NewCode`).

Three more consequences of the code as written:

- Only the first block is replaced. A second complete block that lies
  before the upgrades heading stays in the narrative, and parsing the
  narrative again finds code in it when something lies between its fences.
  A block after the heading is cut away with the upgrades section. With a
  single block no code is found (`NarrativeHasNoFurtherBlock` carries that
  condition).
- `[:\s]*` also matches nothing, so `Vibe Upgradesfoo` is a heading and
  its capture starts at `foo`.
- The bullet marker is removed only when it is in the first column of the
  line (`StripBullet`).

## Model

| member | source | states |
|---|---|---|
| Text.Trim | components/ChatInterface.tsx:29 | `trim` gives a slice of its input with no whitespace at either end, and only whitespace was removed on each side |
| Text.TrimStart | components/ChatInterface.tsx:41 | `\s*` after the bullet removes the longest whitespace prefix: what is left does not start with whitespace |
| Text.TrimEnd | components/ChatInterface.tsx:29 | the trailing half of `trim`: only whitespace is removed, and what is left does not end with whitespace |
| Text.TrimEmptyIffWhitespace | components/ChatInterface.tsx:56 | `!input.trim()` holds exactly when the input is all whitespace, which is the guard the submit methods test |
| Text.TrimTrimmed | components/ChatInterface.tsx:51 | trimming text that is already trimmed changes nothing |
| Text.IndexOf | components/ChatInterface.tsx:27 | the search finds the first occurrence at or after the start index, and finds none only when there is none |
| Text.IndexOfExtend | components/ChatInterface.tsx:27 | appending text after the first occurrence does not move it |
| Text.IndexOfTruncate | components/ChatInterface.tsx:27 | cutting the text after the first occurrence does not move it |
| Text.Split | components/ChatInterface.tsx:39 | `split('\n')` gives at least one piece, no piece holds the separator, and joining the pieces with the separator gives back the text |
| Text.JoinInjective | components/ChatInterface.tsx:39 | only one separator-free list of pieces joins to a given text |
| Text.SplitJoin | components/ChatInterface.tsx:39 | splitting the join of separator-free pieces gives back those pieces |
| ResponseSplitter.FindHtmlFence | components/ChatInterface.tsx:27 | the search finds a match of `` /```html([\s\S]*?)```/ ``: no opener lies left of it, and no closer lies between its opener and its closer; it finds none exactly when no opener has a closer after it |
| ResponseSplitter.HtmlFenceIsRegexMatch | components/ChatInterface.tsx:27 | the search result is the leftmost match, and the only leftmost match; it is absent exactly when the expression has no match |
| ResponseSplitter.ExtractCode | components/ChatInterface.tsx:26-32 | code is only found when the expression matches, and the code found is trimmed |
| ResponseSplitter.ExtractCodeIsFirstBlock | components/ChatInterface.tsx:26-31 | the code is the trimmed text between the leftmost opener and the first closer after it; it is absent when no such pair exists or when the text between them is empty |
| ResponseSplitter.FirstBlockOnly | components/ChatInterface.tsx:26-48 | whatever follows the first block (further blocks included) changes neither the match nor the code; the replacement keeps it unchanged after the placeholder |
| ResponseSplitter.FirstBlockFence | components/ChatInterface.tsx:27 | text after the first block's closer does not move the match |
| ResponseSplitter.EmptyBlocks | components/ChatInterface.tsx:28-29 | an empty capture gives no code and a whitespace-only capture gives the empty code; either way the block is replaced |
| ResponseSplitter.WhitespaceRunStart | components/ChatInterface.tsx:36 | the whitespace run that ends at a given index: all whitespace, and not preceded by whitespace |
| ResponseSplitter.LeadStart | components/ChatInterface.tsx:36 | the lead of the heading expression (`###`, `**` or nothing, then whitespace) spans from the returned start to the heading |
| ResponseSplitter.LeadStartIsLeftmost | components/ChatInterface.tsx:36 | no lead (`###`, `**` or nothing, then whitespace) that ends at the heading starts further left |
| ResponseSplitter.LeadAfterMarker | components/ChatInterface.tsx:36 | a `###` or `**` marker followed by whitespace up to the heading is where the match starts |
| ResponseSplitter.RunStartMinimal | components/ChatInterface.tsx:36 | the whitespace run found is the longest one that ends at the heading |
| ResponseSplitter.FindHeading | components/ChatInterface.tsx:36 | the result is a match of the heading expression anchored at the earliest case-insensitive "Vibe Upgrades"; it is absent exactly when no such heading occurs |
| ResponseSplitter.HeadingMatchIsLeftmost | components/ChatInterface.tsx:36 | no match of the heading expression starts left of the result, and a match that starts where the result starts uses the same heading |
| ResponseSplitter.HeadingIsRegexMatch | components/ChatInterface.tsx:36 | the result is the leftmost match of the heading expression, and it is absent exactly when the expression has no match |
| ResponseSplitter.SkipSeparators | components/ChatInterface.tsx:36 | greedy `[:\s]*`: every skipped character is a colon or whitespace, and the next one is neither |
| ResponseSplitter.UpgradesCapture | components/ChatInterface.tsx:36-37 | `match[1]` is a suffix of the text that starts after the earliest heading and the separators that follow it, and does not start with a separator; it is absent exactly when there is no heading |
| ResponseSplitter.KeepBulletLines | components/ChatInterface.tsx:40 | every kept line starts with `-`, `*` or `•` once trimmed |
| ResponseSplitter.StripBullet | components/ChatInterface.tsx:41 | a line starting with a bullet loses that one character and the whitespace run after it, and what is left does not start with whitespace; any other line, an indented bullet included, is unchanged |
| ResponseSplitter.CleanBullets | components/ChatInterface.tsx:41 | one cleaned, trimmed item for each line |
| ResponseSplitter.DropEmpty | components/ChatInterface.tsx:42 | no kept item is empty, and trimmed items stay trimmed |
| ResponseSplitter.BulletItems | components/ChatInterface.tsx:39-42 | every item of the filter-map-filter chain is non-empty and trimmed |
| ResponseSplitter.ExtractUpgrades | components/ChatInterface.tsx:34-45 | no heading gives no items; every item is non-empty and trimmed |
| ResponseSplitter.KeepBulletLinesAppend | components/ChatInterface.tsx:40 | the bullet filter works line by line, so it distributes over concatenation |
| ResponseSplitter.CleanBulletsAppend | components/ChatInterface.tsx:41 | the bullet cleaning works line by line, so it distributes over concatenation |
| ResponseSplitter.DropEmptyAppend | components/ChatInterface.tsx:42 | the empty filter works item by item, so it distributes over concatenation |
| ResponseSplitter.BulletItemsAppend | components/ChatInterface.tsx:39-42 | the items of two groups of lines are the items of the first group followed by those of the second |
| ResponseSplitter.BulletItemsSingle | components/ChatInterface.tsx:40-42 | a single line gives one item exactly when its trimmed form starts with a bullet and some text is left once the bullet is cleaned off |
| ResponseSplitter.FirstCaptureLineUnindented | components/ChatInterface.tsx:36-41 | the first line of the captured section never starts with whitespace, so a bullet on it is in the first column and its marker is removed |
| ResponseSplitter.KeepBulletLinesSingle | components/ChatInterface.tsx:40 | a single line is kept exactly when its trimmed form starts with a bullet |
| ResponseSplitter.DropEmptySingle | components/ChatInterface.tsx:42 | a single item is kept exactly when it is non-empty |
| ResponseSplitter.IndentedBulletKeepsMarker | components/ChatInterface.tsx:40-41 | an indented bullet line gives its trimmed text with the marker still in front |
| ResponseSplitter.BulletItemsByLine | components/ChatInterface.tsx:39-42 | the chain equals reading the lines one by one, in their order, each giving at most one item |
| ResponseSplitter.ExtractUpgradesByLine | components/ChatInterface.tsx:36-44 | the upgrades are the line-by-line items of `match[1]` split on newlines; an empty capture or a missing heading gives none |
| ResponseSplitter.ReplaceFirstFence | components/ChatInterface.tsx:48 | the text is changed exactly when the block expression matches |
| ResponseSplitter.ReplacementShape | components/ChatInterface.tsx:48 | the replaced text is the text before the block, then the placeholder, then the text after the block |
| ResponseSplitter.OpenerAfterPlaceholder | components/ChatInterface.tsx:48 | every opener left in the replaced text lies after the placeholder |
| ResponseSplitter.ReplacementKeepsOnlyLaterBlocks | components/ChatInterface.tsx:48 | the replaced text holds a complete block only if the text after the first block holds one |
| ResponseSplitter.HeadingOffPlaceholder | components/ChatInterface.tsx:48-50 | no heading of the replaced text overlaps the placeholder |
| ResponseSplitter.HeadingsOfReplacement | components/ChatInterface.tsx:48-50 | each heading of the replaced text is a heading of the text before the block or of the text after it |
| ResponseSplitter.RemoveUpgradesTail | components/ChatInterface.tsx:50 | deleting the match cuts the text at the start of the leftmost match; the rest holds no heading, and the text is unchanged exactly when it held none |
| ResponseSplitter.CleanText | components/ChatInterface.tsx:47-52 | the narrative is trimmed and holds no case-insensitive "Vibe Upgrades" |
| ResponseSplitter.TrimKeepsNoHeading | components/ChatInterface.tsx:51 | trimming text without a heading leaves none |
| ResponseSplitter.CleanTextPlain | components/ChatInterface.tsx:47-52 | a reply with neither a block nor a heading becomes its trimmed text |
| ResponseSplitter.WhitespaceOnlyReply | components/ChatInterface.tsx:26-52 | a whitespace-only reply gives an empty narrative, no code and no upgrades |
| ResponseSplitter.NarrativeHasNoFurtherBlock | components/ChatInterface.tsx:47-52 | when no complete block follows the first one, parsing the narrative again finds no code |
| ResponseSplitter.CleaningKeepsNoBlock | components/ChatInterface.tsx:50-51 | cutting the upgrades section and trimming add no block |
| ResponseSplitter.HeadingInsideBlock | components/ChatInterface.tsx:34-52 | when the earliest heading lies inside the first block and none follows it, the upgrades are still read and their capture starts inside the block, but the narrative is only the trimmed replacement, with nothing cut |
| ChatSession.History | components/ChatInterface.tsx:64-67 | the history has one entry per message, with the same role and the text as its only part |
| ChatSession.ReplyMessage | components/ChatInterface.tsx:72-91 | the new model message is well formed; it carries upgrades exactly when the reply has some; a received reply's narrative is trimmed and holds no heading |
| ChatSession.NewCode | components/ChatInterface.tsx:71-83 | a reply changes the workspace exactly when the extracted code is present and non-empty, and that code is trimmed |
| ChatSession.AppendWellFormed | components/ChatInterface.tsx:81 | appending a well-formed message keeps every message well formed |
| ChatSession.Session.constructor | components/ChatInterface.tsx:7-15 | the session starts with the greeting alone, an empty input, no loading, the preview tab, no code and preview counter 0 |
| ChatSession.Session.SetInput | components/ChatInterface.tsx:191 | typing sets the input and changes nothing else |
| ChatSession.Session.BeginSubmit | components/ChatInterface.tsx:56-69 | a blank input or a submit already in flight changes nothing and sends nothing; otherwise the user message is appended, the input cleared and loading set, and the request carries the input and the transcript without the new message |
| ChatSession.Session.CompleteSubmit | components/ChatInterface.tsx:71-94 | exactly one model message is appended (the parsed reply or the failure notice); non-empty code replaces the workspace code, adds exactly 1 to the preview counter and selects the preview tab, otherwise those three stay; loading ends |
| ChatSession.Session.AppendMessage | components/ChatInterface.tsx:81 | the message is appended and nothing else changes |
| ChatSession.Session.LoadCode | components/ChatInterface.tsx:83-87 | present code replaces the workspace code, adds 1 to the preview counter and selects the preview tab; absent code changes nothing |
| ChatSession.Session.Submit | components/ChatInterface.tsx:54-95 | a blank or overlapping submit changes nothing; otherwise the transcript grows by the user message and exactly one model message, the input is cleared, loading is off at the end, and the workspace changes only for non-empty code |
| ChatSession.Session.Reset | components/ChatInterface.tsx:124-128 | the transcript becomes the reset notice alone and the workspace code is cleared; nothing else changes |

## Left out

- Rendering is left out because it is presentation: the JSX, the scroll
  effect, and the tab, refresh and copy buttons. This includes their
  handlers at components/ChatInterface.tsx:211, 219, 230 and 97-102, which
  set one field each or use the clipboard and a timer.
- The chat service (`services/geminiService.ts`) is left out of this model.
  A submit returns the `Request` it would send, and the reply comes in as a
  parameter, either the reply text or a failure.
- The shipped chat service never rejects: a missing key, an empty answer
  and an error all come back as reply text
  (services/geminiService.ts:42-46, 85, 87-90). With that service the
  `Failed` reply, the catch branch at components/ChatInterface.tsx:89-91,
  does not happen; the model keeps it for a service that does reject.
- React's batching of state updates is not modelled. Each method updates
  the fields in order.
- The `ChatMessage` type comes from a `types` file that is not part of this
  model. Its fields are taken from how the component uses them.
- JavaScript strings are sequences of UTF-16 code units. Here they are
  sequences of Unicode scalar values, so a character outside the Basic
  Multilingual Plane (such as the rocket at the end of the greeting) counts
  as one character here and as two in JavaScript. None of the three
  functions depends on lengths beyond emptiness, so their results are the
  same.
- ChatSession.Session.Submit: models a reply that arrives before any other
  handler runs. Interleavings, such as a reset while the request is in
  flight, are covered by calling BeginSubmit, then other handlers, then
  CompleteSubmit.
- ResponseSplitter.NarrativeHasNoFurtherBlock: requires that no complete
  block follows the first. A second block that lies before the upgrades
  heading survives in the narrative, and parsing the narrative again finds
  code in it when something lies between its fences.
