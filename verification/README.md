# faleproxy rewrite core, modelled in Dafny

faleproxy fetches a web page and hands it back with every "Yale" turned into
"Fale" while keeping the case: YALE becomes FALE, Yale becomes Fale and yale
becomes fale. URLs, attributes and markup are left alone. This project models
the part of app.js that does the work and proves what it promises:

- `substitution.dfy` (module `Substitution`) holds `replaceYaleWithFale`.
  - It has a case-insensitive fast path, then three global `replace` passes.
  - Each pass is a left-to-right scan guarded by the negative lookahead `(?![^<>]*>)`.
  - An independent pointwise description of the result (`RewrittenAt`) stands
    next to it, and the two are proved equal. The rule's properties are
    stated against that description.
- `dom.dfy` (module `Dom`) holds the parsed page as an immutable tree.
  - Nodes are elements, text nodes and other nodes.
  - It defines cheerio's `.text()` and the `.attr()` read and write.
- `rewrite.dfy` (module `Rewrite`) holds the three tree passes of app.js:57-92
  and the title read at app.js:97.
  - Pass 1 rewrites every text node under an element.
  - Passes 2 and 3 re-derive the text of `title`/`h1`-`h6` and of `a`. They
    replace the children by one text node when the rule changes that text.
  - Pass 3 reads the `href` and writes it back.
- `proxy.dfy` (module `Proxy`) holds the `/fetch` handler's decision order.
  - The URL parser is a parameter, and so is the fetch-and-parse step.
- `scenarios.dfy` (module `Scenarios`) holds the inputs and expected outputs of
  tests/unit.test.js. The test file carries a copy of the rule and of the tree
  walk that is identical to app.js. The scenarios are therefore stated about
  the same model.

Four behaviours of app.js worth stating:

- The lookahead guard is applied to text-node payloads too. So a text such as
  "Yale > Harvard" keeps its "Yale": the text after the occurrence reaches a
  '>' before any '<' (`Substitution.TagGuardBlocks`).
- Passes 2 and 3 can change the shape of the tree. A selected element whose
  text still changes after pass 1 loses its children to a single text node.
  This happens when an occurrence straddles two nodes, as in `<h1>Ya<b>le</b></h1>`.
  The model states this as `Dom.Pruned` rather than as an unchanged skeleton.
- A collapse drops whatever sat inside the selected element, attributes
  included. In `<h1><a href="u">Ya</a>le</h1>` the heading's text "Yale"
  straddles two nodes, so pass 2 turns it into `<h1>Fale</h1>` and the
  anchor's `href` is lost, although no attribute is ever rewritten
  (`Rewrite.SelectedRewritten`, `Dom.Pruned`).
- Any falsy `url` (empty string, `0`, `false`, `null`) is answered as
  missing, not only an absent field.

## Model

| member | source | states |
|---|---|---|
| Substitution.InsideTagIsLookahead | app.js:28-30 | the recursive guard holds at j exactly when the lookahead `[^<>]*>` matches from j: a '>' comes before any '<' |
| Substitution.ReplaceFrom | app.js:28-30 | one global pass, resuming after each replaced occurrence: length kept, and each position changes to the replacement's initial exactly where an unguarded occurrence of that spelling starts |
| Substitution.ReplaceAll | app.js:28-30 | a whole pass from the start of the string, with the same pointwise description |
| Substitution.PassKeepsOtherHits | app.js:28-30 | a pass for one spelling neither creates nor destroys a replaceable occurrence of another spelling |
| Substitution.ThreePasses | app.js:27-30 | the three chained passes equal the pointwise reference `RewrittenAt`, whatever the order of spellings in the text |
| Substitution.Substitute | app.js:20-31 | the rule, fast path included, keeps the length and agrees with `RewrittenAt` at every position |
| Substitution.MentionsTarget | app.js:22 | the case-insensitive test fails on texts shorter than four characters and only on texts holding no replaceable occurrence of any spelling |
| Substitution.FastPathIsShortcut | app.js:22-24 | taking the fast path gives the same result as running the three passes |
| Substitution.UnchangedWithoutMention | app.js:22-24 | a text with no case-insensitive "yale" comes back identical |
| Substitution.ChangesOnlyInitials | app.js:27-30 | the result differs from the input only at the start of an unguarded exact occurrence, only by 'Y'->'F' or 'y'->'f', and every '<' and '>' stays in place |
| Substitution.CaseFidelity | app.js:28-30 | every unguarded YALE, Yale or yale becomes FALE, Fale or fale at the same position |
| Substitution.TagGuardBlocks | app.js:28-30 | an occurrence whose following text reaches '>' before '<' is left as it was |
| Substitution.OnlyExactSpellingsChange | app.js:28-30 | a position where none of the three exact spellings starts keeps its character, so mixed spellings such as YaLe survive |
| Substitution.ResultIsHitFree | app.js:27-30 | the result holds no replaceable occurrence of any spelling |
| Substitution.FixedPointsAreHitFree | app.js:20-31 | the rule leaves a text unchanged if and only if it holds no replaceable occurrence |
| Substitution.Idempotent | app.js:20-31 | applying the rule twice gives the same result as applying it once |
| Substitution.SubstituteConcat | app.js:28-30 | across a cut that no occurrence or guard can straddle, the rule acts on each side on its own |
| Substitution.JoinByPieces | app.js:28-30 | a text made of pieces joined at such cuts is rewritten piece by piece |
| Substitution.LetterMissingIsQuiet | tests/unit.test.js:7-9 | a text missing a letter of "yale" in both cases takes the fast path and comes back identical |
| Substitution.TargetAloneIsReplaced | tests/unit.test.js:13-15 | each spelling on its own becomes its replacement |
| Dom.GetAttr | app.js:88 | reading an attribute finds a value exactly when an attribute of that name exists, and the value found belongs to it |
| Dom.SetAttr | app.js:90 | after a write, reading the written name gives the new value, and every other name reads as before |
| Dom.SetWhatIsRead | app.js:87-91 | writing back the value just read leaves the attribute list identical |
| Rewrite.RewriteTexts | app.js:57-68 | pass 1 replaces every text node under an element by one holding the rule's result for its payload, keeps every tag, attribute, child count and non-text node, leaves a text node outside any element as it was, and leaves no replaceable occurrence in any text node under an element |
| Rewrite.TextPass | app.js:57-68 | pass 1 over the page rewrites each top-level element's text nodes by the rule's result for their payloads, keeps the top-level nodes that are not elements (top-level text included) as they were, and fades the page text |
| Rewrite.TextsSettledIsUnchanged | app.js:57-68 | pass 1 changes nothing on a tree it has already settled |
| Rewrite.WriteBackHref | app.js:87-91 | the `href` write-back leaves the attributes exactly as they were |
| Rewrite.RewriteSelected | app.js:71-92 | passes 2 and 3 keep the tag and attributes of every element that survives, while elements inside a collapsed title, heading or anchor are dropped with their attributes; a selected element is collapsed to one text node holding the rule's result for its text exactly when the rule changes that text; every other element keeps its child count; text and other nodes outside a collapsed element are left as they were; every selected element's text ends with nothing to replace |
| Rewrite.SelectedOutcome | app.js:71-77 | a selected element is collapsed to one text node holding the rewritten text if and only if the rule changes its text; otherwise it keeps its tag, attributes and number of children, and its text holds nothing to replace (the children themselves may still be rewritten, as a nested heading can collapse) |
| Rewrite.SelectPass | app.js:71-92 | pass 2 or 3 over the whole page keeps the number of top-level nodes, rewrites each of them as `RewriteSelected` describes (collapse exactly where the rule changes a selected element's text, nothing else touched), settles each of them, and fades the page text |
| Rewrite.SelectedKeepsSettled | app.js:71-92 | passes 2 and 3 never bring back a replaceable occurrence into the text of an element an earlier pass settled |
| Rewrite.SelectedKeepsTextsSettled | app.js:57-92 | passes 2 and 3 never bring back a replaceable occurrence into a text node that pass 1 settled |
| Rewrite.SettledIsUnchanged | app.js:71-92 | passes 2 and 3 change nothing on a tree they have already settled |
| Rewrite.QuietIsUnchanged | app.js:57-92 | a subtree whose text never mentions the target passes through every pass unchanged |
| Rewrite.TitleOf | app.js:97 | a node holding no `title` element reports the empty title, not an error; a `title` element's own text starts the title it reports |
| Rewrite.Title | app.js:97 | a page holding no `title` element anywhere reports the empty title |
| Rewrite.TextOfTaggedConcat | app.js:97 | the `title` text of two element lists joined is the `title` text of each, joined |
| Rewrite.TitleIsTaggedText | app.js:97 | the title the response reports equals `$("title").text()` taken independently: the text of every `title` element of the page, elements listed in document order (`Dom.Elements`) |
| Rewrite.SingleTitle | app.js:97 | a page with exactly one `title` element reports exactly that element's text |
| Rewrite.TitleElementText | app.js:97 | a `title` element holding text reports exactly that text |
| Rewrite.RewritePage | app.js:57-97 | the three passes keep the tag and attributes of every element that survives (elements inside a collapsed title, heading or anchor are dropped with their attributes), fade the page text, and leave every text node, heading and anchor settled |
| Rewrite.RewriteIsIdempotent | app.js:57-92 | rewriting an already rewritten page changes nothing, title included |
| Rewrite.QuietPageIsUnchanged | app.js:57-97 | a page whose text never mentions the target comes back identical, with its own title |
| Rewrite.PageIsNodewise | app.js:57-92 | each top-level node is rewritten on its own, and the title is read from the rewritten page |
| Rewrite.PlainElementPassesThrough | app.js:57-92 | an element that is neither heading nor anchor keeps its tag and attributes, and its children are rewritten one by one |
| Rewrite.LeafElement | app.js:57-92 | an element holding one text node ends up holding the rule's result for that text |
| Rewrite.QuietNode | app.js:57-92 | a node whose text never mentions the target comes through the whole rewrite unchanged |
| Proxy.HandleFetch | app.js:34-104 | 400 "URL is required" exactly when `url` is falsy; 500 "Invalid URL format" exactly when it is truthy but unparseable; 500 with "Failed to fetch content: " plus the cause exactly when the fetch fails; otherwise success with the original `url`, the content and title of the three passes applied to the loaded page, a page that a second rewrite would not change, and the title read from that page |
| Proxy.Truthy | app.js:38 | a JSON value counts as a missing URL exactly when it is absent, `null`, `false`, the number zero or the empty string |
| Proxy.MissingUrlStopsFirst | app.js:38-40 | with a falsy `url`, neither the URL parser nor the fetch affects the answer |
| Proxy.InvalidUrlIsNotFetched | app.js:43-47 | with an unparseable `url`, the fetch does not affect the answer |
| Proxy.EmptyUrlIsMissing | app.js:38-40 | the empty string and an absent field both count as a missing URL |
| Proxy.FailureStatus | app.js:38-47 | a failure is 400 exactly for a missing URL and 500 otherwise |
| Scenarios.MixedCaseKeepsCase | tests/unit.test.js:124-150 | "YALE University, Yale College, and yale medical school ..." becomes "FALE University, Fale College, and fale medical school ...", in the paragraph after pass 1 |
| Scenarios.QuietPageShape | tests/unit.test.js:86-121 | a head-title-body page whose texts the rule leaves alone passes through pass 1 and the whole rewrite unchanged, with its title reported |
| Scenarios.QuietPageSurvives | tests/unit.test.js:119-121 | the page with "Test Page", "Hello World" and "This is a test page with no references." comes back identical, with title "Test Page" |
| Scenarios.TitleRewritten | tests/unit.test.js:63 | "Yale University Test Page" becomes "Fale University Test Page" |
| Scenarios.HeadingRewritten | tests/unit.test.js:64 | "Welcome to Yale University" becomes "Welcome to Fale University" |
| Scenarios.IntroRewritten | tests/unit.test.js:65 | "Yale University is a private Ivy League." becomes "Fale University is a private Ivy League." |
| Scenarios.HistoryRewritten | tests/unit.test.js:66 | "Yale was founded in 1701." becomes "Fale was founded in 1701." |
| Scenarios.AboutRewritten | tests/unit.test.js:79 | the link text "About Yale" becomes "About Fale" |
| Scenarios.AdmissionsRewritten | tests/unit.test.js:80 | the link text "Yale Admissions" becomes "Fale Admissions" |
| Scenarios.SamplePageShape | tests/unit.test.js:23-58 | on the sample page shape, the walk replaces each text by the rule's result and keeps every tag and attribute, `href`, `src` and `alt` included |
| Scenarios.SamplePageRewritten | tests/unit.test.js:62-83 | the sample page comes back with its title, heading, paragraphs and link texts rewritten, every yale.edu URL and `alt="Yale Logo"` as they were, and the title "Fale University Test Page" |

## Left out

- The Express server, static files, middleware and the `/` route (app.js:1-17, 108-109): HTTP plumbing with no logic of its own.
- The outbound `axios.get` and cheerio's HTML parser: they are the `load` parameter of `Proxy.HandleFetch`, which either gives a parsed page or fails with a message.
- Serialising the page (`$.html()`): the model hands back the tree, and the serialiser is not part of this model.
- `new URL(url)` and the WHATWG URL parsing behind it: an uninterpreted predicate `validUrl`.
- Rewrite.RewriteTexts: `replaceWith(newText)` re-parses the new text as HTML. The model stores it as a plain text node, which is what it is for text holding no '<' and no '&' (re-parsing would decode a character reference such as `&copy;`).
- Entity decoding by `.text()`: a text node holds its decoded payload, so `&gt;` in the page is a '>' to the guard.
- Comments, the doctype and CDATA are one `Other` node kind that carries no text.
- Dom.SetAttr: cheerio keeps attributes in a map, so duplicate names cannot arise. The model writes the first match of a list.
- Selectors match tag names exactly as stored. Case folding of tag names is the parser's job.
- A request body with no `url` field and one whose `url` is `null` take the same path. A body that is not an object is not modelled.
- Proxy.HandleFetch: JSON numbers are reals, and NaN does not occur in parsed JSON, so zero is the only falsy number.
- Logging of the error (app.js:101): a side effect with no bearing on the reply.
- The sample fixture the unit test loads (tests/test-utils.js) is not part of this model. `Scenarios.SamplePage` is a page carrying the fragments the test asserts. Whitespace-only text nodes are left out of the scenario pages: they take the fast path and come back unchanged.
- tests/frontend.test.js, tests/integration.test.js, jest.config.js and jest.setup.js: browser glue, network mocks and test configuration.
