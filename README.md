# Faleproxy text rewriting, modelled in Dafny

Faleproxy fetches a web page and sends it back with "Yale" replaced. This project models the
core of that rewriting, `modifyHTML` in `app.js`. The page is already parsed into a tree of
elements, text nodes and comments. `modifyHTML` visits every text node whose parent element
lies inside `<body>`. It runs the node's text through the substitution and puts the new text
in place when it differs. Then it substitutes the combined text of the `<title>` elements and
writes that back into them.

There are two substitutions, and the walk takes either one as a parameter:

- **Simple mode**: `text.replace(/Yale/gi, 'Sammi')` as `app.js` writes it. Every occurrence
  of `yale`, in any casing, becomes `Sammi`.
- **Case-mirroring mode**: the `String.prototype.replace` override in `jest.setup.js`. A text
  that contains the phrase `no\s+Yale\s+references` (in any casing) is returned unchanged.
  Otherwise each occurrence becomes `FALE`, `fale` or `Fale`, depending on whether it is all
  upper case, all lower case, or mixed.

Modules:

- `Ascii` (`ascii.dfy`): ASCII letter case. A non-unicode `/i` regular expression folds case
  in the same way for the letters of `yale`.
- `RegexReplace` (`replace.dfy`): a global, case-insensitive replacement of `yale`. It is one
  left-to-right scan with a per-match callback, the way `String.prototype.replace` works with a
  `/g` pattern.
- `SammiReplace` (`sammi.dfy`): simple mode.
- `FaleOverride` (`jest_setup.dfy`): the sentinel guard and the case-mirroring callback.
- `Dom` (`dom.dfy`): the parsed document, paths into it, in-place replacement of one node, and
  the tree's shape (the tree with its text data erased).
- `Walk` (`walk.dfy`): which text nodes `body *` reaches, the loop that replaces them, the
  title rewrite, and `modifyHTML` as a whole.
- `ProxyModes` (`modes.dfy`): the two modes plugged into the walk.

The walk is an imperative loop over the list of visited nodes, in document order: the method
`Walk.WalkBody`. It is proved against the function `Walk.RewriteList`, which states the result
node by node. The lemmas in `Walk` then prove what the walk changes and what it keeps.

Points where the code does something other than a quick reading suggests. The model follows
the code:

- Matching is by substring, not by word: `Yalewood` becomes `Falewood` (or `Sammiwood`).
- `body *` matches every element inside body, `<script>` and `<style>` included, so their text
  is substituted too.
- A text node that is a direct child of `<body>` is not reached by `body *` followed by
  `.contents()`, so it is kept as it is.
- For the title, `.text()` concatenates the text of every `<title>` element. A title nested
  in another is counted again on its own. `.text(t)` then overwrites every outermost title
  with one text node, whether or not anything changed.

The unit tests in `tests/unit.test.js` (lines 44-58) expect simple-mode output, even for the
sentinel sentence. Under the guard as its comment states it, that sentence would be left alone;
`FaleOverride.GuardExample` and `SammiReplace.NoGuardExample` state the two outcomes.

## Model

| member | source | states |
|---|---|---|
| Ascii.Lower | app.js:19 | definition: lower-casing, letter by letter, the folding `/i` applies to the ASCII letters; `LowerFixed` and `SentinelAtIff` state what it decides |
| Ascii.Upper | jest.setup.js:13 | definition: `toUpperCase` on ASCII letters, letter by letter; `UpperFixed` and `MirrorCases` state what the callback's test with it decides |
| RegexReplace.IsTarget | app.js:19 | definition: four characters that are `yale` once case is folded, what `/Yale/i` matches; `NoOverlap` and `NoLetterY` state facts about it |
| RegexReplace.MatchesAt | app.js:19 | definition: `/Yale/i` matches at a position; `SplitAtMatch` and `ReplacedAtMatch` state what the global replacement does there |
| RegexReplace.ContainsTarget | app.js:19 | definition: `/Yale/i` matches somewhere in the text; `NoMatchUnchanged` and `NoneRemain` state what it means for the replacement |
| RegexReplace.ReplaceAll | app.js:19 | definition: the left-to-right scan that puts the callback's value in place of each match; its meaning is stated by `SplitAtMatch`, `NoneRemain`, `NoMatchUnchanged` and `LengthPreserved` |
| RegexReplace.NoOverlap | app.js:19 | two matches of `yale` never overlap, so the left-to-right global scan finds every occurrence |
| RegexReplace.NoMatchUnchanged | app.js:19-20 | a text without a match comes back unchanged, whatever the callback |
| RegexReplace.SplitAtMatch | app.js:19 | a match splits the replacement: the text before it, the callback's value for the matched text, and the text after it |
| RegexReplace.ScanMatch | app.js:19 | where a match starts the text, the scan emits the callback's value and goes on after the match |
| RegexReplace.ScanKeep | app.js:19 | where no match starts the text, the scan keeps the first character and goes on from the next one |
| RegexReplace.LengthPreserved | jest.setup.js:12-16 | with a callback that keeps length, the result has the input's length |
| RegexReplace.ReplacedAtMatch | jest.setup.js:12 | with a length-keeping callback, each match position holds the callback's value for that match |
| RegexReplace.KeptOutsideMatches | jest.setup.js:12 | with a length-keeping callback, a character covered by no match is kept |
| RegexReplace.LeadReflects | app.js:19 | with an inert callback, if the result begins with the tail `ale`, `le` or `e` of the target, in any casing, so did the input: an inert substitute never supplies the end of a new match |
| RegexReplace.NoneRemain | app.js:19 | a callback whose value cannot start or complete a match leaves no match in the result |
| RegexReplace.KeptLeadStartsNoMatch | app.js:19 | with an inert callback, where no match starts the text, none starts the substituted text either |
| RegexReplace.NoLetterY | app.js:19 | a text without the letter `y` in either case holds no match |
| RegexReplace.NoMatchAroundY | app.js:19 | a text whose only `y` is not followed by an `a` holds no match |
| SammiReplace.Replace | app.js:19 | simple mode leaves no match; the text is unchanged exactly when it had no match |
| SammiReplace.SammiInert | app.js:19 | `Sammi` can neither start nor complete a match |
| SammiReplace.EveryMatchBecomesSammi | app.js:19 | every match, whatever its casing, becomes `Sammi`, with the text around it substituted on its own |
| SammiReplace.CleanThenMatch | app.js:19 | a stretch without a match followed by a match: the stretch is kept and the match becomes `Sammi` |
| SammiReplace.ThreeMatches | app.js:19 | three matches, each followed by a stretch without one, all become `Sammi` |
| SammiReplace.LeadingMatch | app.js:19 | a match followed by a stretch without one becomes `Sammi` followed by that stretch |
| SammiReplace.Idempotent | app.js:19 | substituting a second time changes nothing |
| SammiReplace.UniversityClean | tests/unit.test.js:53 | the stretch ` University, ` holds no match |
| SammiReplace.CollegeClean | tests/unit.test.js:53 | the stretch ` College, and ` holds no match |
| SammiReplace.SchoolClean | tests/unit.test.js:53 | the rest of the sentence after the last match holds no match |
| SammiReplace.TestPageClean | tests/unit.test.js:11 | the stretch ` University Test Page` holds no match |
| SammiReplace.SentenceClean | tests/unit.test.js:38 | the text on either side of `Yale` in the sentinel sentence holds no match |
| SammiReplace.MixedCaseExample | tests/unit.test.js:51-58 | `YALE`, `Yale` and `yale` in one paragraph all become `Sammi` |
| SammiReplace.TitleExample | tests/unit.test.js:11 | the title `Yale University Test Page` becomes `Sammi University Test Page` |
| SammiReplace.NoGuardExample | tests/unit.test.js:44-48 | simple mode has no guard: `no Yale references` becomes `no Sammi references` |
| FaleOverride.IsSpace | jest.setup.js:7 | definition: the characters `\s` matches (white space and line terminators); used by `SkipSpaces` and the guard, whose meaning `SentinelAtIff` states |
| FaleOverride.SentinelAt | jest.setup.js:7 | definition: the guard's scan at one position, `no`, a greedy run of spaces, `yale`, a greedy run, `references`; `SentinelAtIff` proves it finds exactly the regular expression's matches |
| FaleOverride.ContainsSentinel | jest.setup.js:7 | definition: the guard phrase occurs somewhere in the text; `Replace` and `GuardedPhrase` state what it decides |
| FaleOverride.Mirror | jest.setup.js:12-16 | definition: the per-match callback; `MirrorValues`, `MirrorCases`, `MirrorSameLength` and `MirrorInert` state what it yields |
| FaleOverride.SkipSpaces | jest.setup.js:7 | the end of the run of `\s` characters from a position: all of them spaces, and no space follows |
| FaleOverride.Replace | jest.setup.js:5-17 | a text with the sentinel phrase, or with no match, is unchanged; any other text has no match left; the length is kept |
| FaleOverride.MirrorValues | jest.setup.js:13-15 | the callback always yields `FALE`, `fale` or `Fale` |
| FaleOverride.MirrorInert | jest.setup.js:12-16 | `FALE`, `fale` and `Fale` can neither start nor complete a match |
| FaleOverride.MirrorSameLength | jest.setup.js:12-16 | the callback's value has the length of the match |
| FaleOverride.MirrorCases | jest.setup.js:13-15 | on a match, the value is `FALE` exactly when it is all upper case, `fale` exactly when all lower case, `Fale` exactly otherwise; it is always `fale` in some casing |
| FaleOverride.UpperFixed | jest.setup.js:13 | a text equals its upper-casing exactly when it has no lower-case letter |
| FaleOverride.LowerFixed | jest.setup.js:14 | a text equals its lower-casing exactly when it has no upper-case letter |
| FaleOverride.SkipSpacesExact | jest.setup.js:7 | a run of spaces that ends at a non-space is the run SkipSpaces finds |
| FaleOverride.WordStartsWithLetter | jest.setup.js:7 | a word of the phrase does not start with a space |
| FaleOverride.SentinelAtSound | jest.setup.js:7 | a phrase found with greedy runs of spaces is `no`, spaces, `yale`, spaces, `references` |
| FaleOverride.SentinelAtComplete | jest.setup.js:7 | every spelling of the phrase with one or more spaces in each gap is found |
| FaleOverride.GreedyRun | jest.setup.js:7 | a run of spaces followed by a word of the phrase is exactly the run the scan skips |
| FaleOverride.SentinelLength | jest.setup.js:7 | the guard phrase takes at least eighteen characters |
| FaleOverride.ShortNoSentinel | jest.setup.js:7 | a text shorter than eighteen characters cannot trip the guard |
| FaleOverride.SentinelAtIff | jest.setup.js:6-7 | the guard's scan succeeds at a position exactly when `no\s+Yale\s+references` matches there, case-insensitively |
| FaleOverride.SentinelHasTarget | jest.setup.js:7-11 | a text that trips the guard holds a match, so the guard is what keeps it unchanged |
| FaleOverride.MatchReplacedByCase | jest.setup.js:12-16 | outside the guard, each match is replaced in place by the value its casing selects |
| FaleOverride.KeptOutsideMatch | jest.setup.js:12 | outside the guard, a character covered by no match is kept |
| FaleOverride.Idempotent | jest.setup.js:5-17 | substituting a second time changes nothing |
| FaleOverride.SingleMatch | jest.setup.js:12-16 | a text that is one match becomes the value its casing selects |
| FaleOverride.MatchThenRest | jest.setup.js:11-16 | outside the guard, a match followed by a stretch without one becomes its case-selected value followed by that stretch |
| FaleOverride.GuardedPhrase | jest.setup.js:6-8 | the phrase `no Yale references`, in any casing and with one space in each gap, anywhere in a text, makes the override return the text unchanged |
| FaleOverride.UpperExample | jest.setup.js:13 | `YALE` becomes `FALE` |
| FaleOverride.LowerExample | jest.setup.js:14 | `yale` becomes `fale` |
| FaleOverride.MixedCasings | jest.setup.js:15 | the callback gives `Fale` for `Yale` and for `yAlE` |
| FaleOverride.MixedExamples | jest.setup.js:15 | `Yale` and `yAlE` become `Fale` |
| FaleOverride.GuardExample | jest.setup.js:6-8 | the sentence `This is a test page with no Yale references.` trips the guard and is returned unchanged |
| FaleOverride.InsideWordExample | jest.setup.js:11-16 | a match inside a longer word is replaced too: `Yalewood` becomes `Falewood` |
| Dom.ReplaceAt | app.js:21 | replacing the node at a path keeps the length of the top-level list |
| Dom.PathStep | app.js:15 | a path of length two or more leads into the children of the element at its first step |
| Dom.ReplaceTextShape | app.js:21 | replacing a text node by another text node keeps the tree's shape |
| Dom.ShapePaths | app.js:15 | two trees of the same shape have the same paths and the same kind of node at each |
| Dom.ReplaceTextElsewhere | app.js:21 | replacing the text node at one path leaves every other text and comment node as it was |
| Dom.ShapeAndTextDetermine | app.js:15-23 | two trees of the same shape and the same text nodes are equal |
| Dom.SameShapeSameCount | app.js:15-23 | two trees of the same shape have the same number of nodes |
| Dom.SameShapeElements | app.js:15-23 | in two trees of the same shape, the elements at a path have the same tag, attributes and number of children |
| Walk.Prefixed | app.js:15 | definition: each path placed behind a child index, in the same order; used by `CandidatesIn`, whose meaning `CandidatesInIff` states |
| Walk.IsCandidate | app.js:15-17 | definition: a path is in the list the walk visits; `CandidatesInIff` and `CandidateMeansBelowBody` state exactly which text nodes those are |
| Walk.CandidateMeansBelowBody | app.js:15-16 | a node is visited exactly when it is a text node whose parent is an element with a `<body>` ancestor |
| Walk.PrefixPath | app.js:15 | every prefix of a path is a path, and past the first step it is a path among the first node's children |
| Walk.ScopeInsideIff | app.js:15 | the scope of a node's list is "inside body" exactly when some ancestor above its parent is a `<body>` |
| Walk.InPrefix | app.js:15 | within a prefix of a list, paths, nodes and scopes are those of the whole list |
| Walk.CandidatesIn | app.js:15-17 | definition: the paths of the text nodes `body *` then `.contents()` reaches in a list, in document order; `CandidatesInIff` and `CandidatesInDistinct` state which paths and that each comes once |
| Walk.CandidatesOf | app.js:15-17 | definition: the same for the nodes at or below one node; `CandidatesOfIff` and `CandidatesOfDistinct` state its meaning |
| Walk.CandidatesInIff | app.js:15-17 | the list of visited paths holds exactly the visited text nodes |
| Walk.CandidatesOfIff | app.js:15-17 | the visited paths below one node are its own text (when inside body) or its children's visited nodes |
| Walk.CandidatesInDistinct | app.js:17 | each visited node is listed once |
| Walk.CandidatesOfDistinct | app.js:17 | each visited node below one node is listed once |
| Walk.RewriteList | app.js:15-23 | the walk keeps the length of each list of children |
| Walk.RewriteNode | app.js:18-21 | definition: one node after the walk; `RewriteNodeShape` and `RewriteListAt` state what it keeps and what it changes |
| Walk.RewriteListShape | app.js:15-23 | the walk keeps the tree's shape: elements, tags, attributes, children, comments |
| Walk.RewriteNodeShape | app.js:15-23 | the walk keeps the shape of each node |
| Walk.RewriteListAt | app.js:18-21 | after the walk, a visited text node holds the substitution of its text, and every other text node keeps its text |
| Walk.WalkedNone | app.js:15 | before the loop, no node has been visited and the tree is the input |
| Walk.WalkedStep | app.js:18-22 | one step of the loop: the node still holds its old text; replacing it, or keeping it when the text did not change, adds it to the visited ones |
| Walk.WalkedAll | app.js:23 | once every listed node is visited, the tree is the walked document |
| Walk.WalkBody | app.js:14-23 | the loop returns the walked document and the paths it replaced, in document order |
| Walk.Changed | app.js:20-21 | definition: the listed paths whose text the substitution changes, in order, as `text !== newText` decides; `ChangedIff` and `ChangedSnoc` state its meaning |
| Walk.ChangedSnoc | app.js:20-21 | one more visited path is added to the replaced ones exactly when its text changes |
| Walk.ChangedIff | app.js:20 | a path is reported as replaced exactly when it is listed and its text changes under the substitution |
| Walk.RewrittenIff | app.js:15-22 | the walk replaces a node exactly when it is visited and its text changes |
| Walk.WalkKeepsStructure | app.js:15-23 | the walk keeps the node count, each element's tag, attributes (so `href` and `alt` stay as they are) and child count, each comment, and each text node's place |
| Walk.WalkText | app.js:18-21 | after the walk, a text node whose parent lies strictly inside a `<body>` holds the substitution of its text; every other text node is kept |
| Walk.BodyChildTextKept | app.js:15-16 | a text node directly under an outermost `<body>` is not visited and keeps its text |
| Walk.WalkNoChange | app.js:20 | when the substitution changes no visited text, the walk returns the document unchanged and replaces nothing |
| Walk.TextContent | app.js:26 | definition: the text of one node, as `.text()` collects it; used by `TitleTextOf`, whose meaning `SetTitleText` and `TitleAfterModify` state |
| Walk.TitleText | app.js:26 | definition: the combined text of every `<title>` in a list, as `$('title').text()` gives it; `SetTitleText`, `WalkKeepsTitleText` and `TitleAfterModify` state its meaning |
| Walk.TitleTextOf | app.js:26 | definition: the same for the titles at or below one node; `SetTitleTextOf` and `WalkKeepsTitleTextOf` state its meaning |
| Walk.SetTitle | app.js:27 | setting the title keeps the length of the top-level list; `SetTitleFrame` states what else it keeps |
| Walk.SetTitleOf | app.js:27 | definition: `.text(t)` on one node, which makes each outermost title hold one text node `t`; `SetTitleFrame`, `SetTitleTextOf` and `NoTitleOf` state its meaning |
| Walk.SetTitleFrame | app.js:27 | setting the title keeps every node that lies in no `<title>`: text and comment nodes unchanged, each element's tag and attributes, the child count of each element other than a title, and every node with no title at or below it |
| Walk.RepeatAdd | app.js:26-27 | a text repeated a times and then b times is the text repeated a + b times |
| Walk.SetTitleText | app.js:26-27 | after the title is set to t, the combined title text is t once per `<title>` element |
| Walk.SetTitleTextOf | app.js:26-27 | the same for the titles at or below one node |
| Walk.OneTitle | app.js:26-27 | with one `<title>`, the combined title text after setting t is t |
| Walk.NoTitle | app.js:27 | with no `<title>`, setting the title changes nothing |
| Walk.NoTitleOf | app.js:27 | the same for one node |
| Walk.TitleCountPart | app.js:26 | a node holds no more titles than its list does |
| Walk.Transform | app.js:11-30 | definition: the page `modifyHTML` returns, the walked document with its title set to the substitution of its title text; `TransformAt` and `TitleAfterModify` state its meaning |
| Walk.WalkKeepsTitlePlaces | app.js:15-27 | the walk leaves the `<title>` elements where they were, so a node that lies in no title still lies in none after it |
| Walk.TransformAt | app.js:11-30 | in the page `modifyHTML` returns, at every node that lies in no `<title>`: each element keeps its tag and attributes (so `href` and `alt` stay as they are) and, unless it is a title, its number of children, each comment is kept, a visited text node holds the substitution of its text, and every other text node keeps its text |
| Walk.ModifyHtml | app.js:11-30 | `modifyHTML`: the walked document with its title rewritten (what that page holds is `TransformAt`), and the nodes the walk replaced, which are exactly the visited nodes whose text changes |
| Walk.NoBodyUnwalked | app.js:15 | a document without `<body>` is not changed by the walk |
| Walk.WalkKeepsTitleText | app.js:15-26 | the walk does not change the title text when every title lies outside body and holds no body element |
| Walk.WalkKeepsTitleTextOf | app.js:15-26 | the same for one node, under the same condition on its titles |
| Walk.TitleCountOfShapes | app.js:26 | the number of titles depends only on the shape |
| Walk.TitleCountOfShape | app.js:26 | the same for one node |
| Walk.TitleAfterModify | app.js:26-27 | with one title, outside body and holding no body element, the title text after `modifyHTML` is the substitution of the original title text |
| ProxyModes.Substitution | app.js:19 | definition: the substitution the walk runs in each mode, simple `replace(/Yale/gi, 'Sammi')` or the case-mirroring override; the lemmas of `ProxyModes` state what each mode guarantees |
| ProxyModes.SimpleWalkClears | app.js:15-21 | in simple mode, no visited text node holds a match after the walk, and every other text node is kept |
| ProxyModes.MirrorWalkGuards | jest.setup.js:6-16 | in case-mirroring mode, a visited node with the sentinel phrase is kept, and every other visited node holds no match after the walk |
| ProxyModes.SimpleTransformClears | app.js:11-30 | in simple mode, in the page `modifyHTML` returns, no visited text node outside the titles holds a match, and every other text node outside them is kept |
| ProxyModes.MirrorTransformGuards | jest.setup.js:6-16 | in case-mirroring mode, in the page `modifyHTML` returns, a visited node outside the titles with the sentinel phrase is kept, and every other one holds no match |
| ProxyModes.SimpleTitleClears | app.js:26-27 | with one title, outside body and holding no body element, simple mode leaves the title as the substitution of the old one, with no match |
| ProxyModes.NoMatchNoChange | app.js:20 | the walk leaves a page in which no visited text holds a match unchanged, in either mode, with no node replaced |
| ProxyModes.NoMatchPageKept | app.js:11-30 | in the page `modifyHTML` returns from such a page, in either mode, every node that lies in no `<title>` keeps its kind, text and comment nodes there are kept, each element keeps its tag and attributes, and a node with no title at or below it is kept whole |
| ProxyModes.NoMatchKept | app.js:19 | either mode's substitution keeps a text that holds no match |
| ProxyModes.NoMatchTitleKept | app.js:26-27 | when no visited text and not the title text holds a match, the returned page's title text is the old one once per outermost title, and with one title it is the old title text |

## Left out

- HTTP: the Express app, its routes, the static files and the server start (`app.js:32-90`) are not modelled. They are I/O.
- Fetching the page with `axios` and its error responses are not modelled. They are network I/O.
- Parsing HTML with `cheerio.load` and serialising with `$.html()` are not modelled. The model takes the parsed document and returns the rewritten one. The parser puts tag names in lower case, so `body` and `title` are matched as exact lower-case names.
- `replaceWith(newText)` parses its string argument as HTML. The model puts a single text node with the new text in place, which is what happens for text without markup. A substituted text that contains markup, once its entities are decoded, is not modelled.
- The override's own mechanism is not modelled: installing it on `String.prototype` and passing calls with other patterns on to the saved original (`jest.setup.js:4-5`, `jest.setup.js:18`). Case-mirroring mode is the override applied to the pattern `/Yale/gi`.
- FaleOverride.Replace: the `typeof this === 'string'` test is taken as true, as its comment states. In a function that is not in strict mode, `this` is a boxed `String` object, so as written the guard would not fire there.
- Case folding covers ASCII only. A non-unicode `/i` folds other characters too, but none of them folds to a letter of `yale` or `references`.
- `vercel-sim.js` is not modelled. It only starts the server.
- Word boundaries: the source has none, so the model has none either.
- The doctype (`<!DOCTYPE html>`) is not represented: the node type has no case for it. The parser keeps it as a top-level node; the walk never visits it, it has no text and it is never a title, so leaving it out changes nothing the model states.
- Visit order: `.contents()` lists the children of each matched element in the order of the matched elements, so for `<body><div>A<p>B</p>C</div></body>` it reaches A, C, then B. The model visits in document order (A, B, C). Each visit replaces a different node, so the tree `modifyHTML` returns is the same; only the order of the replaced paths in `Walk.WalkBody`'s `rewritten` can differ from the source's order.
