# mdnize in Dafny

mdnize collects Markdown written in source-code comments and merges it into a Markdown
document. A fragment opens with a line made of the file type's comment token and a start
symbol (`md:` by default). It is either inline (the rest of the opener line) or a block (the
lines up to a line holding the comment token and the end symbol, `:md` by default). An
optional `[lang]` tag fences the fragment as a code block of that language.

`pick(target, dest)` works in four steps:

1. The walk (`_pick`) goes over the target's file tree. Every directory becomes a nested
   object. Every non-Markdown file that holds fragments becomes the fragments' text, joined
   by CRLF.
2. Discovery (`_writeFile`) reads the destination document and looks for marker pairs
   `<!-- mdnize[key]: -->` … `<!-- :mdnize -->`. It declares an empty bucket for each key
   found, behind the default bucket `""`.
3. The router (`_parseResult`) sends each file's header line and text to the first bucket
   whose key its path starts with. When no key claims the path, they go to the default
   bucket.
4. The merge (`_createBuffer`) replaces every pair of each key with a canonical pair that
   holds the bucket's entries.

The model has these parts:

- `text.dfy`: character classes (`\s`, `\w`) and joins.
- `scanner.dfy`: `_readFile`'s pattern and its scan loop (`Scanner`), and the round trip
  from written fragments to the text the scanner reads back (`ScannerFacts`).
- `walker.dfy`: the walk over a file tree given as a value (`Walker`).
- `router.dfy`: the routing and the bucket table (`Router`, with the class
  `Router.BucketTable` for the object the source mutates).
- `merger.dfy`: the pair matcher and the merge (`Merger`), and facts about written pairs
  (`MergerFacts`).
- `idempotence.dfy`: why merging twice changes nothing (`Idempotence`).
- `discovery.dfy`: the destination scan, key declaration and the default pair
  (`Discovery`, `DiscoveryFacts`).
- `mdnize.dfy`: `_writeFile` and `pick` as a whole (`Mdnize`).
- `keypattern.dfy`: the key pattern as `_createBuffer` builds it (`KeyPattern`; see
  Findings).

Code that changes state in the source is modelled with methods:

- the scan loop: `Scanner.ReadFile`;
- the walk: `Walker.Pick`;
- the bucket table: `Router.BucketTable`;
- the merge loop: `Merger.CreateBuffer`;
- the discovery loop: `Discovery.PrepareDestination`.

Each method is proved equal to a specification function. The properties are lemmas about
those functions.

## Model

| member | source | states |
|---|---|---|
| Text.IsSpace | src/mdnize.js:230 | definition without a contract: the characters JavaScript's `\s` matches (whitespace and line terminators), as used around the marker words |
| Scanner.MarkerPrefix | src/mdnize.js:110-111 | a result is the length of a prefix made of blanks, the token and blanks (group 1), and the symbol follows it; the converse direction is `ScannerFacts.MarkerPrefixOfLine` |
| Scanner.FindTerminator | src/mdnize.js:115 | the nearest line at or after `from` that is blanks, token, blanks and the end symbol; no terminator lies before it; none means there is none at all |
| Scanner.TagLength | src/mdnize.js:111 | a `[word]` tag is recognised only with a non-empty run of `\w` characters between the brackets |
| Scanner.InlineText | src/mdnize.js:113 | the lazy inline capture is a non-empty suffix of the rest of the line; only blanks precede it; it starts with a non-blank unless it is the last character |
| Scanner.MatchFirst | src/mdnize.js:109-119 | a match starts at an opener line and consumes at least one line; an inline match has non-empty text and one line; a block match has at least three lines, its last consumed line is a terminator, and its body is the lines between the opener and that terminator |
| Scanner.MatchOpener | src/mdnize.js:111-116 | after an opener: at least one line consumed; an inline choice has non-empty text and one line; a block choice has at least three lines, ends at a terminator line, and its body is the lines in between |
| Scanner.Unindent | src/mdnize.js:132-134 | every body line that starts with the opener's indent loses exactly that prefix; the other lines stay as they are |
| Scanner.Output | src/mdnize.js:129-141 | definition without a contract: the inline text, or the block body with the indent removed when there is one, fenced when tagged; its non-emptiness is `Scanner.OutputNonEmpty` |
| Scanner.IsMarkdownExt | src/mdnize.js:92 | definition without a contract: the extension is `.md` in any letter case |
| Scanner.FileOutput | src/mdnize.js:92-158 | definition without a contract: nothing for `.md`, nothing without fragments, else the fragments joined by CRLF; its properties are `Scanner.FileOutputNonEmpty` and `ScannerFacts.ReadEmitted` |
| Scanner.Fragments | src/mdnize.js:121-148 | every fragment the scan collects is a non-empty string |
| Scanner.OutputNonEmpty | src/mdnize.js:129-142 | a match with a non-empty capture contributes a non-empty text |
| Scanner.MatchOutput | src/mdnize.js:124-142 | the loop body computes the match's output: inline text, or the unindented body, then fenced when tagged |
| Scanner.ReadFile | src/mdnize.js:81-158 | the scan loop returns nothing for `.md` files and for files without fragments; otherwise it returns the fragments in order, joined by CRLF |
| Scanner.FileOutputNonEmpty | src/mdnize.js:92-94 | `.md` files (any letter case) yield nothing, and any output is a non-empty string |
| ScannerFacts.MarkerPrefixOfLine | src/mdnize.js:110-111 | a line written as blanks, token, blanks and symbol has exactly that prefix as group 1 |
| ScannerFacts.OpenerLine | src/mdnize.js:110-111 | an opener line is matched with its indent, token and blanks as group 1 |
| ScannerFacts.TagOfRest | src/mdnize.js:111 | a written `[tag]` is recognised with exactly its word, and the rest of the line follows it |
| ScannerFacts.InlineOpener | src/mdnize.js:113 | after an opener, optional blanks and text form the inline match of that text, carrying the tag |
| ScannerFacts.BlockOpener | src/mdnize.js:115 | a bare opener forms a block match up to the nearest terminator from the third line on |
| ScannerFacts.InlineFragment | src/mdnize.js:113 | the inline form yields exactly its text (fenced when tagged), and the scan resumes at the next line |
| ScannerFacts.BlockFragment | src/mdnize.js:115 | the block form yields its unindented body lines (fenced when tagged), and the scan resumes after the terminator |
| ScannerFacts.UnterminatedOpener | src/mdnize.js:111-115 | a bare opener with no later terminator yields nothing; a tagged one gives the tag back and yields `[tag]` as untagged inline text |
| ScannerFacts.UnindentIndented | src/mdnize.js:133-134 | removing the indent from body lines written behind it gives the body back |
| ScannerFacts.ScanPiece | src/mdnize.js:121-148 | a readable piece at the head of a file contributes exactly its documentation |
| ScannerFacts.ScanEmitted | src/mdnize.js:121-148 | round trip: scanning a file made of readable pieces gives the pieces' documentation, in order |
| ScannerFacts.ReadEmitted | src/mdnize.js:151-158 | such a file's output is its documentation joined by CRLF, or nothing when it has none |
| Walker.Put | src/mdnize.js:60 | assigning a property replaces the value of an existing key in place, or appends a new key; no other key changes |
| Walker.Picked | src/mdnize.js:52-72 | definition without a contract: what `_pick` leaves in the object for one node; its properties are `Walker.PickedEntry`, `Walker.PickedKeys` and `Walker.ChildrenInOrder` |
| Walker.Pick | src/mdnize.js:52-72 | the recursive walk fills the object as `Picked` says: directories by their children in listing order, files by their scanner output |
| Walker.PickTarget | src/mdnize.js:35-37 | the result object starts empty and ends holding at most the target |
| Walker.PickedEntry | src/mdnize.js:59-70 | a directory always stores a folder of its children's entries; a file stores its output exactly when there is one, never for `.md`; anything else changes nothing; other keys keep their values |
| Walker.PickedKeys | src/mdnize.js:59-70 | a key is appended exactly when the entry is new and yields something; otherwise the keys stay as they are |
| Walker.ChildrenInOrder | src/mdnize.js:61-64 | with distinct names, a directory's keys are the names of its yielding children, in listing order |
| Router.PathOf | src/mdnize.js:175 | definition without a contract: the names leading to an entry joined by `/` |
| Router.Selects | src/mdnize.js:179-181 | definition without a contract: a non-empty key claims a path that begins with it, or with `./` and it |
| Router.Choose | src/mdnize.js:177-187 | definition without a contract: the first claiming key, or the default key; what it guarantees is `Router.ChooseInTable` |
| Router.FirstSelecting | src/mdnize.js:178-187 | the first key in table order that is non-empty and starts the path (optionally after `./`); no earlier key does; none means no key does |
| Router.RouteEntries | src/mdnize.js:173-208 | routing adds no bucket and removes none |
| Router.RoutedIsDelivered | src/mdnize.js:173-208 | routing a folder has the same effect as delivering its files one by one, in depth-first order |
| Router.DeliverBuckets | src/mdnize.js:196-204 | every bucket keeps its entries and gains, in order, the header and text of each file whose path chooses it |
| Router.ChooseInTable | src/mdnize.js:177-187 | a file goes to a declared key, or to the default bucket exactly when no key claims its path |
| Router.NoDuplicatesDistinct | src/mdnize.js:277-279 | declaring only keys without a bucket keeps the table's keys pairwise distinct |
| Router.BucketTable.constructor | src/mdnize.js:259 | the table starts with the default bucket alone, empty |
| Router.BucketTable.Declare | src/mdnize.js:277-279 | a key without a bucket gets an empty one at the end; a known key changes nothing |
| Router.BucketTable.SelectBucket | src/mdnize.js:177-187 | the inner loop returns the bucket `Choose` names, which exists in the table |
| Router.BucketTable.Route | src/mdnize.js:171-212 | the keys stay; the buckets become what `RouteEntries` gives for the folder |
| Router.BucketTable.RouteOne | src/mdnize.js:175-206 | one entry: a folder is routed recursively below its name, and a file pushes its header and text into its chosen bucket |
| Merger.Label | src/mdnize.js:228-233 | every opening marker word has at least seven characters and begins with `mdnize[` or `mdnize:`, a start of a marker word other than the closing one; that distinct keys have distinct words is `MergerFacts.SameLabel` |
| Merger.MarkerAt | src/mdnize.js:230-233 | definition without a contract: `<!--`, a whitespace, the word, a whitespace and `-->` |
| Merger.FindClose | src/mdnize.js:230 | the lazy interior ends at the nearest closing marker at or after `from`; none lies before it |
| Merger.Match | src/mdnize.js:230-233 | a pair at the head: its opening marker, an interior of at least one character, and a closing marker ending the match |
| Merger.Wrapped | src/mdnize.js:232-237 | a written pair is as long as the opening marker, two CRLFs, the body, two CRLFs and the closing marker together; where each part lies is `MergerFacts.WrappedLayout` |
| Merger.Replace | src/mdnize.js:237 | definition without a contract: every pair of the key, scanning left to right, replaced by the replacement; its properties are `Idempotence.NoMatchNoChange`, `Idempotence.ReplaceClean` and `Idempotence.CleanIdentity` |
| Merger.Merged | src/mdnize.js:224-239 | definition without a contract: the pairs of the first `n` keys replaced one key after another, in table order; its properties are `Idempotence.MergedClean` and `Idempotence.MergeStable` |
| Merger.CreateBuffer | src/mdnize.js:222-243 | the loop's text is the merge of every key's replacement, in table order |
| MergerFacts.InertAppend | src/mdnize.js:237 | two texts without a marker head stay without one when joined, provided the second begins with a character that occurs in no marker head (other than as its whitespace) followed by one other than `m` and `:` |
| MergerFacts.BodyInert | src/mdnize.js:237 | a bucket whose entries hold no marker head is joined into a body that holds none |
| MergerFacts.MatchWrapped | src/mdnize.js:232-237 | a written pair is matched whole by its own key |
| MergerFacts.OtherKeyOnWrapped | src/mdnize.js:232-233 | a written pair is not matched by any other key |
| MergerFacts.NoMatchInsideWrapped | src/mdnize.js:232-237 | no pair of any key begins strictly inside a written pair whose body holds no marker |
| MergerFacts.NoMatchWithoutMarker | src/mdnize.js:233 | no pair begins where there is no opening marker of the key |
| MergerFacts.SameLabel | src/mdnize.js:232-233 | two keys without `]` whose opening markers begin at the same place are equal |
| Idempotence.CleanIdentity | src/mdnize.js:237 | a text where every pair of the key already reads as its replacement is left as it is |
| Idempotence.NoMarkerUnchanged | src/mdnize.js:237 | a key with no opening marker in the text leaves the text unchanged |
| Idempotence.ReplaceClean | src/mdnize.js:237 | after the replacement, every pair of the key reads exactly as its replacement |
| Idempotence.ReplaceKeepsClean | src/mdnize.js:224-239 | replacing the pairs of another key keeps that property |
| Idempotence.MergedClean | src/mdnize.js:224-239 | after merging the first `n` keys, every pair of each of them reads as its replacement |
| Idempotence.MergeStable | src/mdnize.js:224-239 | a text in which every key's pairs already read as their replacements is left as it is by the merge |
| Idempotence.MergePairsIdempotent | src/mdnize.js:224-239 | merging the merged text again with the same pairs changes nothing |
| Idempotence.MergeIdempotent | src/mdnize.js:222-243 | `_createBuffer` is idempotent for distinct keys free of `<` and `]` whose bodies hold no marker head |
| Discovery.KeyRun | src/mdnize.js:274 | the greedy run of key characters `[\d\w\-._ /]` at the start of a text |
| Discovery.OpenAt | src/mdnize.js:274-276 | an opening marker read by discovery ends within the text, at 16 or later, and its key is made of key characters |
| Discovery.PairAt | src/mdnize.js:267 | a pair read by discovery ends within the text, and its key is made of key characters |
| Discovery.Discovered | src/mdnize.js:267-268 | definition without a contract: the keys of the pairs found scanning left to right; its properties are `DiscoveryFacts.NothingDiscovered` and `DiscoveryFacts.DiscoveredKeyChars` |
| Discovery.DeclareAll | src/mdnize.js:275-280 | definition without a contract: each found key without a bucket is appended; its properties are `DiscoveryFacts.DeclareAllKeeps` and `DiscoveryFacts.DeclareAllOrder` |
| Discovery.DestText | src/mdnize.js:258-292 | definition without a contract: the destination's text, with the default pair appended when it has no pair, or the default pair alone when it cannot be read; its properties are `DiscoveryFacts.DestTextFacts` |
| Discovery.DestKeys | src/mdnize.js:259-280 | definition without a contract: the default key, then the declared keys; its properties are `DiscoveryFacts.DestKeysFacts` |
| Discovery.PrepareDestination | src/mdnize.js:258-292 | the discovery code yields the text `DestText` gives and a valid table whose keys `DestKeys` gives, each with an empty bucket |
| DiscoveryFacts.PairAgreesWithMatch | src/mdnize.js:267-276 | at an opening marker of a key as the merge writes it, discovery reads the same key and marker end, and finds a pair exactly when the merge's pattern does, ending at the same place |
| DiscoveryFacts.OpenAtBracketed | src/mdnize.js:274-276 | a bracketed opening marker is read with exactly its key |
| DiscoveryFacts.ScaffoldIsDefaultPair | src/mdnize.js:284 | the appended default pair is a pair of the default key to both discovery and the merge, spanning the whole scaffold |
| DiscoveryFacts.NothingDiscovered | src/mdnize.js:268-270 | the search finds nothing exactly when no pair starts anywhere in the text |
| DiscoveryFacts.DiscoveredKeyChars | src/mdnize.js:267 | every discovered key is made of key characters |
| DiscoveryFacts.DeclareAllKeeps | src/mdnize.js:275-280 | declaring keeps earlier keys as a prefix, adds exactly the keys found, and adds none twice |
| DiscoveryFacts.DeclareAllOrder | src/mdnize.js:275-280 | new keys come in order of their first appearance |
| DiscoveryFacts.DestKeysFacts | src/mdnize.js:259-280 | the table holds the default key first, then each discovered key once, in order of first appearance, and no other key; every key is free of `<` and `]` |
| DiscoveryFacts.DestTextFacts | src/mdnize.js:258-292 | the destination's text is kept and only appended to; a text with a pair stays unchanged; an empty or unreadable destination becomes exactly the default pair; the text always holds a pair |
| Mdnize.Buckets | src/mdnize.js:294 | after routing, the buckets are exactly the discovered keys' |
| Mdnize.Written | src/mdnize.js:294-304 | definition without a contract: the merge of every key's replacement into the destination's text; `Mdnize.WriteFile` computes it |
| Mdnize.WriteFile | src/mdnize.js:252-309 | discovery, routing and merge on one table produce `Written` |
| Mdnize.Pick | src/mdnize.js:35-39 | `pick` writes `Written` of the walk's result |
| Mdnize.DefaultShare | src/mdnize.js:177-187 | with only the default key, every file goes to the default bucket |
| Mdnize.DefaultBucket | src/mdnize.js:259-294 | a blank destination gives a table holding only the default key, whose bucket holds every file in walk order |
| Mdnize.MergeIntoScaffold | src/mdnize.js:284-291 | merging the default key's replacement into the default pair gives exactly that replacement |
| Mdnize.BlankDestination | src/mdnize.js:288-304 | an empty or unreadable destination receives exactly the default pair, holding the header and text of every file in depth-first order |
| Mdnize.WrittenIsStable | src/mdnize.js:294-304 | when no bucket's body holds a marker head, merging the written text again with the same buckets changes nothing |
| Mdnize.HeaderInert | src/mdnize.js:196-203 | a file's header holds no marker head when its path holds none, a `writeFileName` string has no `<`, and in the annotation form the path does not begin with `mdnize[`, `mdnize:` or `:mdnize` |
| Mdnize.ShareInert | src/mdnize.js:196-204 | what routing adds to a bucket holds no marker head when no file's header or text holds one |
| Mdnize.BucketsInert | src/mdnize.js:294 | under the same condition on every file of the walk, no bucket's body holds a marker head |
| Mdnize.FilesAreStable | src/mdnize.js:294-304 | when no file's path or text holds a marker head (and headers are as `HeaderInert` requires), merging the written text again with the same buckets changes nothing |
| KeyPattern.MatchAsWritten | src/mdnize.js:233 | a pair found by the unescaped key pattern ends inside the text |
| KeyPattern.WithoutDotAgrees | src/mdnize.js:233 | for a key without `.`, the unescaped pattern finds exactly the pairs the literal key finds |
| KeyPattern.PatternClaimsPair | src/mdnize.js:233 | a key whose pattern matches another key finds that key's pair, with the same end |
| KeyPattern.ClaimsWrapped | src/mdnize.js:233-237 | such a key's replacement overwrites the whole written pair of the other key |
| KeyPattern.LiteralLeavesWrapped | src/mdnize.js:232-237 | read literally, another key leaves a written pair untouched |
| KeyPattern.DotKeyTakesOtherPair | src/mdnize.js:233 | `a.b` and `aXb` are both keys discovery accepts; as written, `a.b` overwrites the pair of `aXb`; read literally, it leaves that pair alone |

## Left out

- The file system is left out: `fs.statSync`, `readdirSync`, `readFileSync` and `writeFile`, and `path.resolve`/`basename`/`extname`. The tree is a `Walker.Node` value, with each file's extension and lines. The destination is `Option<string>`, with `None` when it cannot be read. The written text is the result of `Mdnize.WriteFile`.
- `Buffer` and its `toString`, and the UTF-8 decoding and encoding on the way in and out, are not modelled. Text is a sequence of characters.
- `uncomment.js` is not part of this model. The comment token is chosen by a function parameter (`Walker.Settings.tokenOf`), one literal token per extension. Where `uncomment.js` gives an alternation of several candidate tokens, spliced into the pattern without parentheses, the model does not follow it.
- The logger, the `verbose` option, `extend` and the unused `options.base` default are left out. They do not affect the output.
- Scanner: the token and both symbols are assumed non-empty and not to start with a blank (`Scanner.WellFormed`). Without that, the pattern's greedy blank runs could backtrack. They are also inserted into the pattern unescaped, so the model reads them literally.
- Scanner.ReadFile: the source runs its pattern over the whole file text. The model takes the file as its lines, split at LF with a preceding CR removed (as `split(/\r?\n/)` does), and scans line by line, so it follows the source only for files with LF line ends (with the exception in the next line). For a file with CRLF line ends the source differs in two ways. First, `[\r\n]` after the opener takes only the CR, so every block body in the source starts with an extra empty line, and its lines end with CRLF where the model's end with LF. Second, a terminator on the line right after the opener already closes a block in the source (`// md:` CRLF `// :md` CRLF yields the fragment LF), while `Scanner.MatchOpener` looks for the terminator from the line after that on and yields nothing there. The source also treats a lone CR, U+2028 and U+2029 as line ends for `^` and `$`; the model does not.
- Scanner.ReadFile: for any line ends, a block body holding U+2028 or U+2029 never matches in the source, since the body's `.` does not take them; in the model it is a fragment.
- The interior `(.|\r|\n)+?` of both the discovery and the merge patterns does not match U+2028 or U+2029. The model lets the interior be any characters, so a pair containing those characters is found in the model but not by the source.
- The source enumerates object keys in insertion order, except that integer-like keys come first. The model uses insertion order throughout: the walk's result, the routing of `for (… in …)` loops, and the merge order.
- The source's object lookups see inherited properties. A discovered key named like one (for example `constructor`) has a truthy value and is never declared. The model treats every key as an own property.
- The replacement text is inserted literally. The source would interpret `$&`, `$1` and the like inside file texts.
- Walker.Pick: the source's `obj[target]` shares one object between the parent and the recursive call. The model passes the child object by value and stores it afterwards. The resulting value is the same.
- Merger.CreateBuffer: requires only that every key has a bucket, which is weaker than `Router.BucketTable.Valid`.
- Idempotence.MergeIdempotent: holds only for keys free of `<` and `]` and for buckets whose bodies are `Merger.Inert`: nowhere `<!--`, one whitespace and then `mdnize[`, `mdnize:` or `:mdnize` (a marker head, `Merger.HeadAt`). Text such as `<!-- more -->` or an annotation header `<!-- main.js -->` is inert; a body holding a marker head is excluded even where a second merge would happen to leave it alone. `Mdnize.FilesAreStable` states the condition per file: its path and text hold no marker head, a `writeFileName` string has no `<`, and in the annotation form the path does not begin with `mdnize[`, `mdnize:` or `:mdnize`.
- Mdnize.WrittenIsStable: relates a second merge with the same buckets, not a second full run. A second run would rediscover keys from the written text.
- Mdnize.FilesAreStable: relates a second merge with the same buckets, not a second full run, like `Mdnize.WrittenIsStable`. It holds only when every file's path and text hold no marker head (`Merger.Inert`), a `writeFileName` string has no `<`, and in the annotation form no path begins with `mdnize[`, `mdnize:` or `:mdnize`.
- Discovery: a key found without brackets or with one bracket (`mdnize[key:`) is declared, but the merge's pattern never matches such a marker. The model keeps that behaviour and proves the agreement only for markers written with both brackets (`DiscoveryFacts.PairAgreesWithMatch`).

## Findings

| source | as written | input that shows it | evidently intended | confidence | as-written member | corrected member |
|---|---|---|---|---|---|---|
| src/mdnize.js:233 | the key is pasted into the merge's pattern unescaped, so a `.` in a key (accepted by the key class on line 267) matches any character but a line terminator | keys `aXb` and `a.b`: the pattern of `a.b` matches the pair `<!-- mdnize[aXb]: -->…<!-- :mdnize -->` and replaces it with the `a.b` bucket | the key matched literally, as `_parseResult` escapes its keys (line 180); proved for the literal matcher in `MergerFacts.OtherKeyOnWrapped` and `Idempotence.MergeIdempotent` | medium, not executed | KeyPattern.DotKeyTakesOtherPair | Merger.Match |
