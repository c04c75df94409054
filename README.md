# connected-keps in Dafny

A model of the two data-processing parts of *connected-keps*, a viewer of the
citation graph between Kubernetes Enhancement Proposals (KEPs).

- **Ingestion script** (`hack/data.js`):
  - `construct_kep_readme_urls` gives every KEP record its raw README address.
  - `downloadReadmes` fetches each README into a directory, keyed by the KEP's
    name, and counts successes and failures.
  - `parseCitations` scans a README with four regexes and keeps the KEP numbers
    it cites in a shared `citationMap`. It works on a JavaScript `Set` that is
    pruned of the KEP's own number after each regex.
  - Two driver loops run `parseCitations` over every record. The first runs
    before the downloads and the second after them.
- **Viewer** (`src/App.js`): one pass over the records builds the
  vis-network node and edge arrays.
  - It emits one node per distinct KEP number. The first record with that
    number wins.
  - It emits one edge per citation of every record, in order. Duplicates and
    edges to KEPs that have no node are kept.

Modules, one per file:

- `Wrappers`: `Option`.
- `Records`: the KEP record.
- `Patterns`: the four regexes as `matchAll` scanners.
- `Citations`: the `Set` operations, and the entry `parseCitations` stores
  together with its reference definition.
- `Pipeline`: README addresses, downloads, the `citationMap` class and the
  driver passes.
- `Graph`: the node and edge assembly.
- `CitationExamples`: entries worked out for a few concrete READMEs.

Modelling choices:

- **Regex scanning.** Each regex is a scanner, `CapturesFrom`. It tries a
  match at a position (`MatchAt`). After a match it resumes at the match's end;
  after a miss it resumes one position on, which is how `matchAll` steps
  through a global regex.
  - `\d` is the ASCII digits.
  - `\s` is the ECMAScript WhiteSpace and LineTerminator set.
  - The `i` flag folds only ASCII letters, which is all these literals contain.
  - For `KEP-?(\d+)`, the engine backtracks from the optional `-` when no digit
    follows it.
  - For `(\d+)(?!\S)`, only the greedy run can succeed.
- **Sets.** A `Set` is the sequence of its elements in insertion order, which
  is the order `Array.from` yields.
- **State changes.** Code that changes state in place is written as methods
  with loops, proved against the functions that specify them:
  - `ConstructReadmeUrls` updates its array in place.
  - `DownloadReadmes` updates its counters.
  - `CitationMap.ParseCitations` and `CitationMap.ParseAll` update the map.
  - `BuildGraph` and `PushCitations` fill the node and edge arrays.
- **Inputs.** The network, the file system and exceptions become inputs:
  - the outcome of each download (`FetchOutcome`), including a `writeFile` that rejects after opening the file and leaves part of the body behind;
  - the README directory as a map from name to text;
  - for each record, whether its `try` block threw (`Readme.Throws`). `RunIngestion` builds both passes with `ReadAll`, which never gives `Throws`: in the script as written no `try` block throws, because `getKEPReadme` catches read errors and nothing in `parseCitations` throws on a string. The case is kept so that `ParseAll` and the pass lemmas cover the `catch`.

## Model

| member | source | states |
|---|---|---|
| Patterns.LiteralAt | hack/data.js:92-97 | a case-insensitive occurrence of a pattern's literal fits inside the text |
| Patterns.DigitRunEnd | hack/data.js:92-97 | `\d+` is greedy: the run from `k` is all digits and stops at the end of the text or at a non-digit |
| Patterns.MatchAt | hack/data.js:92-102 | soundness: a match at `i` needs the pattern's literal at `i`, and its capture starts right after it (after the `-` for pattern 1 when a digit follows); the match ends after `i`, its capture is a non-empty maximal digit run, and for pattern 3 it is followed by whitespace or the end of the text |
| Patterns.MatchAtComplete | hack/data.js:92-102 | completeness: every occurrence of the literal (for pattern 1 optionally followed by `-`) followed by a maximal digit run, and for pattern 3 by whitespace or the end, is a match at that position with that run as its capture |
| Patterns.DigitsStartAt | hack/data.js:93 | the digit group starts right after the literal, or after the optional `-` when a digit follows it |
| Patterns.DigitRunEndAt | hack/data.js:92-97 | the greedy run ends exactly at the first non-digit |
| Patterns.CapturesFromMatch | hack/data.js:102-103 | where a match is found the scan yields its capture and resumes at its end |
| Patterns.CapturesFromNoMatch | hack/data.js:102-103 | where nothing matches the scan moves one position on |
| Patterns.CapturesFromWellFormed | hack/data.js:102-105 | every capture of the scan is a well-formed maximal digit run of the text, followed by whitespace or the end for pattern 3 |
| Patterns.CapturesAreNumerals | hack/data.js:93-105 | every capture is a non-empty string of ASCII digits |
| Patterns.LiteralAtChars | hack/data.js:92-97 | a matching literal agrees with the text character by character up to ASCII case |
| Patterns.CapturesFromNone | hack/data.js:102-103 | a scan over text where no position matches yields nothing |
| Patterns.MissingLiteralCharNoCaptures | hack/data.js:92-102 | a text lacking a non-letter character of a pattern's literal yields no capture for that pattern |
| Patterns.ShortTextNoCaptures | hack/data.js:92-102 | a text shorter than a pattern's literal yields no capture for it |
| Patterns.IsDigit | hack/data.js:93-96 | `\d`: the ten ASCII digits |
| Patterns.IsSpace | hack/data.js:95 | `\s`: the ECMAScript WhiteSpace and LineTerminator code points, whose complement is `\S` in the lookahead |
| Patterns.Fold | hack/data.js:92-97 | the `i` flag on these ASCII literals: lower-case ASCII letters compare as upper case, and every other character only as itself |
| Patterns.Literal | hack/data.js:92-97 | the fixed text each regex needs before its digit group: `KEP`, `KEP #`, `KEP ` and the issues address |
| Patterns.DigitsStart | hack/data.js:93 | where the digit group starts once the literal matched: after the optional `-` of pattern 1 when a digit follows it, otherwise right after the literal |
| Patterns.CapturesFrom | hack/data.js:102-103 | the `matchAll` iteration from a position: try a match there; after a match yield its capture and resume at its end, after a miss resume one position on |
| Patterns.Captures | hack/data.js:102-103 | `markdown.matchAll(regex)`: the captures of the scan from the start of the text, in text order |
| Citations.SetAdd | hack/data.js:105 | `Set.add` adds exactly `x`, keeps every element where it was, and introduces no duplicate |
| Citations.AddAllCons | hack/data.js:103-106 | adding a list is adding its head, then its tail |
| Citations.SetDeleteMembers | hack/data.js:107 | `Set.delete` removes exactly `x` and nothing else |
| Citations.SetDeleteNoDuplicates | hack/data.js:107 | deleting keeps a duplicate-free set duplicate-free |
| Citations.SetDeleteAbsent | hack/data.js:107 | deleting an absent element changes nothing |
| Citations.SetDeleteTwice | hack/data.js:107 | deleting the same element twice is deleting it once |
| Citations.AddAllMembers | hack/data.js:103-106 | after adding a list, the set holds exactly the old elements and the list's elements |
| Citations.AddAllNoDuplicates | hack/data.js:99-105 | adding to a duplicate-free set leaves it duplicate-free |
| Citations.SetDeleteAppend | hack/data.js:107 | deleting distributes over concatenation |
| Citations.SetAddRespectsDelete | hack/data.js:105-107 | two sets equal after deleting `x` stay equal after the same add and delete |
| Citations.AddAllRespectsDelete | hack/data.js:103-107 | two sets equal after deleting `x` stay equal after the same additions and delete |
| Citations.AddAllAppend | hack/data.js:101-106 | adding one list and then another is adding their concatenation |
| Citations.AllCapturesOfFirst | hack/data.js:92-101 | the captures of all the regexes, pattern by pattern, are the four patterns' captures in that order |
| Citations.AllCapturesMembers | hack/data.js:92-106 | an id is among all captures exactly when some regex captures it, in both directions |
| Citations.AllCapturesAreCaptured | hack/data.js:92-106 | every id among all captures is captured by one of the four regexes |
| Citations.CapturedIsInAllCaptures | hack/data.js:92-106 | every id one of the regexes captures is among all captures |
| Citations.AddBatchThenDelete | hack/data.js:101-108 | deleting the parent after each regex's batch gives what one delete after all batches gives |
| Citations.AccumulatedIsDedup | hack/data.js:99-108 | after `k` regexes the working set is the distinct captures of the first `k` patterns, in first-appearance order, without the parent's id |
| Citations.EntryIsUnionOfCaptures | hack/data.js:92-108 | for every content, empty or not, the stored entry is the distinct captures of the four patterns in order (pattern 1's first, then the new ones of patterns 2, 3 and 4) minus the parent id |
| Citations.EntryMembers | hack/data.js:86-108 | an id is in the entry exactly when the content is non-empty, the id is not the parent's, and some regex captures it |
| Citations.SetDelete | hack/data.js:107 | `Set.delete`: the set without `x`, the other elements in their order |
| Citations.AddAll | hack/data.js:103-106 | the `for...of` over the matches: each capture in turn passed to `Set.add` |
| Citations.Accumulated | hack/data.js:101-108 | the working set after the first `k` steps of `kepRegexes.forEach`, each adding its regex's captures and then deleting the parent |
| Citations.Entry | hack/data.js:85-110 | what `parseCitations` stores under the parent: `[]` for empty content, otherwise the working set after all four regexes |
| Citations.Dedup | hack/data.js:99-108 | `Array.from(new Set(ys))`: the distinct elements in order of first appearance, the reference the entry is compared with |
| Citations.AllCaptures | hack/data.js:92-106 | the captures of the four regexes, pattern by pattern |
| Citations.EntryWellFormed | hack/data.js:99-108 | the entry never holds the parent id, even when a later pattern captures it again; it holds no duplicates; every element is a non-empty ASCII-digit string |
| Citations.NoMatchesGivesEmptyEntry | hack/data.js:86-108 | content in which no regex matches, empty or not, stores `[]` |
| Citations.NonNumeralParentRemovesNothing | hack/data.js:104-108 | a parent id that is no numeral (the key of a record without a number) deletes nothing |
| Pipeline.ReadmeUrlInjective | hack/data.js:21 | two records whose SIGs hold no `/` get the same README address only when their SIG and name are equal |
| Pipeline.ReadmeUrl | hack/data.js:21 | the template `https://raw.githubusercontent.com/kubernetes/enhancements/master/keps/<owningSig>/<name>/README.md` |
| Pipeline.ConstructReadmeUrls | hack/data.js:19-23 | every record's `readmeUrl` becomes the raw-GitHub address built from its SIG and name, in place, and no other field changes |
| Pipeline.SuccessesPlusFailures | hack/data.js:35-63 | every download counts exactly once, as a success or as a failure |
| Pipeline.Successes | hack/data.js:35-58 | `successCount`: the number of downloads that were fetched and written |
| Pipeline.Failures | hack/data.js:36-62 | `failCount`: the number of downloads that failed, by status, by exception or by a rejected write |
| Pipeline.Writes | hack/data.js:55-57 | the outcomes that change `<name>.md`: a success, and a `writeFile` that rejected after opening the file |
| Pipeline.WrittenText | hack/data.js:55-57 | what such an outcome leaves in the file: the body, or the part of it that reached the disk |
| Pipeline.Downloaded | hack/data.js:55-57 | the directory after the loop: each writing outcome, in record order, sets `<name>.md` to its text |
| Pipeline.DownloadReadmes | hack/data.js:35-66 | the counters are the number of successful and of failed downloads and sum to the number of records; a non-ok status, an exception and a rejected write all count only as failures; the directory after the loop is the one the successful downloads and the rejected writes left |
| Pipeline.DownloadedFiles | hack/data.js:55-63 | `<name>.md` exists afterwards exactly when it existed before or some download of that name wrote it; it holds what the last such download wrote (the body of a success, or what a rejected `writeFile` left), and it is untouched when no download of that name wrote it |
| Pipeline.ReadAll | hack/data.js:69-81 | one README per record, none of them an exception |
| Pipeline.ReadKepReadme | hack/data.js:69-81 | `getKEPReadme`: the file `<name>.md` when it exists, otherwise the not-found case |
| Pipeline.Content | hack/data.js:69-81 | the string handed to `parseCitations`: the file's text, or `""` when it could not be read |
| Pipeline.CitationKey | hack/data.js:108 | the key `citationMap[parentKepNumber]` writes: the number's string, or `"undefined"` for a record without one |
| Pipeline.ParsePass | hack/data.js:112-118 | one driver loop as a fold: in record order, each record whose `try` did not throw overwrites its key with its entry |
| Pipeline.StoreEntryKeepsValid | hack/data.js:108 | storing any computed entry keeps every entry of the map free of self-citations and duplicates, holding only numerals |
| Pipeline.AddMatches | hack/data.js:102-106 | the `for...of` loop over `matchAll` leaves the working set with every capture added, in text order |
| Pipeline.AddStep | hack/data.js:103-105 | each turn of the loop adds one more capture |
| Pipeline.AddOne | hack/data.js:105 | adding one more element to the list is one more `Set.add` |
| Pipeline.ApplyRegex | hack/data.js:101-107 | one step of the `forEach`: the regex's captures are added and the parent id is deleted |
| Pipeline.OverwriteTwice | hack/data.js:108 | writing a key twice is writing the second value |
| Pipeline.CitationMap.constructor | hack/data.js:83 | the map starts empty and well formed |
| Pipeline.CitationMap.ParseCitations | hack/data.js:85-110 | only the parent's key changes, and it gets the entry (`[]` for empty content); every entry stays free of self-citations and duplicates and holds only numerals |
| Pipeline.CitationMap.ParseAll | hack/data.js:112-140 | the map after a driver loop is the old map passed through one pass, in which each record that did not throw overwrites its key |
| Pipeline.ParsePassOverrides | hack/data.js:112-118 | a pass overrides: its result is the old map overlaid with what the pass writes into an empty map |
| Pipeline.ParsePassIdempotent | hack/data.js:112-140 | running the same pass twice over the same READMEs gives the map one pass gives |
| Pipeline.ParsePassKeys | hack/data.js:112-140 | a key is present after a pass exactly when it was before or some record with that key did not throw |
| Pipeline.ParsePassUntouched | hack/data.js:112-118 | a key no record writes keeps its old entry |
| Pipeline.ParsePassLastWriter | hack/data.js:112-118 | a key written by some record holds the entry of the last record that wrote it: the last write wins |
| Pipeline.SecondPassDecides | hack/data.js:112-140 | when no record of the second loop throws, nothing the first loop wrote shows in the final map |
| Pipeline.RunIngestion | hack/data.js:19-142 | after the whole script, every record has its README address, the directory is what the downloads left, the counters sum to the record count, and the citation map is what one pass over the downloaded READMEs gives |
| Pipeline.EveryRecordHasEntry | hack/data.js:133-140 | after a run, a record's key holds the entry of its own README when no later record has the same key |
| Pipeline.EveryRecordHasKey | hack/data.js:133-140 | after a run every record has an entry under its key, duplicates or not |
| Pipeline.MissingReadmeStoresEmpty | hack/data.js:69-89 | a record whose README is missing, with no later record sharing its key, ends with `[]` under that key |
| Graph.NodeIdInjective | src/App.js:111-141 | distinct KEP numbers get distinct node ids |
| Graph.NodeId | src/App.js:111 | the node id template `KEP-${kepNumber}` |
| Graph.Join | src/App.js:137 | an array in string context: its elements joined by commas |
| Graph.MakeTooltip | src/App.js:114-138 | the six tooltip paragraphs: name (the title), SIG, number, latest milestone, stage and the comma-joined authors |
| Graph.MakeNode | src/App.js:140-145 | the node pushed for a record: id `KEP-<n>`, label the name, group the SIG, title the tooltip |
| Graph.Lookup | src/App.js:149-150 | `kepJson[n]`, a missing key read as no citations |
| Graph.Ids | src/App.js:89 | the ids of a node list, which `nodeIds` tracks |
| Graph.GraphNodes | src/App.js:109-147 | the node list after visiting records in order: a record with a number whose id is not yet present appends its node |
| Graph.GraphEdges | src/App.js:109-158 | the edge list after visiting records in order: every record with a number appends the edges of its citations |
| Graph.CitationCount | src/App.js:149-156 | the total number of citations of the records with a number, repeats included |
| Graph.EdgesFor | src/App.js:150-155 | one edge per citation, in citation order, from `KEP-n` to `KEP-c` |
| Graph.BuildGraph | src/App.js:86-158 | the loop's nodes and edges are the specified node and edge lists of the records, and no two nodes share an id |
| Graph.PushCitations | src/App.js:150-155 | the inner `forEach` appends exactly that record's edges, in order, after the earlier ones |
| Graph.IdsSnoc | src/App.js:140-146 | pushing a node adds exactly its id to the id set |
| Graph.NodesUnique | src/App.js:89-146 | node ids are unique whatever duplicates the records hold |
| Graph.FirstIndicesExact | src/App.js:111-113 | the indices listed are exactly the records that are first with their number, in increasing order |
| Graph.NodesAreFirstRecords | src/App.js:110-146 | one node per distinct number, in order of first appearance: its id is `KEP-` plus the number, its label the record's name, its group its SIG, and its tooltip paragraphs are that first record's |
| Graph.NodeIdsExact | src/App.js:110-146 | an id is a node id exactly when some record with a number has that id |
| Graph.EdgeCount | src/App.js:149-156 | duplicate records re-emit their edges, so the edge count is the sum of the entry sizes over the records with a number |
| Graph.EdgeMembers | src/App.js:149-156 | an edge is present exactly when some record with a number cites its target; a number missing from the citation map, or an empty entry, gives no edge |
| Graph.EdgeSourcesAreNodes | src/App.js:140-156 | every edge starts at a node |
| Graph.Defined | src/App.js:110 | the records kept all have a number |
| Graph.UndefinedContributeNothing | src/App.js:110 | records without a number contribute neither nodes nor edges |
| Graph.OneEdge | src/App.js:150-155 | one citation gives one edge |
| Graph.DanglingEdgeKept | src/App.js:151-154 | a citation of a KEP without a record still gives an edge, and its target is not a node |
| Graph.DuplicateRecordReEmitsEdges | src/App.js:113-156 | two records with the same number give one node (the first's) and both records' edges |
| CitationExamples.DashMixedHead | hack/data.js:93 | in `KEP 5 KEP-7`, pattern 1 finds no match at positions 0-2 (a space follows the first `KEP`) |
| CitationExamples.DashMixedMiddle | hack/data.js:93 | pattern 1 finds no match at positions 3-5 |
| CitationExamples.DashMixedTail | hack/data.js:93 | pattern 1 captures 7 from `KEP-7` |
| CitationExamples.SpaceMixedHead | hack/data.js:95 | pattern 3 captures 5 at position 0 |
| CitationExamples.SpaceMixedMiddle | hack/data.js:95 | pattern 3 finds no match at positions 5-7 |
| CitationExamples.SpaceMixedTail | hack/data.js:95 | pattern 3 rejects `KEP-7` |
| CitationExamples.DashCapturesOfMixed | hack/data.js:93-102 | pattern 1 captures exactly `["7"]` from `KEP 5 KEP-7` |
| CitationExamples.SpaceCapturesOfMixed | hack/data.js:95-102 | pattern 3 captures exactly `["5"]` |
| CitationExamples.OthersCaptureNothingInMixed | hack/data.js:94-96 | patterns 2 and 4 capture nothing |
| CitationExamples.MixedAllCaptures | hack/data.js:92-106 | all captures, pattern by pattern, are `["7", "5"]` |
| CitationExamples.MixedEntry | hack/data.js:92-108 | `KEP 5 KEP-7` stores `["7", "5"]`: pattern 1's capture first |
| CitationExamples.DistinctPair | hack/data.js:99-108 | two distinct captures, neither the parent, stay in order |
| CitationExamples.SelfOnlyDash | hack/data.js:93 | pattern 1 captures 999 from `KEP-999` |
| CitationExamples.SelfOnlyAllCaptures | hack/data.js:92-106 | `KEP-999` yields only `["999"]` |
| CitationExamples.SelfCitationDropped | hack/data.js:107-108 | a README that only cites its own KEP stores `[]` |
| CitationExamples.SingleCapture | hack/data.js:105-108 | a single capture survives exactly when it is not the parent's id |
| CitationExamples.LowerCaseDash | hack/data.js:93 | the `i` flag lets pattern 1 match `kep-0999`, and it captures `0999` |
| CitationExamples.LowerCaseAllCaptures | hack/data.js:92-106 | `kep-0999` yields only `["0999"]` |
| CitationExamples.LowerCaseWithLeadingZero | hack/data.js:93-108 | the capture keeps its leading zero, differs from parent `999` and stays |
| CitationExamples.GluedDash | hack/data.js:93 | pattern 1 needs a digit or `-` right after `KEP`, so `KEP 12a` gives nothing |
| CitationExamples.GluedSpace | hack/data.js:95 | pattern 3's lookahead rejects `12` glued to a letter |
| CitationExamples.OthersCaptureNothingInGlued | hack/data.js:94-96 | patterns 2 and 4 capture nothing in `KEP 12a` |
| CitationExamples.GluedAllCaptures | hack/data.js:92-106 | `KEP 12a` yields no capture |
| CitationExamples.GluedNumberNotCited | hack/data.js:102-108 | non-empty content with no match still stores `[]` |

## Left out

- I/O is not modelled:
  - the network fetches of `keps.json` and of the READMEs (hack/data.js:6-17, 41-47) are replaced by the given records and download outcomes;
  - `mkdir`, `writeFile` and `readFileSync` (hack/data.js:31-32, 55-57, 69-81) become a map from name to text, with a missing file read as `""`;
  - `generateMapData` and `JSON.stringify` (hack/data.js:120-128) are left out; `RunIngestion` returns the map they would serialise;
  - console output is left out.
- `path.join` is not modelled. A name holding `/` or `..` would write outside the README directory; the model keys files by the plain name.
- Text is a sequence of Unicode scalar values, not UTF-16 code units. None of the four patterns touches surrogates, so matching is the same.
- `kepNumber` is modelled as its decimal string, or `None` when the JSON property is absent.
  - The model takes `kepNumber` to be the JSON string that keps.json holds. Were it a JSON number, `citations.delete(parentKepNumber)` (hack/data.js:107) would compare a number with digit-string captures and delete nothing. A KEP that cites itself would then keep its own number, and `EntryWellFormed`'s `parent !in Entry(...)` and `SelfCitationDropped` would not describe the script. The node ids and the `citationMap[n]` and `kepJson[n]` keys would be unchanged, since property keys and template strings convert the number to the same decimal string.
  - A `null` number, which passes `!== undefined` in the viewer and renders as `KEP-null`, is not modelled.
  - In the ingestion script, a record without a number writes the key `"undefined"`.
- General regex semantics are not modelled, only the four fixed patterns. `\s` is the concrete ECMAScript whitespace set, which makes the lookahead of pattern 3 exact.
- `Pipeline.ConstructReadmeUrls`: the template's string conversion of a missing SIG or name (which would give `undefined`) is not modelled, because both fields are strings in the record.
- `Pipeline.RunIngestion`: the first driver loop reads whatever READMEs a previous run left on disk, given as an input. The two loops' interleaving with asynchronous I/O is not modelled.
- The tooltip `<div>` is a record of its six paragraph texts. The DOM elements, `vis-network`, its options and its events (src/App.js:61-84, 160-178) are left out, as are React state and rendering.
- A category filter and SIG nodes are not modelled, because none exists in this code: the SIG list and SIG nodes are commented out (src/App.js:37-59, 91-106).
- Keys such as `__proto__` or `constructor`, which would hit `Object.prototype` in `kepJson[n]` or `citationMap[n]`, are not modelled. Numbers never collide with them.
