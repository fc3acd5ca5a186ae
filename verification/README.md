# Verified model of the search engine's self-contained algorithms

The search engine keeps its hard invariants in a few self-contained pieces of C++: an XML document class that edits one
string and repairs an index of offsets into it, order-preserving keys, word segmentation, a skip list and a top-k heap,
statistics expressions, a consistent-hash ring, MD5 over a stream, packet reassembly and partial sends, and Base64.
This project models them in Dafny and proves what they promise. `dafny verify dfyconfig.toml` checks everything.

Code that works by changing state is modelled by classes and loops, each method tied by its postcondition to a
specification function or an invariant; the laws are lemmas about those.

## How the files fit together

- **XML (`Markup*.dfy`, `MarkupSTL`).** `MarkupText` has tokens and escaping. `MarkupArena` has the arena of `ElemPos` records,
  the forest of elements that its links stand for, and what `x_Adjust` shifts. `MarkupLayout` says what it means that the
  elements lie in the text; `MarkupEdits`, `MarkupTags`, `MarkupState`, `MarkupWrite` and `MarkupData` show that each kind of
  splice keeps that. `MarkupParse` has what a parsed element satisfies, and `MarkupGrammar` the parser as a function together
  with the predicate `Tidy` that says, without parsing, which text it accepts with which elements. `MarkupTidy` and
  `MarkupReread` show that editing leaves text that reads back as the same elements. `MarkupLasting` describes what each edit
  makes of the text and the index together, and says exactly which parsed documents any sequence of edits leaves reading back
  as indexed; `MarkupAlways` does so for all sequences, misplaced roots included. `MarkupMeaning` says in characters alone
  what tokens, names, attribute values and end tags are. `Markup.dfy` is the class. Its invariant
  `Valid` says that the links form a forest and that every element's four offsets delimit a start tag and the matching end tag
  of its own, siblings in order, children inside parents; `Whole` says that the text holds no other elements.
- **Keys.** `ByteText`, `KeyBytes` (order and round trips of one field), `KeyFormat` (whole keys) and `KeyMeaning` (keys as
  tuples of the values that their fields spell).
- **Segmentation.** `Utf8Text` (the character table), `MaxMatch`, `DagSegment` with `DagMeaning` (which dictionary
  entry decides), `NgramMerge`, `Viterbi`, and `SentenceSplit` (the splitter over any of the four segmenters).
- **Containers.** `SkipList`, `TopK`. **Statistics.** `StatExpr`. **Ring.** `HashRing`.
- **Streams.** `Md5Stream`, `AgentReceiver`, `AgentSender`, `Base64`.

The lemmas named `…Means`, and `KeyMeaning`, `DagMeaning` and `MarkupMeaning` as a whole, state the small decisions that
everything else rests on (character classes, type numbers, byte orders, alphabets) with their values written out, so that a
law does not hold merely because both of its sides use the same definition.

## What the model found

- `x_ParseElem` loops without progress when text and whole comments, declarations and instructions are followed by `<`, white
  space, then `?` or `!`, and only then (`MarkupGrammar.LoopsExactly`, with the instance `MarkupGrammar.LoopExample`). `SetDoc`
  answers `Stuck` where the source would loop: exactly if such a node is reached through the root's and its descendants' open
  start tags past whole elements (`MarkupGrammar.EndlessExactly`).
- Setting an attribute does not always read back: if the tag carries the attribute's name without a value, or a `/` before its
  end, the value reads back as empty. `MarkupTags.AttribRoundTrip` states exactly when, and `MarkupTags.AttribLost` is an
  instance.
- Parsing the edited text again does not always give the indexed elements. For a parsed document all sequences of edits keep
  that if and only if three things hold (`MarkupAlways.AlwaysExactly`): nothing but text and nodes without elements follows the
  root, the tag of no empty element ends in `//>` or has the name `>`, and the text without the root does not begin with `<`.
  The third is needed only for `InsertElem` at the root of a document without elements, which writes behind the first
  character; without such calls the first two are exact (`MarkupLasting.LastsExactly`). Each cause has an instance:
  `MarkupLasting.TrailingMisread`, `SlashesMisread` and `NameMisread`, and `MarkupAlways.FrontMisread`.
- The DAG segmenter's emitting loop never ends when no path of words with positive frequency leads on from characters 0 or 1:
  a word known to other appids only counts as 0 (`DagSegment.ConcreteSplit`, with the instance `DagSegment.FrequencyZero`).
- The skip list's tolerance of 0.0001 puts a key behind a larger one exactly if a stored key lies above the new one by less than
  that (`SkipList.InsertKeepsOrder`, with the instance `SkipList.PassedByMistake`).
- MD5's `update` counts blocks in 32 bits: within 64 bytes of 2^32 the index can wrap around and the loop then never ends
  (`Md5Stream.Md5.Update` says exactly when it does end; `Md5Stream.WrapsAround` is an instance).
- `DecodeBytes` restores every double but negative zero and the NaNs without sign (`KeyBytes.DoubleRoundTrip`).
- An unsupported field type discards everything encoded before it (`KeyFormat.EncodeForgets`).

## Model

| member | source | states |
|---|---|---|
| MarkupDocument.Markup.Run | src/comm/MarkupSTL.cc:1114-1838 | After any sequence of calls that add, insert, remove, set attributes or data or move the position, the arena agrees with the text and every element's offsets are at its own `<`, `>`, `<` or `/`, and `>`, inside its parent and before its next sibling; the parser finds in the edited text of a whole document exactly the same elements at the same offsets unless a root is inserted into a document without elements that begins with `<` |
| MarkupParse.OffsetsPoint | src/comm/MarkupSTL.h:137-157 | The class invariant implies that explicit statement about the four offsets, the nesting and the order of siblings |
| MarkupDocument.Markup.Apply | src/comm/MarkupSTL.h:49-116 | One public call keeps the invariant, with clean start tags; it makes one edit or none; it keeps a whole document whole unless it misplaces a root, and then the text does not read back |
| MarkupDocument.Markup.Adjust | src/comm/MarkupSTL.cc:1427-1477 | x_Adjust ends and adds n once to both tags of every slot ahead of the position and to the end tag of every ancestor, slot 0 included, and changes nothing else |
| MarkupArena.AheadIsAfter | src/comm/MarkupSTL.cc:1427-1477 | The slots ahead are exactly those after the element in document order; the ones below it are left out exactly if bAfterPos is set; ancestors come before it |
| MarkupDocument.Markup.Traverse | src/comm/MarkupSTL.cc:1447-1469 | The next slot visited is one still to be shifted, or the enclosing parent whose end tag is next, or none is left |
| MarkupDocument.Markup.ShiftAt | src/comm/MarkupSTL.cc:1472-1476 | One visit shifts one slot, and the rest of the shift remains to be done |
| MarkupDocument.Markup.LocateNew | src/comm/MarkupSTL.cc:1479-1564 | The offset for a new child separates the children linked before it from those after it, and it is placed before or after the relative sibling as asked |
| MarkupDocument.Markup.AddElem | src/comm/MarkupSTL.cc:1566-1700 | When it succeeds, the forest gains exactly one element at the asked place, the text is the old one with the written element and a line break spliced in (an empty parent being split), and the invariant holds; otherwise nothing changes; a whole document stays whole unless the root went behind a first `<`, and then the text does not read back; nor does it if the split parent was not firm; a new root reads back exactly if no element precedes it in the text |
| MarkupDocument.Markup.AddBelow | src/comm/MarkupSTL.cc:1613-1693 | Below an element with tags of its own: the exact splice, the new forest and soundness |
| MarkupDocument.Markup.AddOpened | src/comm/MarkupSTL.cc:1609-1693 | Below an empty element: its `/` becomes a start and an end tag around the new child, soundly |
| MarkupDocument.Markup.AddRoot | src/comm/MarkupSTL.cc:1580-1693 | The root of a document without elements: the exact splice, the one-element forest and soundness |
| MarkupDocument.Markup.AddIn | src/comm/MarkupSTL.cc:1586-1693 | Locating and writing together: the place, the new forest, the splice, and whether the text reads back |
| MarkupDocument.Markup.SetAttrib | src/comm/MarkupSTL.cc:1114-1154 | Only the start tag's text changes, to the tag with the attribute replaced or appended; the invariant holds and a whole document stays whole |
| MarkupDocument.Markup.GetAttrib | src/comm/MarkupSTL.cc:1093-1104 | The value is the string two tokens behind the first word of the start tag that is the asked name, unescaped, and empty if there is none; the same is read from the document and from the start tag alone |
| MarkupTags.AttribLost | src/comm/MarkupSTL.cc:1114-1154 | On the tag `<a b>`, any value set for b reads back as empty |
| MarkupTags.AttribRoundTrip | src/comm/MarkupSTL.cc:1054-1154 | What an attribute that was set reads back as: the value if it was found before or its place is vacant, else the empty string |
| MarkupMeaning.FindAttrib | src/comm/MarkupSTL.cc:1054-1091 | The token loop finds the string two tokens behind the first word after the tag's name that names the attribute, and nothing exactly if there is none before the tag ends |
| MarkupMeaning.AttribMeans | src/comm/MarkupSTL.cc:1054-1091 | The specification of that search means this, told token by token |
| MarkupMeaning.ReadMeans | src/comm/MarkupSTL.cc:1093-1104 | And so does the value read from a start tag |
| MarkupMeaning.NamedAlike | src/comm/MarkupSTL.h:175-185 | A word names an attribute without `[` exactly if it is spelled alike |
| MarkupMeaning.MatchCalled | src/comm/MarkupSTL.h:175-185 | A token matches a name if and only if it is the name, or its part before a blank, `=`, `/` or `[` |
| MarkupMeaning.TokenMeans | src/comm/MarkupSTL.cc:774-831 | A token is a quoted string, a single special character or the longest word without one, behind blanks; each of these characters is listed |
| MarkupMeaning.NotThePrefix | src/comm/MarkupSTL.cc:1054-1104 | In `<a id="1" idx="2">` the value of idx is 2 |
| MarkupDocument.Markup.SetData | src/comm/MarkupSTL.cc:1229-1290 | Fails exactly on elements with children; otherwise the data reads back, the text outside the content is kept (an empty element being split in two), the invariant holds and a whole document stays whole; if the split element was not firm the text does not read back |
| MarkupDocument.Markup.SetContent | src/comm/MarkupSTL.cc:1243-1290 | On an element with two tags: the exact splice, the data read back, soundness |
| MarkupDocument.Markup.OpenContent | src/comm/MarkupSTL.cc:1260-1290 | On an empty element: split into two tags around the data |
| MarkupDocument.Markup.GetData | src/comm/MarkupSTL.cc:1292-1330 | Reads the content of an element without children from the document, as text or CDATA |
| MarkupData.DataRoundTrip | src/comm/MarkupSTL.cc:1229-1330 | x_GetData returns what x_SetData wrote, as text or as a CDATA section, for every string |
| MarkupText.EscapeRoundTrip | src/comm/MarkupSTL.cc:1332-1403 | Unescaping inverts escaping, in content and in attributes |
| MarkupText.EscapeClean | src/comm/MarkupSTL.cc:1332-1366 | Escaped text holds no markup characters |
| MarkupText.EscapeMeans | src/comm/MarkupSTL.cc:1332-1366 | Each of the five characters has its own code, the quotes in attributes only; all others stay |
| MarkupText.UnescapeMeans | src/comm/MarkupSTL.cc:1368-1403 | Each of the five codes is read as its character |
| MarkupText.PlainRead | src/comm/MarkupSTL.cc:1368-1403 | Anything else is read as it is |
| MarkupText.TextToDoc | src/comm/MarkupSTL.cc:1332-1366 | The loop computes the escaped text |
| MarkupText.TextFromDoc | src/comm/MarkupSTL.cc:1368-1403 | The loop computes the unescaped text |
| MarkupText.FindToken | src/comm/MarkupSTL.cc:774-831 | The next token, as the specification on the text says |
| MarkupText.FindChar | src/comm/MarkupSTL.cc:756-772 | The first occurrence of a character |
| MarkupDocument.Markup.RemoveElem | src/comm/MarkupSTL.cc:422-432 | The forest is the old one without the element and all below it, the text the old one without its text and the white space behind it; the invariant holds and a whole document stays whole |
| MarkupDocument.Markup.RemoveChildElem | src/comm/MarkupSTL.cc:434-445 | The same at the child position |
| MarkupDocument.Markup.RemoveAt | src/comm/MarkupSTL.cc:1805-1838 | The splice, the forest without that child, soundness and the sibling before |
| MarkupDocument.Markup.RemoveBelow | src/comm/MarkupSTL.cc:1805-1838 | Below an element: the splice, the forest without that child, soundness |
| MarkupDocument.Markup.RemoveRoot | src/comm/MarkupSTL.cc:1805-1838 | The same at the root |
| MarkupDocument.Markup.ParseElem | src/comm/MarkupSTL.cc:632-754 | Answers what the functional parser answers from the given offset on: the element with its offsets and all below it, an end tag, malformed text or the endless loop; a parsed element occupies fresh slots and is linked as a tree, children inside |
| MarkupDocument.Markup.ParseStart | src/comm/MarkupSTL.cc:650-689 | The next start tag or end tag after comments, declarations and instructions, none, or the endless loop, as the specification on the text says, each if and only if |
| MarkupDocument.Markup.ParseEnd | src/comm/MarkupSTL.cc:721-749 | Succeeds if and only if a `/`, the element's name and anything up to the first `>` follow, a string standing for either of the first two as the code has it; that `>` is then endR |
| MarkupMeaning.EndMeans | src/comm/MarkupSTL.cc:721-749 | The specification of the end-tag loop means this, told token by token |
| MarkupMeaning.OwnEnds | src/comm/MarkupSTL.cc:632-754 | Every element with two tags of a parsed document ends at the `>` of an end tag of its own name |
| MarkupMeaning.SpelledAlike | src/comm/MarkupSTL.h:175-185 | If that name holds no `[` and the end tag no string in its place, the end tag spells it exactly |
| MarkupMeaning.NotThePart | src/comm/MarkupSTL.cc:721-749 | `<ab></a>` is malformed |
| MarkupDocument.Markup.ParseContent | src/comm/MarkupSTL.cc:700-718 | Collects exactly the children that the functional parser lists, linked in order, and stops where and why it stops |
| MarkupDocument.Markup.SetDoc | src/comm/MarkupSTL.cc:40-82 | Succeeds or fails exactly as the functional parser says, and loops exactly if a spaced `?` or `!` node is reached through open elements; success establishes the invariant with exactly the parsed tree below one root, every element closed by an end tag of its own name, and says exactly when all edits keep the text reading back as indexed; failure leaves an empty arena |
| MarkupDocument.Markup.ParseRoot | src/comm/MarkupSTL.cc:70-82 | The parsed root as the only element, with the exact condition for its lasting |
| MarkupGrammar.OneTidy | src/comm/MarkupSTL.cc:632-754 | What the parser returns is exact: a gap without elements, tags at the returned offsets, and exactly its children inside |
| MarkupGrammar.ParsedTidy | src/comm/MarkupSTL.cc:700-718 | The same for the list of children up to the end tag |
| MarkupGrammar.TidyOne | src/comm/MarkupSTL.cc:632-754 | Conversely, text that holds exactly such an element is parsed to it |
| MarkupGrammar.TidyParses | src/comm/MarkupSTL.cc:700-718 | Conversely, text that holds exactly such a list is parsed to it |
| MarkupGrammar.StartAfterGap | src/comm/MarkupSTL.cc:653-688 | Text, comments, declarations and instructions do not change what is found behind them |
| MarkupGrammar.LoopsExactly | src/comm/MarkupSTL.cc:653-688 | The loop is endless if and only if only such a gap comes before a `?` or `!` that white space separates from its `<` |
| MarkupGrammar.LoopExample | src/comm/MarkupSTL.cc:653-688 | A text of four characters on which it is |
| MarkupGrammar.EndlessExactly | src/comm/MarkupSTL.cc:632-754 | Parsing an element does not end if and only if whole elements and open start tags lead to a `?` or `!` that white space separates from its `<` |
| MarkupReread.WholeReparses | src/comm/MarkupSTL.cc:40-82 | Parsing the text of a whole document gives the indexed elements with the same offsets |
| MarkupReread.WholeExactly | src/comm/MarkupSTL.cc:40-82 | A parsed document is whole if and only if nothing but a gap follows the root and the tags of its empty elements are firm |
| MarkupTidy.TidyAround | src/comm/MarkupSTL.cc:1427-1477 | An edit inside one element, with offsets shifted as x_Adjust does, leaves all the elements around exactly those of the text |
| MarkupReread.TidyAttrib | src/comm/MarkupSTL.cc:1114-1154 | Setting an attribute leaves exactly the indexed elements in the text |
| MarkupReread.TidyContent | src/comm/MarkupSTL.cc:1229-1290 | So does setting data |
| MarkupReread.TidyOpened | src/comm/MarkupSTL.cc:1260-1290 | So does setting data on an empty element |
| MarkupReread.TidyInsert | src/comm/MarkupSTL.cc:1613-1693 | Adding below an element with two tags leaves those and the new one |
| MarkupReread.TidyInsertOpened | src/comm/MarkupSTL.cc:1609-1693 | So does adding below an empty element |
| MarkupReread.TidyRoot | src/comm/MarkupSTL.cc:1580-1693 | So does adding a root between gaps |
| MarkupReread.TidyLocated | src/comm/MarkupSTL.cc:1479-1564 | The located offset lies between whole elements, so that what is before and behind it keeps its meaning |
| MarkupReread.TidyRemove | src/comm/MarkupSTL.cc:1805-1838 | Removing an element leaves exactly the others |
| MarkupReread.TidyRemoveRoot | src/comm/MarkupSTL.cc:1805-1838 | So does removing a root |
| MarkupAlways.AlwaysExactly | src/comm/MarkupSTL.cc:1114-1838 | Of the documents whose text parses to the indexed elements, all sequences of edits keep exactly those so in which only a gap follows the root, the tags of empty elements are firm, and the text without the root does not begin with `<` |
| MarkupLasting.LastsExactly | src/comm/MarkupSTL.cc:1114-1838 | The first two conditions are exact for the sequences that insert no root behind a first `<` |
| MarkupLasting.EditKeeps | src/comm/MarkupSTL.cc:1114-1838 | Every edit keeps the invariant, and a whole document whole unless it misplaces a root; then the text does not parse to the indexed elements |
| MarkupLasting.EditRereads | src/comm/MarkupSTL.cc:1114-1838 | When the text reads back after one edit: of a whole document, of an empty element that is not firm, and for a root |
| MarkupLasting.SplitLoses | src/comm/MarkupSTL.cc:1260-1290 | Data in an empty element that is not firm: the parser does not find the element where it is indexed |
| MarkupLasting.AdoptSplitLoses | src/comm/MarkupSTL.cc:1609-1693 | The same for a child put into such an element |
| MarkupLasting.OpenedInexact | src/comm/MarkupSTL.cc:1260-1279 | Splitting an empty element whose tag ends in `//>` or has the name `>` leaves tags that are not at its offsets, whatever goes between them |
| MarkupLasting.RootReads | src/comm/MarkupSTL.cc:1580-1693 | A new root is what the parser finds if and only if no element is in the text before it |
| MarkupLasting.MisplacedExactly | src/comm/MarkupSTL.cc:1479-1564 | In a whole document without elements that holds exactly unless InsertElem meets a first `<` |
| MarkupLasting.LostByRemoval | src/comm/MarkupSTL.cc:1805-1838 | If more than a gap follows the root, removing it and adding another loses it |
| MarkupLasting.SlashesMisread | src/comm/MarkupSTL.cc:1260-1279 | `<a//>` is an empty element; split around x it becomes `<a/>x</a>`, read as another empty element, with other offsets |
| MarkupLasting.NameMisread | src/comm/MarkupSTL.cc:1260-1279 | `<>/>` is an empty element; split around x its end tag is read one place short |
| MarkupLasting.TrailingMisread | src/comm/MarkupSTL.cc:1805-1838 | `<a/><b/>` without its root reads as the other element, of which the index knows nothing |
| MarkupAlways.FrontMisread | src/comm/MarkupSTL.cc:1479-1564 | `<?p?><a/>` without its root is a text in which InsertElem does not write behind a gap |
| MarkupParse.ParseNode | src/comm/MarkupSTL.cc:940-1040 | The end of a comment, declaration or instruction |
| MarkupParse.StuckOnSpace | src/comm/MarkupSTL.cc:653-688 | The parser makes no progress on such a node if and only if white space follows its `<` |
| MarkupDocument.Markup.FindElem | src/comm/MarkupSTL.cc:140-155 | Moves to the next sibling or the first child, or stays |
| MarkupDocument.Markup.FindChildElem | src/comm/MarkupSTL.cc:157-177 | Moves the child position along the children |
| MarkupDocument.Markup.IntoElem | src/comm/MarkupSTL.cc:316-332 | The main position becomes the parent |
| MarkupDocument.Markup.OutOfElem | src/comm/MarkupSTL.cc:334-343 | The parent becomes the main position |
| KeyFormat.EncodeKeepsOrder | src/search_local/index_read/key_format.cc:27-56 | Encoded keys with the same supported field types compare as the keys do field by field, for all strings, int64 values and doubles that are numbers |
| KeyFormat.KeyOrder | src/search_local/index_read/key_format.cc:27-56 | The same with any bytes following either key |
| KeyMeaning.TupleOrder | src/search_local/index_read/key_format.cc:27-56 | Encoded keys compare as the tuples of values they hold: types 1, 4 and 10 as the integers their decimal texts spell, 9 as doubles, 2, 3, 5 and 14 as texts |
| KeyMeaning.FieldBytes | src/search_local/index_read/key_format.cc:34-52 | One field more appends the eight big-endian bytes of its integer above -2^63, of its double, or the groups of its text; any other type empties the key |
| KeyMeaning.StrtollMeans | src/search_local/index_read/key_format.cc:38 | Blanks, a sign and decimal digits, whatever follows them, give the number spelled or the nearest of 64 bits |
| KeyMeaning.ToStringMeans | src/search_local/index_read/key_format.cc:76 | A number is written with its sign and no zero in front |
| KeyMeaning.DoubleMeans | src/search_local/index_read/key_format.cc:147-159 | The value of a bit pattern by sign, exponent and fraction, and which ones are no number |
| KeyMeaning.DecodeMeans | src/search_local/index_read/key_format.cc:65-102 | Types 1, 4 and 10 take eight bytes as an integer, 9 as a double, 2 and 3 groups up to the first marker below or above 127; other types are refused, and a key that is too short is read past its end |
| KeyMeaning.TextMeans | src/search_local/index_read/key_format.cc:181-192 | A group gives seven bytes, the last one as many as its marker says |
| KeyMeaning.TupleReturns | src/search_local/index_read/key_format.cc:27-102 | Decoding an encoded key gives back the values it held, integers as their shortest texts |
| KeyFormat.DecodeInvertsEncode | src/search_local/index_read/key_format.cc:58-102 | Decode restores every key of strings and canonical decimal integers |
| KeyFormat.DecodeEncoded | src/search_local/index_read/key_format.cc:58-102 | Decoding an encoded key inside any bytes finds each field again, doubles by their bits |
| KeyFormat.Encode | src/search_local/index_read/key_format.cc:27-56 | The loop computes the specified encoding, whose order and bytes `KeyMeaning.TupleOrder` and `FieldBytes` state by type number |
| KeyFormat.Decode | src/search_local/index_read/key_format.cc:58-102 | The loop computes the specified decoding, with its failures, which `KeyMeaning.DecodeMeans` states by type number |
| KeyFormat.EncodeForgets | src/search_local/index_read/key_format.cc:50-52 | An unsupported field discards all before it |
| KeyFormat.EncodeStringBytes | src/search_local/index_read/key_format.cc:104-127 | The group loop computes the specified string encoding |
| KeyFormat.DecodeStringBytes | src/search_local/index_read/key_format.cc:181-192 | The group loop computes the specified decoding, for any marker bytes |
| KeyFormat.StringRoundTrip | src/search_local/index_read/key_format.cc:104-192 | Decoding inverts encoding on every string |
| KeyFormat.SelfDelimiting | src/search_local/index_read/key_format.cc:87-96 | An encoded string ends at its first marker other than 127, whatever surrounds it |
| KeyFormat.StrtollToString | src/search_local/index_read/key_format.cc:38-76 | Reading a written int64 gives it back |
| KeyBytes.StringOrder | src/search_local/index_read/key_format.cc:104-127 | Encoded strings compare as the strings, prefixes and zero bytes included |
| KeyBytes.IntOrder | src/search_local/index_read/key_format.cc:134-145 | Encoded integers compare as the integers |
| KeyBytes.IntRoundTrip | src/search_local/index_read/key_format.cc:173-179 | Decoding inverts encoding on every int64 |
| KeyBytes.DoubleOrder | src/search_local/index_read/key_format.cc:147-159 | Encoded doubles compare as their values, infinities and both zeros included |
| KeyBytes.DoubleRoundTrip | src/search_local/index_read/key_format.cc:147-213 | The bit pattern is restored if and only if it is neither negative zero nor a NaN without sign; the value always is |
| KeyBytes.MagnitudeMonotone | src/search_local/index_read/key_format.cc:147-159 | Larger exponent and fraction bits mean a larger absolute value |
| KeyBytes.NetworkOrder | src/search_local/index_read/key_format.cc:18-20 | The memory of htonll's result is the big-endian word |
| KeyBytes.WordOrder | src/search_local/index_read/key_format.cc:161-171 | Encoded words compare as the words |
| KeyBytes.WordRoundTrip | src/search_local/index_read/key_format.cc:161-199 | Decoding inverts encoding on every uint64 |
| Utf8Text.Refresh | src/comm/utf8_str.cc:75-108 | The offset table is that of the lead bytes |
| Utf8Text.StartsCut | src/comm/utf8_str.cc:75-108 | The table cuts the string into its characters |
| Utf8Text.Utf8.Substr | src/comm/utf8_str.cc:60-73 | A substring holds exactly the characters asked for, and is empty if there are too few |
| Utf8Text.Utf8.Get | src/comm/utf8_str.cc:44-58 | Character i, or nothing |
| Utf8Text.CodePoints | src/comm/utf8_str.cc:75-108 | In well-formed UTF-8 (section 3 of RFC 3629) without NUL the characters are the code points |
| Utf8Text.NextByte | src/comm/utf8_str.cc:83-90 | Bytes 1 to 127 and from 192 on start a character, and any other goes to the one before it |
| MaxMatch.Fmm | src/comm/segment/fmm_segment.cc:11-38 | The loop computes forward maximum matching |
| MaxMatch.Bmm | src/comm/segment/bmm_segment.cc:11-38 | The loop computes backward maximum matching |
| MaxMatch.LongestFirst | src/comm/segment/fmm_segment.cc:22-31 | The longest dictionary word of at most eight characters, or one character |
| MaxMatch.LongestLast | src/comm/segment/bmm_segment.cc:22-31 | The same at the end |
| MaxMatch.ForwardSegments | src/comm/segment/ngram_segment.cc:104-131 | The forward words make up the text |
| MaxMatch.BackwardSegments | src/comm/segment/ngram_segment.cc:133-162 | The backward words make up the text |
| MaxMatch.ForwardMeans | src/comm/segment/fmm_segment.cc:11-38 | Each word is the longest of at most eight characters that the dictionary has for everyone or for the appid and that is no punctuation, or one character |
| MaxMatch.BackwardMeans | src/comm/segment/bmm_segment.cc:11-38 | The same from the end |
| DagSegment.ConcreteSplit | src/comm/segment/dag_segment.cc:13-29 | The emitting loop ends if and only if a route leads on from character 0 or 1; then the words make up the text and are those of the best edges, the first of equally heavy ones, and with a route from 0 they lie on a path at least as heavy as every other |
| DagSegment.GetDag | src/comm/segment/dag_segment.cc:31-50 | The edges are exactly the dictionary words, or one character where none starts |
| DagSegment.Calc | src/comm/segment/dag_segment.cc:52-86 | Every position gets its best edge given the positions behind it, the first of several |
| DagSegment.RouteIsUpper | src/comm/segment/dag_segment.cc:52-86 | No path weighs more than the route at its start |
| DagSegment.RouteIsReached | src/comm/segment/dag_segment.cc:20-26 | Following the routes gives a path of that weight |
| DagSegment.RouteFinite | src/comm/segment/dag_segment.cc:59-84 | A position has a finite route if and only if words of positive frequency lead to the end |
| DagSegment.AllFrequent | src/comm/segment/dag_segment.cc:63-75 | If every edge has frequency at least 1, there is a route from everywhere |
| DagSegment.FrequencyZero | src/comm/segment/dag_segment.cc:63-73 | A two-character sentence on which the loop does not end |
| DagMeaning.EdgeMeans | src/comm/segment/dag_segment.cc:63-75 | A word weighs log(f) - log(8000000) with the frequency of the appid's own entry, else of the one for all, and 1 for an unknown word |
| DagMeaning.SamePaths | src/comm/segment/dag_segment.cc:31-75 | Dictionaries that agree on the own entries, and on the shared ones of words without an own entry, have the same paths with the same weights |
| DagMeaning.SameSplit | src/comm/segment/dag_segment.cc:13-86 | And they give the same words |
| DagMeaning.OwnEntryDecides | src/comm/segment/dag_segment.cc:63-75 | An instance: "abc" becomes "a", "bc" for an appid for which "ab" is rare, though it is frequent for all |
| Viterbi.Tag | src/comm/segment/hmm_manager.cc:171-224 | If some tag sequence has positive probability, the output has the sentence's length and is as probable as any of all sequences; otherwise it is empty |
| Viterbi.BestExtends | src/comm/segment/hmm_manager.cc:190-212 | One character more keeps every state's entry best, with cut paths only where the probability is zero |
| Viterbi.BestBefore | src/comm/segment/hmm_manager.cc:192-206 | The best predecessor, if any gives a positive probability; of equals the first in the order B, M, E, S |
| Viterbi.ProbMeans | src/comm/segment/hmm_manager.cc:171-206 | The probability maximised is the start, then a transition and an emission for each character more, an emission not trained counting as the least one |
| NgramMerge.ConcreteSplit | src/comm/segment/ngram_segment.cc:12-102 | With `<BEG>` and `<END>` around both lists, the output makes up the text; between words on which both lists agree it is wholly forward or wholly backward, as the probabilities of the two with the words around them decide |
| NgramMerge.MergeMarked | src/comm/segment/ngram_segment.cc:22-98 | The two-cursor loop ends, stays in both lists, and passes every word of both |
| NgramMerge.GapOne | src/comm/segment/ngram_segment.cc:66-96 | Passing the word that ends first overlooks no word on which the lists agree |
| NgramMerge.GapBoth | src/comm/segment/ngram_segment.cc:79-86 | Nor does passing two words with one end |
| NgramMerge.Agree | src/comm/segment/ngram_segment.cc:37-64 | At an agreeing word the stretch before it is decided and all is in step again |
| NgramMerge.Choose | src/comm/segment/ngram_segment.cc:42-60 | The more probable stretch, without the words added around it |
| NgramMerge.Unmarked | src/comm/segment/ngram_segment.cc:99-100 | Without the marks the list is a segmentation of the text |
| SentenceSplit.Split | src/comm/segment/segment.cc:108-175 | The words are those of the maximal stretches between punctuation, each stretch of letters and digits as one word; it ends if and only if the segmenter ends on every other stretch |
| SentenceSplit.SplitKeepsText | src/comm/segment/segment.cc:108-175 | The words hold exactly the input's characters that are no punctuation, in order, for all four segmenters |
| SentenceSplit.Collect | src/comm/segment/segment.cc:111-151 | The first loop lists exactly the maximal stretches, and its set exactly those of letters and digits |
| SentenceSplit.RunsFromNone | src/comm/segment/segment.cc:114-145 | Collecting with a flag gives the maximal stretches |
| SentenceSplit.RunsText | src/comm/segment/segment.cc:114-145 | The stretches hold all characters but punctuation |
| SentenceSplit.ConcreteSplit | src/comm/segment/segment.cc:154-165 | Each segmenter keeps its own promise for a stretch |
| SkipList.SkipList.InsertNode | src/comm/skiplist.cc:69-112 | For every random level and every key: levels, links, backward pointers and count stay right, the item goes behind one that passes and before one that does not, and no unset update entry is read |
| SkipList.SkipList.FindUpdate | src/comm/skiplist.cc:74-80 | On each level in use, the last node before the new one |
| SkipList.LinksKept | src/comm/skiplist.cc:104-108 | Every level remains exactly the nodes that are tall enough |
| SkipList.StepStays | src/comm/skiplist.cc:74-80 | A step on a lower level does not overtake the stop on a higher one |
| SkipList.InsertKeepsOrder | src/comm/skiplist.cc:75-76 | A sorted list stays sorted if and only if no key lies above the new one by less than 0.0001; then the insertion is stable |
| SkipList.PassedByMistake | src/comm/skiplist.cc:75-76 | Key 1.0 goes behind a stored key 1.00005 |
| SkipList.PassesMeans | src/comm/skiplist.cc:75-76 | A stored key is passed exactly if it lies less than 0.0001 above the new one |
| SkipList.StableSortStable | src/comm/skiplist.cc:69-112 | The specified order is sorted and keeps items with equal keys as they came |
| SkipList.InsertAll | src/comm/skiplist.cc:69-112 | Any sequence of insertions with well-spaced keys gives that order |
| TopK.PriorityQueue.EnQueue | src/search_local/index_read/priority_queue.h:59-78 | Heap order holds and the stored pairs are k of those offered with the largest keys; a full heap gives up its root exactly for a larger key |
| TopK.PriorityQueue.DeQueue | src/search_local/index_read/priority_queue.h:80-90 | Exactly the root goes, and heap order holds |
| TopK.PriorityQueue.MinHeapIfy | src/search_local/index_read/priority_queue.h:92-106 | Heap order is restored with the same pairs |
| TopK.PriorityQueue.GetElements | src/search_local/index_read/priority_queue.h:108-127 | The values by descending key, for whatever order the library's sort gives equal keys |
| TopK.LargestKeys | src/search_local/index_read/priority_queue.h:59-78 | The keys kept are determined: for every bound, as many as offered reach it, up to k |
| TopK.OfferedLarge | src/search_local/index_read/priority_queue.h:63-65 | Replacing the smallest by a larger one keeps the k largest |
| TopK.RootIsMin | src/search_local/index_read/priority_queue.h:61 | The root has the smallest key |
| StatExpr.StatManager.InitExpressions | src/comm/stat/StatMgr.cc:226-242 | The loop ends with exactly the initialisable non-empty expressions, each after those it refers to |
| StatExpr.StatManager.InitExpr | src/comm/stat/StatMgr.cc:601-682 | Succeeds exactly if every reference is valid and initialised, and then compiles every term |
| StatExpr.ClosedHasAll | src/comm/stat/StatMgr.cc:226-242 | When a round adds nothing, nothing initialisable is missing |
| StatExpr.StatManager.Evaluate | src/comm/stat/StatMgr.cc:768-792 | After one pass the cell of every expression holds, modulo 2^64, the sum of its terms over the final cells they name, or the quotient of two such sums rounded toward zero unless the divisor is zero; and the ten-minute averages follow |
| StatExpr.PassAgrees | src/comm/stat/StatMgr.cc:768-792 | The same for one memory, from the order and disjoint slots |
| StatExpr.CalcExpr | src/comm/stat/StatMgr.cc:684-691 | The sum of the terms |
| StatExpr.EvalMeans | src/comm/stat/StatMgr.cc:556-645 | A compiled term is its constant, its scaled entry or its product, modulo 2^64; `TermValue` says of which cell |
| StatExpr.TermValue | src/comm/stat/StatMgr.cc:601-671 | A term written as val * 2^32 + 20 * id + sub is val times the cell 8 * sub bytes into the slot of the last entry with that id; with the top bit of the lower half set, the product of two such cells; all modulo 2^64 |
| StatExpr.TermOther | src/comm/stat/StatMgr.cc:601-671 | Writing any other cell leaves it |
| StatExpr.TermOkMeans | src/comm/stat/StatMgr.cc:620-659 | A term is accepted exactly if the last entries with its ids exist, are samples where a sub-index is given, and have been initialised if they are expressions |
| StatExpr.FifthCell | src/comm/stat/StatMgr.cc:618-632 | The lower half 25 reads cell 5 of entry 1 |
| StatExpr.AgreesMeans | src/comm/stat/StatMgr.cc:768-792 | What a pass stores is the sum or quotient of what the terms denote |
| StatExpr.TrendMeans | src/comm/stat/StatMgr.cc:693 | The average is 63 parts of the old one and 1024 of the new value by 64, rounded down |
| HashRing.Selector.AddNode | src/search_agent/consistent_hash_selector.cc:23-47 | The ring holds exactly the points of all names, each with the smallest name hashing there |
| HashRing.Selector.Select | src/search_agent/consistent_hash_selector.cc:11-21 | The name at the next point clockwise |
| HashRing.OrderIndependent | src/search_agent/consistent_hash_selector.cc:23-47 | The ring depends on the names and not on their order |
| HashRing.SameNamesSelectAlike | src/search_agent/consistent_hash_selector.cc:11-47 | Selectors with the same names answer alike |
| HashRing.AddMovesOnlyToNew | src/search_agent/consistent_hash_selector.cc:11-47 | A node more changes an answer only to itself |
| HashRing.PointsMean | src/search_agent/consistent_hash_selector.cc:32-36 | The points of a name are the hashes of name#0 to name#99 |
| HashRing.NextMeans | src/search_agent/consistent_hash_selector.cc:17-20 | The next point is the first strictly after the hash, or the very first |
| Md5Stream.Md5.Update | src/comm/cpa_md5.cc:251-284 | The buffer holds the unprocessed tail, the state all blocks before it, and the counter the bit length modulo 2^64; it ends if and only if the 32-bit index does not wrap |
| Md5Stream.Md5.Finalize | src/comm/cpa_md5.cc:298-330 | The digest is that of the message padded as in sections 3.1 and 3.2 of RFC 1321 |
| Md5Stream.DigestInPieces | src/comm/cpa_md5.cc:251-330 | Whatever the pieces on which update ends, the digest is that of the whole |
| Md5Stream.WrapsAround | src/comm/cpa_md5.cc:251-284 | With an empty buffer, 2^32 - 1 bytes are an input on which the index wraps |
| Md5Stream.Counts | src/comm/cpa_md5.cc:256-259 | The two counter words with their carry count bits modulo 2^64 |
| Md5Stream.InitMeans | src/comm/cpa_md5.cc:128-131 | The initial words as sixteen bytes |
| Md5Stream.WordsMean | src/comm/cpa_md5.cc:298-330 | The digest is the four words in order, the least significant byte first |
| AgentReceiver.Receiver.Recv | src/comm/agent_receiver.cc:75-99 | After any calls, failed ones included, the bytes received are kept and walking on over them gives what walking the whole stream gives, whatever follows; the packets delivered so far are exactly the frames the sender wrote, under any split, and the bytes kept the beginning of one more; an error only for a failed call or a stream that no frames can make up whatever follows |
| AgentReceiver.Receiver.Deliver | src/comm/agent_receiver.cc:96-98 | Refuses if and only if the walk over all bytes received refuses, and then for good; otherwise hands over the complete packets |
| AgentReceiver.Receiver.SetRecvedInfo | src/comm/agent_receiver.cc:213-245 | Hands over exactly the complete packets and keeps the rest |
| AgentReceiver.Receiver.CountPacket | src/comm/agent_receiver.cc:172-205 | Succeeds exactly if the bytes are frames and the beginning of one more; counts those frames and finds their end |
| AgentReceiver.Receiver.RecvInto | src/comm/agent_receiver.cc:108-150 | Received bytes follow those kept, in a buffer enlarged when full |
| AgentReceiver.WalkOn | src/comm/agent_receiver.cc:172-245 | Walking a stream in two parts gives what walking it whole gives, so the packets do not depend on the split |
| AgentReceiver.WalkBad | src/comm/agent_receiver.cc:172-205 | A refused stream stays refused whatever follows |
| AgentReceiver.ContinuesPast | src/comm/agent_receiver.cc:213-245 | Past the packets handed over, the bytes kept still go on as the whole stream does |
| AgentReceiver.WalkDelivered | src/comm/agent_receiver.cc:234-242 | Delivered bytes are walked to exactly their end, and the rest holds no packet |
| AgentReceiver.WalkText | src/comm/agent_receiver.cc:172-205 | Packets and rest make up the stream |
| AgentReceiver.WalkMeans | src/comm/agent_receiver.cc:151-205 | The walk over a stream gives exactly the frames it was written from (0xFD, 0xFC, two bytes, the length most significant byte first, four bytes, the body) and what is left of one more |
| AgentReceiver.BadMeans | src/comm/agent_receiver.cc:151-205 | A stream is refused exactly if it is not made up so |
| AgentReceiver.RefusedExactly | src/comm/agent_receiver.cc:151-170 | A header is refused exactly if it does not begin with 0xFD, 0xFC or announces more than 2^26 bytes |
| AgentReceiver.FiveBytes | src/comm/agent_receiver.cc:151-205 | A packet of seventeen bytes with a body of five |
| AgentReceiver.DecodeAgentRequest | src/comm/agent_multi_request.cc:119-150 | One task for each packet of a delivered buffer, each a frame as the sender wrote it, and the cursor ends at its end |
| AgentSender.Sender.Send | src/comm/agent_sender.cc:99-164 | Whatever part goes, bytes sent and bytes left make up the packets in order and leftLen is what is left |
| AgentSender.Sender.AddPacket | src/comm/agent_sender.cc:65-97 | The packet is queued last within the arrays' capacity, or the sender is broken for lack of memory |
| AgentSender.Sender.Pass | src/comm/agent_sender.cc:136-149 | The vectors gone completely, and a release for each |
| AgentSender.ReleasedExactly | src/comm/agent_sender.cc:136-161 | A packet has been released if and only if its last byte has gone |
| Base64.EncodeBase64 | src/comm/MarkupSTL.cc:462-519 | The specified text, every write inside the buffer of the precomputed length |
| Base64.DecodeBase64 | src/comm/MarkupSTL.cc:521-590 | The specified bytes, nothing written outside the buffer, for every text |
| Base64.RoundTrip | src/comm/MarkupSTL.cc:462-590 | Every byte string comes back if the buffer is long enough |
| Base64.EstimateIsEnough | src/comm/MarkupSTL.cc:528-530 | The decoder's size estimate suffices for every text |
| Base64.Room | src/comm/MarkupSTL.cc:466-467 | The precomputed length has room for every group and line break |
| Base64.GroupRoundTrip | src/comm/MarkupSTL.cc:484-586 | Four characters give their one to three bytes back |
| Base64.CodeMeans | src/comm/MarkupSTL.cc:484-505 | Every six bits are written as their letter of the alphabet of RFC 4648 |
| Base64.SextetsMean | src/comm/MarkupSTL.cc:484-505 | Which six bits of three bytes each letter stands for |

## Left out

- MarkupDocument.Markup.AddElem: inserting a root before the first character of an empty document is excluded, since the source then writes out of range; `Apply` leaves that call out.
- MarkupDocument.Markup.SetAttrib: start tags with `>` inside a quoted value are excluded; `Run` starts from documents without them and creates none, and the edits of `MarkupLasting.Makes` set no attribute in one. GetAttrib likewise.
- MarkupDocument.Markup.SetDoc: quirks such as a quoted string in place of an end tag's name are kept as the code has them.
- MarkupDocument.Markup.FindElem: only without a path; FindChildElem likewise.
- KeyFormat.Decode: reading past the end of a key that is too short is one outcome, `OutOfRange`; strtod and the printing of doubles are parameters.
- DagSegment.ConcreteSplit: weights are reals, and log(0) and -DBL_MAX are one bottom element; `ok` is false where the source would loop.
- Viterbi.Tag: of several equally probable sequences only the single steps (`BestBefore`, `BestLast`) say which is taken; probabilities are reals; the empty sentence, on which the source reads before its vector, is excluded.
- NgramMerge.ConcreteSplit: the probability of a word list is a parameter.
- SkipList.SkipList.InsertNode: the random level and the pool's answer are parameters; keys are reals, and counters do not wrap.
- StatExpr.StatManager.Evaluate: INT64_MIN divided by -1, which C++ leaves undefined, gives 2^63; memory is a map from offsets to 64-bit cells, which is faithful for slots that do not overlap; it requires that and sub-indexes below 18.
- HashRing.Selector.Select: the hash function is a parameter.
- Md5Stream.Md5.Finalize: the block transform is a parameter, so nothing is said about its rounds.
- AgentReceiver.Receiver.Recv: running out of memory and 32-bit buffer sizes are not modelled; system calls are arbitrary byte counts.
- AgentSender.Sender.AddPacket: packets have one vector, as the server encodes them.
- XML node-level editing, sub-documents, saved positions, paths, RemoveAttrib, and file load and save: they add cases and no harder property.
- Segment::Split with HMM: a run of single characters that is itself a dictionary word is dropped there, so text is not conserved.
- SkipList::FreeList, Random, the geohash code, result-set algebra, DTC access, sockets, threads, logging and parsing of dictionary and statistics files.
- Text is without NUL characters where the source uses C strings; offsets and lengths are unbounded integers except where a row says otherwise.
