# Verification model of tunnelier

tunnelier is a daemon that keeps SSH tunnels open and takes its orders as JSON over HTTP. This
project models its two stateful parts in Dafny and proves what they do:

* the JSON reader and writers every request and reply goes through (`src/jsoncpp/jsoncpp.cpp`), with
  the value type, the total order on values, the sparse arrays and the page allocator of that file;
* the life of listeners, links, SSH connections, channels and worker load
  (`src/tunnels/TunnelManager.cpp`, `SSHConnection`, `TunnelWorker`).

`dafny verify dfyconfig.toml` checks everything.

## How the model is built

Text is `seq<char>`, one `char` for one byte; a document is the byte sequence up to the terminator
that `std::string` supplies. 64-bit integers are subset types, and every conversion, wrap-around and
32-bit size is written out (`WrapU64`, `WrapI64`, `Size`, `AsInt32`). Shifts and masks are written as
division and remainder.

Code that works in place is imperative: `Reader` (cursor, errors, node stack, root), `FastWriter`,
`StyledWriter` (document, buffer of child texts, indentation), `ArrayValue`, `BatchAllocator`,
`uintToString` and the trimming loop on arrays, `SSHConnection`, `TunnelWorker`, `TunnelManager`. Each
of these methods is proved against a function or predicate on values, and the theorems are about
those. The functions that serve as specifications of the reader (`Scanner`, `Strings`, `Parser`) are in
turn related to something that is not the reader: concrete syntax trees (`Grammar.Json`, with their text and
the value they denote) and the byte forms of RFC 3629. `ValidJson` says that a tree is in the grammar of RFC
8259, `Loose` that it is in the grammar of the reader: there, digits may have leading zeros or be missing
behind a minus, other number texts are what the C library accepts, control characters may stand unescaped in
strings, surrogates need not pair up, a comma may follow a last member with an empty name, and comments may stand
in front of values if they are allowed, and behind values and in front of names in any case. `AcceptsExactly` says
that this is exactly what the reader takes, of every document in which a comment behind a value in an object is
followed by a comma or a brace. Where a function specifies a method and would be changed along with it, a
statement that does not use the function pins it down: `Precedes` the order, `Pretty` and `CompactText` the two
printed texts, `IsComment` what a comment is, `ErrorIsReported` with its companions the error that is reported and what is kept,
`Standards` the character classes, escapes, code ranges and widths.

| file | content |
|---|---|
| Text, Values | byte strings, positions in a document, values, sizes, normal form |
| Standards | character classes, escapes, code ranges and widths in numbers |
| Unicode, Numbers, Trimming | UTF-8, decimal text of 64-bit integers, text of doubles |
| Scanner, Comments, Strings, Quoting | tokens, comments, string decoding and encoding |
| Parser, Grammar | the reader as a function of the document; the grammar of RFC 8259 and the wider one of the reader |
| Completeness, Acceptance, Leniency, Errors | the reader takes every text of either grammar; it takes nothing else; what lies between the two; which error is reported and what the root then holds |
| Nodes, Reader | access paths for the pointers on the node stack, and class `Reader` |
| Printing, FastWriter, Styling, Layout, StyledWriter | what the two writers print, its layout, and the two classes |
| Tokens, Whitespace, RoundTrip | tokens of a text, white space, and the round trips |
| ValueOrder, Precedence, SparseArrays, BatchAllocator | order and equality, arrays as maps, the allocator |
| Endpoints, Tunnels, TunnelManager, TunnelRuns | keys, connections and workers, the manager, its runs |

## Where the code differs from what it is meant to do

These are theorems about the code as it is; each names the exact condition.

* `decodeNumber` tests its accumulator with `>=` only, so some numbers out of range are neither integers
  nor doubles but wrap: 2^64 + 4 is parsed as 4 (`WrappedNumberExample`). `IntegerExactness` says exactly when a
  number is read exactly, when as a double, and when it wraps; `WrappedNumber` what parse then stores.
* A comma in front of a closing brace is accepted if and only if the last member has an empty name
  (`TrailingComma`): `{"":null,}` is taken, `{"a":null,}` is not (`TrailingCommaExamples`).
* With comments off, comments are an error in front of a value only; behind values and in front of names they are
  skipped all the same (`AcceptsExactly`, `CommentOffFails`).
* `parse` does not look at what follows the first value (`ParseIgnoresTail`).
* The strict mode is described as asking for an array or an object, but `isArray()` and `isObject()` hold of null,
  so that `null` is accepted too (`ParseIsComplete`).
* `operator<` narrows the difference of two sizes to `int`: an array of 2^31 elements and an empty one are each
  less than the other (`HugeArraysCycle`). The order is total if and only if sizes fit an `int`
  (`OrderIffSizesFit`).
* The compact writer counts elements in an `int`: from 2^31 elements on an array prints as an empty one
  (`HugeArrayPrintsEmpty`). `RetainsWholeValue` and `FastRoundTrip` have the condition.
* Shrinking an array whose new last element has no key loses more elements than asked, which the
  assertion at the end of `resize` catches (`ErasedView`, `Resize`, `ShrinkLoses`); `append` wraps at the largest
  index (`AppendedView`, `AppendLoses`).
* The allocator recognises a full page by equality, so that it stays inside the memory of its pages if and only
  if the size of an allocation divides the size of a page (`CarvedInsideIffDivides`); if it does not, allocations
  alone lead outside (`Overrun`), as with two objects at a time and the default page of 255.
* `openConnections` compares lengths, not texts. A caller can be taken to the wrong host, and this happens
  for any two endpoints with the same key (`SharedConnection`); as long as no two endpoints in use share
  one it does not happen (`Call`). Every endpoint shares its key with some other host (`KeysCollide`).
* A failed `createTunnel` leaves an empty bucket behind, after which the same call reports success without
  a connection or a link (`CreateTwice`); so does a bucket that clean-up emptied (`CreateTunnel`).
* `closeTunnel` takes back no load (`CreateThenClose`), and clean-up neither: the conserved quantity counts
  the listeners ever created and the connections ever attached, not those that are open.
* `localSocketClose` handles a tunnel that is not active by a warning only, and loses count
  (`LocalSocketClose`: the invariant survives if and only if the tunnel is active).

## Model

| member | source | states |
|---|---|---|
| Completeness.ParseIsComplete | src/jsoncpp/jsoncpp.cpp:311-352 | every text of the RFC 8259 grammar (numbers that are in-range integers, or that the conversion to a double accepts; no unpaired surrogate; a string ends at an escaped NUL, as the C string it is stored as does) is accepted without errors and yields the value its syntax tree denotes, whatever the root held before; in strict mode the root must be an array, an object or null |
| Completeness.ReadsTree | src/jsoncpp/jsoncpp.cpp:355-403 | readValue on the text of any tree of the reader's grammar, with comments where it allows them, at any place of any document, stops exactly behind it with the denoted value and no error; only a number needs something behind it that ends it |
| Completeness.ReadsMembers | src/jsoncpp/jsoncpp.cpp:640-696 | the loop of readObject on the text of any members, from any map of members read before, the comma behind an empty name included |
| Completeness.ReadsElems | src/jsoncpp/jsoncpp.cpp:699-739 | the loop of readArray on the text of any elements, from any index on |
| Completeness.NumberIsDecoded | src/jsoncpp/jsoncpp.cpp:742-792 | a number of the reader's grammar decodes to the number it denotes, a wrapped one where it wraps |
| Completeness.ParseIgnoresTail | src/jsoncpp/jsoncpp.cpp:311-352 | a value behind white space and allowed comments, followed by anything, unless a number by a number character, is accepted as if nothing followed |
| Acceptance.AcceptsExactly | src/jsoncpp/jsoncpp.cpp:311-352 | for every document in which a comment behind a value in an object is followed by a comma or a brace: parse succeeds if and only if the document starts with the text of a tree of the reader's grammar, in strict mode one that denotes an array, an object or null; and the root is what any such tree denotes |
| Acceptance.ReadIsLoose | src/jsoncpp/jsoncpp.cpp:355-403 | whatever readValue reads without an error is white space, comments if they are allowed, and the text of a tree of the reader's grammar, and the node holds what the tree denotes |
| Acceptance.MembersAreLoose | src/jsoncpp/jsoncpp.cpp:640-696 | the same for the members of an object, with the only comma that may stand in front of the brace |
| Acceptance.ElementsAreLoose | src/jsoncpp/jsoncpp.cpp:699-739 | the same for the elements of an array |
| Acceptance.NumberIsLoose | src/jsoncpp/jsoncpp.cpp:742-792 | what decodeNumber accepts is a number of the reader's grammar, with the value it denotes |
| Acceptance.StringIsLoose | src/jsoncpp/jsoncpp.cpp:833-877 | a string token that decodeString accepts is a string of the reader's grammar, and decodes to the bytes it denotes |
| Acceptance.CommentText | src/jsoncpp/jsoncpp.cpp:538-611 | a comment token has the text of a block comment or of a line comment with its line break, unless the document ends there |
| Acceptance.CommentFreeIsOrderly | src/jsoncpp/jsoncpp.cpp:640-696 | documents without comments meet the condition of AcceptsExactly |
| Comments.CommentIsRead | src/jsoncpp/jsoncpp.cpp:538-611 | "/*", text without "*/", then "*/", and "//", text without line break, then CR or LF, are each read as one comment token that ends there |
| Comments.LastCommentIsRead | src/jsoncpp/jsoncpp.cpp:600-611 | a line comment at the end of the document needs no line break |
| Comments.FillerIsSkipped | src/jsoncpp/jsoncpp.cpp:406-421 | any sequence of white space and comments in front of a token is skipped |
| Leniency.CommentsAreBlanks | src/jsoncpp/jsoncpp.cpp:355-403 | parse of any text with comments where the reader skips them comes to the same root and success as parse, with comments off, of the text with blanks in their place |
| Leniency.CommentIsNoValue | src/jsoncpp/jsoncpp.cpp:406-421 | with comments off, a comment in front of a value is an error at that comment |
| Leniency.CommentOffFails | src/jsoncpp/jsoncpp.cpp:311-352 | and parse of such a document fails with it and leaves the root alone |
| Leniency.LineCommentExample | src/jsoncpp/jsoncpp.cpp:600-611 | a line comment ends with its line: what stands on the next one is parsed |
| Errors.ErrorIsReported | src/jsoncpp/jsoncpp.cpp:311-352 | behind any readable beginning of a document, whatever containers are open, the error of the value that cannot be read is the one parse reports, and the only one unless strict mode adds that the root is no container; the root holds everything read before it, and a member with a repeated name keeps its old value if reading the new one fails before anything is stored |
| Errors.NoValue | src/jsoncpp/jsoncpp.cpp:355-403 | where nothing stands that can start a value, the error is that a value is expected, at that token, and the node keeps what it held |
| Errors.NoNumber | src/jsoncpp/jsoncpp.cpp:742-821 | a number text that is no number is the error, with its text, and the node keeps what it held |
| Errors.NoCommaInArray | src/jsoncpp/jsoncpp.cpp:699-739 | behind an element neither comma nor bracket: the error is at the token that stands there, and the array keeps its elements |
| Errors.NoCommaInObject | src/jsoncpp/jsoncpp.cpp:640-696 | behind a member neither comma nor brace: the error is at the token that stands there, and the object keeps its members |
| Errors.NoColon | src/jsoncpp/jsoncpp.cpp:640-696 | behind a name no colon: the error is at the token that stands there, and the object keeps the members before |
| Errors.NoName | src/jsoncpp/jsoncpp.cpp:640-696 | where neither a name nor an allowed brace stands: the error is at the token that stands there, and the object keeps its members |
| Grammar.ValidIsLoose | src/jsoncpp/jsoncpp.cpp:355-403 | the grammar of RFC 8259 is part of the grammar of the reader |
| Leniency.TrailingComma | src/jsoncpp/jsoncpp.cpp:640-696 | parse of an object with a comma behind its last member succeeds if and only if the name of that member is empty, and then the comma means nothing |
| Leniency.TrailingCommaExamples | src/jsoncpp/jsoncpp.cpp:640-696 | {"":null,} is accepted, {"a":null,} is not |
| Leniency.WrappedNumber | src/jsoncpp/jsoncpp.cpp:742-792 | parse of any integer that is out of range but taken by the loop stores its value modulo 2^64 |
| Leniency.WrappedNumberExample | src/jsoncpp/jsoncpp.cpp:773-790 | the text of 2^64 + 4 is parsed as 4 |
| Grammar.ArrayDenotesSequence | src/jsoncpp/jsoncpp.cpp:699-739 | element k of an array text has key k, every other key is absent, and earlier elements stay |
| Grammar.LastMemberWins | src/jsoncpp/jsoncpp.cpp:640-696 | under a repeated name the object holds the value of the last member with it |
| Grammar.OtherNamesStay | src/jsoncpp/jsoncpp.cpp:640-696 | the names of an object are the names in its text and those known before, and names the text does not mention keep their value |
| Parser.Parse | src/jsoncpp/jsoncpp.cpp:311-352 | true exactly without errors; a failed parse has one error, and a second one only in strict mode when the root is neither null nor a container |
| Readers.Reader.Parse | src/jsoncpp/jsoncpp.cpp:282-352 | the class computes the parse function on every byte sequence, leaves the stack with the root alone, returns true if and only if there are no errors, and otherwise exactly one in non-strict mode |
| Readers.Reader.ReadValue | src/jsoncpp/jsoncpp.cpp:355-403 | assigns the result at the node on top of the stack and nowhere else in the root, restores the stack, adds at most one error and ends where the function says, on every path |
| Readers.Reader.ReadObject | src/jsoncpp/jsoncpp.cpp:640-696 | the same for objects, recovery included |
| Readers.Reader.ReadArray | src/jsoncpp/jsoncpp.cpp:699-739 | the same for arrays, recovery included |
| Readers.Reader.ReadToken | src/jsoncpp/jsoncpp.cpp:434-506 | returns the token the scanner function describes and stands at its end |
| Readers.Reader.RecoverFromError | src/jsoncpp/jsoncpp.cpp:949-963 | skips to behind the next token of the kind or to the end, and undoes all errors it met on the way |
| Readers.Reader.DecodeUnicodeCodePoint | src/jsoncpp/jsoncpp.cpp:879-906 | code point and position, or one error with its place |
| Readers.Reader.DecodeToString | src/jsoncpp/jsoncpp.cpp:833-877 | decoded text, or one error with its place |
| Scanner.ReadToken | src/jsoncpp/jsoncpp.cpp:434-520 | tokens lie inside the document, begin where scanning goes on or later, and are empty only at the end: each step advances |
| Scanner.Recover | src/jsoncpp/jsoncpp.cpp:949-963 | recovery moves forward and stays inside the document |
| Scanner.RecoverStops | src/jsoncpp/jsoncpp.cpp:949-963 | recovery passes tokens of other kinds and stops behind the first one of the kind, or behind the end of the stream |
| Nodes.ChildPath | src/jsoncpp/jsoncpp.cpp:640-739 | assigning through a pointer to a child is assigning to the child of the parent, which is what pushing and popping nodes relies on |
| Nodes.PutThenGet | src/jsoncpp/jsoncpp.cpp:974-978 | what is assigned to the current value is what is found there, and a later assignment overwrites it |
| Strings.ScannerAndDecoderAgree | src/jsoncpp/jsoncpp.cpp:624-637 | on what the scanner accepts as a string, from any point inside, the decoder never meets the bare quote before the end and never an escape without a character |
| Strings.StringTokensDecodeFully | src/jsoncpp/jsoncpp.cpp:833-877 | on every string token the decoder reads the whole token or reports another error than an empty escape |
| Strings.StringIsReadBack | src/jsoncpp/jsoncpp.cpp:624-637 | a string of the grammar is exactly one token and decodes to the bytes it denotes |
| Strings.EscapedScalarDecodes | src/jsoncpp/jsoncpp.cpp:879-932 | the escape or surrogate pair RFC 8259 gives a scalar value decodes to its UTF-8 form |
| Strings.NulOnlyFromEscape | src/jsoncpp/jsoncpp.cpp:833-877 | a string of the grammar denotes a NUL byte if and only if it contains the escape of NUL |
| Unicode.EncodesRfc3629 | src/jsoncpp/jsoncpp.cpp:99-135 | for every scalar value the emitted bytes are an RFC 3629 character with that number |
| Unicode.EncodedBits | src/jsoncpp/jsoncpp.cpp:99-135 | every code point, surrogates included, is written as its six-bit digits behind the marks of its length |
| Unicode.EveryRfc3629CharIsEmitted | src/jsoncpp/jsoncpp.cpp:99-135 | every RFC 3629 character is what is emitted for its number |
| Unicode.PrefixFree | src/jsoncpp/jsoncpp.cpp:99-135 | no emitted form is a prefix of another |
| Unicode.UniquelyDecodable | src/jsoncpp/jsoncpp.cpp:99-135 | equal concatenations come from equal sequences of scalar values |
| Unicode.SurrogatesCombine | src/jsoncpp/jsoncpp.cpp:879-906 | the surrogate pair of a supplementary code point combines to it |
| Standards.CharacterClasses | src/jsoncpp/jsoncpp.cpp:509-621 | white space, digits, hexadecimal digits, number and control characters, by code |
| Standards.Escapes | src/jsoncpp/jsoncpp.cpp:850-869 | the characters behind a backslash and what they stand for, by code |
| Standards.CodeRanges | src/jsoncpp/jsoncpp.cpp:879-906 | the surrogate ranges, and a unit behind a high surrogate counting with its low ten bits |
| Standards.Conversions | src/jsoncpp/jsoncpp.cpp:742-792 | a conversion yields the number of its width that differs by a multiple of its range |
| Numbers.AccumulateExactly | src/jsoncpp/jsoncpp.cpp:742-792 | the digit loop on every digit string: the number if it fits, a double if not, and a wrapped number in the cases of Wraps |
| Numbers.IntegerExactness | src/jsoncpp/jsoncpp.cpp:742-792 | an integer token is stored exactly if and only if it lies in [-2^63, 2^64-1], signed if and only if it is at most 2^31-1; it becomes a double if and only if it is out of range and no case of Wraps |
| Numbers.UIntToString | src/jsoncpp/jsoncpp.cpp:160-171 | writes the decimal digits and a terminator below the given end, at most 21 bytes, and leaves the rest of the buffer alone |
| Numbers.ValueToStringInt | src/jsoncpp/jsoncpp.cpp:3418-3430 | the decimal text of every int64, the smallest included; the buffer never underflows |
| Numbers.ValueToStringUInt | src/jsoncpp/jsoncpp.cpp:3433-3440 | the decimal text of every uint64 |
| Numbers.UInt64Length | src/jsoncpp/jsoncpp.cpp:146-152 | 20 digits are enough |
| Trimming.TrimZeros | src/jsoncpp/jsoncpp.cpp:3466-3494 | the loop keeps head and exponent, cuts the fraction to the kept digits, ends the text inside the old one and touches nothing behind it |
| Trimming.TrimmingKeepsValue | src/jsoncpp/jsoncpp.cpp:3466-3494 | the kept fraction has the same value, is no longer, is not empty if anything was cut, and without an exponent ends in at most one zero |
| Quoting.ContainsControlCharacter | src/jsoncpp/jsoncpp.cpp:3407-3415 | true if and only if some character is a control character |
| Quoting.ValueToQuotedString | src/jsoncpp/jsoncpp.cpp:3503-3564 | the string token of the escaped characters, on the fast path and in the loop |
| Quoting.QuotedDenotes | src/jsoncpp/jsoncpp.cpp:3503-3564 | the escaped characters are in the grammar and denote the string |
| Quoting.QuotedForm | src/jsoncpp/jsoncpp.cpp:3518-3560 | how each byte is printed: two characters, four upper-case hexadecimal digits, or as it stands |
| Quoting.NothingToEscape | src/jsoncpp/jsoncpp.cpp:3506-3507 | without special characters the escaping loop would print the string as it stands |
| FastWriters.FastWriter.Write | src/jsoncpp/jsoncpp.cpp:3589-3596 | the text of the tree of the value, and a newline |
| FastWriters.FastWriter.WriteValue | src/jsoncpp/jsoncpp.cpp:3599-3655 | appends the text of the tree of the value |
| Printing.PrintedDenotes | src/jsoncpp/jsoncpp.cpp:3599-3655 | what is printed is in the grammar and denotes what the writer retains of the value |
| Layout.CompactIsTree | src/jsoncpp/jsoncpp.cpp:3599-3655 | what is printed is the compact text, spelled out: no white space but a blank behind colons in YAML mode, members in the order of their names |
| Printing.RetainsWholeValue | src/jsoncpp/jsoncpp.cpp:3622-3634 | the writer retains the normal form of a value if and only if no array in it is longer than an int counts |
| Printing.RetainedPrintsTheSame | src/jsoncpp/jsoncpp.cpp:3599-3655 | a value without doubles and what is retained of it have the same printed tree |
| RoundTrip.FastRoundTrip | src/jsoncpp/jsoncpp.cpp:3589-3655 | parsing the compact text succeeds and yields the retained value; that is the normal form if and only if the arrays fit an int |
| RoundTrip.FastTextIsStable | src/jsoncpp/jsoncpp.cpp:3589-3655 | writing the parsed value gives the text it came from |
| RoundTrip.HugeArrayPrintsEmpty | src/jsoncpp/jsoncpp.cpp:3622-3634 | an array of 2^31 elements prints as an empty one |
| RoundTrip.PrintersAgree | src/jsoncpp/jsoncpp.cpp:3668-3872 | pretty and compact text have the same tokens and parse to the same value, the normal form |
| RoundTrip.PrintAndParse | src/jsoncpp/jsoncpp.cpp:3589-3680 | the writer and reader objects together: printing and parsing any value leaves its normal form in the reader and no error |
| RoundTrip.PrintYamlAndParse | src/jsoncpp/jsoncpp.cpp:3582-3596 | the same with the YAML flag of the compact writer |
| Tokens.TokenizesTree | src/jsoncpp/jsoncpp.cpp:434-520 | the scanner splits the text of any tree, wherever it stands, into the tokens of the tree |
| Tokens.TokenizesText | src/jsoncpp/jsoncpp.cpp:434-520 | the same for a whole document |
| Whitespace.SpacesDoNotMatter | src/jsoncpp/jsoncpp.cpp:509-520 | white space in a tree changes neither validity nor value |
| Whitespace.CompactKeepsTokens | src/jsoncpp/jsoncpp.cpp:509-520 | nor the tokens |
| Styling.StyledIsTree | src/jsoncpp/jsoncpp.cpp:3683-3872 | whatever layout is chosen, the pretty text is white space and the text of a tree that without white space is the compact one |
| Styling.SingleLineFits | src/jsoncpp/jsoncpp.cpp:3797-3824 | an array printed on one line takes exactly the computed length, which is below the margin |
| Layout.StyledIsPretty | src/jsoncpp/jsoncpp.cpp:3683-3872 | the layout: at depth d every member, and every element of an array of several lines, stands behind a line break and 3(d+1) blanks, and the closing bracket behind a line break and 3d blanks; a bracket behind a name stays on its line |
| Layout.OneLineIsNotMulti | src/jsoncpp/jsoncpp.cpp:3797-3824 | an array is on one line exactly if it has fewer than 25 elements, none of them a container with something in it, and the line is shorter than 74 |
| Layout.PrettyDocument | src/jsoncpp/jsoncpp.cpp:3668-3679 | the whole document |
| StyledWriters.StyledWriter.Write | src/jsoncpp/jsoncpp.cpp:3668-3679 | the pretty text of the value, with the white space of every node given by its depth, and a newline |
| StyledWriters.StyledWriter.WriteValue | src/jsoncpp/jsoncpp.cpp:3683-3740 | appends the pretty text, or one entry to the buffer; the indentation is restored |
| StyledWriters.StyledWriter.WriteArrayValue | src/jsoncpp/jsoncpp.cpp:3744-3793 | appends the pretty text of the array in its layout; the indentation is restored |
| StyledWriters.StyledWriter.WriteLine | src/jsoncpp/jsoncpp.cpp:3780-3791 | the single-line branch, with one buffer entry for each element |
| StyledWriters.StyledWriter.IsMultineArray | src/jsoncpp/jsoncpp.cpp:3797-3824 | decides the layout, and leaves the buffer empty or with exactly one entry for each element |
| StyledWriters.StyledWriter.Unindent | src/jsoncpp/jsoncpp.cpp:3868-3872 | takes one level back, and is only called with one to take |
| ValueOrder.LessTransitive | src/jsoncpp/jsoncpp.cpp:2078-2118 | the order is transitive, through nested arrays and objects, as long as sizes fit an int |
| ValueOrder.LessConnected | src/jsoncpp/jsoncpp.cpp:2078-2118 | two values are ordered at least one way if and only if they differ, whatever their sizes |
| ValueOrder.LessAsymmetric | src/jsoncpp/jsoncpp.cpp:2078-2118 | as long as sizes fit an int, no two values are ordered both ways |
| ValueOrder.OrderIffSizesFit | src/jsoncpp/jsoncpp.cpp:2100-2108 | operator< is a strict total order on the values with at most n entries per container if and only if n fits an int |
| Precedence.LessIsPrecedence | src/jsoncpp/jsoncpp.cpp:2078-2118 | as long as sizes fit an int, less means: the lower kind, the smaller number, false before true, the string with the smaller first differing byte or the proper prefix, the container with fewer entries, and at equal size the one the first difference in keys or values favours |
| Precedence.CompareIsPrecedence | src/jsoncpp/jsoncpp.cpp:2066-2074 | and compare is -1, 1 or 0 accordingly |
| Precedence.NamesAscend | src/jsoncpp/jsoncpp.cpp:2855-2879 | the names of an object are listed in the order of their bytes, each once |
| ValueOrder.HugeArraysCycle | src/jsoncpp/jsoncpp.cpp:2100-2108 | an array of 2^31 elements and an empty one are each less than the other |
| ValueOrder.CompareIsZero | src/jsoncpp/jsoncpp.cpp:2066-2074 | compare is 0 exactly on equal values, whatever their sizes |
| ValueOrder.EqualIsIdentity | src/jsoncpp/jsoncpp.cpp:2140-2180 | operator== holds exactly for identical values |
| ValueOrder.CompareIsConsistent | src/jsoncpp/jsoncpp.cpp:2066-2074 | as long as sizes fit an int, compare is negative exactly on smaller values and antisymmetric |
| SparseArrays.TouchedView | src/jsoncpp/jsoncpp.cpp:2609-2627 | indexing appends nulls up to the index, or changes nothing; with the largest index present the size is 0 |
| SparseArrays.AssignedView | src/jsoncpp/jsoncpp.cpp:2609-2627 | assigning to an element updates the sequence there |
| SparseArrays.AppendedView | src/jsoncpp/jsoncpp.cpp:2768-2772 | append is appending if and only if the new size still is an index |
| SparseArrays.AppendLoses | src/jsoncpp/jsoncpp.cpp:2768-2772 | appending behind the element before the largest index leaves size 0 |
| SparseArrays.ErasedView | src/jsoncpp/jsoncpp.cpp:2583-2605 | shrinking yields the prefix if and only if its last element has a key |
| SparseArrays.ShrinkLoses | src/jsoncpp/jsoncpp.cpp:2583-2605 | shrinking six elements of which only the last has a key to three leaves none |
| SparseArrays.DenseShrinks | src/jsoncpp/jsoncpp.cpp:2583-2605 | it always does for dense arrays, and leaves them dense |
| SparseArrays.DenseAppends | src/jsoncpp/jsoncpp.cpp:2768-2772 | append keeps an array dense |
| SparseArrays.ReaderBuildsDense | src/jsoncpp/jsoncpp.cpp:699-739 | reading any document, errors and recovery included, leaves only dense arrays |
| SparseArrays.ArrayValue.At | src/jsoncpp/jsoncpp.cpp:2609-2627 | the view after indexing, and the element found or created |
| SparseArrays.ArrayValue.Append | src/jsoncpp/jsoncpp.cpp:2768-2772 | the view with one more element |
| SparseArrays.ArrayValue.Resize | src/jsoncpp/jsoncpp.cpp:2583-2605 | nulls appended, or the prefix exactly if its last element has a key, which is also when the final assertion holds |
| BatchAllocators.BatchAllocator.constructor | src/jsoncpp/jsoncpp.cpp:1118-1127 | an empty allocator in order |
| BatchAllocators.BatchAllocator.Allocate | src/jsoncpp/jsoncpp.cpp:1141-1165 | returns the block released last, or the one at the fill mark of the current page or of a new one, which nobody holds, and keeps the invariant |
| BatchAllocators.BatchAllocator.FirstWithRoom | src/jsoncpp/jsoncpp.cpp:1149-1153 | the search for a page with room always comes to the end of the list: every page behind the current one is full |
| BatchAllocators.BatchAllocator.Release | src/jsoncpp/jsoncpp.cpp:1169-1174 | the block becomes the head of the free list and is no longer live |
| BatchAllocators.BatchAllocator.LiveBlocksAreSafe | src/jsoncpp/jsoncpp.cpp:1111-1205 | live blocks are disjoint and not on the free list, and lie inside the memory of their page if the sizes divide |
| BatchAllocators.CarvedInsideIffDivides | src/jsoncpp/jsoncpp.cpp:1149-1198 | carving blocks until the fill mark equals the end stays inside the memory of the page if and only if the sizes divide |
| BatchAllocators.Overrun | src/jsoncpp/jsoncpp.cpp:1141-1198 | with sizes that do not divide, a new allocator that only allocates hands out a block outside the memory of its page |
| BatchAllocators.DefaultPagesOverrun | src/jsoncpp/jsoncpp.cpp:1118-1118 | two objects at a time from pages of the default size are such a case |
| BatchAllocators.Carve | src/jsoncpp/jsoncpp.cpp:1162-1164 | the block at the fill mark is new, and afterwards every block below the mark is live or released and not both |
| BatchAllocators.Serve | src/jsoncpp/jsoncpp.cpp:1111-1205 | every sequence of allocations and releases keeps the invariant, and the client holds each live block once |
| Endpoints.MapComparesKeys | include/Address.hpp:53-57 | the comparison is a strict weak order, lexicographic in the keys, whose equivalence is equality of the keys, the sums of host length and port and of the lengths of user name and password, modulo 2^64 |
| Endpoints.KeysCollide | include/Address.hpp:53-57 | every endpoint shares its key with a different host |
| Tunnels.SSHConnection.CreateEndPoint | src/tunnels/SSHConnection.cpp:176-216 | one channel more if it was opened, 15 if the connection is broken, and no change otherwise, with the poll event |
| Tunnels.SSHConnection.DeactivatedChannel | include/tunnels/SSHConnection.hpp:76-80 | one active channel less, and no polling when none is left |
| Tunnels.TotalWorkOfPermutation | src/tunnels/TunnelManager.cpp:268-274 | sorting the workers does not change the total load |
| Tunnels.SortByWork | src/tunnels/TunnelManager.cpp:265-269 | a permutation of the workers in ascending order of load |
| Tunnels.UsersWithout | src/tunnels/TunnelManager.cpp:456-456 | erasing a tunnel lowers the number of users of its connection by one and of no other |
| TunnelManagers.TunnelManager.constructor | src/tunnels/TunnelManager.cpp:24-60 | the invariant holds at the start, with two units of load on the workers and one on the management worker |
| TunnelManagers.TunnelManager.NextAvailableWorker | src/tunnels/TunnelManager.cpp:268-274 | permutes the workers and returns one of least load |
| TunnelManagers.TunnelManager.CreateListener | src/tunnels/TunnelManager.cpp:187-214 | -1 and no change if the port is taken, else one listener more on a least busy worker |
| TunnelManagers.TunnelManager.CreateSSHConnection | src/tunnels/TunnelManager.cpp:216-250 | nothing if the key is served, an empty bucket if connecting fails, else one connection and one unit of load on a least busy worker |
| TunnelManagers.TunnelManager.IsSSHConnectionOpen | src/tunnels/TunnelManager.cpp:252-263 | the size of the bucket of the key, or -1 |
| TunnelManagers.TunnelManager.CreateTunnel | src/tunnels/TunnelManager.cpp:132-163 | the answer, the link and the new connections as functions of port, map and connect outcome, and the whole new state of listeners; the invariant is kept |
| TunnelManagers.TunnelManager.CloseTunnel | src/tunnels/TunnelManager.cpp:164-186 | listener and link are gone, or -1; the invariant is kept |
| TunnelManagers.TunnelManager.ConnectionFor | src/tunnels/TunnelManager.cpp:344-385 | the first connection of the bucket with a channel left, else a new one, else none |
| TunnelManagers.TunnelManager.Accept | src/tunnels/TunnelManager.cpp:309-430 | which connection and worker are chosen, when there is a tunnel, the channels of that connection after each outcome (15 if it is broken) and of all others, and the load of every worker, on success and on each failure path; the chosen connection had fewer than 15 channels; the invariant is kept |
| TunnelManagers.TunnelManager.LocalSocketClose | src/tunnels/TunnelManager.cpp:438-464 | the tunnel is erased, its worker and connection get one unit back; the invariant is kept if and only if the tunnel was active |
| TunnelManagers.TunnelManager.CleanUp | src/tunnels/TunnelManager.cpp:508-551 | a connection is deleted if and only if no active tunnel runs over it and 15 channels are counted; every bucket keeps the others in their order |
| TunnelManagers.UsedAreKept | include/tunnels/SSHConnection.hpp:70-72 | a connection with an active tunnel cannot be removed |
| TunnelManagers.FiledKept | src/tunnels/TunnelManager.cpp:530-547 | after clean-up the map holds exactly the remaining connections, each once and under its key |
| TunnelRuns.Run | src/tunnels/TunnelManager.cpp:132-551 | after every sequence of calls and callbacks with every outcome: total load less its start is 2 plus listeners created plus connections attached plus active tunnels; each connection's active channels are the tunnels over it, at most its channels, at most 15, and it is polled if and only if there are some; no tunnel runs over a deleted connection; and if all events keep to a set of endpoints, so do links and connections |
| TunnelRuns.Step | src/tunnels/TunnelManager.cpp:132-551 | one call or callback keeps the invariant, keeps to the endpoints unless it brings in another one, gives no connection channels back, and gives a caller only a connection with fewer than 15 |
| TunnelRuns.Continue | src/tunnels/TunnelManager.cpp:356-388 | once a connection has used up its channels or is broken, no caller is given it in any continuation of the run |
| TunnelRuns.BrokenConnection | src/tunnels/SSHConnection.cpp:196-205 | after a failed open on a broken connection no later caller is given it, and the next clean-up deletes it if no tunnel runs over it |
| TunnelRuns.SameConnectionAgain | src/tunnels/SSHConnection.cpp:184-205 | after any other failed open the next caller at the port is given the same connection |
| TunnelRuns.CleanUps | src/tunnels/TunnelManager.cpp:508-551 | a connection with channels left survives any number of clean-ups in its bucket |
| TunnelRuns.CreatedSurvives | src/tunnels/TunnelManager.cpp:216-250 | so does one that was created and never used |
| TunnelRuns.ChannelAccounts | include/tunnels/SSHConnection.hpp:63-80 | the invariant implies the accounts of a connection, with polling as the existence of a tunnel |
| TunnelRuns.Call | src/tunnels/TunnelManager.cpp:317-388 | a caller is taken to the endpoint its port is linked to as long as no two endpoints in use share a key; only a caller at a port without a link brings in the blank endpoint |
| TunnelRuns.SharedConnection | src/tunnels/TunnelManager.cpp:344-388 | for any two endpoints with one key the tunnel of the second runs over a connection to the first |
| TunnelRuns.CreateTwice | src/tunnels/TunnelManager.cpp:140-157 | after a failed attempt the same call succeeds without connecting or linking |
| TunnelRuns.CreateThenClose | src/tunnels/TunnelManager.cpp:132-186 | closing restores listeners and links, and leaves one unit of load, two if a connection was made |

## Left out

- Comments are read and skipped, but not collected or printed: the server parses with collection off.
- The conversion between doubles and text (`sscanf`, `sprintf`) is a pair of parameters, `scan` and `show`; theorems about values with doubles assume of them what `Readable` says, and none assumes that it is lossless. There is no NaN and no infinity.
- ParseIsComplete: numbers with a fraction or an exponent, or out of integer range, are included only where `scan` accepts their text.
- AcceptsExactly: not for documents in which a comment behind a value in an object is followed by something else than a comma or a brace; there the code takes any token for the comma, which no grammar here describes.
- StyledIsPretty: texts of doubles are assumed to end neither in a blank nor in a line break, as those of the C library do.
- FastTextIsStable: only for values without doubles, because a double need not print as the text it was read from.
- PrintersAgree: the compact writer without YAML compatibility, and arrays whose size fits the 31 bits the pretty writer counts in.
- TrimZeros: for texts of digits, a point, digits and maybe an exponent; the format `%#.16g` always prints a point for a finite number, and infinities are not modelled.
- Resize: the assertion at the end of `resize` is modelled as a result, because release builds drop it.
- DecodeNumber: error messages are enumerators, that of a number with its text; lines and columns are not modelled.
- The reader of `std::istream`, `expectToken`, locations of values and formatted error messages.
- Documents of more than 2^32 elements in one array, texts whose length does not fit an `int` in the pretty writer, and the depth of the C stack.
- String ownership, `CZString` duplication and null pointers; names and strings are NUL-free, and decoded strings are cut at a NUL where the code stores them as C strings.
- `Path`, `PathArgument`, `StyledStreamWriter`, iterators, the accessors with conversions, and everything under `JSON_VALUE_USE_INTERNAL_MAP`.
- The destructor of the allocator; objects are offsets into a page rather than bytes.
- SortByWork: `std::sort` is any permutation in ascending order, here by insertion; only that much of it is used.
- Run: every call and callback is one atomic step. `acceptFromListener_cb` takes no lock in the source, so interleavings inside a step are not covered.
- Accept: `freeTunnels` is always empty, as nothing is ever put there, so that its branch is absent. Memory of tunnels, sockets and events is not modelled, nor is the order of `addWork` and `push_back`.
- LocalSocketClose: each tunnel is taken to have one close event (`src/tunnels/LocalTunnelSSH.cpp:150-154`); a second one for the same tunnel is shown to break the accounts.
- `poolTunnels` and `stats` change nothing in this model but the order of the workers; the timers themselves, `forceClose` (which the source ignores) and the destructor of the manager are absent.
- CreateListener: `bind` ignores its result in the source, so that a listener that could not bind counts as created; the answers -2 and -3 cannot occur with at least one worker.
- Sockets, libevent and libssh are the inputs `connects`, `connected` and `ChannelOutcome`; HTTP requests, logging and shared memory are absent.
