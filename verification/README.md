# Models of JsonCpp, boost::rational, the Boost tokenizers and the base64 codec

A Dafny model of four components that the repository carries, with proofs of what they promise.
`dafny verify dfyconfig.toml` checks everything. Characters are bytes throughout.

**JsonCpp** (`external/jsoncpp/jsoncpp.cpp`). A JSON value is a tree whose arrays and objects are
sorted maps from keys to values, as in the source (`JsonValue`). The readers are described twice:
as functions of document, cursor, depth counter and error list (`JsonScanner`, `JsonParser`), and
as an object that moves a cursor, pushes and pops a node stack and collects errors (`JsonReader`),
proved equal call by call. `Reader` and `OurReader` share one model; the feature `ours` selects
where they differ. The writers append to a document (`JsonFastWriter`, `JsonStyledWriter`). The main
results are

- the readers accept exactly the documents of a grammar, and build what it says:
  `JsonAcceptance.ParseAccepts`, over the lexical grammar of `JsonLexemes`; every error they record is
  justified by the document, `JsonErrors.ParseErrors`, and no document of ordinary size makes them
  throw unless it nests too deeply: `JsonThrows.NeverThrows`;
- parser and printer undo each other: `JsonRoundTrip.WriteThenParse`, `JsonRun.ParseWriteParse`,
  `JsonStyledRoundTrip.LaidThenParse`, with the stack limit as the exact condition, and
  `JsonDroppedNulls.DroppedNullsRoundTrip` for text without null placeholders;
- every run of the parser keeps its invariants: `JsonRun.ParseRun`, `JsonRun.ParseBuilds`;
- layout never matters to the parser: `JsonTokenStream.ParseSeesTokens`;
- `operator<` is a strict total order that agrees with `operator==`, with the exact condition on
  child counts: `JsonOrder.StrictTotalOrder`; which order it is say `JsonOrder.TypesAscend`,
  `JsonOrder.IntegersAscend` and `JsonOrder.FirstDifferenceDecides`;
- quoting, integer text, UTF-8 and surrogate escapes are exact inverses: `JsonString`, `JsonNumber`;
  decoding is section 7 of RFC 8259: `JsonEscapes.DecodingIsUnescaping`;
- `StyledWriter` writes exactly the text of a declarative layout: `JsonStyledWriter.StyledWriter.Write`;
- arrays with gaps behave as sequences, with the exact condition where `removeIndex` and `resize`
  do not: `JsonArray`.

**boost::rational** (`external/boost/rational.hpp`, `external/boost/integer/common_factor_rt.hpp`).
Over unbounded integers with C++ division. The three gcd algorithms compute the gcd (`IntegerGcd`);
the in-place operators give exact, fully reduced results although none of them renormalises
(`RationalArithmetic`), over whole sequences of operations (`RationalRuns.RunIsExact`); the
continued-fraction comparison ends and is exact (`RationalOrder.Less`); the rational gcd and lcm
are what their names say (`RationalRuns.GcdOfRationals`, `RationalRuns.LcmOfRationals`).

**Base64** (`src/base/base64.cpp`). The buffer loops compute a recursive encoding and decoding
that are inverse to each other, in one direction on all bytes, in the other exactly on canonical
texts (`Base64`), and that are the positional system of section 4 of RFC 4648 (`Base64Alphabet`).

**Tokenizers** (`external/boost/token_functions.hpp`, `external/boost/token_iterator.hpp`). Each
separator call returns the first token of a declarative split of what is left (`CharSeparators`,
`EscapedLists`); for character delimiters the split is stated by membership in the constructor's
argument strings (`CharSplitLaw`). The iterator turns the calls into the whole split
(`TokenIterators.Traverse`).

The grammar of `JsonGrammar` is section 2 of RFC 8259 with the liberties the readers take, each a case
of its own: comments before a value if the features allow them, and before a name, behind a member and
behind an element always; any token at all as the separator behind a member's comments; nothing at all
for null, if the features allow dropped nulls; a closing brace behind the comma that follows a member
with an empty name; numbers as names, if the features allow them. A repeated name keeps its last value
(`JsonGrammar.LastWins`).

Properties that fail, and when:

- `operator<` on arrays and objects compares sizes by an int difference. It is not asymmetric exactly
  when the first difference of two trees is a pair of nodes whose sizes differ by 2^31 modulo 2^32
  (`JsonOrder.Trichotomy`, with `JsonOrder.AsymmetryFails`), and transitivity over three maps fails
  exactly when their size differences add up beyond an int (`JsonOrder.EntriesTransitive`, with
  `JsonOrder.TransitivityFails`). Below 2^31 children neither happens.
- `removeIndex` of the last index also removes the nulls in front of it when the index before is a
  gap: `JsonArray.RemovalExact`, `JsonArray.GapIsLost`. A shrinking `resize` fails its assertion
  when the new last element is a gap: `JsonArray.Truncated`, `JsonArray.ShrinkIntoGap`. With index
  2^32 - 1 stored, `append` overwrites element 0 and `resize` does not shrink.
- A writer that drops null placeholders loses a null root and arrays of one null, and readers that
  do not allow dropped nulls lose every tree with a null: `JsonDroppedNulls.DroppedNullsRoundTrip`.
- `decodeNumber` takes leading zeros and, for a minus without digits, zero; section 6 of RFC 8259
  allows neither: `JsonNumber.AcceptedText`, `JsonRun.LoneMinusParses`.
- StyledWriter cuts a member name at its first NUL byte, and its text then means another tree:
  `JsonStyledText.LayoutKeepsMeaning`. Its right margin is compared in 32 bits and wraps for
  huge arrays: `JsonStyledText.MarginWraps`.
- An escaped list whose only field is a bare empty one, or in which a letter n had to be escaped,
  does not come back: `EscapedLists.ListRoundTrip`.
- `reset()` of a character separator keeps the flag: a run that starts with it set loses a leading
  empty token, `CharSeparators.KeepRun`.


## Model

| member | source | states |
|---|---|---|
| `JsonValue.BytesLessIsDictionaryLess` | external/jsoncpp/jsoncpp.cpp:2720-2744 | comparing the common prefix with memcmp and then the lengths is the dictionary order on byte strings |
| `JsonValue.DictionaryMeaning` | external/jsoncpp/jsoncpp.cpp:2720-2732 | the dictionary order in one sentence: the strings agree up to a position at which the first one ends or has the smaller byte |
| `JsonValue.KeyOrder` | external/jsoncpp/jsoncpp.cpp:2720-2744 | index keys are ordered by number and name keys by dictionary |
| `JsonValue.DictionaryTrichotomy` | external/jsoncpp/jsoncpp.cpp:2720-2732 | of two names exactly one is smaller, or they are equal |
| `JsonValue.DictionaryTransitive` | external/jsoncpp/jsoncpp.cpp:2720-2732 | the order of names is transitive |
| `JsonValue.KeyTrichotomy` | external/jsoncpp/jsoncpp.cpp:2720-2744 | the key order is a strict total order on index and name keys, its ties exactly the equal keys |
| `JsonValue.KeyTransitive` | external/jsoncpp/jsoncpp.cpp:2720-2732 | the key order is transitive |
| `JsonValue.PutMeaning` | external/jsoncpp/jsoncpp.cpp:3396-3410 | storing under a key keeps the map sorted, changes what is found under that key and nothing else |
| `JsonValue.EraseMeaning` | external/jsoncpp/jsoncpp.cpp:3388-3393 | erasing a key keeps the map sorted, removes that key and nothing else |
| `JsonOrder.EqualIsIdentity` | external/jsoncpp/jsoncpp.cpp:3014-3057 | operator== on real-free trees of any size holds exactly for identical trees |
| `JsonOrder.NarrowedDifferences` | external/jsoncpp/jsoncpp.cpp:2995-3001 | the int size difference is 0 exactly for sizes equal modulo 2^32, and negative both ways round exactly for sizes that differ by 2^31 modulo 2^32 |
| `JsonOrder.NarrowNeverClash` | external/jsoncpp/jsoncpp.cpp:2995-3001 | trees with fewer than 2^31 children per node never clash in their sizes |
| `JsonOrder.Trichotomy` | external/jsoncpp/jsoncpp.cpp:2961-3006 | of any two real-free trees one is less or they are identical; each is less than the other exactly when their first difference is a pair of nodes whose sizes differ by 2^31 modulo 2^32 |
| `JsonOrder.EntriesTrichotomy` | external/jsoncpp/jsoncpp.cpp:2995-3001 | the same for child maps of any size: size first, then pair by pair |
| `JsonOrder.LexicographicTrichotomy` | external/jsoncpp/jsoncpp.cpp:2995-3001 | the pairwise comparison of two maps of any sizes is total, and asymmetric exactly when the first differing values do not clash |
| `JsonOrder.Transitive` | external/jsoncpp/jsoncpp.cpp:2961-3006 | operator< is transitive on those trees, by mutual induction through the child maps |
| `JsonOrder.EntriesTransitive` | external/jsoncpp/jsoncpp.cpp:2995-3001 | for maps of any size with comparable values: transitivity of the size-first order holds exactly when the two size differences do not add up beyond an int, or wrap to equal sizes and the entries agree |
| `JsonOrder.LexicographicTransitive` | external/jsoncpp/jsoncpp.cpp:2995-3001 | the pairwise map order is transitive for any sizes |
| `JsonOrder.StrictTotalOrder` | external/jsoncpp/jsoncpp.cpp:2961-3057 | on all real-free trees operator== is the equivalence of operator<, and exactly one of less, equal and greater holds if and only if the trees do not clash |
| `JsonOrder.AsymmetryFails` | external/jsoncpp/jsoncpp.cpp:2995-3001 | the empty array and the array of 2^31 nulls are each less than the other |
| `JsonOrder.TransitivityFails` | external/jsoncpp/jsoncpp.cpp:2995-3001 | arrays of 0, 3 * 2^29 and 3 * 2^30 nulls form a cycle of operator< |
| `JsonOrder.IntegersAscend` | external/jsoncpp/jsoncpp.cpp:2967-2970 | on integers and on unsigned integers the order is the numeric one: every number is less than every greater one |
| `JsonOrder.BoolsAndStringsAscend` | external/jsoncpp/jsoncpp.cpp:2973-2994 | false is less than true, strings are in dictionary order, a null string pointer comes first, and doubles are in the order given for them |
| `JsonOrder.TypesAscend` | external/jsoncpp/jsoncpp.cpp:2961-2964 | null, integers, unsigned integers, doubles, strings, booleans, arrays and objects follow one another in this order, whatever they hold |
| `JsonOrder.FewerFirst` | external/jsoncpp/jsoncpp.cpp:2995-3001 | of two arrays or objects with fewer than 2^31 children the one with fewer is less |
| `JsonOrder.FirstDifferenceDecides` | external/jsoncpp/jsoncpp.cpp:2995-3001 | of two maps of one size that agree up to an entry, the smaller key decides, and for one key the smaller value |
| `JsonOrder.SmallerChild` | external/jsoncpp/jsoncpp.cpp:2995-3001 | storing a smaller value under a key makes an array or object smaller |
| `JsonNumber.UIntToString` | external/jsoncpp/jsoncpp.cpp:149-155 | the digits and a NUL end up at the end of the buffer, at most 21 cells are written, everything before and behind is untouched |
| `JsonNumber.NegativeToString` | external/jsoncpp/jsoncpp.cpp:4136-4150 | a sign in front of the longest digit string still lies inside the 25-cell buffer |
| `JsonNumber.UIntToText` | external/jsoncpp/jsoncpp.cpp:4152-4158 | the text of a uint64 is its decimal digits |
| `JsonNumber.IntToText` | external/jsoncpp/jsoncpp.cpp:4136-4150 | the text of an int64, the minimum included, is its decimal text |
| `JsonNumber.DecodeInteger` | external/jsoncpp/jsoncpp.cpp:753-793 | a digit string with optional minus is an integer exactly when its value lies in [-2^63, 2^64 - 1]; the accumulator has the type of a 64-bit unsigned number, so no step wraps |
| `JsonNumber.DigitsRoundTrip` | external/jsoncpp/jsoncpp.cpp:149-155 | the value of the digits of n is n |
| `JsonNumber.IntegerRoundTrip` | external/jsoncpp/jsoncpp.cpp:753-793 | decoding the text of any int64 or uint64 gives that number, tagged int up to 2^31 - 1 and uint above |
| `JsonNumber.DigitsOfValue` | external/jsoncpp/jsoncpp.cpp:753-793 | printing the value of a digit string gives the string back exactly when it is not empty and has no superfluous leading zero |
| `JsonNumber.AcceptedText` | external/jsoncpp/jsoncpp.cpp:753-793 | of the texts decoded as integers exactly those of section 6 of RFC 8259, minus zero apart, are printed back; the others have leading zeros or no digits |
| `JsonNumber.LoneMinus` | external/jsoncpp/jsoncpp.cpp:753-793 | a lone minus decodes to 0 |
| `JsonNumber.AnotherDigit` | external/jsoncpp/jsoncpp.cpp:753-793 | a digit behind a digit string multiplies its value by ten and adds the digit's position in 0123456789 |
| `JsonNumber.IntegerTypes` | external/jsoncpp/jsoncpp.cpp:753-793 | negative numbers down to -9223372036854775808 and others up to 2147483647 become int, those up to 18446744073709551615 uint, everything else is no integer |
| `JsonString.Utf8Masks` | external/jsoncpp/jsoncpp.cpp:104-130 | the masks and shifts, on all code points, are the quotients and remainders the model uses |
| `JsonString.SurrogateMasks` | external/jsoncpp/jsoncpp.cpp:881-908 | the same for the combination of surrogates |
| `JsonString.Utf8Inverse` | external/jsoncpp/jsoncpp.cpp:104-130 | codePointToUTF8 is non-empty and the bit layout of section 3 of RFC 3629 reads the code point back from it, whatever follows |
| `JsonString.Utf8PrefixFree` | external/jsoncpp/jsoncpp.cpp:104-130 | no encoding is a prefix of another one; so the encoding is injective |
| `JsonString.EscapeSequence` | external/jsoncpp/jsoncpp.cpp:910-937 | a decoded escape is a code unit below 2^16, and the cursor moves by exactly its four digits |
| `JsonString.EscapedCodePoint` | external/jsoncpp/jsoncpp.cpp:881-908 | every decoded escape is at most 0x10FFFF and the cursor stays inside the token |
| `JsonString.SpelledSequence` | external/jsoncpp/jsoncpp.cpp:910-937 | any four characters of 0123456789abcdef and 0123456789ABCDEF decode to the number that their positions in these strings spell |
| `JsonString.SurrogatePairDecodes` | external/jsoncpp/jsoncpp.cpp:881-937 | a code point from 0x10000 to 0x10FFFF written as a surrogate pair of escapes decodes to itself |
| `JsonString.ScanString` | external/jsoncpp/jsoncpp.cpp:637-647 | the scan for the closing quote stays inside the document and moves on success |
| `JsonString.HasEscapeLetter` | external/jsoncpp/jsoncpp.cpp:4285-4292 | the search finds a character exactly when one has to be escaped |
| `JsonString.HasControlOrNul` | external/jsoncpp/jsoncpp.cpp:4126-4134 | the search finds a character exactly when one is a control character or NUL |
| `JsonString.PlainTextIsUnchanged` | external/jsoncpp/jsoncpp.cpp:4285-4292 | text with nothing to escape is its own escaped form: the shortcut agrees with the long way |
| `JsonString.EscapeWalk` | external/jsoncpp/jsoncpp.cpp:4293-4346 | the character loop produces the quoted form of the first `length` bytes |
| `JsonString.QuoteN` | external/jsoncpp/jsoncpp.cpp:4285-4346 | quoting gives the quoted form of exactly the given bytes, embedded NULs included, on the shortcut too |
| `JsonString.QuoteCString` | external/jsoncpp/jsoncpp.cpp:4208-4273 | the C-string variant quotes the bytes before the first NUL |
| `JsonString.ScanEscaped` | external/jsoncpp/jsoncpp.cpp:637-647 | readString stops exactly behind the closing quote of an escaped text |
| `JsonString.DecodeEscaped` | external/jsoncpp/jsoncpp.cpp:828-879 | decodeString of an escaped text is the original bytes |
| `JsonString.QuotingRoundTrip` | external/jsoncpp/jsoncpp.cpp:828-879 | for every byte string readString consumes exactly the output of valueToQuotedStringN and decodeString returns the bytes (section 7 of RFC 8259) |
| `JsonEscapes.LettersAgree` | external/jsoncpp/jsoncpp.cpp:842-866 | the one-letter escapes are the letters of one literal string, their meanings the bytes at the same places of another |
| `JsonEscapes.DecodingIsUnescaping` | external/jsoncpp/jsoncpp.cpp:828-937 | decodeString computes what section 7 of RFC 8259 says of the characters between the quotes, written without a cursor, and fails exactly where that has no meaning |
| `JsonEscapes.FaultsAgree` | external/jsoncpp/jsoncpp.cpp:828-937 | a failing decodeString reports the first bad escape: which of the six messages, and the position at which the escape goes wrong |
| `JsonEscapes.EscapeMeans` | external/jsoncpp/jsoncpp.cpp:910-937 | one escape with digits in either case stands for the UTF-8 encoding of its code point |
| `JsonEscapes.PairMeans` | external/jsoncpp/jsoncpp.cpp:881-908 | two escapes that form a surrogate pair stand for the UTF-8 encoding of the code point they combine to |
| `JsonEscapes.CodePointDecodes` | external/jsoncpp/jsoncpp.cpp:828-937 | every code point up to 0x10FFFF outside the surrogates, as one escape or as a pair in digits of either case, decodes to its UTF-8 encoding |
| `JsonEscapes.ShortestForm` | external/jsoncpp/jsoncpp.cpp:104-130 | no byte sequence with the bit layout of a code point is shorter than codePointToUTF8's |
| `JsonEscapes.EscapedForms` | external/jsoncpp/jsoncpp.cpp:4293-4346 | exactly the quote, the backslash and the bytes below the space are escaped, with a letter where there is one and otherwise as four upper-case digits |
| `JsonLexemes.SpacesMeaning` | external/jsoncpp/jsoncpp.cpp:1494-1502 | spaces, tabs, carriage returns and line feeds are skipped, all of them and nothing else |
| `JsonLexemes.ScanMeaning` | external/jsoncpp/jsoncpp.cpp:1601-1624 | the scan for the closing quote ends at a quote with no other unescaped one before it |
| `JsonLexemes.NumberMeaning` | external/jsoncpp/jsoncpp.cpp:1575-1599 | what the scanner takes for a number is digits, a fraction and an exponent, any of them possibly empty |
| `JsonLexemes.NumberIsLongest` | external/jsoncpp/jsoncpp.cpp:1575-1599 | no longer text from the same place is a number |
| `JsonLexemes.BlockMeaning` | external/jsoncpp/jsoncpp.cpp:1550-1557 | a block comment ends at its first star-slash |
| `JsonLexemes.LineMeaning` | external/jsoncpp/jsoncpp.cpp:1559-1573 | a line comment is the rest of the line with its line end, whichever of the three this is |
| `JsonLexemes.TokenMeaning` | external/jsoncpp/jsoncpp.cpp:1394-1492 | every token stands behind white space only and has the kind that the lexical grammar gives its text |
| `JsonLexemes.TokenComplete` | external/jsoncpp/jsoncpp.cpp:1394-1492 | a text of the lexical grammar at the cursor is the next token, numbers and comments as long as they go; OurReader's reading of -I is the one exception |
| `JsonGrammar.LastWins` | external/jsoncpp/jsoncpp.cpp:1664-1668 | an object holds each name with the value that stands last in the text, and nothing else |
| `JsonGrammar.SpecialBits` | external/jsoncpp/jsoncpp.cpp:1333-1355 | NaN and the infinities are stored with their IEEE 754 bits |
| `JsonGrammar.NumericName` | external/jsoncpp/jsoncpp.cpp:1638-1643 | a numeric name in plain form is stored as it stands in the text |
| `JsonAcceptance.CommentsSound` | external/jsoncpp/jsoncpp.cpp:1384-1392 | what is skipped as comments are comments, and the token behind them is the next one |
| `JsonAcceptance.ValueSound` | external/jsoncpp/jsoncpp.cpp:1281-1382 | whenever readValue succeeds the tokens it consumed form a legal tree of the grammar whose meaning is the value stored and whose depth fits the stack limit |
| `JsonAcceptance.ItemsSound` | external/jsoncpp/jsoncpp.cpp:1688-1724 | the same for the element loop: values separated by commas up to a closing bracket |
| `JsonAcceptance.MembersSound` | external/jsoncpp/jsoncpp.cpp:1626-1686 | the same for the member loop: name, colon and value, separated by commas or by whatever token follows a comment, up to a closing brace |
| `JsonAcceptance.NamedSound` | external/jsoncpp/jsoncpp.cpp:1651-1682 | a member that is accepted has a colon behind its name; its name is shorter than 2^30 bytes and, with rejectDupKeys, new |
| `JsonAcceptance.ValueComplete` | external/jsoncpp/jsoncpp.cpp:1281-1382 | readValue succeeds on the tokens of every legal tree that fits the stack limit and stores its meaning, with no error recorded |
| `JsonAcceptance.ItemsComplete` | external/jsoncpp/jsoncpp.cpp:1688-1724 | the element loop accepts every legal element list |
| `JsonAcceptance.MembersComplete` | external/jsoncpp/jsoncpp.cpp:1626-1686 | the member loop accepts every legal member list |
| `JsonAcceptance.ParseAccepts` | external/jsoncpp/jsoncpp.cpp:1233-1279 | for every document, feature set and value: parse returns true with this value if and only if the document is in the grammar with this value, is a container if strictRoot asks for one, and has nothing behind it if failIfExtra forbids it |
| `JsonErrors.RecoverStops` | external/jsoncpp/jsoncpp.cpp:1955-1966 | recovery stops behind the first token of the wanted kind or at the end of the stream: no token it skips is one |
| `JsonErrors.ValueErrors` | external/jsoncpp/jsoncpp.cpp:1281-1382 | every error readValue records names a token of the document whose text is wrong in the way the message says |
| `JsonErrors.MembersErrors` | external/jsoncpp/jsoncpp.cpp:1626-1686 | the same for the member loop, which on failure ends behind a closing brace or at the end of the stream |
| `JsonErrors.NamedErrors` | external/jsoncpp/jsoncpp.cpp:1651-1682 | a missing colon is reported at the token behind a member name that is none, a duplicate key at the name itself |
| `JsonErrors.ElementsErrors` | external/jsoncpp/jsoncpp.cpp:1688-1724 | the same for the element loop, which on failure ends behind a closing bracket or at the end of the stream |
| `JsonErrors.ParseErrors` | external/jsoncpp/jsoncpp.cpp:1233-1279 | every error of every parse that does not throw is justified by the document and the features |
| `JsonThrows.DecodedLength` | external/jsoncpp/jsoncpp.cpp:828-879 | decoding never makes a string longer than its text |
| `JsonThrows.ElementsReturn` | external/jsoncpp/jsoncpp.cpp:1688-1724 | the element loop does not throw: its index stays below the cursor, and the depth below the brackets ahead |
| `JsonThrows.NeverThrows` | external/jsoncpp/jsoncpp.cpp:1281-1288 | a document shorter than 2^30 bytes with fewer opening brackets than the stack limit never makes parse throw, whatever else is wrong with it, unless numbers may be names |
| `JsonScanner.Lex` | external/jsoncpp/jsoncpp.cpp:444-513 | punctuation is one character, a string token has its closing quote, the end of the stream is a NUL |
| `JsonScanner.ReadToken` | external/jsoncpp/jsoncpp.cpp:444-513 | every token lies in the document, and only the end-of-stream token can be empty |
| `JsonScanner.SkipComments` | external/jsoncpp/jsoncpp.cpp:434-442 | never returns a comment, and moves strictly forward when it skips one |
| `JsonScanner.NextToken` | external/jsoncpp/jsoncpp.cpp:434-442 | the next token lies in the document behind the cursor |
| `JsonScanner.Recover` | external/jsoncpp/jsoncpp.cpp:949-960 | error recovery moves forward and ends inside the document |
| `JsonParser.ReadValue` | external/jsoncpp/jsoncpp.cpp:350-432 | the cursor never moves back and never leaves the document, on success, failure and recovery |
| `JsonParser.ReadMembers` | external/jsoncpp/jsoncpp.cpp:649-703 | the same through an object's members |
| `JsonParser.ReadElements` | external/jsoncpp/jsoncpp.cpp:705-741 | the same through an array's elements |
| `JsonFastWriter.MembersFront` | external/jsoncpp/jsoncpp.cpp:4410-4423 | a comma stands before every member but the first |
| `JsonFastWriter.NameFindsEntry` | external/jsoncpp/jsoncpp.cpp:3647-3662 | looking up the i-th member name finds the i-th member, so writing by name writes each member once, in order |
| `JsonFastWriter.FastWriter.Write` | external/jsoncpp/jsoncpp.cpp:4365-4371 | the document is reset and becomes the value's text, with or without the line feed |
| `JsonFastWriter.FastWriter.WriteValue` | external/jsoncpp/jsoncpp.cpp:4373-4425 | exactly the value's text is appended, for every type and option |
| `JsonFastWriter.FastWriter.WriteItems` | external/jsoncpp/jsoncpp.cpp:4400-4409 | the loop appends all elements up to the size, gaps as null |
| `JsonFastWriter.FastWriter.WriteMembers` | external/jsoncpp/jsoncpp.cpp:4410-4423 | the loop appends all members in key order |
| `JsonFastWriter.FastWriter.WriteMember` | external/jsoncpp/jsoncpp.cpp:4413-4421 | one member: separator, quoted name, colon, the value found under the name |
| `JsonYamlText.FastLaid` | external/jsoncpp/jsoncpp.cpp:4373-4425 | with either colon the text is a layout of the value's tokens and holds no line feed |
| `JsonYamlText.YamlAddsSpaces` | external/jsoncpp/jsoncpp.cpp:4419-4420 | YAML compatibility adds one white space per member, outside string literals, and changes nothing else |
| `JsonYamlText.OneLineOfText` | external/jsoncpp/jsoncpp.cpp:4365-4371 | the document is a single line, ended by a line feed unless that is switched off |
| `JsonYamlText.ExampleMember` | external/jsoncpp/jsoncpp.cpp:4410-4423 | the object with an empty array under the name a, in both forms, character by character |
| `JsonRoundTrip.NumberHere` | external/jsoncpp/jsoncpp.cpp:615-635 | an integer's text before a delimiter is one number token |
| `JsonRoundTrip.StringHere` | external/jsoncpp/jsoncpp.cpp:637-647 | a quoted string is one string token that decodes to the original |
| `JsonRoundTrip.LiteralHere` | external/jsoncpp/jsoncpp.cpp:525-534 | null, true and false are recognized |
| `JsonRoundTrip.ReadBackArray` | external/jsoncpp/jsoncpp.cpp:705-741 | reading an array's text rebuilds its normal form, or throws exactly when the nesting does not fit |
| `JsonRoundTrip.ReadBackItems` | external/jsoncpp/jsoncpp.cpp:705-741 | the element loop rebuilds the elements one by one under consecutive indices |
| `JsonRoundTrip.ReadBackObject` | external/jsoncpp/jsoncpp.cpp:649-703 | reading an object's text rebuilds its normal form, or throws exactly when the nesting does not fit |
| `JsonRoundTrip.ReadBackMembers` | external/jsoncpp/jsoncpp.cpp:649-703 | the member loop rebuilds the members in order, duplicates impossible |
| `JsonRoundTrip.NormalNesting` | external/jsoncpp/jsoncpp.cpp:350-356 | taking the normal form does not change the nesting |
| `JsonRoundTrip.WriteThenParse` | external/jsoncpp/jsoncpp.cpp:308-432 | for every tree without reals and null string pointers, every feature set and every option whose text still tells the tree: parsing FastWriter's text yields the normal form with no error exactly when the nesting is at most the stack limit, otherwise throws; with strictRoot a scalar root is reported instead |
| `JsonRoundTrip.ReadBackNothing` | external/jsoncpp/jsoncpp.cpp:406-420 | where nothing was written for null, a reader that allows it stores null and leaves the separator to be read again |
| `JsonDroppedNulls.CollapseText` | external/jsoncpp/jsoncpp.cpp:4375-4378 | a writer that drops nulls writes the same text for an array of one null and for an empty array |
| `JsonDroppedNulls.ReadFails` | external/jsoncpp/jsoncpp.cpp:350-432 | a reader that does not allow dropped nulls reports an error or throws on every text with a dropped null, however deep |
| `JsonDroppedNulls.NullRootFails` | external/jsoncpp/jsoncpp.cpp:350-432 | no reader takes the text of a dropped null root for a value |
| `JsonDroppedNulls.DroppedThenParse` | external/jsoncpp/jsoncpp.cpp:4365-4425 | with dropped nulls the readers rebuild the tree with its arrays of one null made empty, or do not succeed |
| `JsonDroppedNulls.DroppedNullsRoundTrip` | external/jsoncpp/jsoncpp.cpp:4365-4425 | with dropped nulls the tree comes back if and only if it is not null itself, holds no array of one null and, where the reader does not allow dropped nulls, no null at all |
| `JsonRun.ReadValueOrderly` | external/jsoncpp/jsoncpp.cpp:1281-1382 | on success errors and depth are unchanged; on failure at least one error was added, none removed, and the depth is at most one too high |
| `JsonRun.ReadMembersOrderly` | external/jsoncpp/jsoncpp.cpp:1626-1686 | the same through readObject |
| `JsonRun.ReadElementsOrderly` | external/jsoncpp/jsoncpp.cpp:1688-1724 | the same through readArray |
| `JsonRun.ParseRun` | external/jsoncpp/jsoncpp.cpp:1233-1279 | for every input and feature set, a parse that does not throw ends inside the document, returns true exactly when the error list is empty, and restores the depth on success |
| `JsonRun.ReadValueBuilds` | external/jsoncpp/jsoncpp.cpp:1281-1382 | what readValue leaves behind is a well-formed value; on success it is canonical and fits the stack limit |
| `JsonRun.ReadElementsBuilds` | external/jsoncpp/jsoncpp.cpp:1688-1724 | arrays are built without gaps |
| `JsonRun.ParseBuilds` | external/jsoncpp/jsoncpp.cpp:1233-1279 | every parse leaves a well-formed tree; a successful one a canonical tree no deeper than the stack limit |
| `JsonRun.CanonicalIsNormal` | external/jsoncpp/jsoncpp.cpp:1688-1724 | canonical trees are fixed points of the normal form |
| `JsonRun.ParseWriteParse` | external/jsoncpp/jsoncpp.cpp:4365-4425 | writing what was parsed and parsing it again gives the same tree, for every document that parses to a tree without reals and every option whose text still tells the tree |
| `JsonRun.LoneMinusParses` | external/jsoncpp/jsoncpp.cpp:753-793 | the document of a single minus parses to 0 without an error |
| `JsonTokenStream.DecodingMatches` | external/jsoncpp/jsoncpp.cpp:828-879 | decoding depends on the characters of the token only, not on where it stands |
| `JsonTokenStream.RecoveryMatches` | external/jsoncpp/jsoncpp.cpp:949-960 | recovery stops at corresponding tokens of documents with the same token stream |
| `JsonTokenStream.PeekIsToken` | external/jsoncpp/jsoncpp.cpp:705-720 | readArray's peek sees a bracket exactly when the next token is one |
| `JsonTokenStream.ReadValueMatches` | external/jsoncpp/jsoncpp.cpp:1281-1382 | from corresponding cursors readValue has the same outcome: result, value, depth, error messages, and corresponding cursors again |
| `JsonTokenStream.ParseSeesTokens` | external/jsoncpp/jsoncpp.cpp:1233-1279 | two documents with the same token stream parse alike under every feature set, errors included |
| `JsonLayout.LaidConcat` | external/jsoncpp/jsoncpp.cpp:4573-4594 | laid-out texts may be appended to each other |
| `JsonLayout.LaidStrips` | external/jsoncpp/jsoncpp.cpp:4580-4594 | removing white space outside string literals leaves exactly the tokens |
| `JsonLayout.TokensSpellFastText` | external/jsoncpp/jsoncpp.cpp:4373-4425 | the tokens of a value side by side are FastWriter's text |
| `JsonLayout.LayoutShowsFastText` | external/jsoncpp/jsoncpp.cpp:4433-4442 | any layout of a value's tokens strips to FastWriter's text, which is itself such a layout |
| `JsonLayout.QuotedIsKept` | external/jsoncpp/jsoncpp.cpp:4285-4346 | no byte of a quoted string counts as white space outside a literal |
| `JsonStyledText.NamePrintedWhole` | external/jsoncpp/jsoncpp.cpp:4486-4486 | a member name survives the passage through c_str() if it holds no NUL, and is printed shorter if it does |
| `JsonStyledText.PrintedText` | external/jsoncpp/jsoncpp.cpp:4481-4495 | printing cut names changes FastWriter's text exactly when a printed name holds a NUL, and then shortens it |
| `JsonStyledText.ShiftTwice` | external/jsoncpp/jsoncpp.cpp:4596-4601 | indenting twice is indenting by both amounts |
| `JsonStyledText.ShiftLaid` | external/jsoncpp/jsoncpp.cpp:4580-4601 | indenting the lines of a layout keeps its tokens |
| `JsonStyledText.StyledLaid` | external/jsoncpp/jsoncpp.cpp:4444-4544 | the text of a value is a layout of its tokens, names as printed |
| `JsonStyledText.LayoutKeepsMeaning` | external/jsoncpp/jsoncpp.cpp:4433-4442 | what StyledWriter writes, stripped of white space outside literals, is FastWriter's text if and only if no printed member name holds a NUL |
| `JsonStyledText.OneLineWithinMargin` | external/jsoncpp/jsoncpp.cpp:4546-4571 | an array without null string pointers whose line is shorter than 2^32 goes on one line if and only if its elements are scalars or empty and the line is shorter than 74 characters |
| `JsonStyledText.MarginWraps` | external/jsoncpp/jsoncpp.cpp:4548-4566 | the 32-bit estimates wrap: an array of 1431655766 nulls is written on one line of more than 2^33 characters |
| `JsonStyledText.BoxedTwiceText` | external/jsoncpp/jsoncpp.cpp:4509-4531 | an array in an array, character by character: line breaks and three spaces |
| `JsonStyledText.ExampleText` | external/jsoncpp/jsoncpp.cpp:4474-4500 | an object with an array and an empty object, character by character |
| `JsonStyledWriter.StyledWriter.Write` | external/jsoncpp/jsoncpp.cpp:4433-4442 | the text is exactly the root's StyledText and a line feed, hence a layout of the root's tokens that strips to FastWriter's text; the indentation is empty again |
| `JsonStyledWriter.StyledWriter.WriteValue` | external/jsoncpp/jsoncpp.cpp:4444-4501 | either exactly one text is cached and the document untouched, or the value's text, shifted to the indentation, is appended |
| `JsonStyledWriter.StyledWriter.ScalarText` | external/jsoncpp/jsoncpp.cpp:4445-4470 | a scalar's text is FastWriter's, that of a null string pointer empty |
| `JsonStyledWriter.StyledWriter.WriteObjectValue` | external/jsoncpp/jsoncpp.cpp:4474-4500 | an object's block is appended: brace, members three spaces further in, brace at the outer indentation |
| `JsonStyledWriter.StyledWriter.WriteMembers` | external/jsoncpp/jsoncpp.cpp:4481-4495 | the endless loop writes all members, in order, one a line, and ends |
| `JsonStyledWriter.StyledWriter.WriteMember` | external/jsoncpp/jsoncpp.cpp:4484-4489 | a line break, the name from its C string, colon and value |
| `JsonStyledWriter.StyledWriter.WriteArrayValue` | external/jsoncpp/jsoncpp.cpp:4503-4544 | an array's line or block is appended, whichever its elements ask for |
| `JsonStyledWriter.StyledWriter.WriteItemLines` | external/jsoncpp/jsoncpp.cpp:4509-4531 | the multi-line path writes all elements, from the cache or anew, with the same text |
| `JsonStyledWriter.StyledWriter.WriteItemsInLine` | external/jsoncpp/jsoncpp.cpp:4532-4542 | the single-line path joins the cached texts |
| `JsonStyledWriter.StyledWriter.IsMultilineArray` | external/jsoncpp/jsoncpp.cpp:4546-4571 | the verdict is exactly that the array does not go on one line; the cache then holds the text of every element, or nothing |
| `JsonStyledWriter.StyledWriter.CacheItems` | external/jsoncpp/jsoncpp.cpp:4557-4567 | the element texts are cached in order, the document untouched, and the length added up is that of the line, modulo 2^32 |
| `JsonStyledWriter.StyledWriter.PushValue` | external/jsoncpp/jsoncpp.cpp:4573-4578 | the text goes to the cache or to the document, never to both |
| `JsonStyledWriter.StyledWriter.WriteIndent` | external/jsoncpp/jsoncpp.cpp:4580-4589 | nothing at the very start or behind a space, otherwise a line feed and the indentation |
| `JsonStyledWriter.StyledWriter.Unindent` | external/jsoncpp/jsoncpp.cpp:4598-4601 | undoes one indent; the size assertion holds |
| `JsonStyledWriter.CloseBlock` | external/jsoncpp/jsoncpp.cpp:4497-4498 | a closing bracket at the outer indentation completes the block |
| `JsonStyledRoundTrip.ValueLexes` | external/jsoncpp/jsoncpp.cpp:444-513 | the tokens of a real-free value are tokens to the readers, numbers always followed by a delimiter |
| `JsonStyledRoundTrip.StreamsAgree` | external/jsoncpp/jsoncpp.cpp:444-523 | two layouts of the same tokens have the same token stream |
| `JsonStyledRoundTrip.LaidThenParse` | external/jsoncpp/jsoncpp.cpp:444-523 | any layout of a value's tokens parses to the normal form of the value exactly when the nesting fits, otherwise throws, under every feature set |
| `JsonStyledRoundTrip.StyledThenParse` | external/jsoncpp/jsoncpp.cpp:4433-4442 | what StyledWriter writes for a tree without NUL in its names parses to the normal form exactly when the nesting fits |
| `JsonReader.Reader.GetNextChar` | external/jsoncpp/jsoncpp.cpp:971-975 | yields NUL at the end without moving |
| `JsonReader.Reader.SkipSpaces` | external/jsoncpp/jsoncpp.cpp:515-523 | refines the specification's skip |
| `JsonReader.Reader.MatchPattern` | external/jsoncpp/jsoncpp.cpp:525-534 | consumes the pattern all or nothing |
| `JsonReader.Reader.ReadCStyleComment` | external/jsoncpp/jsoncpp.cpp:590-597 | stops behind the first star-slash, or fails at the end; the peek at the sentinel is safe |
| `JsonReader.Reader.ReadCppStyleComment` | external/jsoncpp/jsoncpp.cpp:599-613 | stops behind the line end, a carriage return with line feed taken together |
| `JsonReader.Reader.ReadComment` | external/jsoncpp/jsoncpp.cpp:536-557 | dispatches on the second character |
| `JsonReader.Reader.ReadDigits` | external/jsoncpp/jsoncpp.cpp:615-635 | the pointer walk over digits ends where the specification says |
| `JsonReader.Reader.ReadNumber` | external/jsoncpp/jsoncpp.cpp:1575-1599 | the cursor arithmetic of the number scanner ends exactly behind the number, or one behind the I of Infinity |
| `JsonReader.Reader.ReadString` | external/jsoncpp/jsoncpp.cpp:1601-1624 | both quote styles: up to and including the closing quote |
| `JsonReader.Reader.ReadLexeme` | external/jsoncpp/jsoncpp.cpp:1394-1492 | the switch yields the specified kind, verdict and cursor |
| `JsonReader.Reader.ReadToken` | external/jsoncpp/jsoncpp.cpp:1394-1492 | the token has the specified kind, start and end |
| `JsonReader.Reader.SkipCommentTokens` | external/jsoncpp/jsoncpp.cpp:1384-1392 | yields the next token that is not a comment, if comments are allowed |
| `JsonReader.Reader.DecodeEscapeSequence` | external/jsoncpp/jsoncpp.cpp:910-937 | the four-digit loop computes the code unit, or the error and its place |
| `JsonReader.Reader.DecodeCodePoint` | external/jsoncpp/jsoncpp.cpp:881-908 | combines surrogates as specified |
| `JsonReader.Reader.DecodeString` | external/jsoncpp/jsoncpp.cpp:828-879 | the loop decodes the token or adds one error |
| `JsonReader.Reader.DecodeNumber` | external/jsoncpp/jsoncpp.cpp:753-815 | an integer where possible, else the double, else one error |
| `JsonReader.Reader.RecoverFromError` | external/jsoncpp/jsoncpp.cpp:1955-1966 | skips to the wanted token; the errors raised meanwhile are discarded |
| `JsonReader.Reader.AddErrorAndRecover` | external/jsoncpp/jsoncpp.cpp:1968-1973 | one error is added, then the cursor recovers |
| `JsonReader.Reader.ReadValue` | external/jsoncpp/jsoncpp.cpp:1281-1382 | result, cursor, depth, errors and top of the node stack are as specified, the rest of the stack is untouched |
| `JsonReader.Reader.ReadChild` | external/jsoncpp/jsoncpp.cpp:1664-1667 | push, read, pop: the child's value is stored under its key, the stack is as before |
| `JsonReader.Reader.ReadArray` | external/jsoncpp/jsoncpp.cpp:1688-1724 | as specified, empty arrays by a peek |
| `JsonReader.Reader.ReadElements` | external/jsoncpp/jsoncpp.cpp:1688-1724 | the loop is the recursive specification |
| `JsonReader.Reader.ReadObject` | external/jsoncpp/jsoncpp.cpp:1626-1686 | the loop is the recursive specification |
| `JsonReader.Reader.ReadMember` | external/jsoncpp/jsoncpp.cpp:1626-1686 | one round of the loop, names decoded from strings or numbers |
| `JsonReader.Reader.ReadMemberEnd` | external/jsoncpp/jsoncpp.cpp:1671-1682 | comma, closing brace or comments behind a member |
| `JsonReader.Reader.Parse` | external/jsoncpp/jsoncpp.cpp:1233-1279 | the whole parse is as specified; true exactly when no error is recorded; the node stack holds the root alone |
| `JsonArray.SpanIs` | external/jsoncpp/jsoncpp.cpp:3339-3345 | the size is the one number that is 0 or just above a stored index with none stored beyond |
| `JsonArray.PutBeyond` | external/jsoncpp/jsoncpp.cpp:3396-3410 | storing behind the end pads with null and adds the value |
| `JsonArray.PutWithin` | external/jsoncpp/jsoncpp.cpp:3396-3410 | storing inside replaces one element |
| `JsonArray.RemovalExact` | external/jsoncpp/jsoncpp.cpp:3597-3618 | removing an index deletes exactly that element with a left shift if and only if it is 0, or not the last index, or the index before it is stored; otherwise it deletes that element and exactly the nulls in front of it |
| `JsonArray.GapIsLost` | external/jsoncpp/jsoncpp.cpp:3597-3618 | with indices 0 and 5 stored, removing 5 leaves one element |
| `JsonArray.Truncated` | external/jsoncpp/jsoncpp.cpp:3388-3393 | erasing from n on leaves the first n elements if and only if element n - 1 is stored |
| `JsonArray.ShrinkIntoGap` | external/jsoncpp/jsoncpp.cpp:3388-3393 | with indices 0 and 5 stored, shrinking to 3 leaves one element |
| `JsonArray.ValueCell.Size` | external/jsoncpp/jsoncpp.cpp:3330-3351 | the length of the sequence, modulo 2^32 |
| `JsonArray.ValueCell.Subscript` | external/jsoncpp/jsoncpp.cpp:3396-3410 | access creates a null element, padding up to it, and changes no other |
| `JsonArray.ValueCell.AppendValue` | external/jsoncpp/jsoncpp.cpp:3543-3543 | adds one element at the end; at 2^32 elements the size wraps and element 0 is overwritten |
| `JsonArray.ValueCell.Resize` | external/jsoncpp/jsoncpp.cpp:3378-3394 | growing pads with null; shrinking truncates, and its size assertion holds exactly when the new last element is stored; at 2^32 elements the size wraps to 0 and only a resize to 0 changes anything |
| `JsonArray.ValueCell.RemoveIndex` | external/jsoncpp/jsoncpp.cpp:3597-3618 | false and unchanged exactly when the index is not stored; otherwise the removed value is returned and the sequence loses exactly that element or, in the case RemovalExact excludes, it and the nulls in front of it; at 2^32 elements too |
| `JsonArray.ValueCell.ShiftLeft` | external/jsoncpp/jsoncpp.cpp:3608-3612 | the shift loop moves every element behind the index one to the left |
| `IntegerGcd.GcdIsGreatest` | external/boost/integer/common_factor_rt.hpp:425-435 | the gcd divides both numbers and every common divisor divides it |
| `IntegerGcd.GcdUnique` | external/boost/integer/common_factor_rt.hpp:425-435 | no other non-negative number does |
| `IntegerGcd.InnerGcdIsGcd` | external/boost/rational.hpp:388-390 | the recursion with C++ remainders computes the gcd up to sign, for negative arguments too |
| `IntegerGcd.GcdEuclidean` | external/boost/integer/common_factor_rt.hpp:82-108 | the two-phase loop ends with the gcd up to sign |
| `IntegerGcd.GcdInteger` | external/boost/integer/common_factor_rt.hpp:111-125 | the gcd, never negative |
| `IntegerGcd.GcdBinary` | external/boost/integer/common_factor_rt.hpp:128-188 | shifting and subtracting computes the gcd |
| `IntegerGcd.GcdOfOdd` | external/boost/integer/common_factor_rt.hpp:148-176 | the difference loop computes the gcd of two numbers not both even |
| `IntegerGcd.ShiftOutTwos` | external/boost/integer/common_factor_rt.hpp:138-146 | the common power of two is taken out |
| `IntegerGcd.GcdSigned` | external/boost/integer/common_factor_rt.hpp:291-296 | the signed version through absolute values |
| `IntegerGcd.LcmInteger` | external/boost/integer/common_factor_rt.hpp:191-221 | the lcm, 0 if an argument is 0 |
| `IntegerGcd.LcmIsLeast` | external/boost/integer/common_factor_rt.hpp:439-449 | the lcm is a common multiple that divides every common multiple, and gcd times lcm is the absolute product |
| `RationalArithmetic.NormalFormUnique` | external/boost/rational.hpp:825-828 | for normal fractions equal components mean equal values and conversely |
| `RationalArithmetic.SumIsNormal` | external/boost/rational.hpp:490-522 | dividing only by gcd(num, g) leaves no common factor: the sum is exact, positive and coprime, zero included |
| `RationalArithmetic.DifferenceIsNormal` | external/boost/rational.hpp:525-541 | the same for the difference |
| `RationalArithmetic.ProductIsNormal` | external/boost/rational.hpp:544-556 | cross-cancelling before multiplying leaves no common factor |
| `RationalArithmetic.QuotientIsNormal` | external/boost/rational.hpp:559-585 | the same for the quotient, the sign moved to the numerator |
| `RationalArithmetic.Rational.Normalize` | external/boost/rational.hpp:840-873 | the normal form of num/den, or an exception exactly for a zero denominator |
| `RationalArithmetic.Rational.AddAssign` | external/boost/rational.hpp:490-522 | the exact sum in normal form, the operand may be the object itself |
| `RationalArithmetic.Rational.SubtractAssign` | external/boost/rational.hpp:525-541 | the exact difference in normal form, aliasing included |
| `RationalArithmetic.Rational.MultiplyAssign` | external/boost/rational.hpp:544-556 | the exact product in normal form, aliasing included |
| `RationalArithmetic.Rational.DivideAssign` | external/boost/rational.hpp:559-585 | the exact quotient in normal form; an exception exactly for a zero divisor, nothing changed |
| `RationalArithmetic.Rational.AddInteger` | external/boost/rational.hpp:266-271 | the exact sum with an integer, normal without any gcd |
| `RationalArithmetic.Rational.SubtractInteger` | external/boost/rational.hpp:272-277 | the exact difference with an integer |
| `RationalArithmetic.Rational.MultiplyInteger` | external/boost/rational.hpp:278-286 | the exact product with an integer |
| `RationalArithmetic.Rational.DivideInteger` | external/boost/rational.hpp:287-307 | the exact quotient by an integer; an exception exactly for zero |
| `RationalArithmetic.Rational.Increment` | external/boost/rational.hpp:310-310 | one more, still normal |
| `RationalArithmetic.Rational.Decrement` | external/boost/rational.hpp:311-311 | one less, still normal |
| `RationalArithmetic.Rational.Negated` | external/boost/rational.hpp:483-486 | the negative, still normal |
| `RationalOrder.QuotientsDecide` | external/boost/rational.hpp:775-781 | different integer parts decide the order |
| `RationalOrder.RemaindersDecide` | external/boost/rational.hpp:783-796 | with equal integer parts the order is that of the remainders' fractions, reversed by taking reciprocals |
| `RationalOrder.NormalizeModulus` | external/boost/rational.hpp:761-767 | the loop makes the remainder non-negative without changing the number |
| `RationalOrder.Less` | external/boost/rational.hpp:740-821 | the continued-fraction loop ends, for all signs, and returns true exactly when a*d < c*b |
| `RationalOrder.LessInteger` | external/boost/rational.hpp:352-368 | comparison with an integer is exact for negative numbers too |
| `RationalRuns.IsNormalizedIsNormal` | external/boost/rational.hpp:403-409 | is_normalized holds exactly for normal fractions |
| `RationalRuns.ExactRespects` | external/boost/rational.hpp:490-585 | the exact operations give equal results on equal fractions |
| `RationalRuns.RunIsExact` | external/boost/rational.hpp:490-585 | every sequence of operations without a zero divisor keeps den > 0 and gcd 1 and has the exact value |
| `RationalRuns.RunsAgree` | external/boost/rational.hpp:825-828 | two runs end in equal components exactly when their exact values are equal |
| `RationalRuns.Apply` | external/boost/rational.hpp:266-311 | each operation on the object is the exact one, reduced |
| `RationalRuns.ApplyAll` | external/boost/rational.hpp:490-585 | a whole run on one object is exact and normal at the end |
| `RationalRuns.GcdOf` | external/boost/rational.hpp:970-982 | the evaluator builds gcd of numerators over lcm of denominators |
| `RationalRuns.LcmOf` | external/boost/rational.hpp:984-996 | the evaluator builds lcm of numerators over gcd of denominators |
| `RationalRuns.GcdOfRationals` | external/boost/rational.hpp:970-982 | the rational gcd divides both to integers and every common rational divisor divides it |
| `RationalRuns.LcmOfRationals` | external/boost/rational.hpp:984-996 | the rational lcm is an integer multiple of both and divides every common multiple |
| `RationalRuns.GcdTimesLcm` | external/boost/rational.hpp:970-996 | gcd times lcm is the absolute product |
| `Base64.MasksAsArithmetic` | src/base/base64.cpp:54-57 | the masks and shifts of both directions, on all bytes, are the quotients and remainders the model uses |
| `Base64.SextetOf` | src/base/base64.cpp:95-96 | the position of a character in the alphabet; the alphabet gives the character back |
| `Base64.GroupInverse` | src/base/base64.cpp:54-57 | the three bytes come back from the four sextets |
| `Base64.GroupForward` | src/base/base64.cpp:98-100 | the four sextets come back from the three bytes |
| `Base64.EncodeBytes` | src/base/base64.cpp:44-81 | the loop over a reused 3-byte array, with the partial last group, computes the recursive encoding |
| `Base64.EncodeThree` | src/base/base64.cpp:53-62 | a full group adds its four characters |
| `Base64.EncodeTail` | src/base/base64.cpp:65-78 | the last one or two bytes are zero-filled and padded to four characters |
| `Base64.EncodedLength` | src/base/base64.cpp:44-81 | 4 * ceil(n / 3) characters |
| `Base64.DecodeText` | src/base/base64.cpp:83-120 | the loop over a reused 4-character array computes the decoding of the longest alphabet prefix |
| `Base64.DecodeWhole` | src/base/base64.cpp:94-105 | a full group yields its three bytes whatever the arrays held before |
| `Base64.DecodeRest` | src/base/base64.cpp:108-117 | the partial group yields one byte less than it has characters, none of which depends on a stale or unset cell |
| `Base64.DecodedLength` | src/base/base64.cpp:83-120 | the result depends on the longest alphabet prefix only and has 3 * (k / 4) + max(0, k % 4 - 1) bytes |
| `Base64.EncodedIsCanonical` | src/base/base64.cpp:44-81 | every encoding is canonical: length, alphabet, padding and zero pad bits (section 3.5 of RFC 4648) |
| `Base64.DecodeEncode` | src/base/base64.cpp:44-120 | decoding an encoding gives the bytes back |
| `Base64.EncodeDecode` | src/base/base64.cpp:44-120 | encoding a decoding gives the text back exactly when the text is canonical |
| `Base64Alphabet.AlphabetAt` | src/base/base64.cpp:36-39 | base64_chars is the alphabet of section 4 of RFC 4648, given as one string of 64 characters |
| `Base64Alphabet.IndexInAlphabet` | src/base/base64.cpp:40-42 | a character is accepted exactly when it is in that string, and its value is its index there |
| `Base64Alphabet.EncodeWhole` | src/base/base64.cpp:52-62 | three bytes a, b, c are written as the four base-64 digits, in that string, of a * 65536 + b * 256 + c |
| `Base64Alphabet.EncodePartial` | src/base/base64.cpp:65-78 | one or two bytes are written as the digits of the number with zero bytes added, the digits made of added bits only replaced by padding |
| `Base64Alphabet.DecodeIsPositional` | src/base/base64.cpp:94-105 | four characters are read as the three bytes of the 24-bit number whose digits they are |
| `CharSeparators.SplitOfJoined` | external/boost/token_functions.hpp:458-529 | splitting fields joined by single delimiters gives back exactly the fields, with the kept delimiters between them |
| `CharSeparators.EveryTextIsJoined` | external/boost/token_functions.hpp:458-529 | every text is of that form, so the split is determined on all texts |
| `CharSeparators.SplitCount` | external/boost/token_functions.hpp:497-526 | one token per dropped delimiter, two per kept one, and one more |
| `CharSeparators.SplitConserves` | external/boost/token_functions.hpp:458-529 | the tokens together are the text without dropped delimiters |
| `CharSeparators.DropRun` | external/boost/token_functions.hpp:458-492 | drop policy: non-empty tokens whose concatenation is the text without dropped delimiters |
| `CharSeparators.KeepRun` | external/boost/token_functions.hpp:493-529 | keep policy: the exact number of tokens from either value of the flag, the whole split from a clear one |
| `CharSeparators.CharSeparator.Next` | external/boost/token_functions.hpp:458-529 | one call returns the first pending token whichever way tokens are built, or says that none is pending; the measure 2 * (end - next) + (output pending ? 1 : 0) decreases |
| `CharSeparators.CharSeparator.NextDropping` | external/boost/token_functions.hpp:465-492 | the drop-policy half, the flag unused |
| `CharSeparators.CharSeparator.NextKeeping` | external/boost/token_functions.hpp:493-529 | the keep-policy half: empty fields before, between and behind delimiters come out once each |
| `CharSeparators.CharSeparator.TakePlain` | external/boost/token_functions.hpp:487-488 | a maximal run without delimiters |
| `CharSeparators.CharSeparator.SkipDropped` | external/boost/token_functions.hpp:469-471 | skipping dropped delimiters loses no token |
| `CharSplitLaw.DelimiterLaw` | external/boost/token_functions.hpp:433-445 | in terms of the constructor's arguments: fields joined by delimiter characters split into exactly the fields, non-empty ones only if empty tokens are dropped, and the kept delimiters between them; a character in both strings is returned under the keep policy and dropped under the drop policy |
| `CharSplitLaw.DefaultLaw` | external/boost/token_functions.hpp:447-453 | the default separator drops the six white space characters and keeps the 32 punctuation characters, given as literal lists |
| `CharSplitLaw.EveryTextSplits` | external/boost/token_functions.hpp:458-554 | every text consists of such fields and delimiters |
| `EscapedLists.ThrowsOnBadEscape` | external/boost/token_functions.hpp:127-149 | a run throws exactly at a bad escape, quotes closed or not |
| `EscapedLists.EscapedCharacter` | external/boost/token_functions.hpp:127-149 | an escaped letter n is a line feed, an escaped mark stands for itself, anything else throws |
| `EscapedLists.ReadEscaped` | external/boost/token_functions.hpp:162-195 | escaped characters are read back one by one, in and out of quotes |
| `EscapedLists.ReadLine` | external/boost/token_functions.hpp:162-195 | a written line is read back field by field |
| `EscapedLists.ListRoundTrip` | external/boost/token_functions.hpp:162-195 | the fields of a written line come back, trailing empty ones included, if and only if the line is not that of one bare empty field and no letter n had to be escaped |
| `EscapedLists.EscapedListSeparator.DoEscape` | external/boost/token_functions.hpp:127-149 | the character the escape stands for, or the exception of the specification |
| `EscapedLists.EscapedListSeparator.Next` | external/boost/token_functions.hpp:162-195 | one call returns the first pending field, the end, or the exception |
| `EscapedLists.EscapedListSeparator.Reset` | external/boost/token_functions.hpp:159-159 | forgets that a separator was just passed |
| `TokenIterators.TokenIterator.Initialize` | external/boost/token_iterator.hpp:67-72 | the whole run lies ahead, its first token current; nothing on an empty range |
| `TokenIterators.TokenIterator.Increment` | external/boost/token_iterator.hpp:50-53 | drops the current token and no other |
| `TokenIterators.Traverse` | external/boost/tokenizer.hpp:86-87 | going from begin() to end() visits exactly the tokens of the run and ends with its exception, if any, for both separators and both token-building strategies |
| `TokenIterators.VisitAll` | external/boost/token_iterator.hpp:59-65 | comparing with the end iterator stops the loop exactly when nothing is left, and every token was visited once |

## Left out

- Server start-up, sockets, gRPC, libgit2, logging and threads: input and output around foreign calls.
- JSON doubles: the text of a double and the double of a text are parameters of the model (`realText`, `scanDouble`), so trees with real leaves are outside the round trips and the order.
- Comment collection, offsets and `Path`: `collectComments` is off and comments are only skipped.
- `nodes_` as pointers: the model keeps the values being filled in and stores a child into its parent when it is popped, so aliasing between the stack and the tree is not captured.
- `Reader::parse(const std::string&)` and the stream overloads: the overload on a character range is modelled.
- `OurReader::decodeNumber` at the minimum int64: it negates the minimum of a signed type; the model uses `Reader::decodeNumber`, which treats that case on its own.
- Error messages are enumerated kinds with their token; their wording, lines and columns are not modelled.
- JsonErrors.ParseErrors: every recorded error is justified and recoveries end where they should; which partial tree a failed parse leaves behind is only described as well-formed, by `JsonRun.ParseBuilds`.
- JsonThrows.NeverThrows: without numeric names only, since the text of a double used as a name is a parameter of any length.
- Memory ownership and the policy bits of `CZString`: only the byte string and its length are kept.
- `StyledStreamWriter` and `BuiltStyledStreamWriter`: variants of `StyledWriter` on streams.
- JsonRoundTrip.WriteThenParse: arrays have at most 2^31 elements, because the readers count them with an int.
- JsonOrder.Transitive: for whole trees it is stated below 2^31 children per node; beyond that the exact condition is given one level at a time, by `JsonOrder.EntriesTransitive`.
- JsonStyledWriter.StyledWriter.Write: the text of a double is taken to be non-empty and free of quotes and white space; no element of an array is an object with a positive multiple of 2^32 members, for which the source reads a cached text that does not exist.
- RationalArithmetic.Rational.AddAssign: unbounded integers, so overflow is not modelled, here and in the other rational and gcd members.
- Rational stream operators, narrowing conversions and mixed-type overloads: C++ type selection and streams.
- Base64.EncodeBytes: lengths are unbounded; the int length counter of `base64_decode` is not modelled. `isalnum` is that of the C locale.
- CharSeparators.CharSeparator.Next: `ispunct` and `isspace` are those of the C locale.
- `offset_separator` and the deprecated `char_delimiters_separator`: easier members of the same family.
