# RJSON scanner and element view, in Dafny

This project models the core of a small lazy, zero-copy parser for RJSON. RJSON is a relaxed JSON dialect:
- members are written `key = value`;
- the root object has no braces;
- keys may be bare identifiers;
- `//` and `/* */` comments are allowed;
- commas and newlines both separate members.

Two source files make up the core:

- `Src/Rjson.cpp`: the scanner. Every function takes a cursor into an immutable, NUL-terminated buffer.
  - `getNext`, `skipString`, `skipValue`, `skipComments`, `skipSpaces` and `parseKey` return an advanced cursor.
  - `getJsonType` classifies the value at the cursor.
  - `parseString`, `parseDouble` and `parseBool` read a value: a decoded string (appended to an out-parameter), a number, or a boolean.
  - `parseRootObject`, `parseObject` and `parse` fill a map from each key to the cursor of its value.
- `Src/JsonElement.cpp`: the class `JsonElement`. It holds one nullable cursor and answers type and value queries by scanning the buffer from there.

Encoding:

- **Buffer and cursor.** A buffer is a `Text`, a `seq<char>` without NUL. A cursor is an index `i <= |s|`. `At(s, i)` yields `'\0'` at the end, the way dereferencing the terminator does.
- **Assertions.** Every `assert(false)` of the source becomes a `Fail` that carries an `Error`. Those functions and methods return a `Result`.
- **Functions and methods.** Each looping C function is a method with the source's loops and invariants. It is proved equal to a function that states where the cursor lands and what is produced. The properties are proved about those functions.
- **Unterminated loops.** Two loops of the source have no end-of-buffer stop: the bare-key loop of `parseKey` and the scalar branch of `skipValue`. Reaching the terminator there is the failure `PastEnd`, not a precondition.
- **The map.** `parseRootObject` and `parseObject` fill a `map<string, nat>` from keys to value cursors. The model describes the entries the parser meets in order, as a `seq<Entry>`. The map is then the result of assigning those entries in order (`Collect`), so a later duplicate key overwrites an earlier one.
- **The element.** `JsonElement` is a class with one field, `current: Option<Position>`. A `Position` pairs the buffer and the index, which is what the C pointer stands for. `None` is the null pointer.
- **getAllKeys order.** `getAllKeys` iterates a `std::map`, which visits keys in ascending `std::string` order. That order is `KeyOrder.Less`, a lexicographic order by character code. The iteration is a loop that always takes the least key not yet visited.

Two places where the code is modelled as written:

- **Escaped backslashes in skipString.** In JSON (section 7 of RFC 8259), `\\` is an escaped backslash, and a quote right after it closes the string. In `skipString` (Src/Rjson.cpp:31-43), a backslash sets the `escaped` flag, and only the next non-backslash character clears it. A second backslash sets the flag again instead of consuming it. So in `"\\"` the last quote counts as escaped and does not end the literal, and the skip runs on to a later quote. `parseString` does decode `\\` as one backslash and stops at that quote. The model follows the code. The lemma `RjsonTokens.EscapedBackslashDoesNotEndSkip` shows a literal on which the two disagree.
- **Character classes.** `isSpace` and `isDigit` come from a string-utility header that is not part of this model. They are taken to be the C-locale classes: six whitespace characters and the ten ASCII digits.

## Model

| member | source | states |
|---|---|---|
| Text.At | Src/Rjson.cpp:15 | the character under a cursor is '\0' exactly at or past the end of the buffer, and the buffer's character before it |
| Text.ScanUntil | Src/Rjson.cpp:74-77 | the first position from `k` whose character stops the scan, or the end: no character before it stops, and the one at it does |
| RjsonScanner.GetNext | Src/Rjson.cpp:11-21 | stepping over one character succeeds exactly when no character is expected or the expected one is under the cursor; otherwise the error names both characters |
| RjsonScanner.AfterComment | Src/Rjson.cpp:64-96 | off '/', the cursor is unchanged; a `//` comment ends at the next newline or the end; a block comment ends just after the first '*', which must be followed by '/'; the first such `*/` is where it ends; '/' followed by anything else is a bad comment |
| RjsonScanner.UnclosedBlockCommentFails | Src/Rjson.cpp:79-88 | a block comment with no '*', or whose first '*' is not followed by '/', fails |
| RjsonScanner.SkipComments | Src/Rjson.cpp:64-96 | the loops of skipComments land where AfterComment says, with the same errors |
| RjsonScanner.AfterSeparators | Src/Rjson.cpp:98-110 | the cursor never moves back; it stops at the end or at a character that is not whitespace, ',' or '/'; it does not move off such a character |
| RjsonScanner.SeparatorsIdempotent | Src/Rjson.cpp:98-110 | skipping separators twice lands where skipping them once does |
| RjsonScanner.SkipSpaces | Src/Rjson.cpp:98-110 | the loop of skipSpaces lands where AfterSeparators says |
| RjsonScanner.ClosingFrom | Src/Rjson.cpp:29-44 | from a position inside the literal, the scan stops just after the first quote not preceded by a backslash, or at the end |
| RjsonScanner.AfterString | Src/Rjson.cpp:23-47 | skipString ends just after the first quote that is not preceded by a backslash inside the literal, or at the end of the buffer if there is none |
| RjsonScanner.SkipString | Src/Rjson.cpp:23-47 | the loop with its `escaped` flag lands where AfterString says; the flag holds exactly when the previous character was a backslash |
| RjsonScanner.AfterValue | Src/Rjson.cpp:49-62 | a string is skipped as by skipString; '[' and '{' are delegated to skipBlock; any other value runs to the first ',', newline, space, '}' or ']', and reaching the end first is an error |
| RjsonScanner.SkipValue | Src/Rjson.cpp:49-62 | the switch and loop of skipValue land where AfterValue says |
| RjsonScanner.GetJsonType | Src/Rjson.cpp:112-122 | '"' is a string; '-' or a digit is a number; 'n' is nil; every other character, brackets and the terminator included, is a boolean |
| RjsonTokens.Unescape | Src/Rjson.cpp:142-156 | exactly the eight characters `" \\ / b f n r t` may follow a backslash; each stands for a character that is not the terminator |
| RjsonTokens.DecodeFrom | Src/Rjson.cpp:130-166 | the decoding loop of parseString from inside the literal: at the end of the buffer it fails; a decoded text is shorter than the rest of the buffer, because its closing quote is not part of it |
| RjsonTokens.DecodedString | Src/Rjson.cpp:124-167 | off '"', parseString fails |
| RjsonTokens.ParseString | Src/Rjson.cpp:124-167 | the loop appends to the caller's string exactly the decoded text of the literal, and fails exactly when decoding fails, with the same error |
| RjsonTokens.EscapeChar | Src/Rjson.cpp:142-151 | a character stands for itself, or behind a backslash as one of the eight escapes that decode back to it |
| RjsonTokens.Escape | Src/Rjson.cpp:142-151 | the body of a literal for a text is at least as long as the text and at most twice as long; DecodeEscape proves decoding it gives the text back |
| RjsonTokens.DecodeEscape | Src/Rjson.cpp:130-163 | decoding the escaped body of a text up to a closing quote gives back the text (the inverse of decoding) |
| RjsonTokens.QuotedRoundTrip | Src/Rjson.cpp:124-167 | the quoted, escaped literal of any text, followed by anything, decodes to that text |
| RjsonTokens.UnterminatedFrom | Src/Rjson.cpp:130-166 | with no quote left in the buffer, decoding fails |
| RjsonTokens.UnterminatedString | Src/Rjson.cpp:124-167 | a literal with no quote at all after its opening one is an error |
| RjsonTokens.BodyToEndFails | Src/Rjson.cpp:130-166 | an escaped body that runs to the end of the buffer fails to decode, whatever escaped quotes it holds |
| RjsonTokens.OpenLiteralFails | Src/Rjson.cpp:124-167 | the opening quote and escaped body of any text, with no closing quote, is an error |
| RjsonTokens.BadEscapeAfter | Src/Rjson.cpp:138-156 | after any valid escaped text, a backslash followed by a character outside the escape set, or by the end, is a bad escape at that character |
| RjsonTokens.EscapeGuardsQuotes | Src/Rjson.cpp:33-43 | in an escaped body without backslashes, every quote is preceded by a backslash and the body does not end in one |
| RjsonTokens.SkipStringEndsLiteral | Src/Rjson.cpp:23-47 | for text without backslashes, skipString ends exactly after the closing quote where parseString stops |
| RjsonTokens.EscapedBackslashDoesNotEndSkip | Src/Rjson.cpp:33-43 | on `"\\"x"`, parseString decodes one backslash, but skipString runs on to the later quote |
| RjsonTokens.KeyAt | Src/Rjson.cpp:169-194 | a quoted key is the decoded literal, and the cursor is just after skipString's quote; a bare key is exactly the characters before the first whitespace or '=', and the cursor is on that character; anything else is a bad key; a bare key reaching the end is an error |
| RjsonTokens.BareKeyRoundTrip | Src/Rjson.cpp:178-189 | a bare key followed by whitespace or '=' is read back exactly |
| RjsonTokens.QuotedKeyRoundTrip | Src/Rjson.cpp:173-177 | a quoted key is read back as the text it encodes |
| RjsonTokens.ParseKey | Src/Rjson.cpp:169-194 | the two branches and the loop of parseKey give what KeyAt says |
| RjsonTokens.AfterSign | Src/Rjson.cpp:202-206 | the sign stage moves over one character exactly when it is '-' |
| RjsonTokens.AfterWhole | Src/Rjson.cpp:207-211 | the integer stage passes only digits and stops at the end or on a non-digit |
| RjsonTokens.FractionEnd | Src/Rjson.cpp:213-220 | the fraction stage moves the cursor exactly when it is on '.' |
| RjsonTokens.AfterFraction | Src/Rjson.cpp:213-220 | after the integer digits, the fraction stage moves exactly on '.', passes only digits after it, and stops at the end or on a non-digit |
| RjsonTokens.ExponentEnd | Src/Rjson.cpp:222-238 | the exponent stage moves the cursor exactly when it is on 'e' or 'E' |
| RjsonTokens.NumberEnd | Src/Rjson.cpp:222-238 | the exponent stage moves exactly on 'e' or 'E', and then stops at the end or on a non-digit |
| RjsonTokens.Lexeme | Src/Rjson.cpp:196-238 | the lexeme is the characters from the cursor to the end of the number, in order |
| RjsonTokens.DigitRun | Src/Rjson.cpp:207-211 | a run of digits followed by a non-digit or the end is scanned exactly |
| RjsonTokens.LexemeOfLiteral | Src/Rjson.cpp:196-238 | a well-formed number (sign, digits, fraction, exponent) followed by a value delimiter or the end is read back as exactly its own text |
| RjsonTokens.LexemeShape | Src/Rjson.cpp:196-238 | in any buffer, the lexeme is a well-formed number literal: an optional '-', digits, an optional '.' and digits, an optional 'e' or 'E' with an optional sign and digits |
| RjsonTokens.PushDigits | Src/Rjson.cpp:207-211 | a digit loop pushes exactly the digits it passes and stops at the first non-digit |
| RjsonTokens.PushFraction | Src/Rjson.cpp:213-220 | the fraction branch pushes the '.' and its digits and ends where FractionEnd says |
| RjsonTokens.PushExponent | Src/Rjson.cpp:222-238 | the exponent branch pushes the marker, the sign and the digits and ends where ExponentEnd says |
| RjsonTokens.ParseDouble | Src/Rjson.cpp:196-238 | the characters pushed onto `number` are exactly the lexeme, which is the characters consumed, in order |
| RjsonTokens.ParseBool | Src/Rjson.cpp:244-273 | true exactly when the text begins with `true`, false exactly when it begins with `false`; any other first character is a bad boolean |
| RjsonObjects.MemberAt | Src/Rjson.cpp:296-305 | a member moves the cursor forward; the value cursor is on a character of the buffer; the cursor is left past all separators |
| RjsonObjects.MemberKey | Src/Rjson.cpp:296-297 | a member's key is the key parseKey reads, and a key that cannot be read is the member's error |
| RjsonObjects.MemberValueFollowsEquals | Src/Rjson.cpp:299-303 | a value cursor is the first non-separator position after an '=' that follows the key and its separators |
| RjsonObjects.MissingEqualsFails | Src/Rjson.cpp:300 | a key not followed by '=' (after separators) is rejected by getNext |
| RjsonObjects.ParseMember | Src/Rjson.cpp:296-306 | one iteration of the member loops gives what MemberAt says |
| RjsonObjects.RootEntries | Src/Rjson.cpp:290-308 | the entries of the root object: none at the end of the buffer; a member that fails is the error; the value cursors lie in the buffer and strictly increase |
| RjsonObjects.ObjectLoop | Src/Rjson.cpp:326-350 | the member loop of parseObject gives at least one entry and some '}' follows in the buffer (ObjectLoopCloses pins it down); reaching the end of the buffer first is a bad object; the value cursors strictly increase |
| RjsonObjects.ObjectEntries | Src/Rjson.cpp:310-351 | off '{', a bad object; '{', separators and '}' give no entries; success implies a '}' later in the buffer; the value cursors strictly increase |
| RjsonObjects.ObjectLoopCloses | Src/Rjson.cpp:326-345 | when the member loop succeeds, its last entry comes from a member that is directly followed (after separators) by '}' |
| RjsonObjects.ObjectEntriesCloses | Src/Rjson.cpp:314-345 | parseObject succeeds only on a '}': right after '{' and separators for an empty object, otherwise right after the last member |
| RjsonObjects.RootEntriesRead | Src/Rjson.cpp:294-307 | every entry of the root object is the key and value cursor of a member read at a position of the buffer from the start cursor on |
| RjsonObjects.ObjectLoopRead | Src/Rjson.cpp:326-350 | every entry of parseObject's member loop is the key and value cursor of a member read at a position from the loop's start on |
| RjsonObjects.ObjectEntriesRead | Src/Rjson.cpp:310-351 | every entry of the object is the key and value cursor of a member read inside its braces |
| RjsonObjects.ParsedEntriesRead | Src/Rjson.cpp:353-359 | every entry parse reads is the key and value cursor of a member of the buffer |
| RjsonObjects.LastAssignment | Src/Rjson.cpp:302 | every key the entries assign has an entry that assigns it last |
| RjsonObjects.CollectRead | Src/Rjson.h:25-26 | when every entry is read from a member, the map built from an empty map sends each key to the value cursor of a member with that key |
| RjsonObjects.RootMapRead | Src/Rjson.cpp:290-308 | the map parseRootObject builds sends each key to the value cursor of a member with that key |
| RjsonObjects.ObjectMapRead | Src/Rjson.h:25-27 | the map parseObject builds sends each key to the value cursor of a member with that key inside the braces |
| RjsonObjects.ParsedMapRead | Src/Rjson.h:33-34 | the map parse builds sends each key to the value cursor of a member of the buffer with that key |
| RjsonObjects.Collect | Src/Rjson.cpp:302 | the map after `object[key] = json` for each entry in order: its keys are the caller's and the entries'; a repeated key keeps its last value; other keys keep the caller's value |
| RjsonObjects.CollectSnoc | Src/Rjson.cpp:302 | one more assignment changes the map only at that key |
| RjsonObjects.RootEntriesStep | Src/Rjson.cpp:294-307 | the root entries from a member are that member's entry followed by the entries after it |
| RjsonObjects.ParseRootObject | Src/Rjson.cpp:290-308 | the loop fills the caller's map exactly as collecting the root entries does, or fails with their error |
| RjsonObjects.ParseObject | Src/Rjson.cpp:310-351 | the loop fills the caller's map exactly as collecting the object's entries does, or fails with their error |
| RjsonObjects.ParsedEntries | Src/Rjson.cpp:353-359 | parse is skipSpaces followed by the root loop; an all-separator buffer gives no entries |
| RjsonObjects.Parse | Src/Rjson.cpp:353-359 | parse fills the caller's map as collecting the parsed entries does |
| KeyOrder.Irreflexive | Src/JsonElement.cpp:68-73 | no key sorts before itself |
| KeyOrder.Transitive | Src/JsonElement.cpp:68-73 | the key order is transitive |
| KeyOrder.Total | Src/JsonElement.cpp:68-73 | two different keys are ordered one way or the other |
| KeyOrder.HasLeast | Src/JsonElement.cpp:68-73 | every non-empty set of keys has a least key, the one the map's iteration visits first |
| JsonElements.JsonElement.constructor | Src/JsonElement.cpp:9-12 | the default element holds the null position |
| JsonElements.JsonElement.FromPosition | Src/JsonElement.cpp:14-17 | the element holds the given position |
| JsonElements.JsonElement.Copy | Src/JsonElement.cpp:19-22 | a copy holds the other element's position and nothing else |
| JsonElements.JsonElement.Assign | Src/JsonElement.cpp:24-29 | assignment overwrites the position with the other element's |
| JsonElements.JsonElement.IsNil | Src/JsonElement.cpp:76-83 | nil exactly for the null position or a value starting with 'n' |
| JsonElements.JsonElement.IsBool | Src/JsonElement.cpp:85-92 | a boolean exactly for a non-null value not starting with '"', '-', a digit or 'n' |
| JsonElements.JsonElement.IsNumber | Src/JsonElement.cpp:94-101 | a number exactly for a non-null value starting with '-' or a digit |
| JsonElements.JsonElement.IsString | Src/JsonElement.cpp:103-111 | a string exactly for a non-null value starting with '"' |
| JsonElements.JsonElement.ToBool | Src/JsonElement.cpp:31-34 | the default for nil; otherwise true or false exactly when the text says `true` or `false`, and a bad boolean off 't' and 'f' |
| JsonElements.JsonElement.ToInt | Src/JsonElement.cpp:36-39 | the default exactly when nil; otherwise the conversion of the number lexeme at the cursor |
| JsonElements.JsonElement.ToUint | Src/JsonElement.cpp:41-44 | the default exactly when nil; otherwise the conversion of the number lexeme at the cursor |
| JsonElements.JsonElement.ToFloat | Src/JsonElement.cpp:46-49 | the default exactly when nil; otherwise the conversion of the number lexeme at the cursor |
| JsonElements.JsonElement.ToString | Src/JsonElement.cpp:51-61 | for nil, `str` is replaced by the default; otherwise the decoded string is appended to `str`, or parseString's error |
| JsonElements.JsonElement.Size | Src/JsonElement.cpp:113-146 | 0 for the null position, 1 for nil, numbers and booleans, and the decoded length for a string |
| JsonElements.JsonElement.GetAllKeys | Src/JsonElement.cpp:63-74 | `keys` is kept and extended with the object's keys, each once, in ascending order; the null position and a bad object fail |
| JsonElements.AppendInKeyOrder | Src/JsonElement.cpp:68-73 | the iteration appends every key of the map once, in ascending order, after the existing keys |
| JsonElements.NullElement | Src/JsonElement.cpp:76-118 | a null element is nil, of no other kind, of size 0, and gives the default boolean |
| JsonElements.ExactlyOneKind | Src/JsonElement.cpp:76-111 | a non-null element is of exactly one of the four kinds |
| JsonElements.CopiesAgree | Src/JsonElement.cpp:19-29 | elements holding the same position agree on every query: the four kinds, the size, and the boolean and numeric accessors |
| JsonElements.StringSize | Src/JsonElement.cpp:126-131 | the size of a string element is the length of the decoded text, not of the literal |

## Left out

- `Src/Main.cpp` is not part of this model. It does file I/O on a fixed path and prints a demo.
- The conversion of the number lexeme (`Rio::parseDouble`, Src/Rjson.cpp:241) and the casts in `parseInt`, `parseUint` and `parseFloat` (Src/Rjson.cpp:275-288) are left out. They are floating-point work done by a helper that is not part of this model.
- JsonElements.JsonElement.ToInt: returns `Converted(lexeme)`, the characters handed to the conversion, in place of the `int32_t` it produces.
- JsonElements.JsonElement.ToUint: returns `Converted(lexeme)` in place of the `uint32_t` the conversion produces.
- RjsonTokens.ParseDouble: returns the accumulated lexeme, not the `double` converted from it.
- JsonElements.JsonElement.ToFloat: returns `Converted(lexeme)` in place of the `float`, and carries the `float` default as a `real`, because floating point is not modelled.
- `skipBlock` (called at Src/Rjson.cpp:56-57) is not defined in the source files of this model. It is a parameter. The only thing assumed of it is that, from a position in the buffer, it moves strictly forward and stays within the buffer. No bracket-nesting logic is modelled.
- RjsonScanner.AfterValue: `skipBlock` is a total function to cursors, so the model assumes it never fails, for instance on an unterminated block. A failure inside it is not modelled.
- `operator[]`, `getElementByIndexOrNil`, `isArray` and `isObject` are declared in Src/JsonElement.h but defined nowhere in the source, so they are not modelled.
- `parse(std::vector<char>&)` (Src/Rjson.cpp:361-366) is left out. It relies on vector capacity, through `push_back('\0')` and `pop_back()`, to terminate the buffer. Here the terminator is implicit in `At`.
- A buffer with an embedded NUL is not modelled. The source would stop there, and a `Text` has no NUL.
- Pointer lifetime and borrowing are not modelled: a cursor is an index into an immutable sequence.
- `assert` semantics under `NDEBUG` are not modelled. Every failed assertion is a `Fail`; a release build would instead carry on with undefined behaviour.
- The accessors' default arguments (`def = false`, `0`, `0`, `""` in Src/JsonElement.h) are not modelled: `ToBool`, `ToInt`, `ToUint`, `ToFloat` and `ToString` take the default as an ordinary parameter that every caller passes.
- RjsonTokens.ParseKey: returns the key instead of appending to the caller's string. Every caller passes a fresh, empty string.
- RjsonObjects.ParseMember: the source stores the map entry before it skips the value. The model stores it once the whole member has been read. The two differ only when skipping the value fails, and the source then aborts.
- The second `skipSpaces` after a member in parseObject (Src/Rjson.cpp:346) is kept. Its result is always the cursor it is given, because that cursor is already past all separators.
- Characters are Unicode scalar values. The source's `char` is a byte, so key order is by character code.
