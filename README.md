# A verified model of a `.proto` file parser

This project models `src/parser.rs` of `protobuf-parser`, a recursive-descent parser, written with
nom 3 macros, for the Protocol Buffers interface definition language. The parser reads a `.proto`
file (syntax, import and package statements, messages with fields, map and group fields, oneofs,
nested messages and enums, `reserved` statements, enums, `extend` blocks; `option` and `service`
statements are skipped). It builds a `FileDescriptor` tree from what it reads.

The model follows the parser's own structure:

- `descriptor.dfy` (module `Descriptor`): the descriptor values (`Field`, `FieldType`, `OneOf`,
  `EnumValue`, `Enumeration`, `Range`, `Message`, `Extension`, `FileDescriptor`), the 32-bit
  integer type of numbers, and saturating increment.
- `lexer.dfy` (module `Lexer`): the cursor and the lexical rules. Every grammar rule becomes a
  pure function `Rule(s, i)` over the whole input `s` and a cursor `i`. It returns `Done(value,
  pos)` with the cursor after what it read, or `Error` for a mismatch, and `:-` chains rules as
  `do_parse!` does. This module holds `tag!`, `word`, breaks and comments, decimal and hexadecimal
  integers with their `i32` overflow check, and `str::trim`.
- `fields.dfy` (module `FieldGrammar`): `key_val`, `rule`, `field_type` with its `alt!` order,
  `map<K,V>`, `fields_in_braces`, `group_fields_or_semicolon`, `message_field`, and the
  assembly of a `Field` record.
- `aggregates.dfy` (module `Aggregates`): `reserved` numbers and names, `oneof`, `extend`,
  `enum`, and the message grammar (`message_event`, `message`).
- `events.dfy` (module `Events`): the `MessageEvent` and `Event` enums and the two folds.
  `message` folds its events into a `Message`; `file_descriptor` folds the file's events into a
  `FileDescriptor`. Both folds are loops that update a mutable record, so each is a method
  (`BuildMessage`, `BuildFile`) proved equal to a fold function (`MessageOf`, `FileOf`). That
  function is in turn proved equal to a member-by-member description (`MessageSpec`, `FileSpec`).
- `file.dfy` (module `FileGrammar`): the top-level statements, the `event` alternation, the
  `many0!(event)` loop, and the whole-file parse. The whole-file parse rejects input left
  unread, as `FileDescriptor::parse` does.

The input is a complete in-memory text of ASCII characters. A nom rule that would ask for more
input is a mismatch here.

## Model

| member | source | states |
|---|---|---|
| Descriptor.SaturatingInc | src/parser.rs:86 | one more than `x`, except that `i32::MAX` stays put |
| Lexer.Tag | src/parser.rs:58 | `tag!` matches exactly when the text stands at the cursor, and moves past it |
| Lexer.ChainReads | src/parser.rs:95-98 | a repetition whose turns each put one value in front of the rest, and which ends reading nothing, reads all the values in order |
| Lexer.RunEnd | src/parser.rs:17 | `take_while!` stops at the end or at the first character outside the class |
| Lexer.RunEndAll | src/parser.rs:17 | every character `take_while!` consumed is in the class |
| Lexer.RunEndUnique | src/parser.rs:17 | a run of class characters ended by the end or a non-class character is exactly what `take_while!` reads |
| Lexer.Word | src/parser.rs:15-24 | `word` never fails; it returns the text it consumed and stops before a non-word character |
| Lexer.WordChars | src/parser.rs:8-13 | the word read consists of word characters only |
| Lexer.WordAt | src/parser.rs:15-24 | a word written at the cursor and not followed by a word character is read back whole |
| Lexer.Multispace | src/parser.rs:52 | a blank run matches exactly when a blank stands at the cursor, and stops at the end or before a non-blank |
| Lexer.MultispaceBlanks | src/parser.rs:52 | what `multispace` consumes is blanks only |
| Lexer.Find | src/parser.rs:42 | finds the first occurrence of a text at or after the cursor, or reports that there is none |
| Lexer.FindAt | src/parser.rs:42 | an occurrence with none before it is the one found |
| Lexer.TakeUntilAndConsume | src/parser.rs:42 | skips exactly past the first occurrence of the text; fails when it does not occur |
| Lexer.TakeUntil | src/parser.rs:70 | returns the text up to the first occurrence, which is left at the cursor; fails when it does not occur |
| Lexer.Comment | src/parser.rs:40-43 | a line comment starts with `//` and ends just after a line break |
| Lexer.CommentLine | src/parser.rs:42 | a line comment ends at the first line break after `//` |
| Lexer.BlockComment | src/parser.rs:44-47 | a block comment starts with `/*` and ends just after a `*/` |
| Lexer.BlockCommentFirstClose | src/parser.rs:46 | a block comment ends at the first `*/` after `/*`, so comments do not nest |
| Lexer.Br | src/parser.rs:49-53 | a break consumes input, starts with a blank or `/`, and always matches at a blank |
| Lexer.BrKinds | src/parser.rs:50-53 | a break is a blank run, else a line comment, else a block comment: the first of them that matches |
| Lexer.Breaks | src/parser.rs:58 | `many0!(br)` never moves backwards and does not move where no break can start |
| Lexer.BreaksSkip | src/parser.rs:58 | `many0!(br)` stays put where no break matches, skips a break and continues after it otherwise, and stops where no break matches |
| Lexer.Breaks1 | src/parser.rs:69 | `many1!(br)` matches exactly when one break does, and then stops where `many0!(br)` from the same place stops |
| Lexer.BreaksOverBlank | src/parser.rs:69 | one blank before solid text is exactly one break |
| Lexer.Integer | src/parser.rs:35-38 | `integer` consumes digits up to the first non-digit and yields a non-negative `i32` |
| Lexer.IntegerValue | src/parser.rs:35-38 | the value read is the base-10 value of the digits consumed |
| Lexer.IntegerRejectsOverflow | src/parser.rs:35-38 | digits whose value exceeds `i32::MAX` make `integer` fail |
| Lexer.IntegerReads | src/parser.rs:35-38 | the decimal numeral of an `i32` value, not followed by a digit, is read back as that value |
| Lexer.HexInteger | src/parser.rs:26-33 | `hex_integer` needs `0x`, consumes hex digits up to the first non-hex-digit and yields a non-negative `i32` |
| Lexer.HexIntegerValue | src/parser.rs:26-33 | the value read is the base-16 value of the hex digits after `0x` |
| Lexer.HexIntegerRejectsOverflow | src/parser.rs:26-33 | hex digits whose value exceeds `i32::MAX` make `hex_integer` fail |
| Lexer.HexIntegerReads | src/parser.rs:26-33 | `0x` and the hex numeral of an `i32` value are read back as that value |
| Lexer.DecimalText | src/parser.rs:35-38 | the numeral written for a number starts with a digit |
| Lexer.DecimalTextDigits | src/parser.rs:35-38 | the numeral written for a number is all digits |
| Lexer.DecimalTextValue | src/parser.rs:35-38 | reading the written numeral gives the number back (the inverse of reading digits) |
| Lexer.DecimalNumeral | src/parser.rs:35-38 | every `i32` value has a numeral that `integer` reads back |
| Lexer.Trim | src/parser.rs:118-119 | `str::trim` leaves no white space at either end |
| Lexer.TrimPadded | src/parser.rs:118-119 | the trimmed text is the original with only white space removed around it |
| Lexer.TrimKeeps | src/parser.rs:118-119 | text with no white space at either end is unchanged |
| FieldGrammar.KeyVal | src/parser.rs:114-121 | an attribute starts with `[`; its key is the word after `[` and its breaks; the `=` is the one right after the key and its breaks, so in `[a = b = c]` the key is `a` and the value `b = c`; the value is the trimmed text after that `=` and its breaks, up to the first `]`, and the parse resumes after that `]` and the breaks that follow it |
| FieldGrammar.BracketValue | src/parser.rs:117-118 | the value ends just before the first `]` after `=` and its breaks, and is that text trimmed |
| FieldGrammar.KeyVals | src/parser.rs:195 | `many0!(key_val)` never fails; it reads nothing where no attribute stands, and otherwise its first pair is the attribute at the cursor |
| FieldGrammar.KeyValsInOrder | src/parser.rs:195 | attributes written one after another are read as their pairs in written order, up to where no attribute follows |
| FieldGrammar.AttributeSampleReads | src/parser.rs:538-545 | the test's attribute `[default = 17]` in front of the field's `;` reads as the single pair (`default`, `17`) and stops at the `;` |
| FieldGrammar.Rule | src/parser.rs:123-128 | `rule` reads exactly its keyword; it fails only when none of the three keywords stands at the cursor |
| FieldGrammar.FirstTag | src/parser.rs:130-152 | the tag found among the keyword alternatives stands at the cursor |
| FieldGrammar.FirstTagFirst | src/parser.rs:130-152 | no keyword tried before the one found matches, and none matches when none is found |
| FieldGrammar.FirstTagSome | src/parser.rs:130-152 | the first matching keyword is the one found |
| FieldGrammar.FirstTagNone | src/parser.rs:130-152 | with no keyword matching, none is found |
| FieldGrammar.FieldType | src/parser.rs:130-152 | `field_type` never fails (the word fallback may be empty) |
| FieldGrammar.FieldTypeOrder | src/parser.rs:130-152 | the `alt!` order of `field_type`: a keyword found gives its type; a map type is read only where no keyword matches; a type name only where neither a keyword nor a map type matches, and it is the word at the cursor |
| FieldGrammar.MapField | src/parser.rs:154-160 | a map type starts with `map` and consumes input |
| FieldGrammar.MapOperands | src/parser.rs:154-160 | the operands of a map type consume input |
| FieldGrammar.TagIndex | src/parser.rs:132-149 | every keyword type has its tag among the alternatives |
| FieldGrammar.TagsInOrder | src/parser.rs:132-149 | no keyword tag is a prefix of a keyword tried after it |
| FieldGrammar.KeywordTypeReads | src/parser.rs:132-149 | a keyword written alone is found as itself despite prefix matching |
| FieldGrammar.TagShape | src/parser.rs:132-149 | every keyword tag is a non-empty word not starting with `m` |
| FieldGrammar.FieldTypeReads | src/parser.rs:130-152 | a keyword type or type name written at the cursor is read back as itself |
| FieldGrammar.NameTypeReads | src/parser.rs:151 | a name that starts with no keyword is read as `MessageOrEnum(name)` |
| FieldGrammar.TagTypeReads | src/parser.rs:132-149 | a keyword written alone is read as its type |
| FieldGrammar.NoTagBeforeName | src/parser.rs:132-151 | no keyword matches before a type name |
| FieldGrammar.NoMapBeforeName | src/parser.rs:150-151 | a type name other than `map` is not a map type |
| FieldGrammar.MapNeedsAngle | src/parser.rs:154-160 | `map` followed by a word character is not a map type |
| FieldGrammar.MapFieldStops | src/parser.rs:154-160 | `map` not followed by breaks and `<` is not a map type |
| FieldGrammar.NoTagBeforeMap | src/parser.rs:132-149 | no keyword alternative starts with `m`, so none shadows `map` |
| FieldGrammar.MapFromOperands | src/parser.rs:154-160 | `map`, breaks, `<`, breaks, a key type, breaks, `,`, breaks, a value type and `>` is read as `Map(K, V)`, with K and V read recursively as field types, key first |
| FieldGrammar.MapWithBlankReads | src/parser.rs:476 | `map<string, int32> x`, with a blank after the comma, reads as a map from `string` to `int32` ending before ` x` |
| FieldGrammar.GroupFieldsOrSemicolon | src/parser.rs:183-188 | `;` gives no body; anywhere else the result is exactly the braced field list, wrapped in `Some`, and fails when that fails |
| FieldGrammar.FieldsInBraces | src/parser.rs:162-169 | a braced list starts with `{`; its fields are what the field list reads after `{` and its breaks, and it ends just after the `}` that follows them and their breaks; it is read exactly when the `{` and that `}` stand there |
| FieldGrammar.FieldList | src/parser.rs:166 | `separated_list!` never fails; it is empty where no field starts, and otherwise its first element is the field at the cursor |
| FieldGrammar.MoreFields | src/parser.rs:166 | the tail of the list never fails; it is empty unless one break and a field follow, and then that field comes first |
| FieldGrammar.FieldsInOrder | src/parser.rs:166 | fields written one after another, exactly one break between neighbours, are the list's fields in declaration order, up to where no break and field follow |
| FieldGrammar.MessageField | src/parser.rs:190-226 | a field consumes input |
| FieldGrammar.FieldAfterRule | src/parser.rs:193-226 | the part of a field after the rule and its breaks consumes input |
| FieldGrammar.FieldHead | src/parser.rs:193-194 | one or more breaks, then the name, `=` and number after the type consume input |
| FieldGrammar.NameAndNumber | src/parser.rs:193-194 | the name, `=` and number consume input |
| FieldGrammar.NumberAfterName | src/parser.rs:194 | `=`, breaks and the number consume input |
| FieldGrammar.MessageFieldParts | src/parser.rs:190-226 | a field written as optional rule, type, head (breaks, name, `=`, number), attributes and `;` or a body reads as the field assembled from those parts: its name, number and declared rule (`Optional` when none), its `default` attribute, a `group` taking its body's fields; the parse resumes after the body |
| FieldGrammar.Lookup | src/parser.rs:211-222 | `find` yields the value of the first pair with the key, and nothing exactly when no pair has it |
| FieldGrammar.ParseBool | src/parser.rs:218-222 | `bool::from_str` accepts exactly `true` and `false` |
| FieldGrammar.AssembleField | src/parser.rs:198-224 | the rule defaults to `Optional`; `default` is the first `default` value; `packed` is absent when absent; `deprecated` is false when absent; a `group` with a body takes the body's fields, and any other type keeps itself; a non-boolean `packed` or `deprecated` fails |
| Events.Latest | src/parser.rs:262-279 | the latest value is absent exactly when no event has one |
| Events.CollectAppend | src/parser.rs:262-279 | what two stretches of events contribute is concatenated in order |
| Events.CollectSnoc | src/parser.rs:262-279 | one more event adds its contribution at the end |
| Events.LatestAppend | src/parser.rs:262-279 | a later stretch with a value overrides an earlier one |
| Events.LatestSnoc | src/parser.rs:262-279 | one more event with a value overrides all before it |
| Events.BuildMessage | src/parser.rs:262-279 | the loop computes the fold of the events over an empty message |
| Events.MessageSpecSnoc | src/parser.rs:267-276 | the member-by-member description takes one event the way the loop body does |
| Events.MessageOfSpec | src/parser.rs:262-279 | the fold is the member-by-member description: fields, oneofs, nested messages and enums in order, each `reserved` list from the last statement of its kind |
| Events.MessageAppends | src/parser.rs:268-276 | fields, oneofs, nested messages and nested enums are appended in source order |
| Events.OneOfKeepsFields | src/parser.rs:269-274 | a oneof goes whole into the oneofs, and its members never join the message's fields |
| Events.ReservedNumsLastWins | src/parser.rs:270 | a later `reserved` number list replaces an earlier one |
| Events.ReservedNamesLastWins | src/parser.rs:271 | a later `reserved` name list replaces an earlier one |
| Events.ReservedDefaultsEmpty | src/parser.rs:263-266 | with no `reserved` statement both lists stay empty |
| Events.IgnoredItemNeutral | src/parser.rs:275 | an ignored item changes nothing |
| Events.BuildFile | src/parser.rs:356-370 | the loop computes the fold of the events over the default descriptor |
| Events.FileSpecSnoc | src/parser.rs:359-367 | the member-by-member description takes one event the way the loop body does |
| Events.FileOfSpec | src/parser.rs:356-370 | the fold is the member-by-member description: last `syntax` and `package`, imports, messages, enums and extensions in order |
| Events.FileDefaults | src/parser.rs:357 | without `syntax` the file is proto2, and without `package` its package name is empty |
| Events.SyntaxLastWins | src/parser.rs:360 | the last `syntax` statement wins |
| Events.PackageLastWins | src/parser.rs:362 | the last `package` statement wins |
| Events.FileAppends | src/parser.rs:361-365 | imports, messages, enums and extensions accumulate in order |
| Events.ExtendBlockAppends | src/parser.rs:365 | an `extend` block adds all its extensions, in order, after the earlier ones |
| Events.IgnoredNeutral | src/parser.rs:366 | an ignored statement changes nothing |
| Aggregates.SpanRange | src/parser.rs:86 | the range covers exactly the numbers from `from` to `to`, saturating at `i32::MAX` |
| Aggregates.NumRange | src/parser.rs:82-88 | `A to B` consumes input |
| Aggregates.NumRangeSpan | src/parser.rs:82-88 | `num_range` yields the span from the number at the cursor to the number after `to`, and ends where that number ends |
| Aggregates.SpanEnd | src/parser.rs:85 | the part after `to` consumes input |
| Aggregates.SpanEndAfterTo | src/parser.rs:85 | the last number is read after at least one break, `to`, and at least one more break |
| Aggregates.ReservedNum | src/parser.rs:97 | a list item consumes input |
| Aggregates.ReservedNumAlternatives | src/parser.rs:97 | a span is tried first and wins when it matches; otherwise the item matches exactly when a number does, and is the one-number range `n..n+1` |
| Aggregates.Comma | src/parser.rs:96 | the list separator consumes input |
| Aggregates.NumList | src/parser.rs:95-98 | the list never fails |
| Aggregates.MoreNums | src/parser.rs:95-98 | the tail of the list never fails |
| Aggregates.ReservedNums | src/parser.rs:90-100 | a number `reserved` statement starts with `reserved` and consumes input |
| Aggregates.NameSeparators | src/parser.rs:109 | breaks and commas after a quoted name never fail |
| Aggregates.QuotedName | src/parser.rs:108-109 | a quoted name starts with a quote; the name is the word after it, a quote follows the word, and the separators after that quote are consumed |
| Aggregates.QuotedNameList | src/parser.rs:107-110 | the name loop never fails; every name it reads is a word, the first is the quoted name at the cursor, and it stops only where no quoted name follows |
| Aggregates.ReservedNames | src/parser.rs:102-112 | a name `reserved` statement starts with `reserved` and has at least one name; the first is the quoted name after the keyword and its breaks |
| Aggregates.QuotedNamesInOrder | src/parser.rs:107-110 | quoted names written one after another are read in written order, up to where no quoted name follows |
| Aggregates.ReservedNamesInOrder | src/parser.rs:102-112 | `reserved`, breaks and quoted names written one after another, then breaks and `;`, read as all the names in written order (`["foo", "bar"]` in the test at lines 514-534), resuming after the `;` |
| Aggregates.NamesSampleReads | src/parser.rs:514-534 | the test's `reserved "foo", "bar";` reads as `["foo", "bar"]`, consuming the whole statement |
| Aggregates.SingleReads | src/parser.rs:97 | a numeral written with no break before the `,` or `;` that follows it becomes `n..n+1` |
| Aggregates.SpanReads | src/parser.rs:82-88 | `A to B`, with single blanks around `to` and no break before the `,` or `;` that follows, becomes `A..B+1` |
| Aggregates.CommaReads | src/parser.rs:96 | `, ` before a number is one separator |
| Aggregates.SemicolonStops | src/parser.rs:95-98 | the list stops before a `;`, with or without breaks in front of it |
| Aggregates.MoreNumsInOrder | src/parser.rs:95-98 | items written one after another, each after a comma separator, are read by the list's tail in written order, up to where no separator and item follow |
| Aggregates.NumListInOrder | src/parser.rs:95-98 | a first item and further items written after comma separators are the list's ranges in written order |
| Aggregates.ReservedNumsInOrder | src/parser.rs:90-100 | `reserved`, one or more breaks, a first item and further items after comma separators, then breaks and `;`, read as all the items' ranges in written order, resuming after the `;` |
| Aggregates.NumsSampleReads | src/parser.rs:514-534 | the test's `reserved 4, 15, 17 to 20, 30;` reads as `[4..5, 15..16, 17..21, 30..31]`, in written order, consuming the whole statement |
| Aggregates.Heading | src/parser.rs:174 | the heading shared by `oneof` and `extend` (line 286) starts with its keyword; the name is the word after the keyword and its breaks |
| Aggregates.OneOf | src/parser.rs:171-181 | a oneof starts with `oneof`; it is named by its heading, and its fields are exactly the braced field list after the heading |
| Aggregates.ExtendAll | src/parser.rs:288-291 | one extension per field, each with the extendee and that field, in field order |
| Aggregates.Extensions | src/parser.rs:283-294 | an `extend` block starts with `extend`; it has one extension per field of the braced list after the heading, in order, each with the heading's name as extendee |
| Aggregates.HeadingReads | src/parser.rs:174 | `kw X {` written with single blanks is headed by `X` |
| Aggregates.EnumNumber | src/parser.rs:299 | an enum number consumes input and is non-negative |
| Aggregates.EnumNumberValue | src/parser.rs:299 | the number is either `0x` and hex digits read in base 16, or decimal digits read in base 10 |
| Aggregates.EnumValueTail | src/parser.rs:299-303 | the value carries its name, and its number is the number read at the cursor |
| Aggregates.ValueEnd | src/parser.rs:300-303 | the value is the name with the number |
| Aggregates.NotHexPrefix | src/parser.rs:299 | at a decimal numeral the hexadecimal alternative, tried first, fails |
| Aggregates.HexPrefixEndsDigits | src/parser.rs:299 | where `0x` stands, the decimal alternative can read only the `0` |
| Aggregates.EnumHexReads | src/parser.rs:296-305 | `0x` and a hex numeral with `;` right after it (no break between) give the numeral's base-16 value |
| Aggregates.EnumDecimalReads | src/parser.rs:296-305 | a decimal numeral with `;` right after it (no break between) gives the numeral's value |
| Aggregates.EnumHexOverflowFails | src/parser.rs:26-33 | a hex number above `i32::MAX` fails both alternatives |
| Aggregates.EnumDecimalOverflowFails | src/parser.rs:35-38 | a decimal number above `i32::MAX` fails both alternatives |
| Aggregates.EnumValue | src/parser.rs:296-305 | an enum value consumes input |
| Aggregates.EnumValueName | src/parser.rs:299 | an enum value is named by the word at the cursor, and a `=` follows that word and its breaks |
| Aggregates.EnumValues | src/parser.rs:311 | the value loop never fails and stops only where no value follows |
| Aggregates.EnumValuesInOrder | src/parser.rs:311 | values read one after another are the enum's values in declaration order |
| Aggregates.Semicolons | src/parser.rs:312 | consumes exactly the run of semicolons |
| Aggregates.Enumerator | src/parser.rs:307-317 | an enum starts with `enum`; it is named by the word after the keyword and its breaks, and its values are what the braced body after that word and its breaks reads |
| Aggregates.EnumeratorEnd | src/parser.rs:311-312 | an enum ends after its closing `}`, the breaks after it and the whole run of `;` that follows them, so `enum E {};` consumes its `;` |
| Aggregates.EnumBody | src/parser.rs:310-312 | the braced body starts with `{`; its values are what the value loop reads after `{` and its breaks, and it ends just after the `}` that follows them and their breaks; it is read exactly when the `{` and that `}` stand there |
| Aggregates.MessageEvent | src/parser.rs:238-247 | a message item consumes input |
| Aggregates.MessageEventOrder | src/parser.rs:238-247 | the `alt!` order of `message_event`: `reserved` numbers, then `reserved` names, then a field, each giving its item when it is the first to match, and only then the nested alternatives |
| Aggregates.NestedEvent | src/parser.rs:243-246 | a nested item consumes input |
| Aggregates.NestedEventOrder | src/parser.rs:243-246 | then a nested message, an enum, a oneof, in that order; failing all three, the item matches exactly when a break does, and is ignored |
| Aggregates.MessageEvents | src/parser.rs:253 | the item loop never fails and stops only where no item matches |
| Aggregates.MessageEventsInOrder | src/parser.rs:253 | items written one after another are the body's events in written order, up to where no item follows |
| Aggregates.Message | src/parser.rs:249-281 | a message starts with `message`; it is named by the word after the keyword and its breaks, and it is the fold of the events its braced body reads |
| Aggregates.MessageEnd | src/parser.rs:253-254 | a message ends after its closing `}`, the breaks after it and the whole run of `;` that follows them, so `message A {};` consumes its `;` |
| Aggregates.MessageBody | src/parser.rs:252-254 | the braced body starts with `{`; its events are what the event loop reads after `{` and its breaks, and it ends just after the `}` that follows them and their breaks; it is read exactly when the `{` and that `}` stand there |
| FileGrammar.SyntaxDecl | src/parser.rs:55-64 | a syntax statement starts with `syntax` and consumes input |
| FileGrammar.SyntaxName | src/parser.rs:60-61 | `"proto2"` gives Proto2, else `"proto3"` gives Proto3, else it fails |
| FileGrammar.SyntaxValue | src/parser.rs:55-64 | the version is the quoted name after the keyword, its breaks, `=` and its breaks; the statement ends just after the `;` that follows the name and its breaks |
| FileGrammar.Import | src/parser.rs:66-73 | an import starts with `import`, and its path contains no quote |
| FileGrammar.ImportPath | src/parser.rs:69-70 | after the keyword and its breaks stands a quote; the path is what `take_until!` reads after it: the text up to the next quote |
| FileGrammar.QuotedPath | src/parser.rs:69-71 | a quoted path starts and ends with a quote, and its text holds no quote |
| FileGrammar.QuotedPathTakeUntil | src/parser.rs:69-71 | a quoted path is read exactly when a quote stands there and `take_until!` finds another after it; its text is what `take_until!` reads, and it ends just after the quote where `take_until!` stopped |
| FileGrammar.ImportEnd | src/parser.rs:71 | an import ends just after the `;` that follows the quoted path and the breaks after it |
| FileGrammar.Package | src/parser.rs:75-80 | a package statement starts with `package`, and its name is a word |
| FileGrammar.PackageName | src/parser.rs:78 | the package name is the word after the keyword and its breaks, and a `;` follows it and its breaks |
| FileGrammar.PackageEnd | src/parser.rs:78 | a package statement ends just after the `;` that follows the name and the breaks after it |
| FileGrammar.OptionIgnore | src/parser.rs:319-322 | an option starts with `option` and ends just after a `;` |
| FileGrammar.OptionFirstSemicolon | src/parser.rs:321 | no `;` stands between the keyword's breaks and the `;` that ends the option |
| FileGrammar.ServiceIgnore | src/parser.rs:324-330 | a service starts with `service` and ends just after a `}` |
| FileGrammar.ServiceFirstClose | src/parser.rs:327-328 | after the name a `{` follows, and no `}` stands between it and the `}` that ends the service, whatever braces open in between |
| FileGrammar.Event | src/parser.rs:342-353 | a top-level statement consumes input |
| FileGrammar.EventOrder | src/parser.rs:342-349 | the `alt!` order of `event`: `syntax`, `import`, `package`, each giving its statement when it is the first to match, and only then the definitions |
| FileGrammar.Definition | src/parser.rs:347-352 | a definition or ignored statement consumes input |
| FileGrammar.DefinitionOrder | src/parser.rs:347-352 | then a message, an enum, an `extend` block, in that order, and only then the ignored statements |
| FileGrammar.Ignorable | src/parser.rs:350-352 | options, services and breaks are read as `Ignore` |
| FileGrammar.IgnorableOrder | src/parser.rs:350-352 | an ignored statement matches exactly when an option, a service or a break does, and ends where the first of them to match ends |
| FileGrammar.FileEvents | src/parser.rs:356 | the event loop never fails and stops only where no statement matches |
| FileGrammar.ParseFile | src/parser.rs:355-370 | the file parses exactly when the events cover the whole input; the descriptor is then the member-by-member description of its events |
| FileGrammar.EventFailsAtStray | src/parser.rs:342-353 | no statement starts at a character that begins no keyword and no break |
| FileGrammar.KeywordsFail | src/parser.rs:344-349 | no keyword statement starts at such a character |
| FileGrammar.IgnorableFails | src/parser.rs:350-352 | neither option, service nor break starts at such a character |
| FileGrammar.FileEventsInOrder | src/parser.rs:356 | statements read one after another are the loop's events in order |
| FileGrammar.FileReads | src/parser.rs:355-370 | a file read completely as statements parses into the fold of their events |
| FileGrammar.StrayTextRejected | src/parser.rs:590-599 | a file whose statements are followed by stray text does not parse |

## Left out

- nom's `Incomplete` outcome: the input is a complete text, so a rule that would ask for more input is a mismatch.
- UTF-8 checks by `String::from_utf8` and `str::from_utf8`: the input is a sequence of ASCII characters.
- The panics of `expect` on a `packed` or `deprecated` value that is not `true` or `false`: in the model the field does not parse (`FieldGrammar.AssembleField` returns nothing).
- The contents of `option` and `service` statements: they are skipped through the first `;` and the first `}`, as in the code.
- `key_val` follows the code, not the usual reading of the attribute syntax: one `[key = value]` pair per pair of brackets, the value running to the first `]`.
- The descriptor type definitions live outside `src/parser.rs`; `src/lib.rs` is not part of this model, and `FileGrammar.ParseFile` models its `FileDescriptor::parse` as the events of `file_descriptor` having to cover the whole input.
- FieldGrammar.MessageField: its own contract states progress; what a written field reads as is stated by `FieldGrammar.MessageFieldParts`, which takes the type, the attributes and the body as what their own rules read there.
- Aggregates.ReservedNames: its own contract states the first name and that all names are words; the whole list is stated by `Aggregates.ReservedNamesInOrder`.
- Aggregates.SingleReads, Aggregates.SpanReads, Aggregates.EnumHexReads and Aggregates.EnumDecimalReads: cover the layouts of the tests, with the `,` or `;` right after the numeral; the rules also accept breaks there, which these lemmas do not cover.
- Aggregates.OneOf and Aggregates.Extensions: their fields are stated as what `fields_in_braces` reads; a written field list is read back by `FieldGrammar.FieldsInOrder`, but no lemma composes the two from a whole written `oneof` or `extend` block.
- FileGrammar.EventFailsAtStray: covers text that starts with a character no statement starts with, such as the `dfgdg` of the test; a word that begins like a keyword is not covered.
- Lexer.Br: its own contract states progress and the first character; which kind of break it reads, in `alt!` order, is stated by `Lexer.BrKinds`.
- Lexer.Breaks: its own contract states monotonicity; that it skips exactly a run of breaks is stated by `Lexer.BreaksSkip`.
- Aggregates.NumRange: its own contract states progress; the span it yields is stated by `Aggregates.NumRangeSpan`.
- Aggregates.ReservedNum: its own contract states progress; the span-or-single choice and its value are stated by `Aggregates.ReservedNumAlternatives`.
- Aggregates.EnumValue: its own contract states progress; the name is stated by `Aggregates.EnumValueName`, and the number is read by `Aggregates.EnumValueTail`, whose contract ties it to `Aggregates.EnumNumber`.
- Aggregates.MessageEvent: its own contract states progress; the `alt!` order and the item yielded are stated by `Aggregates.MessageEventOrder`.
- Aggregates.NestedEvent: its own contract states progress; the `alt!` order and the item yielded are stated by `Aggregates.NestedEventOrder`.
- FileGrammar.Event: its own contract states progress; the `alt!` order and the statement yielded are stated by `FileGrammar.EventOrder`.
- FileGrammar.Definition: its own contract states progress; the `alt!` order and the statement yielded are stated by `FileGrammar.DefinitionOrder`.
- FileGrammar.SyntaxDecl: its own contract states the keyword and progress; the version read and where the statement ends are stated by `FileGrammar.SyntaxValue`.
- FieldGrammar.MapField: its own contract states the keyword and progress; what a written map type reads as is stated by `FieldGrammar.MapFromOperands`.
- FieldGrammar.MapOperands: its own contract states progress; the key and value types it reads are stated by `FieldGrammar.MapFromOperands`.
- Aggregates.SpanEnd: its own contract states progress; the breaks, `to` and number it reads are stated by `Aggregates.SpanEndAfterTo`.
- Aggregates.Comma: its own contract states progress; the separator it reads before a number is stated by `Aggregates.CommaReads`.
- Aggregates.ReservedNums: its own contract states the keyword and progress; the whole list of ranges is stated by `Aggregates.ReservedNumsInOrder`.
- FieldGrammar.FieldAfterRule: its own contract states progress; what it reads is stated by `FieldGrammar.MessageFieldParts`, through `FieldGrammar.FieldAfterRuleParts`.
- FieldGrammar.FieldHead: its own contract states progress; what it reads is stated by `FieldGrammar.MessageFieldParts`, through `FieldGrammar.FieldHeadParts`.
- FieldGrammar.NameAndNumber: its own contract states progress; what it reads is stated by `FieldGrammar.MessageFieldParts`, through `FieldGrammar.NameAndNumberParts`.
- FieldGrammar.NumberAfterName: its own contract states progress; what it reads is stated by `FieldGrammar.MessageFieldParts`, through `FieldGrammar.NumberAfterNameParts`.
- Floating point is not involved: `float` and `double` are only type keywords.
