# rust-edn reader core in Dafny

This project models the reading half of `rust-edn`, a reader and writer for
EDN (extensible data notation) text. It also models the small writer.

- **Lexer** (`lexer.dfy`): one left-to-right pass over the input bytes that
  cuts them into units: Atoms, String bodies and bracket units of three
  families (list, vector, map). `Step` is one iteration of the scanning loop
  as a pure state transition. `Run` iterates it, and `Lex` flushes the span
  still pending at the end of the input. `LexLoop` is the same loop written
  imperatively, with mutable cursors and flags, and is proved equal to `Lex`.
- **Atom grammar** (`atoms.dfy`): the symbol and keyword grammar
  (`ParseSymbol`, `ParseKeyword`), booleans, and the classification of a leaf
  unit into a node (`HandleAtom`).
- **Reader** (`reader.dfy`): the recursive descent `ReadAhead` /
  `ReadCollection` over the unit sequence, and the entry points `EdnRead` and
  `EdnWrite`.
- **Node tree and writer** (`types.dfy`): the `Node` tree and the writer
  `ToString`. The writer's UTF-8 decoding is modelled by the validity
  predicate of section 4 of RFC 3629 (`utf8.dfy`).
- **Whole-text properties** (`roundtrip.dfy`): what small inputs read as,
  and what survives a write followed by a read.

The model follows the code, quirks included. Compared with the EDN format
(github.com/edn-format/edn):

- Numbers, symbols and characters are not parsed. Every unrecognised atom
  reads as `Nil`, so no `Symbol`, `Int`, `Float` or `Char` node is ever
  built.
- Braces give a `Map` with no children.
- A keyword's namespace keeps its trailing `/`.
- An opening and a closing bracket of one family are the same unit, so
  `(a(` reads like `(a)`.
- An opening quote drops the word pending before it instead of ending it.
- Comment text is not skipped. A semicolon only sets a comment flag, and
  the comment's bytes are lexed like any others: separators split it,
  quotes open strings. Only the newline that ends the comment is special:
  it flushes the pending Atom and starts the next one. A comment of
  ordinary bytes therefore becomes one Atom.
- The discard marker `#_` discards nothing. When it opens the pending span
  and an ordinary byte follows, it is cut off as an Atom of its own; a
  quote after it drops it like any other pending word.
- The escape flag only changes outside strings. It keeps the next quote from
  opening a string and the next semicolon from opening a comment, and a
  separator does not clear it.
- The writer is partial. It only knows `Nil`, `Bool` and `String` and
  returns an error for every other node. It writes a String's bytes without
  quotes.

The image of `ReadTokens`, the reader over a unit sequence, is characterised
exactly:

- `Readable` describes the trees it can build.
- `Emit` turns such a tree back into units.
- `ReadEmit` proves that the reader recovers the tree from those units,
  whatever follows them.

Not every `Readable` tree is read from some text: a String holding a quote,
for one, is not.

The repository's tests state a round trip from text: read it, write the
result, and get the text back. It holds exactly for `nil`, `true` and
`false`: `LiteralRoundTrip` proves that it holds for them, and
`TextRoundTrip` proves that it fails for every other text.
`QuotedString` shows how it fails for strings.

## Model

| member | source | states |
|---|---|---|
| `Types.ToString` | src/types.rs:22-30 | Writing succeeds exactly for `Nil`, and for a `Bool` or `String` whose bytes are valid UTF-8. The text is `nil` or the node's own bytes, and it is valid UTF-8. A failure is "UTF8 decoding failure" for Bool and String and "UNKNOWN" for every other node. |
| `Utf8.AsciiIsValidUtf8` | src/types.rs:24-26 | Any ASCII text, such as the `nil` literal, decodes as UTF-8. |
| `Utf8.InvalidExamples` | src/types.rs:25-26 | Examples of the decoding predicate alone: a lone continuation byte, an overlong two-byte encoding and an encoded surrogate are not valid UTF-8. |
| `Lexemes.GetMatchingParen` | src/reader.rs:15-22 | Only the three bracket families have a closing byte. The byte is `)`, `]` or `}`, and it maps back to the same family. |
| `Lexemes.GetParenLexeme` | src/reader.rs:24-31 | Exactly the six bracket bytes have a family. Both bytes of a pair map to the same family: `()` to list, `[]` to vector, `{}` to map. |
| `Lexemes.ByteClasses` | src/reader.rs:33-52 | `is_digit` holds on ten bytes, `is_paren` on six and `is_whitespace` on five. No byte is in two of these classes. |
| `Lexer.Flush` | src/reader.rs:109-112 | A non-empty pending span is emitted as one Atom covering exactly `token..pos`. An empty one emits nothing, so an empty Atom never appears. Earlier units are kept. |
| `Lexer.Lex` | src/reader.rs:60-143 | Lexing never fails, and every unit is an in-bounds slice of the input. |
| `Lexer.Step` | src/reader.rs:67-137 | One loop iteration never fails. It consumes exactly one byte and keeps every unit emitted so far, adding at most two. |
| `Lexer.Run` | src/reader.rs:67-137 | The loop never fails, ends at the end of the input, and only appends units. |
| `Lexer.LexLoop` | src/reader.rs:60-143 | The imperative scanning loop with its flags and cursors computes exactly the state-machine lexer `Lex`, and it succeeds. |
| `Lexer.StepPreservesInv` | src/reader.rs:67-137 | Each iteration keeps the scan invariant. Emitted spans are well-formed and ordered. Inside a string the escape flag is clear, and the pending bytes hold no quote. A comment is open only after a semicolon. |
| `Lexer.RunPreservesInv` | src/reader.rs:67-137 | The whole scan keeps that invariant. |
| `Lexer.LexWellFormed` | src/reader.rs:60-143 | Lexing never fails, so the "WTF?" error cannot occur. Every unit is an in-bounds span, ordered after the previous one. An Atom is never empty. A bracket unit is empty and sits on a byte of its family. A String unit ends at a quote and holds none. |
| `Lexer.LexStringsBetweenQuotes` | src/reader.rs:81-91 | Without semicolons in the input, a String unit is exactly the bytes between an opening and a closing quote. |
| `Lexer.SeparatorEmitsNoOwnToken` | src/reader.rs:108-120 | A whitespace byte outside a string emits no unit of its own. At most the pending Atom before it is flushed. |
| `Lexer.RunPlain` | src/reader.rs:121-136 | Ordinary bytes only extend the pending span, in or out of a comment. |
| `Lexer.RunInString` | src/reader.rs:93-136 | Inside a string and outside a comment, every byte but a quote only advances the cursor. Nothing is emitted. |
| `Lexer.LexWord` | src/reader.rs:121-140 | A word of ordinary bytes is one Atom covering all of it. |
| `Lexer.LexQuoted` | src/reader.rs:81-91 | A quoted body without quotes is one String unit covering exactly the body. |
| `Lexer.LexWordThenQuoted` | src/reader.rs:81-90 | A word right before an opening quote is dropped. Only the string's body becomes a unit. |
| `Lexer.LexUnterminated` | src/reader.rs:138-140 | The content of a string that is never closed is flushed as an Atom at the end of the input. |
| `Lexer.LexComment` | src/reader.rs:68-79 | A comment of ordinary bytes, semicolon included, is one Atom. The newline that ends it starts the next Atom. |
| `Lexer.LexOpenWord` | src/reader.rs:108-119 | A bracket byte followed by a word gives a bracket unit and then an Atom. |
| `Lexer.LexBracketed` | src/reader.rs:108-119 | A word between two bracket bytes of one family gives three units, whether the second byte closes or opens. |
| `Lexer.LexDiscard` | src/reader.rs:130-134 | A pending `#_` is cut off as an Atom of its own once the next ordinary byte arrives. The word after it is a second Atom. |
| `Lexer.LexEscapedQuote` | src/reader.rs:81-134 | A quote after an escape byte does not open a string. The two bytes are cut off as an Atom, the word after them is a second Atom, and no String unit appears. |
| `Lexer.LexEscapedSemicolon` | src/reader.rs:68-123 | A semicolon after an escape byte opens no comment. The two bytes are an Atom, and the newline after them is a separator that joins no Atom, where after an unescaped semicolon it would start the next one. |
| `Lexer.LexEscapeAcrossSeparator` | src/reader.rs:81-123 | A space does not clear the escape flag. In an escape byte, a space, `"w"`, the first quote opens nothing, the second opens a string that is never closed, and only the escape byte remains as an Atom. |
| `Lexer.LexBlank` | src/reader.rs:108-120 | Input of separators only gives no units. |
| `Atoms.ScanSymbol` | src/reader.rs:166-179 | The backward scan succeeds exactly when every byte is a letter, digit or allowed symbol byte and there is at most one slash. It returns the position just past that slash, or 0 when there is none. |
| `Atoms.ParseSymbol` | src/reader.rs:158-181 | A symbol body is accepted exactly when it is valid: not rejected by its first bytes, only allowed bytes, at most one slash. The split joins back to the input. The namespace keeps its slash and is absent exactly when there is no slash. |
| `Atoms.ParseSymbolInverse` | src/reader.rs:158-181 | Splitting inverts joining: every well-formed namespace and name pair is what `ParseSymbol` returns for its text. |
| `Atoms.ParseKeyword` | src/reader.rs:183-186 | A keyword is accepted exactly when it is a colon followed by a valid symbol body. The colon and the split join back to the input. |
| `Atoms.ValidBoolShape` | src/reader.rs:188-199 | `true` and `false` are neither `nil` nor keyword text, so the checks made before `valid_bool` never take them. As symbol bodies they would be bare names without a namespace. |
| `Atoms.HandleAtom` | src/reader.rs:188-205 | Every non-bracket unit gives a node; a bracket unit gives "Could not parse atom". A String unit keeps its raw bytes. An Atom is `nil`, a Keyword exactly when it is keyword text, a Bool exactly when it is `true` or `false`, and Nil otherwise. |
| `Reader.HandleCollection` | src/reader.rs:145-152 | Only a bracket unit makes a collection, of its own family. List and Vector hold the children read; a Map holds none. Otherwise "WTF?". |
| `Reader.ReadAhead` | src/reader.rs:207-242 | A leaf unit is classified without consuming anything. Any failure is "Unexpected EOF" with nothing left. A node read has the kind of its first unit. |
| `Reader.ReadCollection` | src/reader.rs:209-225 | The collection loop fails only with "Unexpected EOF". A collection read is of the opening unit's family. |
| `Reader.ReadAheadReadable` | src/reader.rs:207-242 | Every node the reader builds is `Readable`. A List never directly holds a List, a Vector never a Vector, a Map has no children, and leaves are nil, booleans, well-formed keywords or strings. |
| `Reader.ReadCollectionReadable` | src/reader.rs:209-225 | The collection loop keeps its children `Readable` and of a family other than its own. |
| `Reader.ReadAheadSuffix` | src/reader.rs:207-242 | The reader only pops units off the front: what it leaves is a suffix of its input. |
| `Reader.ReadCollectionSuffix` | src/reader.rs:211-224 | The same holds for the collection loop. |
| `Reader.ReadCollectionCloses` | src/reader.rs:211-224 | A collection that is read ends on a unit of its own family, and what is left is exactly the units after that unit. |
| `Reader.ReadAheadKeeps` | src/reader.rs:207-242 | The reader only takes units off the front: a family absent from its input is absent from what it leaves. |
| `Reader.ReadTokens` | src/reader.rs:248-254 | An empty unit sequence gives "No parseable tokens found" and nothing else does. Other failures are "Unexpected EOF". A result is `Readable`. |
| `Reader.EdnRead` | src/reader.rs:244-255 | Reading fails only with "Unexpected EOF" or "No parseable tokens found", and builds only `Readable` nodes. |
| `Reader.ReadEmitLeaf` | src/reader.rs:188-205 | A readable leaf is read back from its single unit, leaving what follows. |
| `Reader.ReadEmit` | src/reader.rs:207-242 | Every readable node is read back from its units, and the units after them are left untouched. `Emit` is the reader's inverse. |
| `Reader.ReadEmitAll` | src/reader.rs:209-225 | Children's units followed by a unit of the family complete the collection with those children in order. |
| `Reader.ReadTokensEmit` | src/reader.rs:244-255 | The units of a readable node, followed by anything, read as that node. |
| `Reader.ReadAheadFrame` | src/reader.rs:207-242 | Units appended after a successful read change neither the node nor what is consumed. |
| `Reader.ReadCollectionFrame` | src/reader.rs:209-225 | The same holds for the collection loop. |
| `Reader.ReadTokensIgnoresTrailing` | src/reader.rs:248-254 | Once a value is read, anything appended to the units changes nothing. |
| `Reader.UnclosedCollection` | src/reader.rs:222-223 | A collection whose family never occurs again ends in "Unexpected EOF". |
| `RoundTrip.ReadWord` | src/reader.rs:188-199 | A single word reads as its classification. `nil`, a keyword or a boolean is recognised; every other word, number or symbol, reads as Nil; a Symbol is never built. |
| `RoundTrip.LiteralRoundTrip` | src/reader.rs:257-259 | `nil`, `true` and `false` are written back exactly as read. |
| `RoundTrip.TextRoundTrip` | src/reader.rs:244-259 | A text reads and is written back unchanged exactly when it is `nil`, `true` or `false`. |
| `RoundTrip.ReadStringBeforeQuote` | src/reader.rs:81-91 | A String read from a text comes from bytes the lexer closed on a quote, so the text holds a quote and is longer than the String. |
| `RoundTrip.ReadAfterWrite` | src/reader.rs:257-259 | Nil and the two booleans are read back from what the writer gives for them. |
| `RoundTrip.NodeRoundTrip` | src/reader.rs:244-259 | A node the reader builds is written and read back as itself exactly when it is Nil or one of the two booleans. |
| `RoundTrip.NilReadAfterWrite` | src/types.rs:24 | Nil is written as `nil`, which reads back as Nil. |
| `RoundTrip.BoolReadAfterWrite` | src/types.rs:25 | A boolean is written as its text, which reads back as the same boolean. |
| `RoundTrip.QuotedString` | src/reader.rs:81-91 | A quoted body reads as a String of the body. Writing it gives the body without quotes, and reading the body again does not give a String. |
| `RoundTrip.QuoteDropsPendingWord` | src/reader.rs:85-90 | `w"body"` reads as the String `body`: the word is lost. |
| `RoundTrip.CommentReadsAsNil` | src/reader.rs:68-79 | A comment of ordinary bytes is read as a value, Nil, rather than skipped. |
| `RoundTrip.UnterminatedString` | src/reader.rs:138-140 | An unclosed quote's content is read as a word. |
| `RoundTrip.BlankInput` | src/reader.rs:252 | Input of separators only gives "No parseable tokens found". |
| `RoundTrip.ReadBracketed` | src/reader.rs:207-225 | A word between two bracket bytes of one family reads as a List or Vector holding the word's node, or as a Map with no children. |
| `RoundTrip.BracketsIndistinguishable` | src/reader.rs:24-31 | `(a(` reads like `(a)`, and `]a[` like `[a]`. |
| `RoundTrip.UnclosedBracket` | src/reader.rs:222 | A bracket followed by a word and nothing of its family gives "Unexpected EOF". |

## Left out

- `src/tests.rs` (property tests) is not part of this model. The round trip it states, from text through a read and a write back to text, is examined by `LiteralRoundTrip` and `TextRoundTrip` instead.
- The `println!` in `to_string` (types.rs:28) is output only and is left out.
- `from_utf8` is modelled by the predicate `Utf8.ValidUtf8` (section 4 of RFC 3629). A successful write returns the validated bytes rather than a `&str`.
- `handle_tagged` (reader.rs:154-156) is never called and is left out. So is the commented-out code for tags, string escapes and discard handling.
- The lexer's `usize` cursors are `nat`. They never exceed the input length, so no wrap-around can occur.
- The `LinkedList` of units is a sequence consumed from the front. Borrowed slices are copied into each unit (`Reader.Borrow`). Lifetimes have no counterpart.
- `Reader.EdnWrite` is a plain alias of `Types.ToString` and carries no contract of its own.
- The `Symbol`, `Int`, `Float`, `Char`, `Set`, `Tagged` and `Discard` nodes are declared but never built by the reader. Only `ToString` handles them, with "UNKNOWN".
- Reader.ReadAhead: its own contract only bounds the length of what is left. That it is a suffix of the input is stated by the separate lemma `ReadAheadSuffix`, which keeps the suffix reasoning out of every unfolding of the function.
- Reader.ReadCollection: in the same way, the suffix and the closing unit are stated by `ReadCollectionSuffix` and `ReadCollectionCloses`, not by its own contract.
