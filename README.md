# source-map-loader, modelled in Dafny

This project models the core of `source-map-loader`, the webpack loader
that takes the source map a JavaScript module names in its
`sourceMappingURL` comment and hands it on to webpack. It does the
following:

- it finds the comment;
- it reads the map, either inline from a `data:` URL or from a file
  resolved next to the module;
- it fetches the original sources the map lists;
- it returns the module's text without the comment, together with the
  rebuilt map.

Two generations of the loader are modelled:

- **`src/index.js`** with the helpers of `src/utils.js`: the directive
  expressions with a lookahead, so the *last* directive wins. It takes
  per-source results from embedded contents, from reading the file, or
  from resolving and then reading. It reassembles the map from the
  sources that survive.
- **the root `index.js`**, the package's first version: expressions
  without a lookahead, so the *first* directive wins. It recognises the
  inline map with a regular expression and back-fills missing
  `sourcesContent` before it resolves the sources in place.

Two more modules are modelled alongside the loaders:

- **`src/parse-data-url.js`**: the `data:` URL processor (media type,
  percent-decoding, `atob`, `text/plain` default, media type grammar).
- **`src/parse-mimetype.js`**: `parcer`, `serialize` and
  `getMimeTypeRecord`.

The two media-type parsers share one grammar so that each loop is
defined once. The one difference, whether a quoted value has its `\`
escapes processed, is a `QuoteMode` parameter: `Escaping` or `NoEscape`.

## Layout

| module | models |
|---|---|
| `Text` | strings as `seq<char>`; `indexOf`; `String.prototype.replace` with a string pattern; UTF-8 and Latin-1 conversions (`Buffer.from(…, "utf8")`, `"binary"`) |
| `HttpGrammar` | the character classes, lower-casing and trimming helpers at the top of both parsers; the scan loops as `ScanUntil` and `SkipWhile` |
| `PercentDecode` | `percentDecodeBytes` as a loop, proved against a recursive specification |
| `Base64` | `atobLookup` and `atob` as loops, proved against a specification; an RFC 4648 section 4 encoder as the partner for the round trip |
| `MediaType` | the media type grammar of both parsers: type, subtype, the parameter loop, `collectAnHTTPQuotedString` |
| `MimeType` | `serialize`, `parcer`, `getMimeTypeRecord`; the serialise-then-parse round trip |
| `DataUrl` | `parseDataUrl` from the text after `data:` on: the base64 flag expression, the base64 round trip, the `text/plain` default |
| `Directive` | the `src/index.js` directive expressions `regex1`/`regex2`, in backtracking order, and `input.match(regex1) \|\| input.match(regex2)` |
| `SourceMapUtils` | `normalize` and `flattenSourceMap` of `src/utils.js`, with the generator as a class |
| `Loader` | `loader` of `src/index.js`: dispatch on the URL, per-source results and warnings, reassembly, removal of the directive |
| `LegacyLoader` | the root `index.js`: its expressions, the inline expression, `processMap` on a map object changed in place, the loader |

What the host and the foreign libraries answer is a field of a `Host`
datatype holding functions:

- `resolve` with `urlToRequest`;
- `fs.readFile`;
- `JSON.parse`;
- `data-urls` with the character decoding;
- `isAbsolute`;
- the consumer's `sourceContentFor`;
- `flattenSourceMap` inside the loader;
- `path.dirname`;
- the `Buffer` base64 decoding in the root loader.

The loader is therefore proved for every possible answer of those
functions.

The root `index.js` has its own `Host`, because it asks different
questions of its host. Its `resolve` takes a source that may be `null`.
It decodes an inline payload with `Buffer`, where `src/index.js` hands
the whole URL to `data-urls`. It has no `flatten`, `isAbsolute` or
`sourceContentFor`.

The two loaders also have their own `WrittenLine` and `WrittenBlock`
predicates, and `LegacyLoader` has its own `OnlyStart` and
`NoBlockMatch`. The names match, but the facts differ:

- the root expressions allow white space and take `(.*)` up to the end
  of the line, where `src/index.js` takes a URL without white space;
- the root loader takes the *first* match, so its written directive
  needs `Directive.OnlyKeyword` (no other `sourceMappingURL` anywhere);
- `src/index.js` takes the *last* match, so its written directive needs
  only `Directive.KeywordsBefore` (none after the directive's header).

## Model

| member | source | states |
|---|---|---|
| `Text.IndexOfFrom` | src/index.js:189 | the search `replace` makes for its string pattern (here and at index.js:66): the first occurrence from an index, occurring there and nowhere earlier; `None` means nowhere |
| `Text.ReplaceFirst` | src/index.js:189 | `String.prototype.replace` with a string pattern: the first occurrence is replaced; with no occurrence, the text is unchanged |
| `Text.IndexOfIs` | src/index.js:189 | an occurrence with none before it is exactly what `indexOf` finds |
| `Text.Somes` | src/index.js:172-173 | dropping the `null` results never gives more values than entries |
| `Text.SomesMembers` | src/index.js:172-173 | a value is kept exactly when some entry holds it (also the resolved paths of index.js:50) |
| `Text.SomesConcat` | src/index.js:172-182 | dropping `null`s distributes over concatenation, so the kept values keep their order |
| `Text.SomesAll` | src/index.js:172-173 | with no entry `null`, every value is kept, in order |
| `Text.Utf8Encode` | src/parse-data-url.js:242 | `Buffer.from(s, "utf8")`: ASCII text gives its own codes; the encoding is never shorter |
| `Text.Utf8Char` | src/parse-data-url.js:242 | one to four bytes per character, one exactly for ASCII |
| `Text.Latin1Decode` | src/parse-data-url.js:250 | `toString("binary")`: one character per byte, with the same code |
| `Text.Latin1Encode` | src/parse-data-url.js:257 | `Buffer.from(s, "binary")`: one byte per character, with the same code below 256 |
| `Text.Latin1RoundTrip` | src/parse-data-url.js:250-257 | decoding bytes as Latin-1 and encoding them again gives the bytes back |
| `HttpGrammar.TokenCharIsNoDelimiter` | src/parse-data-url.js:10-11 | token code points include no white space and none of `/`, `;`, `=`, `"`, `\` |
| `HttpGrammar.AsciiLowercase` | src/parse-data-url.js:16-17 | `A`-`Z` become `a`-`z` and every other character is kept, position by position |
| `HttpGrammar.AsciiLowercaseProperties` | src/parse-data-url.js:16-17 | lower-casing leaves no upper-case letter, is idempotent, turns a token into a token and nothing else into one, and leaves text without upper-case letters unchanged |
| `HttpGrammar.TrimEnd` | src/parse-data-url.js:4-5 | removes the longest suffix of white space: what is left is a prefix that does not end in white space, and everything removed is white space |
| `HttpGrammar.TrimEndUnique` | src/parse-data-url.js:4-5 | any prefix with only white space after it and no white space as its last character is the trim |
| `HttpGrammar.TrimStart` | src/parse-data-url.js:1-2 | removes the longest prefix of white space |
| `HttpGrammar.TrimHttpWhitespace` | src/parse-data-url.js:1-2 | the result neither starts nor ends with HTTP white space and is no longer than the input |
| `HttpGrammar.TrimNoop` | src/parse-data-url.js:1-2 | text that neither starts nor ends with white space is left unchanged |
| `HttpGrammar.ScanUntil` | src/parse-data-url.js:225-228 | the first stop character at or after the start, or the end: no stop before it |
| `HttpGrammar.SkipWhile` | src/parse-data-url.js:326-328 | the first character at or after the start that is not skipped, or the end |
| `HttpGrammar.ScanUntilUnique` | src/parse-data-url.js:225-228 | any position with no stop before it and a stop (or the end) at it is the scan |
| `HttpGrammar.SkipWhileUnique` | src/parse-data-url.js:326-328 | any position with only skipped characters before it and none at it is the skip |
| `PercentDecode.HexValue` | src/parse-data-url.js:83-86 | the value of a hex digit is below 16 |
| `PercentDecode.PercentDecodeBytes` | src/parse-data-url.js:68-94 | the loop's output is the percent-decoding of the input |
| `PercentDecode.DecodeFromNoPercent` | src/parse-data-url.js:75-76 | input without `%` is copied unchanged |
| `PercentDecode.PercentDecodedLength` | src/parse-data-url.js:93 | the output is never longer than the input |
| `PercentDecode.PercentDecodedIdentity` | src/parse-data-url.js:75-76 | input without `%` decodes to itself |
| `PercentDecode.DecodeFromExactLength` | src/parse-data-url.js:77-90 | each `%XY` escape turns three bytes into one and every other byte is copied, so the output length is the input length minus two per escape |
| `Base64.AtobLookup` | src/parse-data-url.js:104-109 | a value exactly for `+`, `/` and ASCII alphanumerics, and below 64 |
| `Base64.CharactersAreAlphabet` | src/parse-data-url.js:101-102 | `characters` is the RFC 4648 alphabet, position by position |
| `Base64.LookupIsIndexOf` | src/parse-data-url.js:104-109 | the lookup is `characters.indexOf(c)`: the alphabet has `c` there and nowhere earlier; without a value, nowhere |
| `Base64.LookupAlphabet` | src/parse-data-url.js:104-109 | looking up the character of value `n` gives `n` |
| `Base64.RemoveAsciiWhitespace` | src/parse-data-url.js:121 | no white space is left, and text without white space is kept |
| `Base64.StripPadding` | src/parse-data-url.js:126 | a final `==` is removed, otherwise a final `=`, otherwise nothing |
| `Base64.Sextet` | src/parse-data-url.js:167-170 | the six bits a character contributes: its lookup value when it is in the alphabet |
| `Base64.SextetsBound` | src/parse-data-url.js:167-170 | the value of `k` characters is below `64^k`, so it fits in `6 * k` bits |
| `Base64.GroupBytes` | src/parse-data-url.js:175-181 | a full buffer gives three byte-valued characters |
| `Base64.DecodeGroups` | src/parse-data-url.js:157-183 | `n` complete groups decode to `3 * n` characters |
| `Base64.DecodeTail` | src/parse-data-url.js:191-198 | 12 leftover bits give one byte, 18 give two, and both are byte-valued |
| `Base64.Atob` | src/parse-data-url.js:115-202 | `atob` equals its specification: `null` exactly for length 1 modulo 4 or a character outside the alphabet, otherwise the decoding |
| `Base64.DecodePrepared` | src/parse-data-url.js:144-201 | the loop plus the final flush equal the decoding of the prepared text |
| `Base64.DecodeGroupsLoop` | src/parse-data-url.js:157-183 | after the loop, the output is the decoding of the complete groups, the buffer holds the leftover characters' bits, and `accumulatedBits` is six per leftover character |
| `Base64.FlushStep` | src/parse-data-url.js:175-181 | emptying a full buffer appends the group's three bytes, high byte first |
| `Base64.TailOneByte` | src/parse-data-url.js:191-193 | emptying 12 bits completes the decoding with one byte |
| `Base64.TailTwoBytes` | src/parse-data-url.js:194-198 | emptying 18 bits completes the decoding with two bytes, high byte first |
| `Base64.NoTail` | src/parse-data-url.js:191-198 | with no full leftover, the loop's output is the whole decoding |
| `Base64.DecodeGroupsLatin1` | src/parse-data-url.js:176-178 | every decoded character is a byte value |
| `Base64.AtobLength` | src/parse-data-url.js:115-202 | an accepted text of prepared length `4n + k` decodes to `3n` characters, plus `k - 1` more when `k > 0`, all below 256 |
| `Base64.EncodeGroup` | src/parse-data-url.js:101-102 | three bytes are encoded as four characters of the table (the inverse partner of `atob`) |
| `Base64.EncodeGroups` | src/parse-data-url.js:101-102 | `n` byte triples are encoded as `4 * n` characters |
| `Base64.EncodeGroupsBase64` | src/parse-data-url.js:139 | the encoder writes only characters that `atob` accepts |
| `Base64.EncodeTail` | src/parse-data-url.js:125-127 | one or two final bytes are padded with `=` to four characters |
| `Base64.Base64Encode` | src/parse-data-url.js:125-127 | the padded encoding is a multiple of four long |
| `Base64.GroupRoundTrip` | src/parse-data-url.js:167-181 | four encoded characters fill a buffer whose three bytes are the bytes encoded |
| `Base64.GroupsRoundTrip` | src/parse-data-url.js:157-183 | decoding the first `n` groups of an encoding gives back the first `3 * n` bytes |
| `Base64.OneByteRoundTrip` | src/parse-data-url.js:191-193 | the unpadded tail for one byte decodes back to it |
| `Base64.TwoBytesRoundTrip` | src/parse-data-url.js:194-198 | the unpadded tail for two bytes decodes back to them |
| `Base64.EncodingChars` | src/parse-data-url.js:139 | the encoding holds only alphabet characters and `=` |
| `Base64.EncodingHasNoWhitespace` | src/parse-data-url.js:121 | removing white space leaves an encoding unchanged |
| `Base64.StripEncodedPadding` | src/parse-data-url.js:125-127 | padding after an alphabet character is removed exactly |
| `Base64.PreparedEncoding` | src/parse-data-url.js:121-127 | `atob` prepares an encoding by removing exactly its padding |
| `Base64.UnpaddedAccepted` | src/parse-data-url.js:139-141 | the unpadded encoding passes the length and alphabet checks |
| `Base64.UnpaddedTailDecodes` | src/parse-data-url.js:191-198 | the characters after the complete groups decode to the bytes after the complete triples |
| `Base64.UnpaddedDecodes` | src/parse-data-url.js:157-198 | the unpadded encoding decodes to the bytes |
| `Base64.AtobRoundTrip` | src/parse-data-url.js:115-202 | `atob` of the RFC 4648 encoding of any bytes gives back exactly those bytes, one character each |
| `MediaType.QuotedFrom` | src/parse-data-url.js:19-58 | reading a quoted value never moves outside the text, and from past the end it reads nothing (what it reads is fixed by `MimeType.QuotedFromEscape`) |
| `MediaType.QuotedValue` | src/parse-data-url.js:354-358 | the parser always moves past the opening `"`, and stays within the text |
| `MediaType.CollectAnHttpQuotedString` | src/parse-data-url.js:19-58 | the nested loops compute `QuotedFrom` from just after the opening `"` |
| `MediaType.CollectUntil` | src/parse-data-url.js:284-290 | the collecting loop stops at the scan's end and has collected exactly the text before it |
| `MediaType.SkipUntil` | src/parse-data-url.js:360-365 | the moving loop stops at the scan's end |
| `MediaType.SkipHttpWhitespace` | src/parse-data-url.js:326-328 | the loop stops at the first character that is not HTTP white space; past the end, `undefined` stops it |
| `MediaType.ValuePart` | src/parse-data-url.js:352-380 | the value part ends between its start and the end of the text |
| `MediaType.ParamStep` | src/parse-data-url.js:322-390 | each round strictly advances, so the parameter loop ends |
| `MediaType.ParamStepAtEquals` | src/parse-data-url.js:341-358 | a round whose name stops at `=` offers that name with the value part's value |
| `MediaType.ValuePartUnquoted` | src/parse-data-url.js:366-379 | an unquoted value is the right-trimmed text up to the next `;` |
| `MediaType.ValuePartQuoted` | src/parse-data-url.js:354-365 | a quoted value is read as quoted, and the rest is skipped to the next `;` |
| `MediaType.NameStart` | src/parse-data-url.js:324-328 | the name starts after the `;` and the white space |
| `MediaType.NameEnd` | src/parse-data-url.js:332-339 | the name ends at or after its start, at the next `;` or `=` |
| `MediaType.ParamsRecordStep` | src/parse-data-url.js:382-389 | a round that offers a storable pair with a new name appends it and moves on |
| `MediaType.Essence` | src/parse-data-url.js:281-320 | the end of the essence it reports lies within the text; which texts have one, and which, is stated by `EssenceNoSlash`, `EssenceSplit` and `EssenceAt` |
| `MediaType.EssenceAt` | src/parse-data-url.js:281-320 | a text whose type ends at `/` and whose trimmed subtype is a non-empty token has them, lower-cased, as its essence |
| `MediaType.EssenceNoSlash` | src/parse-mimetype.js:57-59 | a text without `/` has no essence |
| `MediaType.EssenceSplit` | src/parse-mimetype.js:46-74 | with the first `/` and the first `;` after it located, there is no essence exactly when the type is empty or not a token or the right-trimmed subtype is empty or not a token; otherwise the essence is both lower-cased, ending at the `;` |
| `MediaType.ParseSingleParameter` | src/parse-data-url.js:322-390 | a single round that offers a storable pair gives exactly that parameter |
| `MediaType.ParseMediaTypeText` | src/parse-data-url.js:281-392 | the loops compute the grammar's media type |
| `MediaType.ParseParameters` | src/parse-data-url.js:322-390 | the parameter loop records what the rounds offer, in order |
| `MediaType.ParameterRound` | src/parse-data-url.js:323-389 | one loop body, including its `continue`s, is one `ParamStep` followed by the guarded record |
| `MediaType.ReadName` | src/parse-data-url.js:324-341 | the name part ends at `NameEnd` and is the lower-cased name |
| `MediaType.ReadValue` | src/parse-data-url.js:343-380 | the value part is `ValuePart` |
| `MediaType.RecordWellFormed` | src/parse-data-url.js:382-389 | recording keeps what is there and keeps the parameters well formed |
| `MediaType.ParamStepLowercase` | src/parse-data-url.js:341 | the name a round offers is lower-case |
| `MediaType.ParamsProperties` | src/parse-data-url.js:382-389 | the loop only appends, so an earlier parameter is never replaced by a later one with the same name, and the stored parameters keep distinct lower-case names |
| `MediaType.ParseMediaTypeWellFormed` | src/parse-data-url.js:292-320 | a parsed media type has a non-empty lower-case token type and subtype and well-formed parameters |
| `MimeType.Escape` | src/parse-mimetype.js:33 | escaping never shortens a value |
| `MimeType.EscapeIdentity` | src/parse-mimetype.js:33 | a value without `"` and `\` is its own escape |
| `MimeType.SerializeParametersSnoc` | src/parse-mimetype.js:27-38 | serialising one more parameter appends its `;name=value` |
| `MimeType.Serialize` | src/parse-mimetype.js:19-41 | the loop over the parameters computes the serialisation |
| `MimeType.Parcer` | src/parse-mimetype.js:43-157 | `parcer` equals the grammar without escape processing, applied to the trimmed text |
| `MimeType.GetMimeTypeRecord` | src/parse-mimetype.js:159-167 | fails exactly when `parcer` returns `null`; otherwise it returns the parsed record and its `toString` value, the serialisation |
| `MimeType.QuotedFromEscape` | src/parse-data-url.js:19-58 | reading with escape processing undoes `Escape` and stops after the closing `"` |
| `MimeType.ScanSpelled` | src/parse-mimetype.js:48-51 | text without stop characters that is followed by a stop is what a scan collects |
| `MimeType.TokenValueSerialized` | src/parse-mimetype.js:133-138 | an unquoted serialised value reads back as itself |
| `MimeType.QuotedEscapedSerialized` | src/parse-data-url.js:354-365 | with escapes, a quoted serialised value reads back as the value |
| `MimeType.QuotedPlainSerialized` | src/parse-mimetype.js:112-131 | without escapes, a quoted value free of `"` and `\` reads back as the value |
| `MimeType.QuotedSerialized` | src/parse-mimetype.js:112-131 | a quoted serialised value that reads back under the mode gives the value |
| `MimeType.ValuePartSerialized` | src/parse-mimetype.js:111-144 | the value part of a serialised parameter reads back as the value |
| `MimeType.NameSerialized` | src/parse-mimetype.js:86-99 | the name part of a serialised parameter reads back as the name and stops at its `=` |
| `MimeType.ParamStepSerialized` | src/parse-mimetype.js:82-153 | one round over a serialised parameter gives that parameter back and ends where it ends |
| `MimeType.ParamsSerialized` | src/parse-mimetype.js:82-154 | the parameter loop over serialised parameters records exactly them, in order |
| `MimeType.SerializationRoundTrip` | src/parse-mimetype.js:19-41 | parsing the trimmed serialisation of a well-formed record gives the record back when every value reads back under the mode |
| `MimeType.SerializationTrimmed` | src/parse-mimetype.js:44 | a serialisation neither starts nor ends with HTTP white space |
| `MimeType.EssenceSerialized` | src/parse-mimetype.js:20 | the type and subtype of a serialisation read back, and the parameters start right after them |
| `MimeType.ParcerRoundTrip` | src/parse-mimetype.js:43-157 | `parcer` reads back what `serialize` writes when no value holds `"` or `\` |
| `MimeType.ParcerDropsEscapedValue` | src/parse-mimetype.js:112-131 | `a/b;c=x"y` parses with value `x"y`, serialises as `a/b;c="x\"y"`, which parses with value `x`: the serialisation does not read back |
| `MimeType.ParseMimeTypeTrimmed` | src/parse-mimetype.js:44 | on text without surrounding white space, `parcer` applies the grammar as is |
| `MimeType.UnquotedQuoteParsed` | src/parse-mimetype.js:133-136 | `a/b;c=x"y` parses with the value `x"y`: an unquoted value keeps a `"` |
| `MimeType.QuoteEscapedSerialization` | src/parse-mimetype.js:32-35 | `a/b` with `c` set to `x"y` serialises as `a/b;c="x\"y"`: a value holding `"` is quoted and the `"` escaped |
| `MimeType.EscapedQuoteParsed` | src/parse-mimetype.js:116-126 | `a/b;c="x\"y"` parses with the value `x`: without escape processing, a quoted value ends at the `\` |
| `DataUrl.FlagSemicolon` | src/parse-data-url.js:245 | a `;` it reports leaves room for the `base64` flag after it; `MatchSemicolon` and `FlaggedMatches` tie it to the expression |
| `DataUrl.LineStart` | src/parse-data-url.js:245 | just after the last line terminator before a position: `(.*)` can start there and not earlier |
| `DataUrl.Base64Match` | src/parse-data-url.js:245 | the match's start and its `;` lie inside the media type |
| `DataUrl.MatchSemicolon` | src/parse-data-url.js:245 | every match has its `;` where `FlagSemicolon` finds it |
| `DataUrl.FlaggedMatches` | src/parse-data-url.js:245 | what `FlagSemicolon` finds is the `;` of a match from `LineStart` |
| `DataUrl.Base64MatchIsLeftmost` | src/parse-data-url.js:245-247 | `exec` gives `(k, semi)` exactly when the expression matches from `k` with its `;` at `semi` and from no earlier start |
| `DataUrl.Base64MatchNone` | src/parse-data-url.js:249 | `exec` gives `null` exactly when the expression matches nowhere |
| `DataUrl.ParseDataUrl` | src/parse-data-url.js:222-393 | the processor's steps compute its specification: media type, comma, body, base64 step, `text/plain` default, grammar |
| `DataUrl.DecodeBase64` | src/parse-data-url.js:245-260 | the base64 step equals `PayloadFrom`: a flagged body is decoded by `atob` (`null` when that fails) and the media type becomes the captured group |
| `DataUrl.ReadMediaType` | src/parse-data-url.js:262-320 | the media type steps equal `MediaTypeOf` with the `text/plain` default |
| `DataUrl.DataUrlNoComma` | src/parse-data-url.js:234-236 | without a `,` there is no result |
| `DataUrl.CommaSplit` | src/parse-data-url.js:225-240 | in `m + "," + t` with no `,` in `m`, the media type comes from `m` and the body from `t` |
| `DataUrl.BodyIdentity` | src/parse-data-url.js:242 | ASCII text without `%` reaches the decoder as its own codes |
| `DataUrl.PayloadSplit` | src/parse-data-url.js:222-260 | `m + "," + t` is processed from the trimmed `m` and the decoded body of `t` |
| `DataUrl.PayloadPlain` | src/parse-data-url.js:249 | an unflagged media type keeps the body as it was decoded |
| `DataUrl.DataUrlPlain` | src/parse-data-url.js:266-277 | for the whole processor, when the trimmed `m` is not flagged and `t` is ASCII without `%`: the body is `t`'s codes, not flagged, and the media type is read from `m` with the `text/plain` default |
| `DataUrl.DataUrlBadBase64` | src/parse-data-url.js:253-255 | a flagged media type with an ASCII body without `%` that `atob` rejects gives `null` |
| `DataUrl.FlaggedMediaType` | src/parse-data-url.js:230-247 | `m;base64` is its own trim and matches the expression from 0 with its `;` right after `m` |
| `DataUrl.PayloadFlagged` | src/parse-data-url.js:249-260 | a flagged media type whose body `atob` accepts yields the decoded bytes and the captured group |
| `DataUrl.DataUrlBase64RoundTrip` | src/parse-data-url.js:222-393 | for any media type `m` without `,` or line terminators that does not start with white space, `m;base64,` followed by the RFC 4648 encoding of any bytes gives exactly those bytes, flagged, with the media type read from `m` |
| `DataUrl.PayloadRoundTrip` | src/parse-data-url.js:222-260 | the same round trip up to the media type parsing |
| `DataUrl.TextPlainEssence` | src/parse-data-url.js:262-264 | `text/plain ` followed by a `;` has the essence `text/plain`, however it continues |
| `DataUrl.TextPlainDefault` | src/parse-data-url.js:262-264 | a media type starting with `;` is read as `text/plain` |
| `DataUrl.DataUrlWellFormed` | src/parse-data-url.js:266-392 | a parsed type and subtype are non-empty lower-case tokens and the parameters are well formed |
| `Directive.Header` | src/index.js:20-25 | `/*` or `//`, white space, `[@#]`, white space, `sourceMappingURL`, white space and `=`, at the positions returned |
| `Directive.Tail` | src/index.js:23-25 | the line tail ends at the end of the text, or after `\n`, `\r` or `\r\n` |
| `Directive.TryCapture` | src/index.js:21 | backtracking gives the largest capture end that passes the lookahead and the tail; every larger end fails; with no result, none passes |
| `Directive.MatchAt` | src/index.js:20-25 | a match starts at its position and has the expression's shape after the header |
| `Directive.FirstTrue` | src/index.js:35 | the first set flag from a position, with none before it; without a result, none set |
| `Directive.FirstTrueIs` | src/index.js:35 | a set flag with none before it is the first |
| `Directive.FirstMatch` | src/index.js:35 | `match` gives a match at its own start |
| `Directive.FirstMatchLeftmost` | src/index.js:35 | the match found is the leftmost; none is found only when none exists |
| `Directive.FirstMatchIs` | src/index.js:35 | a match with none before it is the one found |
| `Directive.Locate` | src/index.js:35 | the match lies within the text, with the URL after the start |
| `Directive.FirstCopy` | src/index.js:189 | when a directive's keyword is the only one, its matched text occurs nowhere before it, so `replace` finds that occurrence (as at index.js:66) |
| `Directive.LocateSound` | src/index.js:19-35 | the URL has no white space, no `sourceMappingURL` occurs at or after the URL's end (so the last directive wins), and a block match wins over a line match |
| `Directive.NoKeywordNoDirective` | src/index.js:21 | a text without `sourceMappingURL` has no directive |
| `Directive.MatchHasKeyword` | src/index.js:21 | every match contains `sourceMappingURL` |
| `Directive.LineTerminated` | src/index.js:25 | the line form's match ends at the end of the text or just after the line terminator that follows the URL |
| `Directive.WrittenHeader` | src/index.js:20-25 | the header tools write is 21 characters |
| `Directive.DirectiveHeader` | src/index.js:21 | a header written at `d` is read back with its `[@#]`, keyword and `=` where written |
| `Directive.DirectiveMatchAt` | src/index.js:21-25 | a written directive matches at its start, with the URL as the capture |
| `Directive.NoMatchBefore` | src/index.js:21 | no match of either form starts before a written directive with only earlier keywords |
| `Directive.NoBlockMatch` | src/index.js:23 | a written line directive leaves the block form unmatched |
| `Directive.DirectiveFirst` | src/index.js:35 | a written directive is the first match of its form |
| `Directive.LineDirectiveFound` | src/index.js:19-44 | a line directive written after any text, with earlier directives allowed, is the one located, its URL is the one written, and its match ends after the line terminator |
| `Directive.BlockDirectiveFound` | src/index.js:19-44 | the same for the block form, the match ending just after the comment |
| `SourceMapUtils.Normalize` | src/utils.js:48-50 | normalising keeps the length |
| `SourceMapUtils.NormalizeChars` | src/utils.js:48-50 | each backslash becomes a slash and every other character stays where it was |
| `SourceMapUtils.NormalizeProperties` | src/utils.js:48-50 | no backslash is left; normalising is idempotent; a path is unchanged exactly when it has no backslash |
| `SourceMapUtils.Generator.constructor` | src/utils.js:9-15 | a generator starts with the file given and no contents or mappings |
| `SourceMapUtils.Generator.SetSourceContent` | src/utils.js:19 | records one source's content and changes nothing else |
| `SourceMapUtils.Generator.AddMapping` | src/utils.js:41 | appends one mapping and changes nothing else |
| `SourceMapUtils.Copy` | src/utils.js:28-38 | the mapping handed on has the looked-up source and the stream's positions |
| `SourceMapUtils.Kept` | src/utils.js:22-43 | never more mappings than the stream holds |
| `SourceMapUtils.FileOf` | src/utils.js:9-15 | the map's `file` when it is truthy, otherwise none |
| `SourceMapUtils.FlattenSourceMap` | src/utils.js:5-46 | the result holds the file, the content of every consumer source and the mappings kept from the stream |
| `SourceMapUtils.KeptConcat` | src/utils.js:22-43 | keeping distributes over concatenation, so the kept mappings are in stream order |
| `SourceMapUtils.KeptOne` | src/utils.js:40-42 | one mapping is kept exactly when its source is truthy, and then as a copy |
| `SourceMapUtils.KeptMembers` | src/utils.js:22-43 | every kept mapping copies a stream mapping with a truthy source, and every such mapping is kept |
| `SourceMapUtils.KeptAll` | src/utils.js:22-43 | with every source truthy, all mappings are kept |
| `SourceMapUtils.ContentsRecorded` | src/utils.js:17-20 | exactly the consumer's sources have contents recorded, each its own |
| `Loader.IsDataPrefix` | src/index.js:74 | the lower-cased URL starts with `data:` exactly when its first five characters are `data:` in any mix of letter case |
| `Loader.Dispatch` | src/index.js:46-116 | every way of stopping emits exactly one warning |
| `Loader.UnparsableDataUrl` | src/index.js:74-80 | a `data:` URL that is no data URL gives one warning naming it and nothing else, whatever the resolver or the files |
| `Loader.ExternalMapContext` | src/index.js:82-114 | an external map is processed in the directory of its file, and that file is the one dependency added |
| `Loader.FullPath` | src/index.js:131-133 | the source with `sourceRoot + "/"` before it when the root is truthy, otherwise the source alone |
| `Loader.ReadFile` | src/utils.js:52-64 | a result exactly when the file can be read: its path and its text |
| `Loader.EmbeddedShortcut` | src/index.js:135-141 | embedded content of an absolute path is taken as it is, whatever the file system and the resolver would answer |
| `Loader.SourceFailure` | src/index.js:135-163 | a source gives `null` exactly when it has no embedded content and its path cannot be found or read |
| `Loader.SourceWarning` | src/index.js:147-159 | a source gives a warning exactly when it gives `null` |
| `Loader.SourceWarnings` | src/index.js:127-164 | never more warnings than sources |
| `Loader.WarningsCount` | src/index.js:127-182 | every source either survives or gives exactly one warning |
| `Loader.Results` | src/index.js:127-164 | one result per source, in source order |
| `Loader.Rebuilt` | src/index.js:166-182 | the map handed on has one path and one content per survivor and no `sourceRoot` |
| `Loader.Dependencies` | src/index.js:178-180 | only non-empty paths are added, at most one per survivor |
| `Loader.Reassemble` | src/index.js:165-182 | the join loop builds the rebuilt map and adds the surviving paths as dependencies, in order |
| `Loader.RebuiltShape` | src/index.js:166-182 | one normalised path and one content per survivor, aligned; no backslash in a path; no `sourceRoot`; every other field as it was |
| `Loader.Strip` | src/index.js:189 | removing the located directive shortens the text by the match's length |
| `Loader.StripWrittenLine` | src/index.js:189 | a line directive appended to a text is located and removed with its line terminator |
| `Loader.StripWrittenBlock` | src/index.js:189 | a block directive appended to a text is located and removed |
| `Loader.ReplaceFirstStripsEarlierCopy` | src/index.js:189 | with the same line directive twice, the second is located but `replace` removes the first |
| `Loader.StripAsWritten` | src/index.js:189 | `replace` with the matched text shortens the text by the match's length, and removes the located directive whenever its text does not occur earlier |
| `Loader.Prepared` | src/index.js:120-123 | a map with sections is flattened; any other is used as it is |
| `Loader.Finish` | src/index.js:184-189 | with no survivor the text and the map pass through; otherwise the directive is removed, as written or as intended, and the rebuilt map handed on; the dependencies are those added before plus the survivors' |
| `Loader.Load` | src/index.js:35-189 | the loader as written: without a directive everything passes through; otherwise the text passes through or loses the first copy of the matched text |
| `Loader.LoadCorrected` | src/index.js:35-189 | the loader as intended: the text passes through or loses the located directive |
| `Loader.LoadReadings` | src/index.js:189 | the two readings agree on the map, the warnings and the dependencies |
| `Loader.LoadAgrees` | src/index.js:189 | they agree entirely when the directive's text has no earlier copy |
| `Loader.LoadNoDirective` | src/index.js:38-42 | without a directive, the text and the incoming map pass through with no warning and no dependency, in both readings |
| `Loader.LoadStopped` | src/index.js:50-116 | when no map is obtained, the text and the incoming map pass through with exactly one warning, in both readings |
| `Loader.LoadProcessed` | src/index.js:119-189 | when a map is obtained: one warning per failed source; the text keeps its directive unless a source survives, and then the directive is removed and the rebuilt map handed on |
| `Loader.LoadCorrectedWrittenLine` | src/index.js:35-189 | as intended, a module ending in a line directive whose map gives a source comes out without the directive and its line terminator, earlier directives or not |
| `Loader.LoadWrittenLine` | src/index.js:35-189 | as written, the same holds when that directive is the only one |
| `Loader.LoadRemovesEarlierCopy` | src/index.js:189 | a text holding one line directive twice loses its first copy as written and its second as intended |
| `LegacyLoader.Capture` | index.js:11-15 | backtracking of `\s*(.*)` and the tail gives the largest capture end whose tail succeeds; every larger end fails; with no result, none succeeds |
| `LegacyLoader.MatchAt` | index.js:11-15 | a match starts at its position after a header |
| `LegacyLoader.MatchAtShape` | index.js:11-15 | a match has the expression's shape: white space, a capture without a line terminator, the tail |
| `LegacyLoader.FirstMatch` | index.js:23 | `match` gives a match at its own start |
| `LegacyLoader.FirstMatchLeftmost` | index.js:23 | the match found is the leftmost; none is found only when none exists |
| `LegacyLoader.FirstMatchIs` | index.js:23 | a match with none before it is the one found |
| `LegacyLoader.Locate` | index.js:23 | the match lies within the text, with the capture after the start |
| `LegacyLoader.LocateFirst` | index.js:23 | the first directive is the one located, the block form winning when it matches; the capture holds no line terminator; none is located only when neither form matches |
| `LegacyLoader.Capture1` | index.js:25 | `match[1]` is the capture, character for character, white space at its end included |
| `LegacyLoader.UsedUrl` | index.js:25 | the URL used is a prefix of the capture that does not end in white space |
| `LegacyLoader.UrlAs` | index.js:25 | the URL used is the capture as written and the trimmed capture as intended |
| `LegacyLoader.Replacement` | index.js:66 | nothing for the block form, the line terminator for the line form |
| `LegacyLoader.ReplacementAsWritten` | index.js:66 | `match[2]`: `undefined` for the block form, the line terminator for the line form |
| `LegacyLoader.ReplacementAs` | index.js:66 | the replacement as written or as intended |
| `LegacyLoader.Replaced` | index.js:66 | the text changes in length by the replacement's length less the match's, and when the matched text does not occur earlier the located directive is the range replaced |
| `LegacyLoader.InlineAt` | index.js:17 | a match has `data:`, a non-empty media type without `;` or line feed, `;base64,` and the payload to the end of the line |
| `LegacyLoader.Inline` | index.js:26 | `exec` gives a match of that shape |
| `LegacyLoader.InlineRecognised` | index.js:26-29 | `data:`, a media type, `;base64,` and a payload on one line are recognised, and the payload is what is decoded |
| `LegacyLoader.MapObject.constructor` | index.js:29 | the map object holds the parsed `sources` and `sourcesContent` |
| `LegacyLoader.Incomplete` | index.js:45 | a map is complete exactly when it has `sourcesContent` with at least one entry per source |
| `LegacyLoader.Missing` | index.js:46 | the sources from index `sourcesContent.length` on, or all of them without `sourcesContent` |
| `LegacyLoader.Fetch` | index.js:48-54 | `null` exactly when the source cannot be resolved or read, otherwise the file's text |
| `LegacyLoader.BackFilled` | index.js:47-57 | after back-filling there is one content per source, and the old contents keep their places |
| `LegacyLoader.Resolved` | index.js:62-65 | each source's resolved path, index for index |
| `LegacyLoader.Completed` | index.js:45-61 | the final `sourcesContent` is at least as long as `sources`, exactly as long when it was incomplete, and unchanged when complete |
| `LegacyLoader.BackFillDependencies` | index.js:47-50 | no dependency is added for a complete map; otherwise the dependencies are exactly the resolved paths of the missing sources, never more than the sources |
| `LegacyLoader.ProcessMap` | index.js:44-68 | `sourcesContent` becomes the completed contents, `sources` the resolved paths, and the dependencies are those added while back-filling |
| `LegacyLoader.BackFillComplete` | index.js:45-59 | after back-filling there is one content per source, the old ones in place and each missing one fetched, so the second call goes straight to resolving |
| `LegacyLoader.CompleteUnchanged` | index.js:45 | a complete map keeps its `sourcesContent` and adds no dependency before resolving |
| `LegacyLoader.FetchMap` | index.js:26-40 | fetching stops only by failing or throwing, and an inline map never fails |
| `LegacyLoader.Processed` | index.js:44-67 | a processed map is done: the text with the directive replaced, the sources resolved, the contents completed, and the back-filling dependencies added |
| `LegacyLoader.LoadSpecAs` | index.js:19-69 | the text passes through exactly without a directive; a map is processed exactly when one is fetched for the URL used, and then the directive is replaced |
| `LegacyLoader.LoadSpec` | index.js:19-69 | the same as written: the map is fetched for the whole capture and the replacement is `match[2]` |
| `LegacyLoader.LoadSpecCorrected` | index.js:19-69 | the same as intended: the map is fetched for the trimmed capture and a block directive is removed |
| `LegacyLoader.Load` | index.js:19-69 | the loader, with the map object changed in place, equals `LoadSpec`, the program as written |
| `LegacyLoader.LoadNoDirective` | index.js:41-43 | without a directive, the text and the incoming map pass through, in both readings |
| `LegacyLoader.LoadSpecAgrees` | index.js:25-66 | the two readings agree when the directive is a line directive whose capture ends in no white space |
| `LegacyLoader.InlineNeedsNoFiles` | index.js:28-29 | an inline map is decoded from the URL alone, adds no dependency and keeps the loader's context |
| `LegacyLoader.ExternalMap` | index.js:31-37 | an unresolved URL fails with no dependency; a resolved path is a dependency whether or not it can be read; a map read is resolved in its own directory |
| `LegacyLoader.ProcessedComplete` | index.js:44-67 | a processed map has its sources resolved index for index and at least one content per source, exactly one when any was missing |
| `LegacyLoader.CompletedLength` | index.js:57 | the final `sourcesContent` is at least as long as `sources`, and exactly as long when it was incomplete |
| `LegacyLoader.NoMatchBeforeWritten` | index.js:23 | no match starts before a written directive whose keyword is the only one |
| `LegacyLoader.NoBlockMatch` | index.js:13 | a written line directive leaves the block form unmatched |
| `LegacyLoader.LineMatchAt` | index.js:15 | at a written line directive the capture is the URL, up to the line terminator |
| `LegacyLoader.BlockMatchAt` | index.js:13 | at a written block directive the capture runs up to `*/` and keeps the space before it |
| `LegacyLoader.LineDirectiveFound` | index.js:23-66 | a line directive written after any text is located, the URL used is the one written, and the replacement leaves the text as it was without the directive |
| `LegacyLoader.BlockDirectiveFound` | index.js:11-25 | a block directive written the same way is located, its capture is the URL plus a space, and the URL used is the one written |
| `LegacyLoader.BlockDirectiveRemoved` | index.js:66 | the corrected replacement leaves the text without the comment; as written, `undefined` takes its place |
| `LegacyLoader.LoadWrittenLine` | index.js:19-69 | a line directive written alone: the two readings agree, a map is processed exactly when one is fetched for the written URL, and the text is left without the directive |
| `LegacyLoader.LoadWrittenBlock` | index.js:19-69 | a block directive written alone: as written, the map is fetched for the URL and a space and `undefined` replaces the comment; as intended, the map is fetched for the URL and the comment is removed |

## Left out

- URL parsing in `parseDataUrl` (lines 205-220 of `src/parse-data-url.js`): `new URL`, the protocol check, dropping the fragment and serialising again. `DataUrl.ParseDataUrl` starts from the text after `data:`, because the WHATWG URL parser is not part of this model.
- `src/index.js` imports `data-urls`, not `./parse-data-url`. Its inline-map path, including the `labelToName`/`decode` charset handling and `JSON.parse`, is the host function `parseDataUrl`. `DataUrl` models `parse-data-url.js` on its own.
- `JSON.parse`, `urlToRequest`, `resolve`, `fs.readFile`, `path.dirname`, `isAbsolute`, the `SourceMapConsumer` (`sourceContentFor`, `eachMapping`, `originalPositionFor`) and the `Buffer` base64 decoding are host functions: they are foreign code.
- `validateOptions`, `getOptions` and `this.cacheable`: option validation and caching are outside what the loader computes.
- Asynchrony. `async.map` and `neo-async` run the per-source callbacks concurrently. The model takes results, warnings and dependencies in source order: the results are in that order in the source too, but the order of warnings and of dependencies added while fetching is the order of completion.
- `Loader.LoadProcessed`: does not state in which order relative to each other the per-source warnings are emitted, because that depends on completion.
- `flattenSourceMap` inside the loader is the host function `flatten`. `SourceMapUtils.FlattenSourceMap` models its own logic over the consumer's sources, contents and mapping stream.
- `src/utils/flatten.js` and `src/labels-to-names.js` are not part of this model. They are not used by the modelled code.
- Strings are sequences of code points, not of UTF-16 code units. Lengths and indices are counted in code points.
- `url.toLowerCase()` is modelled as ASCII lower-casing. Only whether the lower-cased text starts with `data:` matters, and no non-ASCII character lower-cases to a text starting with `d`, `a`, `t` or `:`, so the test agrees with full Unicode lower-casing (which also maps, for instance, `K` (U+212A) to `k` and `İ` (U+0130) to `i` followed by U+0307).
- `setSourceContent` with a `null` content removes the content in `source-map`. The model records `None`.
- `LegacyLoader.ProcessMap`: in the final resolving stage, `async.map` stops at the first resolve error and the source passes that error to its callback. The model records the failed resolution as `None` in `sources` and does not model the early error.
- `LegacyLoader.Load`: a parsed map without `sources` makes the source throw a `TypeError` in `processMap`. The model's `Parsed` always has a `sources` list.
- `LegacyLoader.Load`: a `JSON.parse` failure throws, so the callback is never called. It is modelled as the `Thrown` outcome.
- `getMimeTypeRecord` on a `null` result throws a `TypeError`. `MimeType.GetMimeTypeRecord` returns `None` for it.
- Per-source warnings of the root `index.js`: it emits none, and the model records none.

## Findings

| source | as written | input that shows it | evidently intended | confidence | as-written member | corrected member |
|---|---|---|---|---|---|---|
| src/index.js:189 | `input.replace(match[0], '')` removes the *first* occurrence of the matched text, while the expressions locate the *last* directive | `T + "\n" + T`, where `T` is `//# sourceMappingURL=` followed by a URL without `s` or white space: the second `T` is located and the first is removed | remove the located directive `input[start..end]` | not executed | `Loader.LoadRemovesEarlierCopy` | `Loader.LoadCorrectedWrittenLine` |
| index.js:66 | `input.replace(match[0], match[2])`: the block expression has one group, so `match[2]` is `undefined` and the text `undefined` is inserted where the comment was | `x/*# sourceMappingURL=a.map */`, which becomes `xundefined` | replace a block directive by nothing | not executed | `LegacyLoader.LoadWrittenBlock` | `LegacyLoader.LoadSpecCorrected` |
| index.js:11 | the greedy `(.*)` runs to the end of the line and gives back only `*/` to the tail `\s*\*/`, so the URL keeps the space before the comment end | `/*# sourceMappingURL=a.map */`: `match[1]` is `a.map ` | the URL without trailing white space | not executed | `LegacyLoader.BlockDirectiveFound` | `LegacyLoader.UsedUrl` |

Both loaders are modelled as written, with the corrected loader beside each. Each pair is one definition taken in two readings, `AsWritten` and `Intended`:

- `Loader.Load` removes the first copy of the matched text (`Loader.StripAsWritten`). `Loader.LoadCorrected` removes the located range (`Loader.Strip`). `Loader.LoadAgrees` shows they agree when the matched text has no earlier copy, and `Loader.LoadWrittenLine` uses this for a directive that stands alone.
- `LegacyLoader.LoadSpec`, which `LegacyLoader.Load` implements, fetches the map named by the whole capture (`LegacyLoader.Capture1`) and replaces with `match[2]` (`LegacyLoader.ReplacementAsWritten`). `LegacyLoader.LoadSpecCorrected` fetches the map named by `LegacyLoader.UsedUrl` and replaces with `LegacyLoader.Replacement`. `LegacyLoader.LoadSpecAgrees` shows they agree on a line directive whose capture ends in no white space.
