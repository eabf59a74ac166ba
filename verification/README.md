# A verified model of the web server's parsers, printers and dispatcher

This project models four connected parts of the server and proves what they promise:

1. **Session tokens.** The JSON serialiser and parser, base64, compact signed tokens, the claim
   verifier, and on top of them the session cookie. The layers compose into one statement: a
   generated cookie passes verification exactly from the second it was issued in to the second
   it expires in, for every user name, key hash and pair of instants. The JSON parser is equal to
   a language of derivation trees, numbers and string literals included.
2. **Configuration files.** The lexer, the stack parser over a growing tree of heap nodes, and the
   printer. The parser accepts exactly the texts that lexemes spell and a grammar derives, builds
   that derivation, and undoes the printer.
3. **Requests and responses.** The twenty-state request automaton is equal to a declarative
   language; what the echo handler and the proxy print is parsed back; what is sent as a response
   is read back by the proxy.
4. **The dispatcher.** The score of a path and the choice among registered paths.

Where the source changes objects step by step, so does the model: cursors, streams, builders,
verifiers, configuration nodes, the request parser, the response generator and the handler table
are classes, and loops are loops. Each such method is proved equal to a function of the values
before it, and the laws are lemmas about those functions. What a function or a method reads is
written as the text that is still to come, so a parser that moves a cursor is specified by a
function from a suffix to a value and a shorter suffix.

| files | component | source |
|---|---|---|
| `Basics`, `OrderedMap`, `Characters` | bytes, decimal numbers, C strings, `std::map` order, character classes | shared |
| `JsonValue`, `JsonSerializer`, `JsonParse`, `JsonInput`, `JsonParser`, `JsonLaws`, `JsonStrings`, `JsonNumerals`, `JsonGrammar`, `JsonNumbers`, `JsonLayout`, `JsonBytes` | JSON | `include/picojson/picojson.h` |
| `Base64`, `Base64Laws`, `Base64Bits` | base64 and base64url (sections 4 and 5 of RFC 4648) | `include/jwt-cpp/base.h` |
| `Jwt`, `JwtTokens`, `JwtLaws` | tokens (section 7.1 of RFC 7515, section 7 of RFC 7519) | `include/jwt-cpp/jwt.h` |
| `Cookie` | the session cookie | `src/cookie.cc` |
| `ConfigLexer`, `ConfigGrammar`, `ConfigText`, `ConfigTree`, `ConfigParser`, `ConfigLaws`, `ConfigEnd`, `ConfigLexemes`, `ConfigLayout` | configuration | `src/config_parser.cc`, `src/config_statement.cc`, `src/config.cc` |
| `HttpParser`, `HttpGrammar`, `HttpLanguage`, `HttpData` | request parsing | `src/request_parser.cc`, `include/request_parser.h`, `src/utility.cc` |
| `HttpPrinters`, `HttpLaws`, `HttpWire` | echo handler and proxy text, literal texts | `src/echo_request_handler.cc`, `src/proxy_request_handler.cc` |
| `HttpResponse` | responses | `src/response_generator.cc`, `src/proxy_request_handler.cc` |
| `Dispatcher` | dispatch | `src/request_handler_generator.cc` |
| `Routing` | dispatch and proxy together | `src/request_handler_generator.cc`, `src/proxy_request_handler.cc` |

What a parser and its grammar, or a printer and its parser, have in common is fixed by lemmas of its
own, so that no law holds by agreement of two sides alone: each class of characters is written out
(`Characters`), digits and escapes are looked up in tables, base64 is one number in two bases
(`Base64Bits`), key order is the lexicographic order of bytes (`OrderedMap.LessIsLexicographic`), and
what is printed is given character by character (`JsonLayout`, `ConfigLayout`, `HttpWire`,
`Cookie.CookiePayload`).

Exceptions are `Failure`, `None`, `Threw` or `Throws` values. The keyed hash is an arbitrary
function from bytes to bytes and the clock readings are parameters. A byte is a `char` below 256;
integers of a fixed width are given their width (`int64`, the bounds of `int` in `Stoi`, of
`unsigned int` in `ReadUnsigned`) where it can be observed.

Where code and expectation differ, the model follows the code and says so in a lemma:

- `JwtLaws.StringAudienceNeverMatches`: `with_audience` given one string makes every token fail.
  `JwtLaws.AudienceMeetable` and `JwtLaws.VerifierSatisfiable` say exactly which requirements some
  token can meet.
- `ConfigEnd.WordAtEndIsDropped`: a bare word that runs into the end of the file is dropped.
  `ConfigEnd.EndingTheLine` and `ConfigEnd.AcceptedLosesWord` say for every text when that happens:
  if and only if a scan of its characters ends inside a bare word.
- `Dispatcher.DispatchAfterDifference`, `Dispatcher.DispatchAfterPrefix`, `Dispatcher.DispatchBeside`:
  `common_prefix_length` counts equal segments after a difference too, and a partial prefix scores
  as well, so a path that the URI does not lie under can win. `Dispatcher.ChosenLiesUnder` says for
  every set of paths and every URI when the chosen path is one that the URI lies under, and
  `Dispatcher.AlwaysAbove` which sets dispatch every URI to such a path: if and only if none of the
  paths has two segments or more.
- `JsonNumbers.ThrowsExactly`: the parser that builds values throws on a number too large for a
  double and the one that builds nothing goes on; `JsonNumbers.HugeNumberDisagrees` is an input.
  They agree if and only if a scan of the text finds no such number before the place where the
  second one stops.
- `HttpLaws.ParsedIsWellFormed`: a white-space-led line becomes a header named by its first
  character. The echo of a parsed request can be read back if and only if each of those characters
  is a token character; `HttpLaws.FoldedIsNotReadBack` is an input where one is not.
- `JsonInput.Input.Cur`: the line count falls behind when `cur` steps over a newline.
- `HttpLaws.EchoRoundTrip`, `HttpLaws.ProxyRoundTrip`: the request survives if and only if it is
  printable and its body has no NUL and the length the headers declare; parsing leaves an empty
  Content-Length entry behind.
- `HttpLaws.ProxyRoundTrip`: there is a proxy text if and only if the request is a redirect or the
  URI reaches to the last character of the location path. `Routing.DispatchedProxyThrows` is a URI
  that is dispatched to a proxy that throws on it; `Routing.ProxyRewrites` says that a proxy never
  throws on a URI that lies under its path, and `Routing.DispatchedProxyRewrites` which registrations
  rule it out.

## Model

| member | source | states |
|---|---|---|
| JsonSerializer.SerializeStr | include/picojson/picojson.h:558-563 | appends exactly the quoted, escaped form of the string, whatever its bytes |
| JsonSerializer.SerializeValue | include/picojson/picojson.h:580-643 | appends the text of a value of any depth, compact or indented |
| JsonSerializer.SerializeArray | include/picojson/picojson.h:585-607 | the loop over the elements writes the bracketed text of the array, separators and indentation included |
| JsonSerializer.SerializeObject | include/picojson/picojson.h:608-635 | the loop over the members, in key order, writes the braced text of the object |
| JsonSerializer.SerializeToString | include/picojson/picojson.h:569-571 | the whole document text, with a final newline only when prettified |
| JsonLayout.EscapeMeans | include/picojson/picojson.h:529-556 | each character is written by its two-character escape if it has one, a slash included, by four lower-case hexadecimal digits of its code if it is a control character or 127, and else as it is |
| JsonLayout.DocumentLayout | include/picojson/picojson.h:569-643 | the prettified text has each element and member on a line of its own, two spaces deeper than its bracket, commas at the ends of lines and one space after a colon; the compact text has no white space at all |
| JsonNumerals.IntTextIsCanonical | include/picojson/picojson.h:487-491 | an int64 is written as the one numeral that is read as it and has no leading zero and no minus before zero |
| Basics.DecimalIsCanonical | include/picojson/picojson.h:487-491 | decimal text is the one digit string without leading zeros whose digits, each times its power of ten, add up to the number |
| JsonInput.Input.constructor | include/picojson/picojson.h:652-659 | a new cursor stands before the whole text, at line 1 |
| JsonInput.Input.Getc | include/picojson/picojson.h:660-673 | the lazy pair of fields behaves as one position: a read returns the next character and moves by one, -1 and no move at the end; the line is 1 plus the newlines before the cursor |
| JsonInput.Input.Ungetc | include/picojson/picojson.h:674-676 | the position is again the one before the last read |
| JsonInput.Input.Cur | include/picojson/picojson.h:677-684 | the position does not move; the line count stays right if and only if no newline is stepped over |
| JsonInput.NewlinesAreCounted | include/picojson/picojson.h:660-673 | the newlines that the line number counts are the newline characters of the text |
| JsonInput.Input.SkipWs | include/picojson/picojson.h:688-696 | exactly the leading white space is skipped |
| JsonInput.Input.ExpectChar | include/picojson/picojson.h:697-704 | white space and then the character are consumed, or only the white space |
| JsonInput.Input.MatchText | include/picojson/picojson.h:705-713 | true if and only if the pattern comes next; what a failing match has consumed |
| JsonParser.ParseQuadhex | include/picojson/picojson.h:716-735 | reads four hexadecimal digits, or fails having consumed the digits before the first other character |
| JsonParser.PushUtf8 | include/picojson/picojson.h:759-774 | appends the shortest UTF-8 form of the code point |
| JsonParser.ParseCodepoint | include/picojson/picojson.h:737-776 | reads a `\u` escape or a surrogate pair; the outcome of every malformed one |
| JsonParser.ParseStringText | include/picojson/picojson.h:778-817 | the loop over a literal's characters computes the recursive reading of the literal |
| JsonParser.ParseNumberText | include/picojson/picojson.h:855-873 | takes the longest run of number characters and stops there |
| JsonParser.ParseNumberInto | include/picojson/picojson.h:897-922 | an integer literal in range becomes an int64, any other literal a double, a double that overflows throws |
| JsonParser.ParseInto | include/picojson/picojson.h:875-927 | the recursive parser over the cursor is the recursive function over the remaining text: same result, same value, same place, for valid and invalid input |
| JsonParser.ParseArrayInto | include/picojson/picojson.h:819-834 | the same for arrays |
| JsonParser.ParseObjectInto | include/picojson/picojson.h:836-853 | the same for objects; a repeated key keeps the last value |
| JsonParser.RecogniseFrom | include/picojson/picojson.h:1022-1069 | the same for parsing without building a value; the remaining text is the measure of the recursion |
| JsonParser.RecogniseArrayFrom | include/picojson/picojson.h:819-834 | the same for arrays |
| JsonParser.RecogniseObjectFrom | include/picojson/picojson.h:836-853 | the same for objects |
| JsonParser.ErrorText | include/picojson/picojson.h:1080-1091 | the message shows the rest of the line without control characters and names its number; after a newline the number is that of the line that ends or of the one that begins |
| JsonParser.MessageShows | include/picojson/picojson.h:1080-1091 | the message is the fixed words, the number in decimal and the text up to the next newline, in which control characters make no difference |
| JsonParser.ParseDocument | include/picojson/picojson.h:1078-1105 | for every text: the value and no message, or the message with what is left of the line where reading stopped and its number (one of two when the last character read is a newline), or the exception |
| JsonLaws.EscapedCharsParse | include/picojson/picojson.h:778-817 | any escaped byte string is read back and reading stops after its closing quote |
| JsonLaws.IntTextParses | include/picojson/picojson.h:897-922 | every int64 is read back from the text it is written as |
| JsonLaws.TextParses | include/picojson/picojson.h:778-927 | at every indentation the text of a double-free value of any depth parses to the value and reading stops at its end, before any continuation that starts with no number character |
| JsonLaws.DocumentRoundTrip | include/picojson/picojson.h:569-643 | parsing the serialised document, compact or prettified, rebuilds the value structurally and leaves the continuation |
| JsonLaws.SerializeInjective | include/picojson/picojson.h:569-571 | different double-free values have different texts |
| JsonLaws.RecogniserAgrees | include/picojson/picojson.h:965-1069 | when building does not throw, the parser that builds and the one that does not accept alike and stop at the same place |
| JsonNumbers.ThrowsExactly | include/picojson/picojson.h:897-922 | for every text: building throws, and the two parsers differ, if and only if a number too large for a double stands before the place where the parser that builds nothing stops |
| JsonNumbers.RecogniserAgreesOnInts | include/picojson/picojson.h:965-1069 | the two parsers agree on every text in which a scan finds no number too large for a double, and so on every one whose numbers are int64 literals |
| JsonNumbers.HugeNumberDisagrees | include/picojson/picojson.h:897-922 | on `[1e999}` building throws, and the other parser reads the number and refuses the brace |
| JsonNumerals.NumberGrammar | include/picojson/picojson.h:855-922 | a number is read with a value and a rest if and only if it is spelled by an optional minus, digits around an optional point and an exponent, all of which means the value; it throws if and only if it is spelled so and is too large |
| JsonNumbers.OverflowsMeans | include/picojson/picojson.h:911-917 | a number is too large if and only if its real value is at least 2^1024 - 2^970 |
| JsonNumbers.LeastInfinite | include/picojson/picojson.h:900-910 | the bounds: 2^1024 - 2^970 for doubles, -2^63 and 2^63 - 1 for int64 |
| JsonGrammar.ValueGrammar | include/picojson/picojson.h:819-927 | a text is read as a value with a rest if and only if it is white space and the text of a derivation tree of the value, with white space around every part, later members over earlier ones of the same name, and no more number characters after a number |
| JsonGrammar.TreesUnambiguous | include/picojson/picojson.h:819-927 | derivation trees of one text have one value |
| JsonStrings.LiteralGrammar | include/picojson/picojson.h:778-817 | a literal is accepted with a value and a rest if and only if it is spelled by raw characters, short escapes, single code units and surrogate pairs that mean the value |
| JsonStrings.EscapesAreUtf8 | include/picojson/picojson.h:716-776 | any sequence of Unicode scalar values spelled by `\u` escapes (section 7 of RFC 8259) is read as bytes that decode, as shortest-form UTF-8 (section 3 of RFC 3629), to that sequence |
| JsonStrings.ScalarIsSpelled | include/picojson/picojson.h:737-776 | every scalar value has such a spelling |
| JsonStrings.EscapesAreUtf16 | include/picojson/picojson.h:716-776 | an escape stands for a scalar value if and only if its hexadecimal digits, looked up in tables of either case, are the value's UTF-16 form |
| Characters.ShortEscapes | include/picojson/picojson.h:789-809 | the eight two-character escapes and what they stand for |
| Characters.HexDigits | include/picojson/picojson.h:721-731 | the hexadecimal digits of either case and what each is worth |
| Characters.JsonSpaceChars | include/picojson/picojson.h:688-696 | the four white-space characters, and the characters of numbers |
| JsonStrings.UnpairedSurrogateRejected | include/picojson/picojson.h:742-756 | a surrogate escape that is no half of a pair makes the literal invalid, wherever it stands |
| Base64.EncodeBytes | include/jwt-cpp/base.h:67-115 | the loop over groups and the tail compute the encoding |
| Base64Bits.SymbolsAreTable | include/jwt-cpp/base.h:16-60 | the alphabets are tables 1 and 2 of RFC 4648, looked up in both directions, and the fills `=` and `%3d` |
| Base64Bits.EncodeIsBase64 | include/jwt-cpp/base.h:67-115 | the text, as a number in base 64, is the bytes, as a number in base 256, with zero bits after it up to a multiple of six; its length, and one or two fills after it |
| Base64Bits.DecodeIsBase64 | include/jwt-cpp/base.h:117-184 | the bytes, as a number in base 256, are the text's number in base 64 without the bits that are no part of a byte |
| Base64.DecodeBytes | include/jwt-cpp/base.h:117-184 | fill stripping, groups and tail compute the partial decoding; every index read is in bounds |
| Base64.GetSextet | include/jwt-cpp/base.h:138-144 | the linear search finds the sextet of a symbol, or throws for any other character |
| Base64.StripFillLoop | include/jwt-cpp/base.h:120-129 | the loop strips the fills at the end and throws at the third |
| Base64.PadText | include/jwt-cpp/base.h:186-203 | the fall-through switch appends the fills that complete a group of four |
| Base64Bits.PadMeans | include/jwt-cpp/base.h:186-203 | padding adds none, three, two or one fill when none, one, two or three characters are left of the last group |
| Base64Laws.RoundTrip | include/jwt-cpp/base.h:67-184 | decoding undoes encoding for every byte string and both alphabets |
| Base64Laws.TrimEncode | include/jwt-cpp/base.h:205-208 | trimming removes exactly the fills, also when the fill `%3d` shares letters with the alphabet; the length is 4 per 3 bytes plus 0, 2 or 3 |
| Base64Laws.TrimmedRoundTrip | include/jwt-cpp/base.h:186-208 | padding restores what trimming removed, and the result decodes |
| Base64Laws.DecodeDomain | include/jwt-cpp/base.h:117-184 | decoding succeeds if and only if the input is alphabet text and at most two fills that complete a group |
| Base64Laws.ReencodeCanonical | include/jwt-cpp/base.h:117-184 | encoding what was decoded gives the input back if and only if the discarded bits are zero (section 3.5 of RFC 4648) |
| JwtTokens.DecodeTokenText | include/jwt-cpp/jwt.h:1135-1170 | splits at the first two dots, restores padding, decodes and parses each part; which input fails and how |
| JwtLaws.DotsDecide | include/jwt-cpp/jwt.h:1136-1142 | decoding fails for want of a dot if and only if there are fewer than two; else only the three parts matter |
| JwtLaws.PartsDecide | include/jwt-cpp/jwt.h:1143-1170 | which parts are refused and how: one that is not base64url, then a header and then a payload that does not parse or is no object |
| JwtTokens.ParseClaimsText | include/jwt-cpp/jwt.h:1157-1166 | the loop of inserts yields the members of the object, and anything but an object is refused |
| JwtTokens.Builder.SetHeaderClaim | include/jwt-cpp/jwt.h:1227 | changes one header claim and no payload claim |
| JwtTokens.Builder.SetPayloadClaim | include/jwt-cpp/jwt.h:1234 | changes one payload claim and no header claim |
| JwtTokens.Builder.Sign | include/jwt-cpp/jwt.h:1314-1336 | the token text does not depend on the order in which the unordered claims are visited |
| JwtLaws.HeaderClaimsWin | include/jwt-cpp/jwt.h:1315-1319 | the header holds the claims that were set, and the algorithm's name if they do not set it |
| JwtTokens.SignatureEquals | include/jwt-cpp/jwt.h:211-226 | the loop that does not stop early decides equality of the signatures |
| JwtTokens.AsSet | include/jwt-cpp/jwt.h:871-879 | the set of an array of strings, or an exception if an element is no string |
| JwtTokens.ClaimEquals | include/jwt-cpp/jwt.h:1466-1497 | arrays compare as sets by the pairwise iterator loop, strings and dates by value, objects by text; a missing claim or another type is refused |
| JwtTokens.AudienceIncludes | include/jwt-cpp/jwt.h:1524-1531 | every expected audience is among the token's |
| JwtTokens.Verifier.WithLeeway | include/jwt-cpp/jwt.h:1377 | changes the default leeway and nothing else |
| JwtTokens.Verifier.WithClaim | include/jwt-cpp/jwt.h:1440 | requires one more claim and changes nothing else |
| JwtTokens.Verifier.AllowAlgorithm | include/jwt-cpp/jwt.h:1447-1451 | allows one more algorithm, under its name, and changes nothing else |
| JwtTokens.Verifier.TimeInBounds | include/jwt-cpp/jwt.h:1501-1518 | a time claim that is present is an int64 and bounds the time with its leeway |
| JwtTokens.Verifier.Verify | include/jwt-cpp/jwt.h:1458-1537 | returns normally if and only if the algorithm is an allowed one, the signature is its MAC of the two encoded parts, the time claims bound the time, and every required claim is met |
| JwtLaws.AcceptsMeans | include/jwt-cpp/jwt.h:1458-1537 | acceptance is an allowed algorithm's signature of the two encoded parts with a dot between them, the three time claims within bounds, an audience that matches and every other required claim met; required time claims are never refused |
| JwtLaws.TimeMatchesMeans | include/jwt-cpp/jwt.h:1501-1518 | with its own or the default leeway in seconds, the time is at most `exp` plus the leeway and at least `iat` and `nbf` less the leeway; a claim or leeway that is no integer is refused |
| JwtLaws.ClaimMatchesMeans | include/jwt-cpp/jwt.h:1466-1497 | integers and strings match when equal, arrays when they are of strings and list the same ones, objects when their texts are equal, and nothing else matches |
| JwtLaws.AudienceMatchesMeans | include/jwt-cpp/jwt.h:1524-1531 | every required audience is the token's string or one of its array of strings |
| JwtLaws.ClaimsRoundTrip | include/jwt-cpp/jwt.h:1157-1166 | serialised claim maps are read back |
| JwtLaws.TokenRoundTrip | include/jwt-cpp/jwt.h:1135-1170 | decoding a signed token gives the payload claims, the header claims over a default `alg`, the raw signature, and two encoded parts that join to the bytes that were signed |
| JwtLaws.AcceptedTokenSplits | include/jwt-cpp/jwt.h:1135-1155 | every token the constructor accepts is three parts without dots, joined by dots |
| JwtLaws.AcceptedTokenHasTwoDots | include/jwt-cpp/jwt.h:1135-1155 | every token the constructor accepts has exactly two dots |
| JwtLaws.ObjectClaimsCompare | include/jwt-cpp/jwt.h:1487-1490 | comparing the texts of object claims is comparing their values |
| JwtLaws.AudienceMeetable | include/jwt-cpp/jwt.h:1524-1531 | some token meets an audience requirement if and only if it is given as an array of strings |
| JwtLaws.VerifierSatisfiable | include/jwt-cpp/jwt.h:1458-1537 | with double-free claims and algorithms under their own names, a verifier accepts some token text at some time if and only if it has an algorithm and every claim it requires has a value that some token can meet: an integer, a string, an object or an array of strings, for `aud` only the last, for the time claims any |
| JwtLaws.StringAudienceNeverMatches | include/jwt-cpp/jwt.h:1426 | in particular, requiring an audience given as one string makes every token fail |
| Cookie.GenerateCookie | src/cookie.cc:10-20 | the chain of setters and the signature yield the token of the four claims; decoding it succeeds, and its payload is exactly the issuer "foxy-4", the user name, and the seconds of the two instants |
| Cookie.CookieSays | src/cookie.cc:10-20 | every cookie decodes to those four claims and the header claim "alg" = "HS256", and its signature is the MAC of its two encoded parts under the secret, which is spelled out |
| Cookie.CookiePayload | src/cookie.cc:12-17 | the payload is one JSON text with the members exp, iat, iss and username in this order |
| Cookie.CookiesDiffer | src/cookie.cc:10-20 | equal cookies have one user name and the same seconds |
| Cookie.VerifyCookie | src/cookie.cc:23-37 | true if and only if decoding and verifying both return normally |
| Cookie.CookieLifetime | src/cookie.cc:10-37 | a cookie passes exactly from the second it was issued in to the second it expires in, for every user name, hash and instants |
| Cookie.CookieEndToEnd | src/cookie.cc:10-37 | generated after the epoch at two clock readings, it passes at a time if and only if that is between the first one's second and 7200 seconds after the second one's second |
| Cookie.ForgedCookieRefused | src/cookie.cc:23-37 | a cookie whose signature is not the MAC of its first two parts is refused |
| Cookie.AcceptedCookies | src/cookie.cc:23-37 | a text is an accepted cookie if and only if it is three parts between two dots, the first naming HS256, the last the MAC of the other two under the secret, and the second with the issuer and no time claim that the time violates |
| Cookie.MovedSignatureCollides | src/cookie.cc:23-37 | a signature that is accepted on two different headers or payloads is a collision of the MAC |
| ConfigLexer.InputStream.Get | src/config_parser.cc:34-38 | reading one character of the stream |
| ConfigLexer.InputStream.Unget | src/config_parser.cc:94-99 | the stream is as before the last read |
| ConfigLexer.ParseToken | src/config_parser.cc:31-112 | the state machine with its one character of look-ahead reads the token the text starts with, or the error |
| Characters.ConfigChars | src/config_parser.cc:31-112 | which characters separate words, and which end a bare word |
| ConfigGrammar.RunSound | src/config_parser.cc:114-199 | after every step, what was consumed is what the stack of half-built blocks yields, and the blocks are well-formed |
| ConfigGrammar.YieldComplete | src/config_parser.cc:114-199 | from any state between statements the tokens of any well-formed configuration are accepted and add exactly that configuration |
| ConfigGrammar.AutomatonIsGrammar | src/config_parser.cc:114-199 | the token automaton accepts a stream with a tree if and only if the tree is a derivation of the stream from config ::= (word+ (`;` or `{` config `}`))* |
| ConfigGrammar.GrammarUnambiguous | src/config_parser.cc:114-199 | no two configurations have the same tokens |
| ConfigGrammar.StackDepth | src/config_parser.cc:155-187 | the depth of the stack is one more than the opens without a close |
| ConfigTree.NginxConfig.AddStatement | src/config_parser.cc:140-143 | a fresh empty statement at the end; nothing is shared |
| ConfigTree.NginxConfig.AddToken | src/config_parser.cc:144-145 | a word at the end of the last statement, every other statement unchanged |
| ConfigTree.NginxConfig.OpenBlock | src/config_parser.cc:160-163 | the last statement owns a fresh empty block that is being read |
| ConfigTree.NginxConfig.ToString | src/config.cc:25-33 | the printed text of the block at a depth |
| ConfigTree.AppendTabs | src/config_statement.cc:14-16 | the counted loop appends that many tabs |
| ConfigTree.AppendWords | src/config_statement.cc:17-22 | the loop appends the words with single spaces between them |
| ConfigTree.NginxConfigStatement.ToString | src/config_statement.cc:12-37 | the printed text of a statement: tabs, words, and a block or a semicolon |
| ConfigLayout.TextIsLines | src/config_statement.cc:12-37 | the printed text, line by line: a tab for each level, words with single spaces, a semicolon, and a block's lines between its braces one tab deeper |
| ConfigParser.TakeToken | src/config_parser.cc:126-192 | one token keeps the invariant that each stack entry is the block of the last statement of the entry below, with no sharing |
| ConfigParser.Parse | src/config_parser.cc:114-199 | true if and only if the text is accepted, and the tree on the heap is then its derivation, after whatever the configuration held before |
| ConfigLaws.ParserIsGrammar | src/config_parser.cc:31-199 | a text is accepted with a tree if and only if its tokens derive from the grammar as that tree |
| ConfigLaws.PrintParse | src/config.cc:25-33 | the text of any configuration of lexically valid words parses to the same configuration, at any depth |
| ConfigLaws.AcceptedIsValid | src/config_parser.cc:31-112 | every accepted text yields such a configuration |
| ConfigLaws.ParsePrintParse | src/config_statement.cc:12-37 | parsing, printing and parsing again is parsing |
| ConfigLaws.CommentIsIgnored | src/config_parser.cc:88-129 | the texts of two configurations with a comment line between them parse to the two as one configuration |
| ConfigEnd.TokensAhead | src/config_parser.cc:31-112 | up to a place between tokens, the tokens of a text do not depend on what comes after it |
| ConfigEnd.CommentAnywhere | src/config_parser.cc:88-129 | a comment can stand at any place between tokens of any text and changes nothing |
| ConfigEnd.EndsInWordIsSplit | src/config_parser.cc:94-112 | a scan of a text ends inside a bare word if and only if the text is one that stops between tokens, followed by a bare word |
| ConfigEnd.UnfinishedWordIsDropped | src/config_parser.cc:94-112 | such a text means what it means without the word, accepted or not, although with the word ended it is refused |
| ConfigEnd.EndingTheLine | src/config_parser.cc:31-199 | for every text, ending its last line changes nothing unless the text stops in a bare word, and then the result is refused |
| ConfigEnd.AcceptedLosesWord | src/config_parser.cc:31-199 | an accepted text means the same with its last line ended if and only if it does not stop in a bare word |
| ConfigEnd.WordAtEndIsDropped | src/config_parser.cc:94-112 | in particular, a bare word after a printed configuration changes nothing |
| ConfigLexemes.LexicalGrammar | src/config_parser.cc:31-112 | the tokens of a text are what the blanks, comments, quotations, bare words and marks that spell it mean, up to an unfinished end; there are none if and only if that end is a quotation |
| ConfigLexemes.TextGrammar | src/config_parser.cc:31-199 | a text is accepted with a configuration if and only if such lexemes spell it, mean the tokens that derive the configuration, and leave no quotation open |
| HttpParser.RequestParser.constructor | src/request_parser.cc:15-19 | a new parser waits for a method and has counted nothing |
| HttpParser.RequestParser.Reset | src/request_parser.cc:26-33 | the parser is as new, except for the count of characters |
| HttpParser.RequestParser.Consume | src/request_parser.cc:54-329 | one character takes parser and request from state to state as the transition function says, in each of the twenty states |
| Characters.TokenChars | src/request_parser.cc:331-368 | names are made of letters, digits and fifteen other characters: tchar of section 3.2.6 of RFC 7230 |
| Characters.ControlChars | src/request_parser.cc:336-339 | control characters are those below 32 and 127; a line that begins with a space or a tab is a folded one |
| HttpParser.RequestParser.Parse | include/request_parser.h:44-58 | the loop computes the outcome of the remaining input and counts the characters it took |
| HttpParser.RunInChunks | include/request_parser.h:44-58 | input in two pieces gives the result, parser, request and count of the input in one |
| HttpParser.ChunkingIsIrrelevant | include/request_parser.h:44-58 | the same for any number of pieces |
| HttpLanguage.GrammarAccepted | src/request_parser.cc:54-329 | a fresh parser accepts every request of the declarative language, consumes exactly its text whatever follows, and fills the request in with its meaning |
| HttpLanguage.AcceptedIsGrammar | src/request_parser.cc:54-329 | every accepted input begins with a request of the language |
| HttpLanguage.AutomatonIsGrammar | src/request_parser.cc:54-329 | parsing is good if and only if some prefix of the input is in the language: a request line, then fields with one space after the colon, white-space-led lines only after a first field, and an empty line |
| HttpWire.GoodRequests | src/request_parser.cc:54-329 | the same over those characters: parsing is good if and only if the input begins with a request whose names are of tchar, whose URI has no space or control character, and whose values have no control character |
| HttpWire.OneHeaderRead | src/request_parser.cc:54-329 | a literal request line and one header with any such names and values are read as that method, URI, version and header |
| HttpLanguage.PrefixFree | src/request_parser.cc:54-329 | no request of the language is a proper prefix of another, and the text fixes the meaning |
| HttpLanguage.RejectionIsPrompt | src/request_parser.cc:54-329 | from any state, the input is bad if and only if no continuation of it would be accepted |
| HttpLanguage.Completable | src/request_parser.cc:54-329 | from every state some continuation completes a request |
| HttpLanguage.ConsumedNulFree | src/request_parser.cc:331-339 | what an accepting parser has consumed holds no NUL |
| HttpData.StoiOfDecimal | src/utility.cc:20-29 | a decimal length is read back, or is out of range above the largest int |
| HttpData.StoiGrammar | src/utility.cc:20-29 | `stoi` reads white space, a sign and digits up to the first other character, in base ten; it is out of range beyond -2^31 and 2^31 - 1 and refuses every other text |
| Characters.SpaceChars | src/utility.cc:20-29 | the six white-space characters that it skips |
| HttpData.LengthDeclared | src/utility.cc:20-29 | the length is declared by the header Content-Length, and is zero without one |
| HttpData.GetContentLength | src/utility.cc:20-29 | the declared length, zero if there is none, and the empty entry that the lookup leaves behind |
| HttpData.ParseRequestData | src/request_parser.cc:35-52 | the result, exceptions included, and the final request, for any parser, request and NUL-terminated buffer |
| HttpData.BodyRecovered | src/request_parser.cc:35-52 | a request of the language followed by a body is good with that very body if and only if the body has no NUL and the declared length; everything else of the request is recovered in any case |
| HttpData.BodyTaken | src/request_parser.cc:35-52 | every outcome for a request and a body without NUL: the body is taken from the end of the text, so one that is shorter than declared is filled up with the end of the head; missing data, and out of range |
| HttpWire.DeclaredBodyRead | src/request_parser.cc:35-52 | a POST whose Content-Length is its body's length in decimal is read with that body |
| OrderedMap.PutIsUpdate | src/echo_request_handler.cc:43-51 | the ascending representation of a map is updated as the map is |
| OrderedMap.AscendingUnique | src/echo_request_handler.cc:43-51 | equal maps have equal ascending sequences, so iteration order is determined |
| OrderedMap.FirstKey | src/echo_request_handler.cc:43-44 | iteration visits the least key that remains |
| OrderedMap.LessIsLexicographic | src/echo_request_handler.cc:43-44 | the order of keys: a proper prefix, or the smaller byte at the first difference |
| OrderedMap.AscendingIsSorted | src/echo_request_handler.cc:43-44 | iteration goes through the keys in that order |
| HttpPrinters.EchoRawbody | src/echo_request_handler.cc:23-55 | the appends and the loop over the headers write the request's text, empty headers left out |
| HttpWire.EchoBytes | src/echo_request_handler.cc:23-55 | the echo byte for byte: request line, the headers that are not empty in the order of their names, an empty line, the body |
| HttpWire.Methods | src/request_parser.cc:72-84 | which names are which method, and which name is printed for it |
| HttpPrinters.ProxyRawbody | src/proxy_request_handler.cc:50-118 | the text of the rewritten request, or the exception for a URI shorter than the location path |
| HttpWire.ProxyBytes | src/proxy_request_handler.cc:50-118 | the proxy's text byte for byte: the stripped URI with a slash before it unless it begins with one, the headers but Accept-Encoding in the order of their names, Connection as "close", and one added if there is none |
| HttpPrinters.ProxyFields | src/proxy_request_handler.cc:86-110 | the header loop rewrites each header, and its flag tells whether a Connection header was written |
| HttpLaws.LinesMeaning | src/echo_request_handler.cc:43-51 | parsing the printed fields gives the map they were printed from, without its empty values |
| HttpLaws.EchoRoundTrip | src/echo_request_handler.cc:23-55 | for every request: parsing its echo is good and gives the request again, with its non-empty headers and its body, if and only if its URI, version and non-empty headers are printable, and its body has no NUL and the declared length; of a printable request all but the body is read back in any case |
| HttpLaws.ParsedIsWellFormed | src/request_parser.cc:54-329 | a parsed request satisfies what the echo round trip asks for if and only if the first character of each of its folded lines that has a second one is a token character |
| HttpLaws.FoldedIsNotReadBack | src/request_parser.cc:252-271 | a text that is accepted, with the folded line ` (x`, although the echo of its request cannot be read back |
| HttpLaws.ProxyRoundTrip | src/proxy_request_handler.cc:50-118 | when there is a proxy text at all; and then, for every request: parsing it gives the same method and body, version 1.0, the URI without the location prefix, with a slash before it unless it begins with one, and the non-empty headers without Accept-Encoding and with Connection exactly "close", if and only if that URI and those headers are printable, and the body has no NUL and the declared length |
| HttpLaws.WellFormedIsPassable | src/proxy_request_handler.cc:50-118 | a well-formed request is printable however the proxy rewrites it |
| HttpResponse.ResponseGenerator.Init | src/response_generator.cc:102-110 | the generator's fields are the response's, whatever they were |
| HttpResponse.ResponseGenerator.ToBuffers | src/response_generator.cc:112-130 | the buffers, in order: status line, four for each header in key order, an empty line, the body |
| HttpWire.ResponseBytes | src/response_generator.cc:112-130 | what is sent, byte for byte: status line, every header in the order of its name, an empty line, the body |
| HttpWire.StatusLines | src/response_generator.cc:12-89 | the version, code and reason of each status line |
| HttpResponse.StatusRoundTrip | src/response_generator.cc:12-89 | each of the sixteen status lines is read by the proxy as its own code, and any other code as 500 |
| HttpResponse.Response.ParseHeader | src/proxy_request_handler.cc:269-284 | stores the header of a line with a colon and a space after it; when it throws, is refused or is undefined |
| HttpResponse.HeaderLineGrammar | src/proxy_request_handler.cc:269-284 | which lines are headers with which name and value: the character after the first colon and the last one are dropped, whatever they are; which throw and which are undefined |
| HttpResponse.UnsignedGrammar | src/proxy_request_handler.cc:177-179 | the code that `>>` reads: the texts of `stoi` up to 2^32 - 1, a minus sign wrapping around, and what is left after the digits |
| HttpResponse.Response.ReadHeaderLines | src/proxy_request_handler.cc:200-209 | the loop reads header lines up to the empty one and leaves the rest of the stream |
| HttpResponse.ReadIsSendable | src/proxy_request_handler.cc:200-209 | no name that was read has a colon or a newline in it, and no value a newline |
| HttpResponse.ResponseRoundTrip | src/response_generator.cc:112-130 | of the composed functions, for any code: reading the status line of what is sent shows the code, or 500 if it has no line of its own, and reading the header lines after it recovers headers and body if and only if no name has a colon or newline and no value a newline; the proxy reads them for the codes 200, 301 and 302 |
| HttpResponse.Response.ReadResponse | src/proxy_request_handler.cc:173-209 | the answer to what the stream holds: a stock answer when the status line cannot be read, its code is not relayed or a header line has no colon, else the headers and what is left |
| HttpResponse.AnswerMeans | src/proxy_request_handler.cc:173-209 | a stock answer 500 without a status line of HTTP or with a line that is no header, a stock answer of the code that is none of 200, 301 and 302, and else the headers and the rest |
| HttpResponse.AnswerRoundTrip | src/proxy_request_handler.cc:173-209 | what the proxy makes of what is sent: for 200, 301 and 302 exactly its headers and body, if and only if those can be sent; for any other code a stock answer of the code that is shown |
| Dispatcher.Split | src/request_handler_generator.cc:22-37 | the splitting loop computes the segments |
| Dispatcher.SegmentsCharacterised | src/request_handler_generator.cc:22-53 | a list is the segments of a text if and only if the text is those slash-free, non-empty pieces with slashes around and between them |
| Dispatcher.CommonPrefixLength | src/request_handler_generator.cc:14-67 | the counter is the number of positions at which the segments are equal |
| Dispatcher.AgreementIsPrefixLength | src/request_handler_generator.cc:54-66 | the counter is the length of the common prefix if and only if no segments agree beyond it, and never less |
| Dispatcher.AgreementAfterDifference | src/request_handler_generator.cc:54-66 | two lists with no common prefix and a counter of two |
| Dispatcher.DispatchAfterDifference | src/request_handler_generator.cc:14-98 | with the paths "/a/" and "/b/c/d/", the URI "/a/c/d/" scores two on the second and is dispatched to it |
| Dispatcher.DispatchBeside | src/request_handler_generator.cc:14-98 | that URI lies under the first path and not under the second: an instance of the law below |
| Dispatcher.DispatchAfterPrefix | src/request_handler_generator.cc:14-98 | with the paths "/" and "/a/b/", the URI "/a/c/" is dispatched to the second, although it lies only under the first and nothing agrees beyond the common prefix |
| Dispatcher.UnderByScore | src/request_handler_generator.cc:54-66 | a URI lies under a path if and only if its score on it is the number of the path's segments |
| Dispatcher.ChosenLiesUnder | src/request_handler_generator.cc:69-98 | for all paths and URIs: the URI lies under the chosen path if and only if no path scores on it, or some registered path it lies under is preferred to every one it does not lie under |
| Dispatcher.AlwaysAbove | src/request_handler_generator.cc:14-98 | a set of paths dispatches every URI to a path it lies under if and only if none of the paths has two segments or more |
| Dispatcher.RequestHandlerGenerator.DispatchHandler | src/request_handler_generator.cc:69-98 | the handler is that of the best path by higher score, fewer characters and key order, or of "/" when no score is positive; a null entry is added when "/" is missing |
| Dispatcher.ChoiceUnique | src/request_handler_generator.cc:72-97 | at most one path is the best |
| Dispatcher.ChoiceIsRanked | src/request_handler_generator.cc:72-97 | the choice spelled out: "/" when no path scores, else the path that scores and beats every other by score, by fewer characters, or by coming first in the order of bytes |
| Dispatcher.DispatchTie | src/request_handler_generator.cc:75-92 | of "/a/x/" and "/a/y/", which tie on the URI "/a/", the first one is chosen |
| Dispatcher.CanonicalSegments | src/request_handler_generator.cc:22-53 | a canonical path has the segments it was built from |
| Dispatcher.CanonicalDispatch | src/request_handler_generator.cc:14-98 | when every registered path is canonical, a URI with the segments of one of them is dispatched to that path and to no other |
| Routing.ProxyRewrites | src/proxy_request_handler.cc:74-81 | a proxy under a canonical path writes a text for every URI that begins with a slash and lies under the path: the substring exception cannot happen |
| Routing.DispatchedProxyRewrites | src/request_handler_generator.cc:69-98 | when the registered paths are canonical and have one segment at most, no URI that begins with a slash makes the proxy it is dispatched to throw |
| Routing.DispatchedProxyThrows | src/proxy_request_handler.cc:74-81 | the URI "/a" is dispatched to a proxy under "/a/b/", which it does not lie under and which throws on it |

## Left out

- JsonSerializer.SerializeValue: a double is written as the literal it was read from; the `%.17g` formatting is not modelled.
- JwtTokens.ClaimEquals: object claims that hold doubles are compared by the spelling of their literals, for the same reason.
- Doubles: a number literal that is no int64 keeps its text; formatting of doubles, locale decimal points and rounding are not modelled, only the overflow that throws. The laws are about double-free values.
- JsonParser.ParseNumberInto: a double that overflows is decided by its magnitude written out in base ten; the sign does not matter and `strtod` itself is not part of this model.
- JsonLaws.RecogniserAgrees: says nothing where building throws for a double out of range; `JsonNumbers.ThrowsExactly` does.
- JsonParser.ErrorText: the number is one of two when the last character read is a newline; which of them depends on how the cursor got there.
- JsonParser.ParseDocument: the same for the line in its message; where it leaves the cursor is not described.
- JsonGrammar.ValueGrammar: is about the parser that builds values; what the other one accepts follows where no number is too large.
- picojson `operator==`, which converts int64 values in place; values are compared structurally.
- Cookie.GenerateCookie: instants are 64-bit counts of nanoseconds and the expiry must not overflow them.
- Cookie.AcceptedCookies: the verifier's `from_time_t` is not wrapped around: time claims too large for 64-bit nanoseconds are compared as they are.
- HMAC internals, RSA, ECDSA and PSS; a MAC that cannot be computed (a null result) is not modelled.
- JwtTokens.Verifier.Verify: which exception is thrown when several checks fail is not told apart.
- ConfigParser.TakeToken: a `}` outside every block is refused at once. The code pops its root and goes on with an empty stack: what follows is then refused by a later test, or reads or pops the empty stack, which is undefined.
- ConfigParser.Parse: the tree that a refused text leaves half-built is not described.
- Configuration getters, reading a file by name.
- HttpParser.RequestParser.Consume: the fields `major` and `minor` are only ever set to zero and are not modelled.
- HttpData.ParseRequestData: a parser used for a second request keeps its count of characters; the function covers it, the laws are for a fresh parser.
- HttpLanguage.GrammarAccepted: says what a folded line does (its first character becomes a header name), not that this is of use.
- HttpResponse.ReadStatus: the whole response is taken to have arrived; reads from the socket are left out.
- HttpResponse.Response.ReadResponse: the bodies of stock answers, the redirects that follow a 301 or 302 and their limit are left out.
- HttpResponse.ResponseRoundTrip: is about the composed functions; for codes that are not relayed the header loop does not run, as `HttpResponse.AnswerRoundTrip` says.
- `clean_html`, which appends the remaining body twice when it stops early.
- `url_decode`, `is_quoted`, the login, file, status, health and not-found handlers, stock bodies and the MIME table: library calls or easy members.
- Dispatcher.RequestHandlerGenerator.DispatchHandler: `createHandler` and `get_map`, which fill the table, are left out; handlers are arbitrary values.
- Sockets, sessions, TLS, threads, the database and `DataCollector`.
