# Verified models of the joe-cli-http core

joe-cli-http is a Go library for command-line HTTP clients and servers. This project models the
parts of it whose behaviour spans several functions, and proves what each keeps over all inputs
or all runs. There is one module per component, in a file of the same name.

**URI templates** (`internal/uritemplates/uritemplates.go`). `Escaping`, `Parser` and `Expansion`
hold the code: methods with the source's loops, branches and shared buffer, each proved equal to a
function of its inputs. `Grammar` characterises what `Parse` accepts and gives a printer it undoes; `Syntax` states the
accepted names, numbers, modifiers and operators, and the faults, with their bytes written out.
`Renderings` has what every expansion keeps. `PartialExpansion` says exactly when filling in a
template in two steps gives what one step gives through the returned part list; `Reparsing` says
when the returned text parses again, and `Completion` when going on from it gives the same.
`Rfc6570` is a reference after section 3 and Appendix A of RFC 6570, with the exact conditions for
agreement. `Deviations` has concrete templates on which the conditions fail.

**The reloadable handler** (`httpserver/reloadable_handler.go`). `ReloadableHandler` has the classes
as one caller sees them, and the protocol of any number of concurrent calls as atomic steps: each
lock operation, field access and factory call is a step, and the second read of the field after
`RUnlock` is one of its own.

**Smaller state machines.** `Middleware` (the client's middleware chain), `TemplateVars` and
`VarArgument` (template variables on the command line), `WrapWriter` (the response-writer proxy),
`Downloader` (names of saved files). `Text` and `Templates` hold what the others share.

## How the source is read

- Text is a sequence of bytes, as in Go. A value is a string, a list of strings or a map; a map is
  given as its pairs in the order the runtime visits them, and `MapOrder` relates any two orders.
- The regular expressions are recognisers. One match of an escape pattern is a character of one or
  more bytes; `Escape` is proved for every way of cutting the bytes that are not allowed into matches.
- `{}` makes `parseExpression` index an empty string. That panic is the fault `EmptyExpression`.
  The different messages of `parseTerm` are one fault, `InvalidTerm`.
- Loop bodies and the type switch of the expander have methods of their own (`ExpandItem`,
  `ExpandPair`, `WriteSeparator`, `ExpandValue`, `PartialExpandPart`, `WriteMissing`).

## Where the code and its documentation differ

The model follows the code.

- The package comment calls the template engine a level 4 implementation of RFC 6570. It differs
  from the RFC in these cases: a leading empty string is dropped together with its separator; an
  empty list or map after something written still gets a separator; an empty map under a prefix is
  an error (`PrefixedEmptyMap`); prefixes cut bytes instead of characters; triplets under `+` and `#` are encoded again; exploded maps under `;`, `?` and `&`
  encode reserved characters in keys, and under `;` write `=` before an empty value; literals are
  copied unencoded. `SeparatorRule`, `ValueAgrees` and `LiteralAgrees` are the exact conditions for
  separators, single values and literals; `ExpandsAsReference` and `AgreesWithReference` put them
  together. A prefix on a list cuts every element, where the RFC gives it no meaning. Section 2.4.1
  counts characters of the value, so a triplet in the value of `+` or `#` counts as three here,
  though a prefix could also be read as never splitting one.
- `PartialExpand` says that unknown parameters are preserved. The returned text drops `+` and `:n`,
  and the returned part list drops the values given to a partly filled expression.
- `ensureHandler` can return nil (`NilIsPossible`), although its caller uses the result at once.
- A composite middleware ignores the `next` it is given, so a composite ends the chain it stands in.
- `ReadFrom` with a tee counts its bytes twice.
- `httpclient/downloader_test.go` lists names for negative strip counts (`e/f.txt` for -1) without
  comparing them; the code keeps one directory less (`f.txt` for -1).

## Model

| member | source | states |
|---|---|---|
| Escaping.PctEncode | internal/uritemplates/uritemplates.go:41-50 | The array it fills is the upper-case triplet of every byte, in order. |
| Escaping.Escape | internal/uritemplates/uritemplates.go:52-59 | However the disallowed bytes fall into matches, the result encodes exactly them, byte by byte. |
| Escaping.EscapedIsTriplets | internal/uritemplates/uritemplates.go:52-59 | A text with no allowed byte becomes triplets only. |
| Escaping.DecodeUndoesEscape | internal/uritemplates/uritemplates.go:41-59 | Percent-decoding gives back every byte text, in both modes. |
| Escaping.EscapeIsInjective | internal/uritemplates/uritemplates.go:52-59 | Two texts escape alike if and only if they are equal. |
| Escaping.EscapeIsCanonical | internal/uritemplates/uritemplates.go:34-59 | Output holds only allowed bytes and upper-case triplets of bytes that are not allowed. |
| Escaping.CanonicalIsEscaped | internal/uritemplates/uritemplates.go:34-59 | Conversely every such text is the escape of its own decoding: the image of escape is exactly this language. |
| Escaping.EscapeLength | internal/uritemplates/uritemplates.go:52-59 | Escaping never shortens, at most triples, and leaves no brace. |
| Escaping.BytesLeftAlone | internal/uritemplates/uritemplates.go:34-36 | The bytes that each mode leaves as they are, written out; every other byte becomes three. |
| Escaping.TripletDigits | internal/uritemplates/uritemplates.go:38-50 | A triplet is the percent sign and the two capital hexadecimal digits of the byte, high digit first. |
| Escaping.DecodeByte | internal/uritemplates/uritemplates.go:41-50 | Decoding reads a triplet with small or capital digits as the byte it writes out. |
| Templates.NameContents | internal/uritemplates/uritemplates.go:37 | A valid name holds none of the bytes that structure a template. |
| Parser.ParseExpression | internal/uritemplates/uritemplates.go:120-168 | Fills the term array left to right and stops at the first bad term; equals the reading of the expression as operator and comma-separated terms. |
| Parser.Parse | internal/uritemplates/uritemplates.go:68-98 | The array filled at 2i-1 and 2i is the reading of the text as first literal and pieces; the first bad piece decides the error. |
| Grammar.TermAccepted | internal/uritemplates/uritemplates.go:170-195 | parseTerm accepts exactly name, optional prefix and optional star, where a positive prefix and a star exclude each other. |
| Grammar.ExpressionAccepted | internal/uritemplates/uritemplates.go:120-168 | parseExpression accepts exactly an optional operator with a non-empty list of terms; the result is well formed. |
| Grammar.ParseAcceptsTemplates | internal/uritemplates/uritemplates.go:68-98 | Parse succeeds if and only if the text is brace-free literals alternating with braced expressions of the grammar. |
| Grammar.ParsedAlternates | internal/uritemplates/uritemplates.go:72-92 | A successful parse has 2k+1 parts for k opening braces, literals at even and expressions at odd places. |
| Grammar.ParseIntOfPrinted | internal/uritemplates/uritemplates.go:182 | Reading the decimal text of any 64-bit integer gives that integer. |
| Grammar.ParsedPrintedTerm | internal/uritemplates/uritemplates.go:170-195 | Parsing a printed term gives the term. |
| Grammar.ParseUndoesPrint | internal/uritemplates/uritemplates.go:68-195 | Parse undoes the canonical printer on every part list that can come from Parse. |
| Grammar.ParseImage | internal/uritemplates/uritemplates.go:68-195 | The part lists that Parse returns are exactly the alternating well-formed ones. |
| Grammar.FirstBadPiece | internal/uritemplates/uritemplates.go:80-94 | The error (or the panic of an empty expression) is that of the first piece that is malformed. |
| Syntax.NamesAccepted | internal/uritemplates/uritemplates.go:37 | The terms that are just a name are exactly the non-empty sequences of letters, digits, underscores, dots and percent triplets, bytes written out. |
| Syntax.OneByteTerms | internal/uritemplates/uritemplates.go:37 | Which single bytes are terms. |
| Syntax.TripletTerms | internal/uritemplates/uritemplates.go:37 | A percent sign and two bytes are a name exactly if both bytes are hexadecimal digits. |
| Syntax.NameConcat | internal/uritemplates/uritemplates.go:37 | Two names in a row are a name. |
| Syntax.NumbersAccepted | internal/uritemplates/uritemplates.go:182 | A prefix length is an optional sign and decimal digits, leading zeros included, of a value within 64 bits, and reads as that value. |
| Syntax.Modifiers | internal/uritemplates/uritemplates.go:170-195 | What a star, a colon with a number, and both make of a name; both are an error exactly for a positive number. |
| Syntax.TwoColons | internal/uritemplates/uritemplates.go:184-186 | Two colons in one term are an error. |
| Syntax.OperatorFields | internal/uritemplates/uritemplates.go:121-158 | The fields that each operator sets, bytes written out. |
| Syntax.Operators | internal/uritemplates/uritemplates.go:121-158 | Each operator is selected by its byte, which is taken off the term list; any other first byte is the simple operator and stays. |
| Syntax.OneTermList | internal/uritemplates/uritemplates.go:159-166 | A term without a comma is a list of one. |
| Syntax.TermLists | internal/uritemplates/uritemplates.go:159-166 | A term, a comma and a list give the term in front of the list's terms. |
| Syntax.OneExpression | internal/uritemplates/uritemplates.go:72-92 | A literal, a braced expression and a literal give these three parts, or the expression's fault. |
| Syntax.NoExpression | internal/uritemplates/uritemplates.go:72-79 | A text without braces is one literal. |
| Syntax.ExpressionFaults | internal/uritemplates/uritemplates.go:120-168 | The empty expression, and only it, is the panic; every other failing expression has an invalid term. |
| Syntax.TemplateFaults | internal/uritemplates/uritemplates.go:72-94 | Which fault a template gives: a stray closing brace before all expressions, else that of the first piece that is not closed exactly once or holds a wrong expression. |
| Expansion.Buffer.constructor | internal/uritemplates/uritemplates.go:220 | A new buffer is empty. |
| Expansion.Buffer.WriteString | internal/uritemplates/uritemplates.go:288 | Appends, and keeps what was there. |
| Expansion.Buffer.Reset | internal/uritemplates/uritemplates.go:335 | Empties the buffer. |
| Expansion.ExpandName | internal/uritemplates/uritemplates.go:341-350 | Appends the name and its equals sign, or the operator's form for an empty value, for named operators only. |
| Expansion.ExpandString | internal/uritemplates/uritemplates.go:352-358 | Appends the rendering of a string, cut to its prefix before it is escaped. |
| Expansion.ExpandItem | internal/uritemplates/uritemplates.go:372-379 | Appends the rendering of one list element. |
| Expansion.ExpandPair | internal/uritemplates/uritemplates.go:399-414 | Appends the rendering of one pair. |
| Expansion.WriteSeparator | internal/uritemplates/uritemplates.go:367-371 | Appends the operator's separator when exploded and a comma when not, if one is needed. |
| Expansion.ExpandArray | internal/uritemplates/uritemplates.go:360-381 | Appends the heading and the elements' renderings joined by separators; nothing for an empty list. |
| Expansion.ExpandMap | internal/uritemplates/uritemplates.go:383-416 | Deciding separators by comparing buffer lengths, appends exactly the join of all pair renderings. |
| Expansion.ExpandValue | internal/uritemplates/uritemplates.go:303-331 | Appends the rendering of the value, or fails without writing on a map with a prefix. |
| Expansion.Expand | internal/uritemplates/uritemplates.go:286-339 | The length-based separators give the first string and the present renderings, leading empty ones dropped, joined by the separator, or nothing; earlier bytes survive even the rollback; the missing terms are returned in order. |
| Expansion.ExpandAll | internal/uritemplates/uritemplates.go:215-228 | Expansion is the concatenation over the parts, or an error if any part fails. |
| Renderings.Names | internal/uritemplates/uritemplates.go:198-212 | Lists the variable of every term of every expression, in order. |
| Renderings.NamesInOrder | internal/uritemplates/uritemplates.go:201-209 | The names come in the order of the parts, and within an expression in the order of its terms; literals have none. |
| Renderings.ExpansionDependsOnNames | internal/uritemplates/uritemplates.go:198-228 | Value maps that agree on the listed names give the same text or the same error. |
| Renderings.NamesAreExact | internal/uritemplates/uritemplates.go:198-228 | A name is listed if and only if changing its value alone can change an expansion. |
| Renderings.FailsOnPrefixedMaps | internal/uritemplates/uritemplates.go:314-325 | Expansion fails if and only if some term with a positive prefix has a map, whatever it holds, and that is the only error. |
| Renderings.FailsByKind | internal/uritemplates/uritemplates.go:286-339 | Whether expansion fails depends on which values are maps, not on what any value holds. |
| Renderings.UnprefixedNeverFails | internal/uritemplates/uritemplates.go:286-339 | Without prefixes no expansion fails. |
| Renderings.ExpansionBraceFree | internal/uritemplates/uritemplates.go:286-416 | No expansion of a parsed template holds a brace. |
| Renderings.ExpansionIsFinal | internal/uritemplates/uritemplates.go:68-98 | An expansion parses as one literal, and expanding it again with any values returns it. |
| Renderings.TruncatedLength | internal/uritemplates/uritemplates.go:352-358 | A string cut to n bytes contributes at most 3n bytes behind its name. |
| Renderings.PrefixKeepsFirstBytes | internal/uritemplates/uritemplates.go:352-379 | A value under a prefix renders like its first bytes without one, a list like the list of its elements' first bytes; zero and less cut nothing. |
| Renderings.PairTextsPermute | internal/uritemplates/uritemplates.go:391-415 | Two visiting orders give permutations of the same pair renderings, of equal total length. |
| Renderings.MapOrder | internal/uritemplates/uritemplates.go:383-416 | For every visiting order, n pairs take n-1 separators, and the rendering has one length and one multiset of pair texts. |
| PartialExpansion.WriteMissing | internal/uritemplates/uritemplates.go:251-266 | Appends the missing terms in braces, behind the first string if all are missing and behind the separator otherwise. |
| PartialExpansion.PartialExpandPart | internal/uritemplates/uritemplates.go:241-266 | Appends the filled text and the reprinted rest of one part; only a completely filled part becomes a literal. |
| PartialExpansion.PartialExpand | internal/uritemplates/uritemplates.go:232-272 | Returns text and part list together, or the error of the first part that fails. |
| PartialExpansion.PartOfUnion | internal/uritemplates/uritemplates.go:238-249 | One part expanded in two steps is never longer than in one step, and equal exactly when it is undisturbed. |
| PartialExpansion.InMemoryCompletes | internal/uritemplates/uritemplates.go:232-272 | For disjoint values, expanding the returned part list with the second gives the full expansion if and only if the full one fails or every part is filled completely or its first values leave no trace. |
| PartialExpansion.AllOrNoneCompletes | internal/uritemplates/uritemplates.go:232-272 | In particular whenever the first values fill each expression or leave it alone, errors included. |
| Reparsing.ReprintParses | internal/uritemplates/uritemplates.go:251-266 | A reprinted expression is read as its missing terms without prefixes, under the operator the text shows. |
| Reparsing.LostPlus | internal/uritemplates/uritemplates.go:252-253 | A plus expression whose first name starts with a dot comes back as a dot operator with a shorter name, or does not parse if nothing is left of the name. |
| Reparsing.PartReparses | internal/uritemplates/uritemplates.go:251-266 | Exactly when the reprint of one part is accepted by parseExpression. |
| Reparsing.PartialTextParses | internal/uritemplates/uritemplates.go:232-272 | The text of a partial expansion parses if and only if no partly filled expression has a comma separator and no lone dot lost its plus. |
| Reparsing.UnparsedFails | internal/uritemplates/uritemplates.go:232-272 | When some part does not parse again, the two steps agree with one exactly if the first values already fail. |
| Escaping.ReservedMatters | internal/uritemplates/uritemplates.go:52-59 | The two modes agree on exactly the texts without a reserved byte, and allowing reserved bytes never writes more. |
| Completion.RenderingKept | internal/uritemplates/uritemplates.go:303-416 | Without its prefix and its plus a value never renders shorter, is empty alike, and is the same exactly if no prefix cuts it and no plus met a reserved byte. |
| Completion.RepaidDecides | internal/uritemplates/uritemplates.go:300-302 | Renderings behind k lost separators read alike in both steps exactly when k separator bytes are cut from them before any other byte. |
| Completion.UntouchedPart | internal/uritemplates/uritemplates.go:251-266 | An expression left alone gives no less text in two steps than in one, and the same exactly if its renderings are kept. |
| Completion.ContinuedPart | internal/uritemplates/uritemplates.go:255-265 | A partly filled expression, where the second values fill nothing in front of what the first ones filled, gives the same exactly if it resumes: separators lost to leading empty renderings are made up for, or with nothing written the separator is the first string and the renderings are kept. |
| Completion.ResumedPart | internal/uritemplates/uritemplates.go:232-272 | The exact condition for any part that continues, filled, untouched or partly filled. |
| Completion.ThroughTextResumes | internal/uritemplates/uritemplates.go:232-272 | For disjoint values, if every part resumes and the full expansion does not fail, parsing the returned text and expanding it gives the full expansion. |
| Completion.ThroughTextCompletes | internal/uritemplates/uritemplates.go:232-272 | And exactly then (or if the first values fail), when no part loses a separator or no part's renderings grow. |
| Completion.WholeExpressionsComplete | internal/uritemplates/uritemplates.go:232-272 | For first values that fill each expression or leave it alone (no untouched plus led by a dot): the two steps equal the full expansion if and only if the first values fail, or the full expansion does not and in every untouched expression a plus meets no reserved byte and a prefix cuts nothing. |
| Rfc6570.TableAgrees | internal/uritemplates/uritemplates.go:121-158 | The operator switch is the table of Appendix A of RFC 6570. |
| Rfc6570.EncodingAgrees | internal/uritemplates/uritemplates.go:52-59 | Escaping equals the RFC's encoding exactly for texts without triplets to pass through (and without reserved characters, where the mode differs). |
| Rfc6570.LiteralAgrees | internal/uritemplates/uritemplates.go:287-290 | Copying a literal equals the RFC's treatment exactly when it is URI text already. |
| Rfc6570.PrefixAgrees | internal/uritemplates/uritemplates.go:353-355 | The byte cut keeps no more than the prefix of n characters, and the same exactly if the value is no longer or no continuation byte stands among its first n + 1 bytes. |
| Rfc6570.CutEncodings | internal/uritemplates/uritemplates.go:352-358 | Where reserved characters pass through, a cut value is encoded as in the RFC exactly if the cuts agree and there is no triplet, or the two bytes cut too much are the two that re-encoding the first triplet adds. |
| Rfc6570.ValueAgrees | internal/uritemplates/uritemplates.go:303-416 | One defined value renders as Appendix A has it, with prefixes in characters, if and only if it conforms; where the cuts agree it never renders shorter. |
| Rfc6570.RepaysDecides | internal/uritemplates/uritemplates.go:300-302 | Behind a rendering with k separators owed, rule and engine agree exactly if k empty lists or maps follow before any byte but separators, and none later. |
| Rfc6570.SeparatorRule | internal/uritemplates/uritemplates.go:291-337 | The length-based separators are those of section 3.2.1 if and only if the separators dropped with leading empty strings are exactly those that empty lists and maps write too many, before any other byte; with nothing rendered, if no variable is defined or one is and there is no first string. |
| Rfc6570.RuleForShownValues | internal/uritemplates/uritemplates.go:291-337 | In particular the separators are the RFC's when every rendering is non-empty. |
| Rfc6570.PartExpandsAsReference | internal/uritemplates/uritemplates.go:286-416 | With the right separators, one part expands without an error to what Appendix A says if it does not fail and its values or literal conform, and only then when prefixes cut alike. |
| Rfc6570.ExpandsAsReference | internal/uritemplates/uritemplates.go:215-228 | With literals of URI text and the right separators, Expand returns what RFC 6570 says if no part fails and all values conform, and only then when prefixes cut alike. |
| Rfc6570.AgreesWithReference | internal/uritemplates/uritemplates.go:215-228 | With literals of URI text, prefixes that cut alike and no expression beginning with an empty defined value: Expand returns what RFC 6570 says if and only if no part fails, all values conform and all separators agree. |
| Deviations.LeadingEmptyString | internal/uritemplates/uritemplates.go:300-302 | {a,b} with a empty: x instead of the RFC's comma and x. |
| Deviations.TrailingEmptyList | internal/uritemplates/uritemplates.go:300-302 | {a,b} with b an empty list: a separator the RFC does not write. |
| Deviations.EncodedTriplet | internal/uritemplates/uritemplates.go:36 | {+a} with a triplet: the percent sign is encoded again. |
| Deviations.EmptyPairUnderSemicolon | internal/uritemplates/uritemplates.go:406-409 | {;a*} with an empty pair value: an equals sign the RFC does not write. |
| Deviations.PrefixedEmptyMap | internal/uritemplates/uritemplates.go:314-318 | {a:3} with an empty map: the code returns an error, the RFC an empty text, and nothing else deviates. |
| Deviations.PrefixCutsBytes | internal/uritemplates/uritemplates.go:353-355 | {a:1} with a character of two bytes: the engine writes its first byte only. |
| Deviations.CutRepaysTriplet | internal/uritemplates/uritemplates.go:353-357 | {+a:5}: a cut character and a triplet encoded again cancel, so both stand in the condition for one value. |
| Deviations.CancellingDeviations | internal/uritemplates/uritemplates.go:300-302 | {.a,b,c}: the separator an empty string loses is the one an empty list writes too many, as the separator rule says. |
| Deviations.PlusIsNotReprinted | internal/uritemplates/uritemplates.go:252-253 | {+a} left alone comes back as {a} and encodes a slash. |
| Deviations.PrefixIsNotReprinted | internal/uritemplates/uritemplates.go:261-264 | {a:1} left alone comes back as {a} and renders the whole value. |
| Deviations.OrderIsNotRestored | internal/uritemplates/uritemplates.go:257-265 | {/a,b} with b filled first continues behind b: /b/a instead of /a/b. |
| Deviations.SeamAndPrefixCancel | internal/uritemplates/uritemplates.go:251-266 | {.a,b}{c:1}: a separator lost in one expression and a byte not cut in the next cancel, so the whole text is the same although a part does not resume. |
| Deviations.PartlyFilledIsForgotten | internal/uritemplates/uritemplates.go:246-249 | {a,b} with a filled: the returned part list has forgotten a. |
| ReloadableHandler.Reloadable.constructor | httpserver/reloadable_handler.go:57-63 | Starts without handler, with once not done and no factory call. |
| ReloadableHandler.Served | httpserver/reloadable_handler.go:73-97 | The handler already there is served; else the very one the factory gives; the 503 handler after an error, a nil handler, or nil with once done. |
| ReloadableHandler.Reloadable.EnsureHandler | httpserver/reloadable_handler.go:70-98 | For one caller: returns the stored handler, or makes one, calling the factory exactly if once was not done; an error is kept as the last one, and it or a nil handler becomes the 503 handler. |
| ReloadableHandler.Reloadable.Invalidate | httpserver/reloadable_handler.go:100-106 | Clears field and once, calling nothing. |
| ReloadableHandler.ReloadSupport.constructor | httpserver/reloadable_handler.go:37-41 | Starts without targets. |
| ReloadableHandler.ReloadSupport.Handle | httpserver/reloadable_handler.go:49-55 | Registers exactly the reloadable handlers. |
| ReloadableHandler.ReloadSupport.ReloadAll | httpserver/reloadable_handler.go:43-47 | After it every registered target, also one registered twice, has no handler, once not done and no extra factory call. |
| ReloadableHandler.ReloadSupport.ReloadAndServe | httpserver/reloadable_handler.go:43-98 | After a reload, the next serve of any registered target calls the factory exactly once and returns what it made. |
| ReloadableHandler.StepKeeps | httpserver/reloadable_handler.go:70-106 | Every atomic step of every call keeps the invariant of locks, field, once, factory calls and program counters. |
| ReloadableHandler.RunKeeps | httpserver/reloadable_handler.go:70-106 | So it holds in every state of every interleaving of any number of calls. |
| ReloadableHandler.EpochCountsResets | httpserver/reloadable_handler.go:100-106 | The epoch is the number of Invalidate calls that have reset once. |
| ReloadableHandler.FactoryOncePerEpoch | httpserver/reloadable_handler.go:82-91 | The factory runs at most once per epoch, so never more often than resets plus one. |
| ReloadableHandler.CompletedOnceHasHandler | httpserver/reloadable_handler.go:79-106 | Whenever no writer holds the lock, once is done if and only if the field holds a handler. |
| ReloadableHandler.SlowPathReturns | httpserver/reloadable_handler.go:79-97 | Every slow-path return is a handler of the epoch current then, and not from before the call. |
| ReloadableHandler.FastPathReturns | httpserver/reloadable_handler.go:71-76 | The fast path returns the handler it saw if and only if nothing was cleared before its second read; nil if and only if the field was cleared since the check and nothing stored since the last clear; otherwise a handler of the current epoch. |
| ReloadableHandler.ReturnsAreFresh | httpserver/reloadable_handler.go:70-98 | No call returns a handler older than the call, and only the fast path can return nil. |
| ReloadableHandler.RunRecords | httpserver/reloadable_handler.go:70-106 | In every state of every run, every handler stored, seen or returned is the one its epoch's factory call gave, and no call's outcome is overwritten. |
| ReloadableHandler.ReturnsTheFactorys | httpserver/reloadable_handler.go:70-98 | Whatever a call returned, unless it was nil on the fast path, is the handler the factory gave in the epoch of the result, or the 503 handler if that call failed or gave nil. |
| ReloadableHandler.NoDeadlock | httpserver/reloadable_handler.go:70-106 | As long as a call is unfinished, some call can take a step. |
| ReloadableHandler.EveryCallReturns | httpserver/reloadable_handler.go:70-106 | Without new calls every run ends within the steps that are left of the calls begun, and where no call can take a step all have returned. |
| ReloadableHandler.SoloReturns | httpserver/reloadable_handler.go:70-98 | Whenever a call runs alone it returns what the method returns for some outcome of the factory, and calls the factory exactly when once was not done. |
| ReloadableHandler.SoloEnsure | httpserver/reloadable_handler.go:70-98 | From every reachable quiet state and for every outcome of the factory there is such a run. |
| ReloadableHandler.NilIsPossible | httpserver/reloadable_handler.go:73-76 | A run in which ensureHandler returns nil. |
| Middleware.ComposeMiddleware | httpclient/middleware.go:27-35 | The composite of exactly the non-nil members, in order. |
| Middleware.NonNilKeepsOrder | httpclient/middleware.go:28-33 | Composing drops exactly the nils and keeps the order of all others. |
| Middleware.SingleFunctions | httpclient/middleware.go:160-172 | A function that fails keeps its outcome, one that succeeds hands its request to next if there is one; a nil function is its next. |
| Middleware.CustomReturns | httpclient/middleware.go:174-191 | A custom member calls next as often and with such requests as it decides from the results so far, and returns what it then decides. |
| Middleware.HandleDependsOnNext | httpclient/middleware.go:160-191 | A middleware knows its next only by what calling it gives, also a custom one that calls it any number of times. |
| Middleware.CompositeIsFold | httpclient/middleware.go:174-191 | A composed chain is the right fold of its members ended by the no-op. |
| Middleware.FoldAppend | httpclient/middleware.go:174-191 | A chain of two halves is the first with the second behind it. |
| Middleware.CompositeEndsChain | httpclient/middleware.go:174-191 | A composite inside a chain may be replaced by its members and by dropping all that follows; in last place flattening changes nothing. |
| Middleware.WhatFollowsIsLost | httpclient/middleware.go:174-191 | An empty composite in front of a function that refuses: the chain does not refuse, the flattened chain does. |
| Middleware.NilFuncIsSkipped | httpclient/middleware.go:160-163 | A nil function anywhere in a chain changes nothing. |
| Middleware.FuncsRunInOrder | httpclient/middleware.go:160-191 | In a composite, plain functions run in order on each other's request; the first that does not succeed ends the chain with its outcome. |
| Middleware.ComposedFuncsRunInOrder | httpclient/middleware.go:27-35 | So also in what ComposeMiddleware returns for functions with nils anywhere between them. |
| TemplateVars.Vars.constructor | uritemplates/vars.go:21-34 | Starts empty. |
| TemplateVars.Vars.SetString | uritemplates/vars.go:64-67 | Replaces the name's value and no other. |
| TemplateVars.Vars.SetArray | uritemplates/vars.go:69-89 | Appends to an array, puts a string at the head, turns elements into keys of a map, or starts an array. |
| TemplateVars.Vars.SetMap | uritemplates/vars.go:91-107 | Updates a map or starts one; fails without a change on an array or string. |
| TemplateVars.Vars.Set | uritemplates/vars.go:21-34 | Merges one value into one name, fails exactly on a clash, and leaves all other names. |
| TemplateVars.Vars.Add | uritemplates/vars.go:21-34 | Every name's value is the fold of the values given for it, in order, clashes dropped. |
| TemplateVars.Vars.Update | uritemplates/vars.go:36-53 | Whatever order the map is visited in: fails exactly when some entry clashes, and without a clash merges every name. |
| TemplateVars.StringForgets | uritemplates/vars.go:64-67 | A string assignment forgets everything given before it. |
| TemplateVars.OntoArray | uritemplates/vars.go:69-107 | From an array on, arrays concatenate in order and maps are rejected. |
| TemplateVars.OntoMap | uritemplates/vars.go:69-107 | From a map on, maps overwrite and array elements become keys. |
| TemplateVars.AfterString | uritemplates/vars.go:64-107 | After the last string, arrays concatenate with that string at the head. |
| TemplateVars.MergedIsSummary | uritemplates/vars.go:21-107 | A name's value after any additions, in closed form: decided by its values since the last string and the kind of the first of them. |
| TemplateVars.OthersDoNotMatter | uritemplates/vars.go:21-34 | Additions for other names can be left out anywhere. |
| TemplateVars.ValuesInOrder | uritemplates/vars.go:21-34 | A name sees its values in the order of the additions. |
| TemplateVars.RejectedMaps | uritemplates/vars.go:91-107 | An addition is rejected exactly when a map is given and the name holds an array or string, which then stays. |
| TemplateVars.MergedOnto | uritemplates/vars.go:64-107 | What a map or array leaves of what was there, key by key: later pairs win, elements become keys with empty values, other keys keep theirs. |
| TemplateVars.ArraysInOrder | uritemplates/vars.go:69-89 | Array onto array: the old elements, then the new ones, in order. |
| VarArgument.VarState.constructor | uritemplates/var.go:159-189 | Starts in the initial state, as a string. |
| VarArgument.VarState.SetValue | uritemplates/var.go:233-245 | The value for the type: cut at the first equals sign, split at commas, or as it is. |
| VarArgument.VarState.ParseNVP | uritemplates/var.go:206-213 | Name before the first equals sign, value behind it, done. |
| VarArgument.VarState.ParseInlineFormat | uritemplates/var.go:191-204 | Matches exactly the inline format, and otherwise changes nothing. |
| VarArgument.VarState.NextArg | uritemplates/var.go:159-189 | One step of the automaton; an error leaves the state as it was. |
| VarArgument.EndAbsorbs | uritemplates/var.go:159-189 | The end state absorbs any further arguments. |
| VarArgument.ThreeArguments | uritemplates/var.go:159-245 | Type, name and value as three arguments give just that name, type and value. |
| VarArgument.TwoArguments | uritemplates/var.go:159-245 | So do the type and name=value. |
| VarArgument.OneArgument | uritemplates/var.go:159-245 | The one-argument spelling does so if and only if it is one line and has both halves of the pair. |
| VarArgument.SpellingsAgree | uritemplates/var.go:159-245 | The three spellings agree, with any arguments behind them, for non-empty one-line names and values. |
| VarArgument.ValueKeepsText | uritemplates/var.go:233-245 | The value keeps its text and its type for every type and text. |
| VarArgument.ArrayElements | uritemplates/var.go:233-245 | The array is the only non-empty list of elements without commas that joins to the text. |
| VarArgument.MapPair | uritemplates/var.go:233-245 | The pair of a map is cut at the first equals sign; without one the whole text is the key. |
| VarArgument.TypeWordsWrittenOut | uritemplates/var.go:258-268 | Which words name which type. |
| VarArgument.OnlyFirstCanFail | uritemplates/var.go:159-189 | An argument list fails if and only if its first argument has no equals sign and is no type word. |
| VarArgument.PairAlone | uritemplates/var.go:159-213 | A pair without a type in front is a string variable. |
| WrapWriter.BasicWriter.constructor | httpserver/wrap_writer.go:73-80 | Starts with nothing written and no tee. |
| WrapWriter.BasicWriter.WriteHeader | httpserver/wrap_writer.go:82-88 | Forwards and records the code unless the header is settled. |
| WrapWriter.BasicWriter.MaybeWriteHeader | httpserver/wrap_writer.go:104-108 | The same with code 200. |
| WrapWriter.BasicWriter.Write | httpserver/wrap_writer.go:90-102 | Settles the header, passes the accepted bytes on, tees and counts exactly them; the error of the proxied writer comes before that of the tee. |
| WrapWriter.BasicWriter.Flush | httpserver/wrap_writer.go:131-135 | Settles the header without a code. |
| WrapWriter.BasicWriter.Tee | httpserver/wrap_writer.go:118-120 | Changes the tee and nothing else. |
| WrapWriter.BasicWriter.ReadFrom | httpserver/wrap_writer.go:193-204 | With a tee, copies chunk by chunk up to the first error or short write, returns it, and adds the total again; without, lets the proxied writer read. |
| WrapWriter.CopyIsComplete | httpserver/wrap_writer.go:193-204 | What is passed on is a prefix of what the reader offers, and all of it exactly when every chunk is taken whole and none but the last comes with an error; no error is returned exactly when no chunk stops the copy. |
| WrapWriter.ProxiedErrorFirst | httpserver/wrap_writer.go:93-101 | Which of two errors a write returns. |
| WrapWriter.CopyStopsAt | httpserver/wrap_writer.go:193-204 | A copy ends behind the first chunk written with an error or short, returns that error or "short write", and has passed on exactly what was accepted until then. |
| WrapWriter.RunEffect | httpserver/wrap_writer.go:82-204 | Over any run from any state: what body, count and each tee gain, read from the calls alone. |
| WrapWriter.HeaderOnce | httpserver/wrap_writer.go:82-112 | Over any run at most one header is forwarded, that of the first settling call unless it is a Flush, and Status is its code or 0. |
| WrapWriter.DefaultStatus | httpserver/wrap_writer.go:104-112 | After a write or a read without a header the status is 200 for good, after a flush 0. |
| WrapWriter.TeeSeesItsPart | httpserver/wrap_writer.go:90-120 | Each tee'd writer sees exactly the bytes accepted while it was the tee. |
| WrapWriter.BytesWrittenIsRight | httpserver/wrap_writer.go:90-204 | BytesWritten is the accepted sum plus the bytes of teed reads, so right if and only if there were none. |
| WrapWriter.TeedReadCountsTwice | httpserver/wrap_writer.go:194-198 | One byte read with a tee is counted as two. |
| Downloader.StrippedKeepsSuffix | httpclient/downloader.go:76-98 | On a clean path (no empty component, no dot or dot-dot) with n directories, within bounds for every count: keeps the last max(0, n-c) for c >= 0 and min(n, -c-1) for c < 0, and always the base. |
| Downloader.NamesOfPath | httpclient/downloader.go:69-98 | For the URI of a clean path: the file mode gives the base and ignores the count, the path mode the whole path, and with a count its stripped form. |
| Downloader.TrimmedSlashes | httpclient/downloader.go:177 | All leading slashes are trimmed, and nothing else. |
| Downloader.ExprAdapter.constructor | httpclient/downloader.go:133-142 | Starts at index -1 with nothing opened. |
| Downloader.ExprAdapter.OpenDownload | httpclient/downloader.go:144-164 | Opens the name with the next suffix, one not opened before, or fails on an empty name. |
| Downloader.NamesDiffer | httpclient/downloader.go:153-164 | Two indices give the same name if and only if they are equal. |
| Downloader.NumberedNames | httpclient/downloader.go:153-164 | The first name is the name itself; the others add a dot and the decimal digits of the index, without leading zeros. |
| Downloader.OpenedAreDistinct | httpclient/downloader.go:133-164 | Over any number of downloads the opened names are pairwise distinct; for a non-empty name none fails and the first is the name itself. |

## Left out

- Values of other Go types: `struct2map`, `fmt.Sprint` and reflection; values are strings, lists or maps already.
- Rfc6570.ValueAgrees: a prefix on a list or map is outside, because section 2.4.1 of RFC 6570 gives it no meaning.
- Rfc6570.ExpandsAsReference: agreement of separators, URI text for literals and, in one direction, agreement of cuts are hypotheses, because deviations of different kinds can cancel out (CutRepaysTriplet); SeparatorRule, LiteralAgrees and PrefixAgrees are exact for each kind.
- Rfc6570.AgreesWithReference: separators are part of the condition, for expressions that do not begin with an empty defined value; such a value shortens the text, which can hide what another one adds.
- Completion.ThroughTextCompletes: an untouched plus led by a dot (it comes back as another operator on another variable, LostPlus) and partly filled expressions where the second values fill a term in front of a filled one (OrderIsNotRestored) are outside; where one part loses separators and another one's renderings grow, the two can cancel (SeamAndPrefixCancel), and ResumedPart is exact part by part.
- ReloadableHandler.Reloadable.EnsureHandler: the factory's outcome is a parameter.
- ReloadableHandler.ReloadSupport.Handle: the registration with the underlying `ServeMux` is not part of the model.
- Factories that panic or call back while the lock is held.
- The preference of the read-write lock for waiting writers: the protocol has more interleavings than Go, so what holds in all of them holds in Go's.
- Middleware.CompositeIsFold: the request a middleware mutates is a value threaded through the calls, the yielder array is a recursion over its index, and a custom middleware decides by its request and the results so far, with some limit to its calls of next.
- The middleware setup functions (`WithMethod`, `WithHeader` and the like): each sets one field.
- TemplateVars.Vars.SetMap: a stored map is a value; that the code updates a caller's map in place is not captured. Array elements are strings.
- TemplateVars.Vars.SetArray: slices are values too; names given one slice may share the array that `append` writes into, so OthersDoNotMatter is about values that are not shared.
- TemplateVars.OthersDoNotMatter: the same.
- The flag parsing around `Vars` and `Var`, their printed forms and file or JSON sources.
- Wrapper selection by the proxied writer's interfaces, `Hijack`, `Push` and `Unwrap`; what the proxied writers answer is part of each call, readers that write themselves are not copied chunk by chunk, and a reader's own error is not modelled.
- Downloader.StrippedKeepsSuffix: components that are empty, `.` or `..` are outside; `filepath.Join` would clean them away.
- Downloader.ExprAdapter.OpenDownload: opening stands for the name; creating directory and file, and their errors, are not modelled.
- Names that hold download expressions (`%(`), creating files and directories, and the expander library beyond the appended suffix.
- The network, TLS, the client's option setters and caches, header redaction, templates for trace output and the echo handler: plumbing without properties across functions.
