# StackLang language engine in Dafny

A model of the core of the StackLang interpreter, with proofs about it.
StackLang is a small stack-based language: literal values are pushed onto one
shared data stack, and unquoted commands on top of the stack are run. A
command is either a built-in primitive or a user-defined function whose body
is pushed and run element by element. The model covers four parts:

- the string-literal codec of `util::` (escape, unescape, findImproperEscape,
  starts_with, ends_with, spaces, removeChar, trim) and the string element's
  parser and renderer (`string_utils.dfy`, `string_element.dfy`);
- the substack literal parser, a quote- and depth-aware scan over the
  characters between `<<` and `>>`, and the substack renderer
  (`substack_element.dfy`);
- the bounded, top-addressed `Stack` (`stack.dfy`);
- the type checker (`checkType`, `checkTypes`) and the execution engine
  (`execute`) (`language.dfy`).

`values.dfy` holds the value model: the `DataType` tags, type descriptors
with an optional specialisation, and the element variants. `errors.dfy`
holds the error kinds, with `Result`/`Outcome` wrappers for operations that
can fail.

The code changes state step by step in many places, and the model keeps that
form. The index loops of the string routines, the substack scan and the
substack rendering loop are methods with loop invariants. `Stack` is a class
with the C++ fields (`head` as a top-first sequence, `dataSize`, `limit`).
The engine is an `Interpreter` class holding the function registry and the
stop flag. Each method is proved equal to a specification function, and the
properties are lemmas about those functions.

Numbers are exact rationals (`real`) with an `exact` flag; only the flag is
ever inspected. Inside the string routines `std::string::npos` is `None`.
A reported error location goes through `Errors.Location`: `LanguageException`
stores its location as a 32-bit `unsigned`
(`src/language/exceptions/languageExceptions.h:45-55`), so an offset is cut to
its low 32 bits, and npos (`SIZE_MAX`, 2^64 - 1) reaches the user as
2^32 - 1.

Things that differ from a direct reading of the code:

- `srcs/language/stack.cpp` gives the default stack a limit of
  `__LONG_MAX__`, while `src/language/stack/stack.h:95` declares
  `numeric_limits<size_t>::max()`. The model follows the header.
- `srcs/language/stack.cpp:40-50` never returns the popped element, although
  it computes it. The model returns it, as the header's declaration
  `StackElement* pop()` promises.
- `srcs/language/stack.cpp:40-59`: `pop` and `top` on an empty stack do
  nothing or return nothing. `execute` reads `top()` without a check
  (`src/language/language.cc:134`). All three report `StackUnderflowError`
  in the model.
- `src/language/stack/stackElements/substackElement.cc:35,64` hands each
  piece to an unqualified `parse`. Inside `SubstackElement::parse` that name
  is `SubstackElement::parse` itself, but the unit tests expect a general
  element parser. The model takes the element parser as a parameter (see
  Findings).

## Model

| member | source | states |
|---|---|---|
| Values.KindOf | src/language/stack/stack.h:67-82 | the `DataType` an element reports is one of the six element kinds, never Identifier, Primitive, Defined, Any or a specialisation tag |
| Errors.Location | src/language/exceptions/languageExceptions.h:45-55 | the stored location is at most 2^32 - 1, equals the offset when it fits and is smaller otherwise |
| Errors.NposLocation | src/language/exceptions/languageExceptions.h:45-55 | npos, stored as a location, becomes 2^32 - 1 |
| StringUtils.Find | src/util/stringUtils.cc:23-29 | `std::string::find` from an index: a found index is the first occurrence at or after it; None means no occurrence there |
| StringUtils.StartsWith | src/util/stringUtils.cc:23-25 | `0 == s.find(p)` holds exactly when p is a prefix of s |
| StringUtils.EndsWith | src/util/stringUtils.cc:27-30 | the length guard plus a search from `|s|-|p|` holds exactly when p is a suffix of s |
| StringUtils.Escape | src/util/stringUtils.cc:32-53 | the in-place erase/insert loop produces exactly the character-wise escaping (`"` to `\"`, newline to `\n`, `\` to `\\`) |
| StringUtils.EscapedAppend | src/util/stringUtils.cc:32-53 | escaping distributes over concatenation |
| StringUtils.EscapedPlain | src/util/stringUtils.cc:32-53 | a string without quotes, newlines or backslashes is its own escaping |
| StringUtils.EscapedStep | src/util/stringUtils.cc:33-49 | escaping one more character appends that character's escape |
| StringUtils.EscapeAt | src/util/stringUtils.cc:33-50 | one pass of the loop body replaces the character at i by its escape and leaves the index past what was written |
| StringUtils.Unescape | src/util/stringUtils.cc:55-89 | the loop with the prevBackslash/prevPrevBackslash flags and the index step-back decodes left to right: each `\"`, `\n`, `\\` collapses into one character and nothing else changes |
| StringUtils.UnescapeEscape | src/util/stringUtils.cc:32-89 | unescape undoes escape for every string |
| StringUtils.ImproperEscape | src/util/stringUtils.cc:91-107 | a reported defect index lies inside the string |
| StringUtils.FindImproperEscape | src/util/stringUtils.cc:91-107 | the loop, which skips the second character of each valid pair, returns the first defect, or None (npos) |
| StringUtils.ImproperEscapeIsFirstDefect | src/util/stringUtils.cc:93-99 | at the reported index there is a bare quote, a trailing backslash or a backslash before a character other than `n`, `"`, `\`; the prefix before it has no defect |
| StringUtils.ImproperEscapeAfterPlain | src/util/stringUtils.cc:91-107 | after a prefix with no backslash and no quote, the first defect is the one reported |
| StringUtils.EscapedIsWellFormed | src/util/stringUtils.cc:91-107 | escaped output never has an improper escape |
| StringUtils.EscapeUnescape | src/util/stringUtils.cc:32-107 | a string with no improper escape and no raw newline is the escaping of its unescaping |
| StringUtils.Spaces | src/util/stringUtils.cc:109-113 | exactly n characters, all spaces |
| StringUtils.RemovedAppend | src/util/stringUtils.cc:115-124 | removal distributes over concatenation |
| StringUtils.RemoveChar | src/util/stringUtils.cc:115-124 | the erase loop with the index step-back deletes every occurrence of c and keeps the rest in order |
| StringUtils.RemovedContents | src/util/stringUtils.cc:115-124 | the result has no c, and holds every other character as often as the input does |
| StringUtils.Trim | src/util/stringUtils.cc:126-130 | the two erases remove the leading and the trailing whitespace, including the all-whitespace case where `find_last_not_of` is npos and npos + 1 wraps to 0 |
| StringUtils.TrimLeftShape | src/util/stringUtils.cc:127 | the left trim is the suffix from the first non-whitespace character |
| StringUtils.TrimRightShape | src/util/stringUtils.cc:128 | the right trim is the prefix up to the last non-whitespace character |
| StringUtils.TrimmedShape | src/util/stringUtils.cc:126-130 | trim returns a slice whose removed ends are all whitespace and whose own ends are not |
| StringUtils.TrimAllWhitespace | src/util/stringUtils.cc:126-130 | an all-whitespace string trims to empty |
| StringUtils.TrimmedFixpoint | src/util/stringUtils.cc:126-130 | a string with non-whitespace ends is unchanged by trim |
| StringUtils.TrimIdempotent | src/util/stringUtils.cc:126-130 | trimming twice equals trimming once |
| StringElements.Interior | src/language/stack/stackElements/stringElement.cc:19-20 | `substr(1, len-2)` is the token without its first and last characters, and empty for a one-character token (the length wraps) |
| StringElements.ParseString | src/language/stack/stackElements/stringElement.cc:16-30 | succeeds exactly when the token ends in `"` and its interior has no improper escape, giving the unescaped interior; a missing closing quote fails at location `|s|`; a bad escape fails at the defect of the whole token (npos when it has none); both locations pass through `Location` |
| StringElements.RenderString | src/language/stack/stackElements/stringElement.cc:39-41 | the rendering starts and ends with a quote |
| StringElements.ParseRenderString | src/language/stack/stackElements/stringElement.cc:16-41 | parsing the rendering of any string element gives back its data |
| StringElements.RenderParseString | src/language/stack/stackElements/stringElement.cc:16-41 | a quoted token without a raw newline that parses is the rendering of what it parses to |
| StringElements.BadEscapeReportedAtZero | src/language/stack/stackElements/stringElement.cc:21-24 | a bad escape in a token starting with a quote is reported at location 0 |
| StringElements.NposReportedExample | src/language/stack/stackElements/stringElement.cc:19-24 | `x\"` has a bad interior but no defect as a whole, so the reported location is npos, stored as 2^32 - 1 |
| StringElements.MissingClosingQuoteExample | src/language/stack/stackElements/stringElement.cc:26-29 | `"bad string` fails with the missing-quote message at location 11 |
| StringElements.BadEscapeExample | src/language/stack/stackElements/stringElement.cc:21-24 | `"bad\string"` fails with the invalid-escape message at location 0 |
| StringElements.EscapeExample | src/util/stringUtils.cc:39-43 | escaping turns the newline of `good`+newline+`string` into `\n` |
| StringElements.EscapeAroundNewline | src/util/stringUtils.cc:32-53 | a single newline between plain parts is the only thing escaping changes |
| StringElements.RenderExample | src/language/stack/stackElements/stringElement.cc:39-41 | the rendering of `good`+newline+`string` is `"good\nstring"` |
| StringElements.ValidStringExample | src/language/stack/stackElements/stringElement.cc:18-20 | `"good\nstring"` parses to a string holding a real newline |
| StringElements.RenderedTokenParses | src/language/stack/stackElements/stringElement.cc:16-41 | any token that is a rendering parses to the rendered data |
| StringElements.EmptyStringExample | src/language/stack/stackElements/stringElement.cc:18-20 | `""` parses to the empty string |
| Stacks.Reversed | src/language/stack/stack.h:123 | reversal keeps the length |
| Stacks.ReversedAt | src/language/stack/stack.h:123 | element k of the reversal is element `n-1-k` of the original |
| Stacks.ReversedAppend | src/language/stack/stack.h:123 | reversing a concatenation reverses and swaps the parts |
| Stacks.ReversedInvolution | src/language/stack/stack.h:123 | reversing twice restores the sequence |
| Stacks.PushSpec | srcs/language/stack.cpp:26-38 | push fails with StackOverflowError(limit) exactly when size >= limit; otherwise the element is the new top, the size grows by one and the rest is unchanged |
| Stacks.PopSpec | srcs/language/stack.cpp:40-50 | pop fails with StackUnderflowError exactly on an empty stack; otherwise it hands back the top and the stack below it, under the same limit |
| Stacks.SetLimitSpec | srcs/language/stack.cpp:73-81 | setLimit(n) fails with StackOverflowError(n) exactly when size > n (n == size is allowed); otherwise only the limit changes |
| Stacks.RunKeepsBound | srcs/language/stack.cpp:13-109 | size <= limit holds after every sequence of push, pop, setLimit, clear and reverse |
| Stacks.PushThenPop | srcs/language/stack.cpp:26-50 | a successful push followed by pop returns the pushed element and the original stack |
| Stacks.PushFull | srcs/language/stack.cpp:28-31 | pushing onto a full stack fails and leaves it unchanged |
| Stacks.ReverseReverse | src/language/stack/stack.h:123 | reversing twice restores the stack; size and limit never change |
| Stacks.Stack.constructor | src/language/stack/stack.h:95 | a default stack is empty with limit max size_t |
| Stacks.Stack.WithLimit | srcs/language/stack.cpp:17-19 | a stack built with a limit is empty with that limit |
| Stacks.Stack.Copy | src/language/stack/stack.h:97 | as declared: the copy holds the same elements under the same limit, as a separate object |
| Stacks.Stack.Push | srcs/language/stack.cpp:26-38 | the object's new state is PushSpec of the old one: on overflow it reports StackOverflowError(limit) and changes nothing |
| Stacks.Stack.Pop | srcs/language/stack.cpp:40-50 | returns the old top and leaves PopSpec's stack; StackUnderflowError on an empty stack |
| Stacks.Stack.Top | srcs/language/stack.cpp:52-59 | returns the top without changing anything; StackUnderflowError on an empty stack |
| Stacks.Stack.Size | srcs/language/stack.cpp:61-65 | the number of elements |
| Stacks.Stack.GetLimit | srcs/language/stack.cpp:67-71 | the limit, which is at least the size |
| Stacks.Stack.IsEmpty | srcs/language/stack.cpp:83-86 | holds exactly when there are no elements |
| Stacks.Stack.SetLimit | srcs/language/stack.cpp:73-81 | the new state is SetLimitSpec of the old; on failure nothing changes |
| Stacks.Stack.Clear | srcs/language/stack.cpp:100-109 | popping until empty leaves no elements, size 0 and the same limit |
| Stacks.Stack.Reverse | src/language/stack/stack.h:123 | as declared: the elements end up in reverse order, with size and limit unchanged |
| SubstackElements.NatToString | src/language/stack/stackElements/substackElement.cc:58 | `to_string` of the depth is a non-empty string of decimal digits with no leading zero, except for 0 itself |
| SubstackElements.NatToStringValue | src/language/stack/stackElements/substackElement.cc:58 | the digits denote the depth again, so the count in the message is exact |
| SubstackElements.StepShape | src/language/stack/stackElements/substackElement.cc:29-54 | one iteration records the character as lastChar, moves the depth by at most one, completes at most the accumulated piece, toggles the string state only on a quote, and stops exactly at a `>>` outside a string at depth 0, reported at its first `>` |
| SubstackElements.ScanFromFacts | src/language/stack/stackElements/substackElement.cc:26-55 | along the scan the pieces only grow, the depth is never negative, and an unbalanced stop lies on a `>>` pair inside the scanned part |
| SubstackElements.StepAdvance | src/language/stack/stackElements/substackElement.cc:28-55 | one iteration keeps lastChar equal to the previous character and the depth non-negative |
| SubstackElements.ParseAllPrefixFails | src/language/stack/stackElements/substackElement.cc:35 | once a piece fails to parse, later pieces do not change the error |
| SubstackElements.ParseAllAppend | src/language/stack/stackElements/substackElement.cc:35 | parsing one more piece appends its element, or fails with its error |
| SubstackElements.ParseAllMeaning | src/language/stack/stackElements/substackElement.cc:35 | the pieces parse exactly when each does, giving their elements in order; otherwise the first failing piece's error is reported |
| SubstackElements.CommaFailure | src/language/stack/stackElements/substackElement.cc:31-36 | a piece that fails at a top-level comma decides the whole parse |
| SubstackElements.CompletePiece | src/language/stack/stackElements/substackElement.cc:31-36 | a piece completed at a top-level comma is trimmed and parsed; on success its element is pushed onto the buffer, which stays the reversal of the elements parsed so far |
| SubstackElements.SpecAtEnd | src/language/stack/stackElements/substackElement.cc:57-68 | after a full scan whose pieces parse: unclosed delimiters are reported at the end, otherwise a blank leftover is dropped and any other leftover is parsed as the last element |
| SubstackElements.ParseSubstack | src/language/stack/stackElements/substackElement.cc:19-69 | the scanning loop, the buffer Stack and its final reverse compute exactly ParseSubstackSpec: top-level pieces split at commas, errors for unbalanced or unclosed delimiters, and elements in source order |
| SubstackElements.FinishSubstack | src/language/stack/stackElements/substackElement.cc:57-68 | after a full scan: unclosed delimiters are reported at the end, a non-blank leftover is parsed and pushed, and the reversed buffer is exactly ParseSubstackSpec's result |
| SubstackElements.UnbalancedLocation | src/language/stack/stackElements/substackElement.cc:44-51 | an extra closing delimiter is reported at the first `>` of the offending `>>` pair, inside the scanned part |
| SubstackElements.ParseSubstackOk | src/language/stack/stackElements/substackElement.cc:57-67 | a successful parse needs a balanced scan, and holds the parses of the pieces in source order, then the non-blank leftover's |
| SubstackElements.PieceFailureDecides | src/language/stack/stackElements/substackElement.cc:35 | when some piece fails to parse, the first failing piece's error is the result |
| SubstackElements.ScanQuiet | src/language/stack/stackElements/substackElement.cc:29-54 | over characters that are not special in the current mode (inside or outside a string), the scan only accumulates |
| SubstackElements.RegularSubstackExample | src/language/stack/stackElements/substackElement.cc:19-69 | `<< 1, ">>\"string\"<<">>` gives the number 1 and then the string `>>"string"<<`, as the unit test expects |
| SubstackElements.RegularSubstackParse | src/language/stack/stackElements/substackElement.cc:57-68 | after that scan, the leftover string token becomes the last element |
| SubstackElements.RegularSubstackScan | src/language/stack/stackElements/substackElement.cc:26-55 | the scan of that token gives the piece `1` and the quoted leftover |
| SubstackElements.RegularScanHead | src/language/stack/stackElements/substackElement.cc:31-39 | the comma completes the piece `1` and the opening quote enters the string |
| SubstackElements.RegularScanTail | src/language/stack/stackElements/substackElement.cc:37-54 | inside the string, `>>`, `<<` and escaped quotes are inert and only the closing quote leaves it |
| SubstackElements.QuotedTokenQuiet | src/language/stack/stackElements/substackElement.cc:37 | inside the quoted token every quote but the last is escaped |
| SubstackElements.TrimLeadingBlank | src/util/stringUtils.cc:126-130 | one blank before a quoted token is trimmed away |
| SubstackElements.EscapeAroundQuotes | src/util/stringUtils.cc:32-53 | escaping plain parts around two quotes backslashes only the quotes |
| SubstackElements.EmptySubstackExample | src/language/stack/stackElements/substackElement.cc:62-67 | `<< >>` is the empty substack, whatever the element parser |
| SubstackElements.ExtraClosingExample | src/language/stack/stackElements/substackElement.cc:44-51 | `<< 1 >>, >>` fails with the missing-opening-delimiter message at location 5 |
| SubstackElements.MissingClosingExample | src/language/stack/stackElements/substackElement.cc:57-61 | `<< 1, << 3 >>` fails with "Missing 1 closing substack delimiter." at location 12, because the last two characters are never scanned |
| SubstackElements.AsWrittenOutOfRange | src/language/stack/stackElements/substackElement.cc:26-35 | as written, `<< 1, 2 >>` hands the one-character piece `1` to SubstackElement::parse, whose loop needs at least four characters |
| SubstackElements.TwoNumbersScan | src/language/stack/stackElements/substackElement.cc:29-36 | the scan of `<< 1, 2 >>` completes exactly the piece `1` at the comma |
| SubstackElements.Render | src/language/stack/stackElements/substackElement.cc:78-94 | a string element renders between quotes, a substack between `<< ` and ` >>`, the empty one included |
| SubstackElements.Join | src/language/stack/stackElements/substackElement.cc:84-89 | the joined renderings start with the first element's and hold a two-character separator for each further element |
| SubstackElements.JoinSnoc | src/language/stack/stackElements/substackElement.cc:84-89 | joining one more element appends the separator and its rendering |
| SubstackElements.RenderSubstack | src/language/stack/stackElements/substackElement.cc:78-94 | the append loop followed by erasing the trailing separator gives `<< (empty) >>` for an empty substack, otherwise `"<< "` + the element renderings joined by `", "` + `" >>"` |
| Language.CheckType | src/language/language.cc:72-108 | a match needs the element's kind to be the descriptor's, and a command matches exactly when its quotedness agrees with whether the descriptor is specialised (other than by Any) |
| Language.BareAnyMatchesNothing | src/language/language.cc:73-82 | a bare Any descriptor matches no element |
| Language.KindMismatch | src/language/language.cc:72-107 | an element never matches a descriptor of another kind, however it is specialised |
| Language.PlainMatch | src/language/language.cc:73-82 | an unspecialised descriptor matches exactly the elements of its kind, except quoted commands |
| Language.ExactnessMatch | src/language/language.cc:83-89 | Number(Exact) matches exactly the exact numbers and Number(Inexact) exactly the inexact ones |
| Language.QuotedCommandMatch | src/language/language.cc:90-94 | a specialised Command descriptor matches exactly the quoted commands, which the plain Command descriptor never matches |
| Language.SubstackMatch | src/language/language.cc:95-104 | a specialised Substack descriptor matches a substack exactly when every nested element matches the specialisation; the empty substack always matches |
| Language.SubstackAnyMatchesAll | src/language/language.cc:73-82 | Substack(Any) matches every substack |
| Language.OtherSpecialisedMatchesNothing | src/language/language.cc:105-107 | any other specialised descriptor matches nothing |
| Language.CheckTypesPass | src/language/language.cc:110-123 | a signature passes exactly when the stack is at least as deep and descriptor k matches element k from the top; extra depth is ignored |
| Language.CheckTypesFailure | src/language/language.cc:114-122 | a failure names the first unmet descriptor, with the mismatching element, or with no element when the stack is too shallow |
| Language.CheckTypes | src/language/language.cc:110-123 | the paired iterator loop computes CheckTypesSpec and reads the stack only |
| Language.Exec | src/language/language.cc:125-179 | every call returns with the stop flag clear: the first call that sees it set consumes it, and nothing sets it |
| Language.CallPrim | src/language/language.cc:143-151 | a failed signature check fails and changes nothing; the stop flag is left alone, and a stack within its limit stays within it |
| Language.ExecBody | src/language/language.cc:166-170 | an empty body changes nothing; a body run with the flag clear leaves it clear |
| Language.StopChecked | src/language/language.cc:127-130 | a set stop flag is cleared and reported as StopError before the stack is touched |
| Language.DataIsInert | src/language/language.cc:134-135 | if the top is not an unquoted command, nothing changes |
| Language.UnknownCommand | src/language/language.cc:171-174 | an unknown command is removed and reported as SyntaxError("Given command is not recognized.", name, 0); the rest of the stack and the registry are unchanged |
| Language.TypeCheckAtomic | src/language/language.cc:144-149 | a failed signature check ends with a TypeError after only the command has been removed |
| Language.PrimitiveFirst | src/language/language.cc:137-152 | a name found among the primitives never expands a definition: the result does not depend on fuel or context, and on a failed check not on the definition either |
| Language.ExecKeepsBound | src/language/language.cc:125-179 | every state execute reaches keeps size <= limit |
| Language.ExecBodyKeepsBound | src/language/language.cc:166-170 | running a body keeps size <= limit |
| Language.ExecFuelMonotone | src/language/language.cc:125-179 | the fuel bound changes nothing except by running out: a call that does not run out gives the same result with more fuel |
| Language.ExecBodyFuelMonotone | src/language/language.cc:166-170 | the same for a body |
| Language.DataBodyPushes | src/language/language.cc:166-170 | a body of data that fits under the limit is pushed in order, leaving its last element on top, and changes nothing else |
| Language.FullStackOverflows | src/language/language.cc:167-168 | on a full stack a body fails at its first push with StackOverflowError(limit) and changes nothing |
| Language.ExecKeepsDefines | src/language/language.cc:160-170 | only primitives change the registry: expanding a defined function leaves the stored definitions as they were |
| Language.ExecBodyKeepsDefines | src/language/language.cc:166-170 | the same for a body |
| Language.Interpreter.constructor | src/language/language.cc:54-70 | an engine starts with no definitions, the stop flag clear and the given primitive table |
| Language.Interpreter.CallPrimitive | src/language/language.cc:137-151 | the signature check, then the primitive's behaviour, whose stack and registry replace the old ones and whose error is reported |
| Language.Interpreter.ExecuteBody | src/language/language.cc:166-170 | the pushes and nested calls over a defined function's body compute exactly ExecBody: the first failed push or call ends the loop with its error |
| Language.Interpreter.Execute | src/language/language.cc:125-179 | the method's new stack, registry and flag, and its outcome, are exactly Exec applied to the old state: stop check, underflow, no-op on data, pop, primitives before definitions, signature check, body pushed and run in order with the extended context, unknown-command error |

## Left out

- Terminal UI, key loop, signal handlers, command-line parsing and the final dump to the output file: I/O and process control. The stop flag is a field set before `Execute` is called. The signal handler sets it asynchronously, but the model cannot interrupt a running call, so only the check at entry is modelled.
- The number, type, boolean and command literal parsers, the `StackElement::parse` dispatcher, and the renderings of numbers, booleans, types and commands. Their code is not part of this model. The substack parser takes the element parser as a parameter, and the renderer takes the rendering of these kinds as a parameter.
- The primitive catalog (the `.inc` files included by `src/language/language.cc:56-70`). Its code is not part of this model, so each primitive is a signature plus an arbitrary behaviour on (stack, registry). The behaviour returns a stack that respects its limit, because the catalog can only change the stack through the Stack methods. It also returns an error, if it raised one.
- GMP arithmetic: a number's rational payload is a `real`, and only its exactness is inspected.
- The exception class plumbing (constructors, kind strings, context and trace getters). Errors are a datatype. None of the errors raised in this core carry the call-context trace. `Execute` passes the context on, extended by the command, to the nested calls, but the context has no other effect.
- Manual memory management (`delete command`, `unique_ptr` nodes, leaks on exception paths). `clone` is the identity under value semantics, so the body element itself is pushed.
- Stacks.Stack: the initializer-list constructor (`src/language/stack/stack.h:96`), move construction and assignment are left out. Their code is not part of this model.
- Stacks.Stack: the iterators (`begin`/`end`) are modelled as reads of the top-first sequence by index, as in `Language.CheckTypes`. They are not separate members.
- Stacks.Stack.constructor: follows the header's default limit of max size_t rather than `__LONG_MAX__` in `srcs/language/stack.cpp:14`.
- Stacks.Stack.SetLimit: the limit is an unbounded `nat`, not a 64-bit `size_t`. A size above 2^64 - 1 cannot arise.
- StringUtils.Spaces: the count is a `nat`, not a 32-bit `unsigned`.
- StringUtils.Escape: the loop index is unbounded, where the source's `unsigned i` (`src/util/stringUtils.cc:33`) would wrap on a string of 2^32 characters or more.
- StringUtils.Unescape: the loop index is unbounded, where the source's `unsigned i` (`src/util/stringUtils.cc:59`) would wrap on a string of 2^32 characters or more.
- StringUtils.FindImproperEscape: the loop index and the index returned are unbounded, where the source's `unsigned i` (`src/util/stringUtils.cc:92`) would wrap on a string of 2^32 characters or more.
- StringUtils.RemoveChar: the loop index is unbounded, where the source's `unsigned i` (`src/util/stringUtils.cc:116`) would wrap on a string of 2^32 characters or more.
- StringElements.DefectLocation: the defect index is unbounded, as the `size_t` it is in the source; the cut to 32 bits happens in `Location`, where the exception stores it.
- StringElements.ParseString: the length `|s|` reported for a missing quote is unbounded before `Location` cuts it; strings longer than max size_t cannot arise.
- Stacks.Stack.Reverse: `reverse` (`src/language/stack/stack.h:123`) is only declared; its body is not part of this model, so the method states the declared effect and not how the nodes are relinked.
- Stacks.Stack.Copy: the copy constructor (`src/language/stack/stack.h:97`) is only declared; its body is not part of this model, so only the declared effect is stated.
- StringUtils.IsWhitespace: the `WHITESPACE` constant is declared in `util/stringUtils.h`, which is not part of this model. The model assumes the six ASCII whitespace characters.
- SubstackElements.ParseSubstack: requires at least four characters, which the loop bounds `begin() + 2` and `end() - 2` need. The `<<`/`>>` framing is not checked, as in the source. It also requires at most max size_t characters, the most a `std::string` can hold.
- SubstackElements.ParseSubstack: the element parser applied to the pieces is a parameter rather than SubstackElement::parse (see Findings).
- A round trip between substack rendering and parsing is not stated. It depends on the renderings of kinds this model does not include.
- Language.Interpreter.Execute: `fuel` bounds the nesting of defined-function expansions. An expansion with no fuel left fails with `OutOfFuel`, where the source would exhaust the host's call stack. `ExecFuelMonotone` shows that the bound has no other effect.
- Language.Interpreter.Execute: the body of a defined function is taken when the function is looked up. The source iterates a reference into the registry, whose behaviour is unclear if a primitive in the body redefines that function.

## Findings

| source | as written | input that shows it | evidently intended | confidence | as-written member | corrected member |
|---|---|---|---|---|---|---|
| src/language/stack/stackElements/substackElement.cc:35 | each piece (and, at line 64, the leftover) is passed to an unqualified `parse`. Inside `SubstackElement::parse` this names `SubstackElement::parse` itself, which scans from `begin() + 2` to `end() - 2` | `<< 1, 2 >>`: the piece `1` has one character, so the inner scan starts past the end of the string | the general element parser, so that `1` is a number and a quoted token is a string (tests/testParsers.cc:240-251) | not executed; medium, because `substackElement.h` is not part of this model | SubstackElements.AsWrittenOutOfRange | SubstackElements.ParseSubstack |
