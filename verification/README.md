# Chromium SWT browser core, modelled in Dafny

This project models the core of `Chromium.java`, the CEF-backed implementation
of SWT's `Browser` widget:

- the `FunctionsResourceHandler`, the synthetic HTTP responder that serves a
  page script's call to a Java `BrowserFunction` (`processRequest`,
  `getResponseHeaders`, `readResponse`, `setEval`). Around it sit the function
  table it consults (`createFunction`, `destroyFunction`, `isFunction`,
  `getFunctionIndex`) and the stub string handed to the script side;
- the `Dispose` state machine driven by the native callbacks (`doDispose`,
  `onBeforeUnloadDialog`, `onDialogClosed`, the JS dialog answer, `dispose`),
  and the polling loop of `close()`;
- the open-window listener array (`addOpenWindowListener`,
  `removeOpenWindowListener`);
- the translation of CEF keyboard modifiers into an SWT state mask
  (`cef_event_flags`, `on_key_event`);
- the request filter (`allowTurboLink`, `containsTurbolinkHeader`,
  `shouldAllowProtocol` and the scheme test of `getResourceRequestHandler`);
- the page helpers `clearExtraMenuItem`, `getPlainUrl`, `onTakeFocus` and the
  header splitting of `doSetUrl`.

Modules, one per file:

| file | module | what it holds |
|---|---|---|
| wrappers.dfy | Wrappers | `Option` |
| seqs.dfy | Seqs | the Java runtime pieces: identity search, `System.arraycopy`, `contains`, ASCII `toLowerCase`, `String.split` with and without a limit |
| decimal.dfy | Decimal | `Integer.toString` / `Integer.parseInt` on 32-bit values |
| listeners.dfy | OpenWindowListeners | the listener array |
| registry.dfy | FunctionRegistry | the function table, the stub string, `isFunction` / `getFunctionIndex` |
| handler.dfy | ResourceHandler | `FunctionsResourceHandler` and the handler stack |
| dispose.dfy | Disposal | the `Dispose` transitions and `close()` |
| keyboard.dfy | Keyboard | modifier flags and `on_key_event` (Java `int` as `bv32`) |
| requests.dfy | RequestFilter | turbolinks, custom protocols, the resource-handler decision |
| pagehelpers.dfy | PageHelpers | context menu clean-up, plain URL, focus hand-over, `doSetUrl` |

Native CEF callbacks (`Continue`, `cancel`) become a list of `Effect`s in the
result. The payload decoder, the host function's result, the SWT constants,
`translateKey`, `getHeaderByName`, the confirm dialog's answer, the clock and
the event pump are all parameters.

## Model

| member | source | states |
|---|---|---|
| ResourceHandler.CreateFunctionResourceHandler | com.equo.chromium/src/com/equo/chromium/swt/internal/Chromium.java:1379-1382 | the new handler is pushed on the handler stack, with an empty buffer, offset 0, no failure, no parked callback and neither the evaluation nor the running mark set |
| ResourceHandler.ProcessRequest | com.equo.chromium/src/com/equo/chromium/swt/internal/Chromium.java:343-411 | a disposed browser answers false and touches no callback. Otherwise the answer is true exactly when the request is an authentic call: it is a function request with post data, and its decoded payload is an array of at least three elements whose first is the token registered for the index and whose third is an array or null. A request that is not a function request is cancelled. A decode failure is stored in `ex` and the callback is both continued and cancelled. Every other refusal cancels the callback and leaves the handler unchanged |
| ResourceHandler.AcceptedCall | com.equo.chromium/src/com/equo/chromium/swt/internal/Chromium.java:370-402 | for an accepted call, a four-element poll continues at once when a response is buffered and otherwise parks its callback. Any other payload queues exactly one call, carrying the request's callback, the URL's index and the payload's third element as arguments |
| ResourceHandler.BeginCall | com.equo.chromium/src/com/equo/chromium/swt/internal/Chromium.java:384-386 | the queued job takes over the request's callback and marks a function as running; the buffer, failure, offset and evaluation mark are untouched |
| ResourceHandler.FinishCall | com.equo.chromium/src/com/equo/chromium/swt/internal/Chromium.java:383-400 | a returned value replaces the buffer and a thrown one is stored in `ex`; either way the running mark is cleared, and a parked callback is continued once and dropped |
| ResourceHandler.SetEval | com.equo.chromium/src/com/equo/chromium/swt/internal/Chromium.java:455-463 | with a parked callback, the evaluation result becomes the buffer, the evaluation mark is set, the callback is continued and dropped; without one nothing changes |
| ResourceHandler.EvalAnswerDelivered | com.equo.chromium/src/com/equo/chromium/swt/internal/Chromium.java:455-463 | an evaluation answer handed to a parked poll of a clean handler is announced as a 206 response of its own length and read back byte for byte, and the handler stays on the stack |
| ResourceHandler.GetResponseHeaders | com.equo.chromium/src/com/equo/chromium/swt/internal/Chromium.java:413-430 | the status is 400 exactly when a failure is stored, with its message and length 0. Otherwise it is 206 for an evaluation answer and 200 for anything else, with mime type text and the buffer's length; the origin header is always `*` |
| ResourceHandler.ReadResponse | com.equo.chromium/src/com/equo/chromium/swt/internal/Chromium.java:432-453 | after a failure nothing is read. While bytes remain, min(remaining, bytesToRead) of them are copied to the front of `dataOut` and the offset advances. At the end the buffer, offset, evaluation mark and failure are reset, and the handler leaves the stack unless it answered an evaluation |
| ResourceHandler.DrainDeliversResponse | com.equo.chromium/src/com/equo/chromium/swt/internal/Chromium.java:432-453 | reading to the end, in chunks of any positive size, delivers exactly the buffered bytes after the offset, in order. It then resets the handler and takes it off the stack unless it answered an evaluation |
| ResourceHandler.DrainAtEnd | com.equo.chromium/src/com/equo/chromium/swt/internal/Chromium.java:444-452 | with nothing left to deliver, the first read delivers nothing, ends the stream and resets the handler |
| ResourceHandler.HeadersAnnounceDeliveredLength | com.equo.chromium/src/com/equo/chromium/swt/internal/Chromium.java:413-453 | the body length announced in the headers equals the number of bytes the reads deliver |
| ResourceHandler.FailureBlocksReading | com.equo.chromium/src/com/equo/chromium/swt/internal/Chromium.java:419-437 | after a failure the status is 400, and reading delivers nothing and leaves the handler as it is |
| ResourceHandler.ReplayAfterReplacementCancelled | com.equo.chromium/src/com/equo/chromium/swt/internal/Chromium.java:301-327 | once a function is replaced by a new one of the same name, a request naming the old index is cancelled |
| ResourceHandler.PollParkedUntilCallFinishes | com.equo.chromium/src/com/equo/chromium/swt/internal/Chromium.java:371-400 | a poll that arrives while the call runs is parked; when the call finishes, the poll's callback is continued once and the result is in the buffer |
| ResourceHandler.AddDispatch | com.equo.chromium/src/com/equo/chromium/swt/internal/Chromium.java:364-402 | the dispatch `["T1", true, [2, 3]]` of the function registered at index 0 under token T1 is accepted and queues one call with arguments [2, 3] |
| ResourceHandler.AddScenario | com.equo.chromium/src/com/equo/chromium/swt/internal/Chromium.java:343-453 | the whole `add(2, 3)` round, posted to `<prefix>functions/?0` behind any hierarchical prefix such as `https://`: the dispatch is accepted and queued; when the call returns, its callback is continued; the headers announce 200 and the result's length; the reads deliver exactly the result |
| FunctionRegistry.JoinTerminated | com.equo.chromium/src/com/equo/chromium/swt/internal/Chromium.java:317-318 | a non-empty frame list joined with a terminating `;` ends in `;` |
| FunctionRegistry.FramesString | com.equo.chromium/src/com/equo/chromium/swt/internal/Chromium.java:317-319 | the frame list: a non-empty list's names each followed by `;`; otherwise a lone `;` when the list is missing or the function is not for the top frame, and nothing for an empty list of a top-frame function. `FramesRoundTrip` states that splitting it gives the names back |
| FunctionRegistry.EncodedFunction | com.equo.chromium/src/com/equo/chromium/swt/internal/Chromium.java:321 | the stub string: marker, index, token, function host, browser id, top flag and frame list, joined by `;`. `EncodedFunctionFields` states that splitting it gives those fields back |
| FunctionRegistry.FramesRoundTrip | com.equo.chromium/src/com/equo/chromium/swt/internal/Chromium.java:317-319 | splitting the frame list at every `;` gives back the frame names followed by one empty piece, when no name contains `;` |
| FunctionRegistry.EncodedFunctionFields | com.equo.chromium/src/com/equo/chromium/swt/internal/Chromium.java:321 | the stub string split at `;` starts with the marker, the decimal index (which parses back to the index), the token and the function host |
| FunctionRegistry.DestroyFunction | com.equo.chromium/src/com/equo/chromium/swt/internal/Chromium.java:329-334 | the index leaves the table; every other entry and the counter stay |
| FunctionRegistry.CreateFunction | com.equo.chromium/src/com/equo/chromium/swt/internal/Chromium.java:301-327 | a function with no frame list that is not for the top frame is skipped, and only then. Otherwise the function gets the counter's index and the counter advances. An earlier function of the same name is removed and every other entry is kept as it was |
| FunctionRegistry.CreateFunctionKeepsValid | com.equo.chromium/src/com/equo/chromium/swt/internal/Chromium.java:301-327 | registration keeps names unique and every index below the counter |
| FunctionRegistry.ReplacedIndexRetired | com.equo.chromium/src/com/equo/chromium/swt/internal/Chromium.java:307-314 | the index of a function replaced by name is gone from the table and is never handed out again |
| FunctionRegistry.UriQuery | com.equo.chromium/src/com/equo/chromium/swt/internal/Chromium.java:1299-1302 | a query exists exactly when `java.net.URI` parses the URL as hierarchical (no scheme, or a well-formed scheme followed by `/`) and the URL before its fragment holds a `?`. It is then the text after the first such `?` up to the fragment. An opaque URI such as `mailto:functions/?1` has none |
| FunctionRegistry.SchemeColon | com.equo.chromium/src/com/equo/chromium/swt/internal/Chromium.java:1300 | the colon that ends a scheme is a `:` with no `:`, `/`, `?` or `#` before it |
| FunctionRegistry.HierarchicalExtend | com.equo.chromium/src/com/equo/chromium/swt/internal/Chromium.java:1300 | appending text that starts with neither `/` nor `:` and holds no `:` does not change whether the URL is hierarchical |
| FunctionRegistry.FunctionIndex | com.equo.chromium/src/com/equo/chromium/swt/internal/Chromium.java:1299-1302 | `getFunctionIndex`: the query parsed by `Integer.parseInt`, None for a missing query, a rejected URI or a failed parse. `FunctionIndexOfQuery` states that the decimal text of an index gives the index back |
| FunctionRegistry.IsFunction | com.equo.chromium/src/com/equo/chromium/swt/internal/Chromium.java:1275-1288 | `isFunction`: a POST mentioning the function host whose index parses and is registered, from a non-popup browser. `IsFunctionIndexRegistered`, `FunctionUrlRecognised` and `OpaqueUrlNoFunction` state its two directions |
| FunctionRegistry.OpaqueUrlNoFunction | com.equo.chromium/src/com/equo/chromium/swt/internal/Chromium.java:1275-1302 | an opaque `mailto:` URL has no query, so it is never a function call, even when it mentions the function host |
| FunctionRegistry.IsFunctionIndexRegistered | com.equo.chromium/src/com/equo/chromium/swt/internal/Chromium.java:1275-1288 | a recognised function request is a POST from a non-popup browser whose query parses to a registered index |
| FunctionRegistry.FunctionIndexOfQuery | com.equo.chromium/src/com/equo/chromium/swt/internal/Chromium.java:1299-1302 | a hierarchical URL whose query is the decimal text of a 32-bit index yields that index |
| FunctionRegistry.FunctionUrlRecognised | com.equo.chromium/src/com/equo/chromium/swt/internal/Chromium.java:1275-1288 | a POST to `…functions/?<index>` from a non-popup browser, behind a hierarchical prefix such as `https://` and naming a registered index, is recognised as a call of that index |
| Decimal.ParseInt | com.equo.chromium/src/com/equo/chromium/swt/internal/Chromium.java:1301 | parsing succeeds exactly when, after an optional `-` or `+`, the text is a non-empty run of ASCII digits whose value, negated after `-`, fits in 32 bits; the result is that value |
| Decimal.ParseIntToString | com.equo.chromium/src/com/equo/chromium/swt/internal/Chromium.java:1301 | parsing the decimal text of any 32-bit int gives it back |
| Decimal.ParseIntPlus | com.equo.chromium/src/com/equo/chromium/swt/internal/Chromium.java:1301 | a leading `+` is accepted: `+n` parses as n |
| Decimal.ParseIntNeedsDigit | com.equo.chromium/src/com/equo/chromium/swt/internal/Chromium.java:1301 | text without a digit does not parse |
| Decimal.DigitsValueOfNat | com.equo.chromium/src/com/equo/chromium/swt/internal/Chromium.java:321 | the digits written for a natural number read back as that number |
| Decimal.IntToString | com.equo.chromium/src/com/equo/chromium/swt/internal/Chromium.java:321 | `Integer.toString`: a `-` before the digits of the magnitude for a negative value. `ParseIntToString` states that parsing it gives the value back |
| OpenWindowListeners.AddOpenWindowListener | com.equo.chromium/src/com/equo/chromium/swt/internal/Chromium.java:267-272 | the new array is one longer, starts with the old entries and ends with the new listener |
| OpenWindowListeners.RemoveOpenWindowListener | com.equo.chromium/src/com/equo/chromium/swt/internal/Chromium.java:274-292 | an unregistered listener changes nothing; otherwise exactly its first occurrence is cut out, which is the reference removal `RemoveFirst` |
| OpenWindowListeners.RemoveAfterAdd | com.equo.chromium/src/com/equo/chromium/swt/internal/Chromium.java:267-292 | removing a listener just added, that was not registered before, restores the original array |
| Seqs.FirstIndex | com.equo.chromium/src/com/equo/chromium/swt/internal/Chromium.java:277-283 | there is no index exactly when the element is absent; otherwise the index holds the element and no earlier position does |
| Seqs.RemoveFirst | com.equo.chromium/src/com/equo/chromium/swt/internal/Chromium.java:447 | removing an element that occurs cuts out exactly its first occurrence, the others keeping their order; removing an absent one changes nothing |
| Seqs.ArrayCopy | com.equo.chromium/src/com/equo/chromium/swt/internal/Chromium.java:289-290 | the destination is unchanged outside the copied window, and the window holds the source's elements from the source position |
| Seqs.ContainsIff | com.equo.chromium/src/com/equo/chromium/swt/internal/Chromium.java:1276 | `contains` holds exactly when some position starts an occurrence |
| Seqs.Lower | com.equo.chromium/src/com/equo/chromium/swt/internal/Chromium.java:1315 | lower-casing keeps the length and maps every character through the ASCII case map |
| Seqs.Pieces | com.equo.chromium/src/com/equo/chromium/swt/internal/Chromium.java:1161 | every piece between separators, empty ones included. `JoinPieces`, `PiecesOfJoin` and `PiecesAllEmpty` state what it splits |
| Seqs.JavaSplit | com.equo.chromium/src/com/equo/chromium/swt/internal/Chromium.java:1161 | `String.split` with limit 0: the pieces with trailing empty ones dropped, or the whole string when it has no separator. `JavaSplitOfJoin` and `JavaSplitEmpty` state its round trip and its empty case |
| Seqs.JoinPieces | com.equo.chromium/src/com/equo/chromium/swt/internal/Chromium.java:1161 | joining the pieces of a string with the separator gives the string back |
| Seqs.PiecesOfJoin | com.equo.chromium/src/com/equo/chromium/swt/internal/Chromium.java:1161 | splitting a join of parts, all but the last free of the separator, gives those parts followed by the pieces of the last |
| Seqs.DropTrailingEmpty | com.equo.chromium/src/com/equo/chromium/swt/internal/Chromium.java:1161 | the result is a prefix that does not end in an empty string, and everything dropped is empty |
| Seqs.JavaSplitOfJoin | com.equo.chromium/src/com/equo/chromium/swt/internal/Chromium.java:1161 | `split` undoes a join of separator-free parts whose last part is not empty |
| Seqs.JavaSplitEmpty | com.equo.chromium/src/com/equo/chromium/swt/internal/Chromium.java:1161 | `split` returns no piece at all exactly when the string is non-empty and made of separators only |
| Seqs.PiecesAllEmpty | com.equo.chromium/src/com/equo/chromium/swt/internal/Chromium.java:1161 | all pieces are empty exactly when the string consists of separators only |
| Seqs.SplitFirst | com.equo.chromium/src/com/equo/chromium/swt/internal/Chromium.java:3054 | `split(":", 2)` gives the whole line when there is no separator; otherwise a separator-free head and the rest, which rebuild the line |
| Disposal.DoDispose | com.equo.chromium/src/com/equo/chromium/swt/internal/Chromium.java:736-746 | a close in progress becomes DoIt; a quiet browser with a widget starts disposing from the browser side and queues the widget's dispose; any other state stays |
| Disposal.OnBeforeUnloadDialog | com.equo.chromium/src/com/equo/chromium/swt/internal/Chromium.java:1664-1677 | a host close turns into Unload, and with SWT dialogs into UnloadClosed; the callback is handled exactly when SWT dialogs are used |
| Disposal.OnDialogClosed | com.equo.chromium/src/com/equo/chromium/swt/internal/Chromium.java:1657-1662 | Unload becomes UnloadClosed; any other state stays |
| Disposal.OnJsDialogAnswer | com.equo.chromium/src/com/equo/chromium/swt/internal/Chromium.java:1598-1612 | a refusal in the browser's own non-popup dialog while waiting on the page becomes UnloadCancel; nothing else changes the state |
| Disposal.OnWidgetDispose | com.equo.chromium/src/com/equo/chromium/swt/internal/Chromium.java:2472-2475 | SWT's dispose marks FromDispose unless already disposing from there, from the browser, or the widget is gone |
| Disposal.UnloadCancelOnlyByRefusal | com.equo.chromium/src/com/equo/chromium/swt/internal/Chromium.java:1602-1603 | the only step into UnloadCancel is a refusal in the browser's own non-popup dialog, taken from Unload or WaitIfClosed |
| Disposal.DoItOnlyFromClose | com.equo.chromium/src/com/equo/chromium/swt/internal/Chromium.java:736-739 | the only step into DoIt is the native close callback during a close |
| Disposal.DoItStays | com.equo.chromium/src/com/equo/chromium/swt/internal/Chromium.java:736-746 | once DoIt, only SWT's dispose can change the state |
| Disposal.Close | com.equo.chromium/src/com/equo/chromium/swt/internal/Chromium.java:2414-2458 | the loop computes the reference outcome `CloseSpec`. It refuses during disposal or after the widget is gone, and succeeds at once without a native browser. Any answer it gives is true exactly when the loop saw DoIt or there was no native browser |
| Disposal.CloseSpec | com.equo.chromium/src/com/equo/chromium/swt/internal/Chromium.java:2414-2458 | the reference outcome of `close()`: refusal during disposal or after the widget is gone, success without a native browser, otherwise polling from FromClose for the timeout. `Close` computes it, and `PollAnswer` and the lemmas after it state its cases |
| Disposal.Poll | com.equo.chromium/src/com/equo/chromium/swt/internal/Chromium.java:2429-2457 | one pump step at a time: a disposed shell, the deadline or a cancelled unload give up with false, DoIt succeeds, and the unload prompt extends the deadline. `PollAnswer`, `UnloadPromptKeepsWaiting`, `RefusalEndsClose` and `GraceAfterPromptClosed` state these |
| Disposal.PollAnswer | com.equo.chromium/src/com/equo/chromium/swt/internal/Chromium.java:2429-2457 | the polling loop answers true exactly when it saw DoIt and then keeps DoIt; a false answer puts the state back to No |
| Disposal.UnloadPromptKeepsWaiting | com.equo.chromium/src/com/equo/chromium/swt/internal/Chromium.java:2429-2433 | while the unload prompt stays up and polls come more often than the one-second extension, the loop never times out |
| Disposal.RefusalEndsClose | com.equo.chromium/src/com/equo/chromium/swt/internal/Chromium.java:2434-2437 | a refused unload prompt makes the next poll give up with false and the state back to No |
| Disposal.GraceAfterPromptClosed | com.equo.chromium/src/com/equo/chromium/swt/internal/Chromium.java:2438-2442 | once a poll sees the prompt closed, a poll 600 ms or more later gives up with false and the state back to No |
| Keyboard.ShouldSetState | com.equo.chromium/src/com/equo/chromium/swt/internal/Chromium.java:2141-2152 | `shouldSetState`: a flag counts when set, unless its own key is going down; when not set, only when its own key is coming up. `KeylessFlagCountsWhenSet`, `ModifierKeyReportsStateBefore` and `OtherKeyKeepsFlag` state the cases |
| Keyboard.KeylessFlagCountsWhenSet | com.equo.chromium/src/com/equo/chromium/swt/internal/Chromium.java:2141-2152 | a flag without a key of its own counts exactly when CEF reports it set |
| Keyboard.ModifierKeyReportsStateBefore | com.equo.chromium/src/com/equo/chromium/swt/internal/Chromium.java:2141-2152 | pressing a modifier key leaves its own flag out of the mask, and releasing it puts the flag in |
| Keyboard.OtherKeyKeepsFlag | com.equo.chromium/src/com/equo/chromium/swt/internal/Chromium.java:2141-2152 | for any other key a modifier flag counts exactly when CEF reports it set |
| Keyboard.Passing | com.equo.chromium/src/com/equo/chromium/swt/internal/Chromium.java:2177-2203 | the passing flags are exactly those for which shouldSetState holds |
| Keyboard.MaskOfOmits | com.equo.chromium/src/com/equo/chromium/swt/internal/Chromium.java:2176-2204 | with disjoint state bits, the 32-bit sum over distinct flags shares no bit with the state bit of a flag not listed |
| Keyboard.MaskOfHolds | com.equo.chromium/src/com/equo/chromium/swt/internal/Chromium.java:2176-2204 | with disjoint state bits, a listed flag's bit is in the 32-bit sum exactly when the flag passes |
| Keyboard.TranslatedKeyCode | com.equo.chromium/src/com/equo/chromium/swt/internal/Chromium.java:2171-2172 | codes 91 and 93 become COMMAND; other codes become translateKey's answer, or stay as they are when that answer is 0 |
| Keyboard.OnKeyEvent | com.equo.chromium/src/com/equo/chromium/swt/internal/Chromium.java:2159-2204 | an event is fired exactly when the browser is alive and the event is not a character event. Key-up gives KeyUp and both key-down kinds give KeyDown, with the translated key code. For any SWT constants the state mask is the 32-bit sum of the state bits of the flags for which shouldSetState holds. With disjoint state bits, the mask holds a flag's bit exactly when shouldSetState holds for it |
| Keyboard.StateMaskDecodes | com.equo.chromium/src/com/equo/chromium/swt/internal/Chromium.java:2176-2204 | with disjoint state bits, the summed mask holds a flag's bit exactly when shouldSetState holds for it |
| Keyboard.RightShiftCarriesIntoCtrl | com.equo.chromium/src/com/equo/chromium/swt/internal/Chromium.java:2176-2204 | with SHIFT and RIGHT on the same bit (1 << 17) and CTRL on the next, an ordinary key pressed with the right Shift key held reports the CTRL bit and not the SHIFT bit |
| RequestFilter.StandardScheme | com.equo.chromium/src/com/equo/chromium/swt/internal/Chromium.java:1220-1221 | URLs starting with `http`, `data`, `file`, `chrome`, `about` or `devtools` are standard. `ResourceHandling` states that only other URLs reach the custom-protocol check |
| RequestFilter.AllowTurboLink | com.equo.chromium/src/com/equo/chromium/swt/internal/Chromium.java:1160-1163 | the check throws, and only then, when the property is non-empty and made of `;` only |
| RequestFilter.TurboLinksOffByDefault | com.equo.chromium/src/com/equo/chromium/swt/internal/Chromium.java:1160-1163 | an unset property disables turbolinks |
| RequestFilter.TurboLinksFirstEntry | com.equo.chromium/src/com/equo/chromium/swt/internal/Chromium.java:1160-1163 | for a list of entries, turbolinks are on exactly when the first entry is `true` or contains `=` |
| RequestFilter.LowerCaseKeys | com.equo.chromium/src/com/equo/chromium/swt/internal/Chromium.java:1256-1257 | the lower-cased header map exists exactly when no two names coincide once lower-cased, and maps each lower-cased name to its header's value |
| RequestFilter.LowerCaseKeysDomain | com.equo.chromium/src/com/equo/chromium/swt/internal/Chromium.java:1256-1257 | its keys are exactly the lower-cased header names |
| RequestFilter.ParseRule | com.equo.chromium/src/com/equo/chromium/swt/internal/Chromium.java:1260-1262 | an entry is a header rule candidate exactly when it contains `=` |
| RequestFilter.RuleOfPair | com.equo.chromium/src/com/equo/chromium/swt/internal/Chromium.java:1260-1262 | `name=value` gives the rule for the lower-cased name and the exact value |
| RequestFilter.RuleWithoutValue | com.equo.chromium/src/com/equo/chromium/swt/internal/Chromium.java:1262 | `name=` has no value to read and throws |
| RequestFilter.MatchRules | com.equo.chromium/src/com/equo/chromium/swt/internal/Chromium.java:1259-1266 | a true answer names a matching rule and a throw names a malformed one. Without malformed entries, the answer is whether some rule matches |
| RequestFilter.PartialLoadHeaders | com.equo.chromium/src/com/equo/chromium/swt/internal/Chromium.java:1268-1272 | a pjax request, a Turbo frame, or an `empty` fetch destination outside navigation and websockets. `ContainsTurbolinkHeader` states that it makes the answer true, and `PjaxRequestBlocked` that such a load is blocked |
| RequestFilter.ContainsTurbolinkHeader | com.equo.chromium/src/com/equo/chromium/swt/internal/Chromium.java:1253-1273 | clashing lower-cased names throw. With distinct lower-cased names and no malformed rule, the answer is true exactly when some `name=value` rule matches a header (name in any case, value exactly) or a partial-load header is present |
| RequestFilter.RuleMatchesAnyCase | com.equo.chromium/src/com/equo/chromium/swt/internal/Chromium.java:1253-1273 | a single `name=value` rule finds its header whatever the case of the header's name |
| RequestFilter.RuleWithoutValueThrows | com.equo.chromium/src/com/equo/chromium/swt/internal/Chromium.java:1259-1266 | a lone `name=` rule makes the check throw |
| RequestFilter.ShouldAllowProtocol | com.equo.chromium/src/com/equo/chromium/swt/internal/Chromium.java:1304-1339 | the check throws, and only then, when the property is non-empty and made of `;` only. With a single entry, the URL is allowed exactly when the entry is `true` in any case, or `confirm` in any case and the user confirms |
| RequestFilter.CustomProtocolsOffByDefault | com.equo.chromium/src/com/equo/chromium/swt/internal/Chromium.java:1304-1339 | an unset property refuses every custom protocol |
| RequestFilter.ProtocolListAllowsPrefixes | com.equo.chromium/src/com/equo/chromium/swt/internal/Chromium.java:1306-1313 | with two or more entries, a URL is allowed exactly when it starts with one of them |
| RequestFilter.EmptyProtocolEntryAllowsAll | com.equo.chromium/src/com/equo/chromium/swt/internal/Chromium.java:1306-1313 | an empty entry inside a list is a prefix of every URL, so everything is allowed |
| RequestFilter.SinglePrefixIsKeyword | com.equo.chromium/src/com/equo/chromium/swt/internal/Chromium.java:1315-1338 | a single entry that is neither `true` nor `confirm` in any case refuses every URL, even one it is a prefix of |
| RequestFilter.TrueKeywordAllowsAll | com.equo.chromium/src/com/equo/chromium/swt/internal/Chromium.java:1315-1318 | the single entry `true`, in any case, allows every custom protocol |
| RequestFilter.ConfirmKeywordAsksUser | com.equo.chromium/src/com/equo/chromium/swt/internal/Chromium.java:1319-1336 | the single entry `confirm`, in any case, leaves the decision to the user's answer |
| RequestFilter.ResourceHandling | com.equo.chromium/src/com/equo/chromium/swt/internal/Chromium.java:1210-1251 | function calls and registered protocols get default handling. A URL is launched externally exactly when its scheme is custom and allowed. A refused custom scheme is blocked unless the turbolinks check, which Java still evaluates, throws. A standard scheme gets default handling with turbolinks off; with them on it is blocked exactly when containsTurbolinkHeader answers true. The answer is None (Java throws) exactly when the protocol check of a custom scheme throws, or a refused or standard URL reaches a turbolinks check that throws |
| RequestFilter.PjaxRequestBlocked | com.equo.chromium/src/com/equo/chromium/swt/internal/Chromium.java:1242-1249 | with turbolinks on, a pjax request to a web page is blocked |
| PageHelpers.IsExtra | com.equo.chromium/src/com/equo/chromium/swt/internal/Chromium.java:1743-1745 | an extra entry has `save`, `cast`, `qr`, `nspect` or `search google` in its lower-cased label. `KeptItemsExact` states that exactly the other non-separator items are kept |
| PageHelpers.KeptItems | com.equo.chromium/src/com/equo/chromium/swt/internal/Chromium.java:1741-1753 | the kept items are no more than the menu's and none is an extra entry or a separator |
| PageHelpers.KeptItemsExact | com.equo.chromium/src/com/equo/chromium/swt/internal/Chromium.java:1741-1753 | an item is kept exactly when it is in the menu and is neither an extra entry nor a separator |
| PageHelpers.ClearExtraMenuItems | com.equo.chromium/src/com/equo/chromium/swt/internal/Chromium.java:1741-1753 | the backward removal loop leaves exactly the kept items, in menu order |
| PageHelpers.ClearingTwiceChangesNothing | com.equo.chromium/src/com/equo/chromium/swt/internal/Chromium.java:1741-1753 | cleaning a cleaned menu changes nothing |
| PageHelpers.GetPlainUrl | com.equo.chromium/src/com/equo/chromium/swt/internal/Chromium.java:3005-3015 | null stays null and a URL never becomes null. A base64 data URL always shows as `data:text/html`, and a URL that is neither that nor a file URL shows as it is. A URL is replaced only by `data:text/html`, for a base64 data URL, or by `about:blank`, for a file URL while the text-as-URL property is set |
| PageHelpers.PlainUrlHidesText | com.equo.chromium/src/com/equo/chromium/swt/internal/Chromium.java:3006-3008 | a base64 text URL is shown as `data:text/html` |
| PageHelpers.PlainUrlKeepsWebUrl | com.equo.chromium/src/com/equo/chromium/swt/internal/Chromium.java:3005-3015 | an http(s) URL is shown as it is |
| PageHelpers.PlainUrlKeepsFileUrl | com.equo.chromium/src/com/equo/chromium/swt/internal/Chromium.java:3009-3014 | without the text-as-URL property a file URL is shown as it is |
| PageHelpers.Neighbour | com.equo.chromium/src/com/equo/chromium/swt/internal/Chromium.java:2375-2381 | a neighbour is the position right after (or before) the browser's first position in the tab order, strictly after the first control, inside the list and not disposed |
| PageHelpers.TakeFocus | com.equo.chromium/src/com/equo/chromium/swt/internal/Chromium.java:2370-2388 | a browser disposed on entry leaves the focus alone and never throws. Otherwise reading the first control fails exactly when the tab order is empty. A live neighbour always gets the focus, any target is a live control, and any target other than the first control is the neighbour. Focus stays put exactly when the browser was disposed on entry, or there is no neighbour and the host or the first control is disposed |
| PageHelpers.TabForwardReachesNext | com.equo.chromium/src/com/equo/chromium/swt/internal/Chromium.java:2375-2381 | tabbing forward reaches the next live control |
| PageHelpers.TabForwardFromLastWraps | com.equo.chromium/src/com/equo/chromium/swt/internal/Chromium.java:2383-2386 | tabbing forward from the last control wraps to the first |
| PageHelpers.TabBackFromSecond | com.equo.chromium/src/com/equo/chromium/swt/internal/Chromium.java:2378-2386 | tabbing back from the second control goes to the first through the fallback, since the neighbour test demands a position above 0 |
| PageHelpers.AsciiBytes | com.equo.chromium/src/com/equo/chromium/swt/internal/Chromium.java:3048 | one byte per character: ASCII characters keep their code and every other character becomes `?` |
| PageHelpers.AsciiRoundTrip | com.equo.chromium/src/com/equo/chromium/swt/internal/Chromium.java:3048 | ASCII text survives the encoding |
| PageHelpers.HeaderMap | com.equo.chromium/src/com/equo/chromium/swt/internal/Chromium.java:3054-3055 | a built map has every line contain `:` and maps each line's key to its value |
| PageHelpers.HeaderMapDomain | com.equo.chromium/src/com/equo/chromium/swt/internal/Chromium.java:3054-3055 | the map's keys are exactly the lines' keys |
| PageHelpers.HeaderMapDefined | com.equo.chromium/src/com/equo/chromium/swt/internal/Chromium.java:3054-3055 | the map is built exactly when every line has a `:` and no two lines share a key |
| PageHelpers.HeaderLine | com.equo.chromium/src/com/equo/chromium/swt/internal/Chromium.java:3054-3055 | `name:value` splits back into name and value, even when the value holds `:` |
| PageHelpers.HeaderLinesRoundTrip | com.equo.chromium/src/com/equo/chromium/swt/internal/Chromium.java:3054-3055 | `name:value` lines with distinct names give back each name's value |
| PageHelpers.DoSetUrl | com.equo.chromium/src/com/equo/chromium/swt/internal/Chromium.java:3037-3060 | no post data and no headers, or a file URL, loads the URL. Otherwise a request is loaded carrying the URL, the post data as ASCII bytes exactly when given, and the header map of the lines exactly when given. It throws exactly when the header map cannot be built |
| PageHelpers.SetUrlCarriesRequest | com.equo.chromium/src/com/equo/chromium/swt/internal/Chromium.java:3037-3060 | a request set with ASCII post data and `name:value` lines of distinct names carries the post data byte for byte and maps each name to its value |

## Left out

- I/O and native calls: `cefBrowser.close`, `loadURL`, `loadRequest`, message routers, `Program.launch`, focus calls, menu calls. Each is recorded as a result value or left out.
- Threading: `asyncExec`, `syncExec` and `synchronized` are not modelled. The queued dispatch job is an `Effect`, and `BeginCall` / `FinishCall` are its two halves, run in order.
- JSON: `AbstractEval.decodeType` and `encodeType` are parameters (`decode`, `HostOutcome`). The UTF-8 decoding of the post body is folded into `decode`.
- FunctionRegistry.UriQuery: of `java.net.URI`'s syntax checks only the scheme is modelled: a malformed scheme name or an empty scheme-specific part gives no query, as does an opaque URI. Other URISyntaxException causes (illegal characters, a malformed authority) and percent-decoding of the query are not modelled.
- Decimal.ParseInt: accepts only ASCII digits after an optional sign; Java also accepts other Unicode decimal digits, which are not modelled.
- Seqs.Lower: lower-cases ASCII letters only, not full Unicode.
- Failure messages: a null exception message is not modelled; `Failure` always carries a string.
- Disposal.Close: one clock reading per loop iteration serves both the loop test and the grace deadline. The display pump is a sequence of steps, and `sleep` is not modelled.
- Keyboard: the SWT constants are parameters. The properties that read single flags back out of the state mask hold only under `DisjointStateBits`: each constant is non-zero and shares no bit with another. SWT itself gives RIGHT the same bit as SHIFT, and CAPS_LOCK and NUM_LOCK are key codes, so the 32-bit sum that `on_key_event` builds can carry into other bits. `OnKeyEvent` states that sum for any constants, and `RightShiftCarriesIntoCtrl` shows one carry. The model keeps the sum as written, because Chromium.java does not show which mask was intended.
- Keyboard.OnKeyEvent: stops at the state mask; notifying listeners and the widget, display and character bookkeeping are not modelled.
- FunctionRegistry.CreateFunction: requires unique names in the table. `createFunction` itself keeps names unique, since it always removes the previous function of the same name.
- `BrowserFunction.function` is not modelled; its outcome is the `HostOutcome` parameter. Evaluation strategies (`AbstractEval`) are not part of this model.
- WindowingToolkit.java and SchemeDomainPair.java are not part of this model. `Engine.isRegisteredProtocol` is the `isRegisteredProtocol` parameter.
- RequestFilter.ShouldAllowProtocol: the confirm dialog is the `confirmed` parameter. When no Chromium instance is found, `shouldAllowProtocol` waits forever on the future; this hang is not modelled.
- RequestFilter.ContainsTurbolinkHeader: `getHeaderByName` is a parameter; CEF's header lookup rules are not modelled.
- PageHelpers.ClearExtraMenuItems: removing an item's accelerator before removing the item is not modelled.
- PageHelpers.GetPlainUrl: the browser temp folder is the `tempFolderUri` parameter. Whether a file URL lies inside it does not appear in the contract, which allows either answer for such URLs.
- PageHelpers.DoSetUrl: the `loaded` future and `Net.config()` are not modelled.
- PageHelpers.TakeFocus: clearing `hasFocus` and the `syncExec` hop are not modelled. `disposedAtEntry` is the first disposal test and `hostDisposed` the second, taken when the focus is moved.
- Cookies, progress, and the other Browser methods of Chromium.java are not modelled.
- Seqs.Pieces: its contract states only that there is at least one piece. That no piece contains the separator is not stated; the join and split lemmas carry what the model needs.
