# Verification of flx

This project models the self-contained algorithms of flx, a proxy finder and rotator, and proves what
they are for. Each module follows one component; code that changes state step by step is modelled by
classes and methods with loops, each proved against a specification function, and the main results
are lemmas about those functions over every input, every stream or every run.

- `ExprSyntax`, `ExprMeaning`, `ExprParser`, `ExprLimits`, `ExprLayout`, `ExprReading`,
  `ExprPrinting`, `ExprBounds`, `ExprLaws`, `ProxyNova`, `Obfuscation`: the expression language of the
  ProxyNova feed. The meaning of a syntax tree is defined compositionally; the one-pass evaluator is
  proved to compute it while reading, the grammar to accept exactly the layouts of trees, and each
  operation to do what its result shows, character by character.
- `RowCodec`, `Memo`: the on-disk row cache, and its in-memory memo as a state machine of
  interleaved loads, installs and removals.
- `Utf8`, `Collector`: RFC 3629 and the streaming collector of provider bodies.
- `DnsQuery`, `DnsAnswers`: the query builder and the response walkers of RFC 1035.
- `Quotas`: the per-type quotas, their closed form, and the output loop that stops on their verdict.
- `JsonDocument`, `JsonReading`, `Csv`: the JSON array written across two passes, read back by section 5
  of RFC 8259, and CSV files read back by section 2 of
  RFC 4180, with LF, which the program writes, as well as CRLF as the end of a row.
- `Pool`: the rotating pool, its fairness and its failure history.
- `Fetcher`: the bounded deduplication window and the fetcher with its one-slot lookahead.
- `Protocols`, `Net`, `Endpoint`: protocols and endpoints as text.
- `Fitting`: lines with ANSI escapes fitted to a width.
- `Text`, `Base64`, `Wrappers`: the library operations the rest relies on.

A Rust string is a Dafny string of Unicode scalar values; its byte length is the length of its UTF-8
encoding. Errors carry no text: a failed operation is `None`. Integers are unbounded, and the source's
widths are written out where they matter: checked 64-bit arithmetic in the evaluator, the 32-bit row
count, the wrapping cursor of the pool, 16-bit ports and DNS fields.

`dafny verify dfyconfig.toml` checks the whole project.

## What turned out not to hold as promised

Each of these has a counterexample or an exact condition in the model.

- The memo is only as good as modification times. Loads from a path are linearizable in every run if
  and only if its history is faithful: a modification time comes back only with the rows the file has
  shown in between (`Memo.LoadsAreLinearizable`). Two different lists stored within one tick of the file
  system's clock break this (`Memo.StaleWhenTimesRepeat`); storing the same rows again does not
  (`Memo.EqualRowsAreFaithful`).
- A stored list is read back exactly when it has fewer than 2^32 rows (`RowCodec.RoundTrip`).
  Bytes behind the last row are ignored and unknown protocol codes make a row untyped
  (`RowCodec.DecodesExactly`).
- `is_satisfied` is documented as "no further proxy can be emitted", but `should_emit` still lets
  through proxies whose family no quota names; stopping early loses exactly those, and that shows
  exactly when the row limit is not reached before (`Quotas.EarlyStopLosesNothing`,
  `Quotas.StrayIsLost`). This is a property of the loop and the enforcer on any stream: without groups,
  `flx find` hands the loop proxies that carry one type they were probed for
  (src/validator/work.rs:300-311), so no such proxy arrives.
- In `pretty-json`, an item that fails to serialise is counted and leaves an empty place in the array;
  a run leaves the document of the surviving items exactly when none within its limits fails
  (`JsonDocument.PrettyRunOfSurvivors`, `JsonDocument.HoleInArray`). In `json` such items vanish
  (`JsonDocument.CompactRunOfSurvivors`). The proxies of `flx find` have no field that fails to
  serialise (src/proxy/models.rs:405-425), so the difference lies in the code and not in its output.
- A cancelled run leaves an unfinished document in exactly two cases: while the second pass is starting
  (a second pass that fails to start does the same), and in a first pass that has written nothing and may be followed by another
  (`JsonDocument.RunFind`, `JsonDocument.OpenIsNotClosed`).
- A CSV row has its eight columns exactly when the proxy has at most one type
  (`Csv.RowHasItsColumns`).
- A line left inside an escape, narrower than the width and not coloured, is padded in vain: the
  padding is part of the escape (`Fitting.FittedExactly`).
- A round of round-robin picks serves every available entry exactly once if and only if the cursor does
  not wrap in it or the number of entries divides 2^64 (`Pool.OnePickEach`, `Pool.WrapRepeats`).
- A deduplication table of capacity 0 remembers one key (`Fetcher.DedupTable.Insert`).

## Model

| member | source | states |
|---|---|---|
| `ExprReading.AcceptsExactlyLayouts` | src/providers/proxynova.rs:49-246 | an input has a syntax tree exactly when it is a layout of that tree: the tree's tokens in order, any white space in front of each, any spelling of each literal. Soundness and completeness of the grammar at once |
| `ExprReading.EvaluatesExactlyMeanings` | src/providers/proxynova.rs:33-47 | an input evaluates to a text exactly when it is a layout of some tree whose meaning is that text; every type, arithmetic and size error is a tree without a meaning |
| `ExprPrinting.PrintThenEvaluate` | src/providers/proxynova.rs:33-47 | for every tree, evaluating its printed text gives the tree's string, and fails exactly when the tree does not mean a string |
| `ExprLayout.ParsesBack` | src/providers/proxynova.rs:226-246 | every layout of a tree is read back as that tree |
| `ExprLayout.Unambiguous` | src/providers/proxynova.rs:49-482 | two trees that share a layout are the same tree |
| `ExprLayout.ReadsExpr` | src/providers/proxynova.rs:226-246 | whatever follows a laid-out expression is read as calls on exactly that expression |
| `ExprLayout.ReadsMap` | src/providers/proxynova.rs:397-481 | a laid-out `map` callback, in all four spellings, is read as its parameter, spelling and offset |
| `ExprReading.ExprTakes` | src/providers/proxynova.rs:226-246 | whatever the expression grammar reads is a layout of the tree it returns |
| `ExprReading.StringTakes` | src/providers/proxynova.rs:104-133 | a string literal that is read is a quoted spelling of its text, escapes included |
| `ExprParser.EvalExpr` | src/providers/proxynova.rs:33-47 | the one-pass evaluator gives the meaning of the input's syntax tree when that is a string and nothing is left over, and an error otherwise |
| `ExprParser.Parser.constructor` | src/providers/proxynova.rs:34-37 | a new parser has the whole input in front of it |
| `ExprParser.Parser.SkipWs` | src/providers/proxynova.rs:65-69 | skips exactly the white space in front |
| `ExprParser.Parser.ExpectByte` | src/providers/proxynova.rs:75-83 | takes white space and the byte, or only the white space when the byte is not there |
| `ExprParser.Parser.ParseIdent` | src/providers/proxynova.rs:85-102 | reads the longest identifier |
| `ExprParser.Parser.ParseString` | src/providers/proxynova.rs:104-133 | reads a literal up to its closing quote with the five escapes resolved, refusing what is not UTF-8 |
| `ExprParser.Parser.ParseNumber` | src/providers/proxynova.rs:135-157 | reads a signed literal; one that does not fit 64 bits is an error |
| `ExprParser.Parser.ParseArith` | src/providers/proxynova.rs:159-177 | value of the chain the grammar reads, an error exactly when a literal or an intermediate result does not fit 64 bits |
| `ExprParser.Parser.ParseArray` | src/providers/proxynova.rs:179-201 | the codes of the array phrase, all of them representable |
| `ExprParser.Parser.ParsePrimary` | src/providers/proxynova.rs:203-224 | a literal, an array or `atob` gives the meaning of the phrase read |
| `ExprParser.Parser.ParseExpr` | src/providers/proxynova.rs:226-246 | evaluating while reading gives the meaning of the tree read, for every input; the mutual recursion with `concat` ends; every value held on the way takes at most as many bytes as the input, or 512 |
| `ExprParser.Parser.ApplySubstring` | src/providers/proxynova.rs:248-274 | clamped and swapped bounds, in characters |
| `ExprParser.Parser.ApplyRepeat` | src/providers/proxynova.rs:276-295 | repetition, refused when negative or over 512 bytes |
| `ExprParser.Parser.ApplySplit` | src/providers/proxynova.rs:297-316 | split into characters or by a separator |
| `ExprParser.Parser.ApplyReverse` | src/providers/proxynova.rs:350-362 | reversal of an array |
| `ExprParser.Parser.ApplyJoin` | src/providers/proxynova.rs:318-348 | join under the size cap; a string joins to itself |
| `ExprParser.Parser.ApplyConcat` | src/providers/proxynova.rs:364-395 | concatenation with the values of nested expressions, evaluated by the same parser |
| `ExprParser.Parser.ParseArgs` | src/providers/proxynova.rs:376-394 | the argument loop: the receiver and all arguments in order, refused exactly when an argument is not a string or the result is over 512 bytes |
| `ExprParser.Parser.ApplyMap` | src/providers/proxynova.rs:397-424 | both spellings of the arrow |
| `ExprParser.Parser.ParseMapBody` | src/providers/proxynova.rs:426-456 | the body of the callback, qualified or not, with its own parameter and offset |
| `ExprParser.JoinItems` | src/providers/proxynova.rs:334-347 | the loop that checks the size after every item refuses exactly the joins that end up over 512 bytes |
| `ExprParser.MapItems` | src/providers/proxynova.rs:457-480 | shifted codes in order; codes that name no character are skipped, results over 64 bytes and non-numeric items refused |
| `ExprParser.ChainStrict` | src/providers/proxynova.rs:226-246 | no further call can give a failed expression a value, so stopping at the first error loses nothing |
| `ExprParser.ConcatMeaningPrefix` | src/providers/proxynova.rs:376-394 | an argument list with a meaningless or overlong prefix is itself meaningless or overlong |
| `ExprParser.ArithTailStrict` | src/providers/proxynova.rs:159-177 | a chain with an overflow in front stays an error whatever follows |
| `ExprLimits.ApplyKeepsWithin` | src/providers/proxynova.rs:248-481 | every method keeps every string of a value within any limit of at least 512 bytes |
| `ExprBounds.StringsStayWithinInput` | src/providers/proxynova.rs:226-246 | in the tree of any input, no expression means a string longer than the input, or than 512 bytes if that is more |
| `ProxyNova.DecodeIp` | src/providers/proxynova.rs:25-31 | plain address, or evaluated expression, or nothing |
| `ProxyNova.DecodesObfuscatedAddress` | src/providers/proxynova.rs:20-31 | any layout of a tree, with white space around it, decodes to the address the tree's string spells, and to nothing otherwise |
| `ProxyNova.PlainAddressPasses` | src/providers/proxynova.rs:25-29 | a printed address decodes to itself |
| `Obfuscation.HiddenAddressDecodes` | src/providers/proxynova.rs:20-31 | an address hidden by reversal, Base64, shifted codes, a range cut out of a longer text or out of a repetition, or in pieces each hidden in a way of its own, laid out in any way, decodes to itself, exactly when every shift and every code it makes fits 64 bits; otherwise it gives nothing |
| `Obfuscation.HiddenMeans` | src/providers/proxynova.rs:20-31 | a text of at most 64 bytes hidden in any of these ways means itself under the same condition |
| `Obfuscation.ReversedMeans` | src/providers/proxynova.rs:297-362 | splitting into letters, reversing and joining means the reversed text, up to 512 bytes |
| `Obfuscation.SplitJoinRestores` | src/providers/proxynova.rs:297-348 | joining what was split with the same separator restores the text, up to the size cap |
| `Obfuscation.ShiftedMeans` | src/providers/proxynova.rs:397-481 | shifted codes mean the text when all of them fit 64 bits and the text fits 64 bytes, and nothing otherwise |
| `Obfuscation.Base64Means` | src/providers/proxynova.rs:217-222 | `atob` of the Base64 of a text's UTF-8 means the text |
| `Base64.DecodeEncode` | src/providers/proxynova.rs:220 | strict decoding undoes encoding |
| `Base64.EncodeDecode` | src/providers/proxynova.rs:220 | a text that decodes is the encoding of what it decodes to, so decoding is strict |
| `ExprLaws.ChainIsTotal` | src/providers/proxynova.rs:159-177 | a chain of added and subtracted literals is worth their total, and nothing exactly when a literal or a total on the way does not fit 64 bits |
| `ExprLaws.SubstringCutsOut` | src/providers/proxynova.rs:248-274 | bounds on both sides of `b` in `a+b+c`, in either order, negative ones standing for the beginning and ones past the end for the end, cut out exactly `b` |
| `ExprLaws.SubstringToEnd` | src/providers/proxynova.rs:254-260 | without a second bound everything behind the first is left |
| `ExprLaws.RepeatMeans` | src/providers/proxynova.rs:276-295 | repeating has a value exactly when the count is not negative and the result takes at most 512 bytes, and its k-th character is the text's (k mod length)-th |
| `ExprLaws.SplitMeans` | src/providers/proxynova.rs:297-316 | splitting gives the characters, or what lies between the occurrences of the separator taken from the left, no part holding it |
| `ExprLaws.ReverseMeans` | src/providers/proxynova.rs:350-362 | reversing turns an array round, element by element |
| `ExprLaws.NumberJoins` | src/providers/proxynova.rs:336-340 | a number joins to its decimal numeral |
| `ExprLaws.ConcatMeans` | src/providers/proxynova.rs:364-395 | concatenation puts the receiver and all arguments in a row, up to 512 bytes |
| `ExprLaws.ConcatNeedsStrings` | src/providers/proxynova.rs:376-380 | an argument that is not a string spoils the call, wherever it stands |
| `ExprLaws.AtobMeans` | src/providers/proxynova.rs:217-222 | `atob` means a text exactly when its argument, outer white space aside, is the Base64 of the text's UTF-8 |
| `ExprLaws.CodesMean` | src/providers/proxynova.rs:457-480 | shifted codes mean the characters they name, up to 64 bytes |
| `ExprLaws.SkippedCode` | src/providers/proxynova.rs:465-474 | codes that name no character change nothing |
| `ExprLaws.ReceiverTypes` | src/providers/proxynova.rs:248-481 | which receivers each method refuses, and that a string joins to itself |
| `ExprLaws.Alphabet` | src/providers/proxynova.rs:65-102 | the white space and the names of the language, byte by byte |
| `ExprPrinting.LiteralForm` | src/providers/proxynova.rs:104-133 | a printed literal is its UTF-8 between quotes |
| `ExprPrinting.EscapeForms` | src/providers/proxynova.rs:116-127 | the five escapes |
| `ExprPrinting.CallForm` | src/providers/proxynova.rs:226-246 | a printed call is its receiver, a dot, the method's name and its arguments in parentheses |
| `ExprPrinting.MethodNames` | src/providers/proxynova.rs:234-243 | the methods' names |
| `ExprPrinting.ArithForms` | src/providers/proxynova.rs:248-295 | printed bounds and counts |
| `ExprPrinting.ShortForms` | src/providers/proxynova.rs:297-362 | printed separators, and nothing for `reverse` |
| `ExprPrinting.ArgsForm` | src/providers/proxynova.rs:364-395 | printed arguments have commas between them |
| `ExprPrinting.ArrayForm` | src/providers/proxynova.rs:179-201 | a printed array is its codes in brackets |
| `ExprPrinting.AtobForm` | src/providers/proxynova.rs:203-224 | a printed `atob` |
| `ExprPrinting.MapForm` | src/providers/proxynova.rs:397-481 | a printed callback, in all four spellings |
| `ExprPrinting.CodeCallForm` | src/providers/proxynova.rs:442-456 | a printed `fromCharCode` call, with or without an offset |
| `ExprPrinting.NumeralForm` | src/providers/proxynova.rs:135-157 | integers are printed in decimal |
| `RowCodec.CodeRoundTrip` | src/fetcher/cache.rs:192-210 | every protocol but Connect has a code of its own that names it |
| `RowCodec.PushRow` | src/fetcher/cache.rs:140-152 | appends one row's encoding |
| `RowCodec.StoreBody` | src/fetcher/cache.rs:136-154 | writes magic, count and all rows in order; nothing for an empty list |
| `RowCodec.DecodeRows` | src/fetcher/cache.rs:212-248 | the cursor loop computes the recursive decoder, for any bytes, without reading out of range |
| `RowCodec.DecodesExactly` | src/fetcher/cache.rs:212-248 | a file decodes to a list exactly when it is the magic, the list's length and bytes for each row in order, an untyped row also being any row with an unknown code, and trailing bytes not mattering |
| `RowCodec.DecodeEncoded` | src/fetcher/cache.rs:136-248 | decoding what was stored, with anything appended, gives the first rows, as many as the 32-bit count says |
| `RowCodec.RoundTrip` | src/fetcher/cache.rs:136-248 | a stored list is read back exactly when it has fewer than 2^32 rows |
| `RowCodec.TruncatedBody` | src/fetcher/cache.rs:217-245 | a stored body cut short anywhere, a Connect row's extra port included, is refused |
| `RowCodec.RowBytes` | src/fetcher/cache.rs:140-200 | a row on disk, byte by byte, for every protocol |
| `RowCodec.FileBytes` | src/fetcher/cache.rs:136-139 | a file on disk, byte by byte |
| `Memo.MemoTable.Recall` | src/fetcher/cache.rs:34-42 | rows only for the remembered modification time |
| `Memo.MemoTable.Remember` | src/fetcher/cache.rs:44-52 | inserts, clearing a full table first |
| `Memo.StepKeeps` | src/fetcher/cache.rs:111-134 | every step of every load, install and removal, with any modification times, keeps the invariant that ties memo entries and loads to file versions |
| `Memo.HitIsShown` | src/fetcher/cache.rs:123-125 | on a path whose history is faithful, a memo hit is a version that was current during the load |
| `Memo.LoadsAreLinearizable` | src/fetcher/cache.rs:111-170 | in every run, loads, stores and removals interleaved in any way, each load that returns rows returns those of a file version that was current at some moment between its beginning and its end, if and only if the path's history is faithful: a modification time comes back only with the rows the file has shown in between |
| `Memo.MemoIsBounded` | src/fetcher/cache.rs:44-52 | in every run the memo holds at most 256 entries |
| `Memo.MisleadingRunIsStale` | src/fetcher/cache.rs:111-134 | for every history that is not faithful there is a run with that history in which a load begins on one version, ends before the next, and returns rows that version does not have |
| `Memo.DistinctTimesAreFaithful` | src/fetcher/cache.rs:34-42 | histories that never reuse a modification time are faithful |
| `Memo.EqualRowsAreFaithful` | src/fetcher/cache.rs:34-42 | so are histories that store the same rows again, at any time |
| `Memo.StaleWhenTimesRepeat` | src/fetcher/cache.rs:34-42 | two different lists stored at the same time make an unfaithful history |
| `Memo.RefreshReturnsNothing` | src/fetcher/cache.rs:112-114 | a refreshing load returns no rows in any run and touches neither file nor memo |
| `Memo.ExpiredReturnsNothing` | src/fetcher/cache.rs:116-122 | a load of an expired file returns no rows and forgets what is remembered of that path only |
| `Memo.LoadsReturnRows` | src/fetcher/cache.rs:128-130 | no load returns an empty list |
| `Memo.QuietLoad` | src/fetcher/cache.rs:111-134 | a load that nothing interferes with returns the rows of the file and remembers them under its time, or returns nothing and remembers nothing when there is no file or it holds no rows |
| `Memo.RememberedLoad` | src/fetcher/cache.rs:123-125 | a load of a file remembered under its time returns what is remembered |
| `Memo.RememberThenRecall` | src/fetcher/cache.rs:34-52 | what is remembered is recalled under its time and no other; the rest stays unless 256 paths are remembered |
| `Collector.Utf8Collector.constructor` | src/providers/mod.rs:432-438 | nothing received |
| `Collector.Utf8Collector.AppendUtf8` | src/providers/mod.rs:391-423 | accepts exactly when some continuation of all bytes so far is UTF-8; content and pending bytes together are then all bytes received, otherwise nothing changed; at most three bytes are pending |
| `Collector.Utf8Collector.Write` | src/providers/mod.rs:452-462 | the whole chunk is consumed, or an error is returned and nothing changed |
| `Collector.Utf8Collector.Len` | src/providers/mod.rs:440-442 | the number of bytes received |
| `Collector.Utf8Collector.Finish` | src/providers/mod.rs:444-449 | the text all received bytes encode, or an error when they encode none |
| `Collector.CollectBody` | src/providers/mod.rs:271-290 | whatever the chunking, the outcome is that of decoding the whole body at once, with bodies over the limit refused |
| `Collector.PromisingUnlessMalformed` | src/providers/mod.rs:405-421 | the standard library's verdict "malformed" means exactly that no text begins with these bytes |
| `Collector.AcceptsExactlyEncodings` | src/providers/mod.rs:271-290 | a body comes out as a text exactly when it is that text's encoding and within the limit |
| `Utf8.DecodeAfterEncoded` | src/providers/mod.rs:391-423 | decoding an encoded text goes on with what follows it |
| `Utf8.EncodeDecode` | src/providers/mod.rs:405-409 | what decodes is the encoding of what it decodes to |
| `Utf8.ValidUpToIsLongest` | src/providers/mod.rs:410-418 | `valid_up_to` is the end of the longest prefix that decodes |
| `DnsQuery.BuildQuery` | src/resolver.rs:195-232 | succeeds exactly on names with labels of 1 to 63 octets and at most 255 octets (section 2.3.4 of RFC 1035), writes the query at the front of the buffer and leaves the rest alone; a failed build leaves the header and the labels up to the one it failed on |
| `DnsQuery.DottedLabels` | src/resolver.rs:207 | joining the labels with dots gives the domain |
| `DnsAnswers.QueryReadsBack` | src/resolver.rs:195-300 | skipping the name of a built query lands on its type and class, and reading its labels gives the domain back |
| `DnsAnswers.SkipDnsName` | src/resolver.rs:289-300 | ends on any bytes, behind the name, or fails at the end of the message |
| `DnsAnswers.SkipNameAt` | src/resolver.rs:289-300 | on a name of section 4.1.4 of RFC 1035, ending in the root or a pointer, the walk ends right behind it, wherever it stands |
| `DnsAnswers.AnswersOffset` | src/resolver.rs:302-334 | the header checks and the question walk, on any bytes |
| `DnsAnswers.ParseAResponse` | src/resolver.rs:234-287 | starts where `answers_offset` would and gives the first A record with four bytes of data, on any bytes without reading out of range |
| `DnsAnswers.ParseTxtResponse` | src/resolver.rs:336-367 | the address spelled by the first character-string of the first TXT record that holds a whole one |
| `DnsAnswers.WireAnswers` | src/resolver.rs:234-367 | on the wire form of any response (section 4.1 of RFC 1035) the walkers find the first matching record or none, and a response is refused exactly when its id differs, QR is clear, TC is set or the rcode is not 0 |
| `DnsAnswers.ReadSlotAt` | src/resolver.rs:262-272 | a record's type and the extent of its data are read from its wire form |
| `DnsAnswers.QueryBytes` | src/resolver.rs:195-232 | a query, byte by byte |
| `DnsAnswers.LabelsOnTheWire` | src/resolver.rs:221-223 | each label stands behind its length |
| `DnsAnswers.EncodableNames` | src/resolver.rs:207-220 | a query can ask exactly for names of at most 253 bytes in labels of 1 to 63 |
| `DnsAnswers.LabelsHaveNoDot` | src/resolver.rs:207 | no label holds a dot |
| `DnsAnswers.HeaderBits` | src/resolver.rs:302-320 | which headers are accepted, byte by byte |
| `DnsAnswers.HeaderOnTheWire` | src/resolver.rs:302-322 | a response's header, byte by byte |
| `DnsAnswers.NameOnTheWire` | src/resolver.rs:289-300 | a name ends in a zero byte or a two-byte pointer |
| `DnsAnswers.QuestionOnTheWire` | src/resolver.rs:324-331 | a question, byte by byte |
| `DnsAnswers.RecordOnTheWire` | src/resolver.rs:262-272 | a record, byte by byte |
| `DnsAnswers.FirstAddressIs` | src/resolver.rs:274-284 | the address found is that of the first record of type 1 with four bytes of data, and none is found exactly when there is none |
| `DnsAnswers.FirstTextIs` | src/resolver.rs:350-364 | the text found is the character-string of the first record of type 16 that holds a whole one, and none is found exactly when there is none |
| `DnsAnswers.TextAnswers` | src/resolver.rs:354-361 | a TXT answer is the address its text spells, outer white space aside |
| `Quotas.QuotaEnforcer.constructor` | src/cli/quotas.rs:173-187 | no hits, nothing judged |
| `Quotas.QuotaEnforcer.ShouldEmit` | src/cli/quotas.rs:233-270 | the verdict is the closed form over everything judged before: no family in common with any quota, or some quota matched that is uncapped or that fewer than its cap of earlier proxies matched; each capped quota's hits stay the smaller of its cap and the matching proxies so far |
| `Quotas.QuotaEnforcer.Choose` | src/cli/quotas.rs:251-264 | the quotas a proxy counts toward are exactly those that admit it, each once |
| `Quotas.QuotaEnforcer.IsSatisfied` | src/cli/quotas.rs:200-225 | there are no groups and at least one quota, and every quota is capped and filled |
| `Quotas.QuotaEnforcer.IsProtocolClosed` | src/cli/quotas.rs:272-287 | some quota names the family and all that do are filled |
| `Quotas.ClosedIsPointless` | src/cli/quotas.rs:272-287 | a protocol is closed exactly when no proxy that carries only its family will be let through any more, whatever comes in between |
| `Quotas.MatchingSharesFamily` | src/cli/quotas.rs:129-148 | a proxy that matches a quota shares its family |
| `Quotas.EmitRows` | src/cli/output.rs:484-602 | the loop writes the proxies of the filtered stream that render, up to the row limit and to the point where all quotas are filled |
| `Quotas.EarlyStopDropsStrays` | src/cli/output.rs:490-503 | stopping early drops exactly the proxies behind the stop whose family no quota names |
| `Quotas.EarlyStopLosesNothing` | src/cli/output.rs:490-503 | the loop writes what filtering the whole stream would, up to the row limit, exactly when the limit is reached before the stop or no such proxy that renders comes behind it |
| `Quotas.StrayIsLost` | src/cli/quotas.rs:248-250 | a stream on which stopping early loses a proxy that `should_emit` would let through, unless a row limit of 1 makes up for it |
| `Quotas.CapsBoundOutput` | src/cli/quotas.rs:206-225 | with every quota capped and every proxy in some quota's family, no more rows get through than the caps add up to |
| `Quotas.LevelQuotas` | src/cli/quotas.rs:129-148 | under a sole HTTP or HTTPS quota, a proxy of that scheme is counted and let through while there is room when the levels agree or one is unknown, and is refused and not counted when they are known and differ |
| `Quotas.ExactQuotas` | src/cli/quotas.rs:129-148 | under a sole SOCKS or CONNECT quota, a proxy of the very type is counted and let through while there is room |
| `Quotas.OtherFamilies` | src/cli/quotas.rs:129-148 | a proxy of another scheme, or of CONNECT to another port, is always let through and never counted |
| `Quotas.CopiesUnderCap` | src/cli/quotas.rs:250-269 | of one and the same counted proxy exactly as many are let through as the cap says |
| `Quotas.ValidatedOutrank` | src/cli/quotas.rs:234-242 | types that passed validation outrank the advertised ones, which speak for a proxy that has none |
| `Quotas.EachTypeSpeaks` | src/cli/quotas.rs:243-255 | a proxy of several types matches and strays as its types do |
| `Quotas.OneQuotaSuffices` | src/cli/quotas.rs:243-269 | what several quotas let through follows from what each does alone |
| `Quotas.FilledMeansOnlyStrays` | src/cli/quotas.rs:221-225 | all quotas are filled exactly when nothing but strays will be let through any more |
| `Quotas.StopsAtFirst` | src/cli/output.rs:490-503 | the loop stops behind the first proxy that leaves every quota filled, and never when there are groups |
| `JsonDocument.WriteItem` | src/cli/output.rs:511-530 | an item opens the array or is set off from the one before it; an item that fails to serialise leaves the buffer alone |
| `JsonDocument.ProcessResult` | src/cli/output.rs:298-642 | a pass, cancelled or not, leaves the document its predecessor left with its own items added, closed unless another pass may follow, and the shared counter equal to the items of both |
| `JsonDocument.FinalizeJson` | src/cli/output.rs:644-661 | closes an array that was opened, writes `[]` for none, or nothing when told to |
| `JsonDocument.CloseChained` | src/cli/output.rs:678-699 | completes the document the first pass left open |
| `JsonDocument.RunFind` | src/cli/main.rs:1052-1212 | one pass, two passes or a skipped second pass, cancelled or not, leave exactly the one-shot rendering, as one array, of the texts of both passes; the array is left open exactly when the run is cancelled while the second pass is starting, or in a first pass that has written nothing and may be followed by another |
| `JsonDocument.OpenIsNotClosed` | src/cli/main.rs:1135-1143 | a document that was left open is not the document of its items |
| `JsonReading.DocumentIsArray` | src/cli/output.rs:644-661 | the one-shot rendering of any list of values, the empty one included, is read by section 5 of RFC 8259 as an array of exactly these values, for any reader of the values |
| `JsonReading.OpenIsNoArray` | src/cli/output.rs:644-661 | what is left open is not read as an array |
| `JsonReading.RunLeavesArray` | src/cli/main.rs:1052-1212 | a run leaves an array of exactly its values in its file, unless it leaves the array open, and then no array |
| `JsonReading.CompactRunLeavesArray` | src/cli/main.rs:1052-1212 | the values of a compact run are the renderings of the items of both passes that do not fail, as many as each limit allows |
| `JsonReading.IndentedLines` | src/cli/output.rs:517-530 | a pretty item is its lines, each two spaces in |
| `JsonDocument.CompactRunOfSurvivors` | src/cli/main.rs:1052-1212 | in compact form, a run leaves the document of the same run on the surviving items |
| `JsonDocument.PrettyRunOfSurvivors` | src/cli/main.rs:1052-1212 | in pretty form it does exactly when no item within the limits of its passes fails; the same holds for the one-shot rendering of the survivors among those items |
| `JsonDocument.LimitsCompose` | src/cli/pipeline.rs:166-183 | a second pass gets exactly what the first has left of the limit, which is something, or no limit when there is none; both passes together stay within the limit, as long as no more rows were written than proxies passed |
| `JsonDocument.FallbackWithoutQuotas` | src/cli/pipeline.rs:180-182 | without quotas a second pass is due exactly when nothing passed or the limit was not reached |
| `JsonDocument.FallbackWithQuotas` | src/cli/pipeline.rs:175-179 | with quotas it is due exactly when the limit leaves room and some type can still come |
| `JsonDocument.NoFallback` | src/cli/pipeline.rs:166-183 | a run that may not fall back never does |
| `JsonDocument.RunWithinLimit` | src/cli/main.rs:1086-1113 | a run writes no more than its limit, and each pass no fewer than its own allows |
| `JsonDocument.CompactFailuresVanish` | src/cli/output.rs:752-769 | in compact form, items that fail leave no trace |
| `JsonDocument.PrettyFailuresLeaveHoles` | src/cli/output.rs:517-530 | in pretty form, the document of a list is that of its surviving items exactly when no item fails |
| `JsonDocument.HoleInArray` | src/cli/output.rs:517-530 | one failing pretty item, and the document it leaves |
| `Csv.CsvQuote` | src/cli/output.rs:734-750 | appends the field, quoted when it holds a special character |
| `Csv.FieldsSurvive` | src/cli/output.rs:734-750 | any list of fields is read back from its row by section 2 of RFC 4180, rows ended by LF or CRLF, whatever quotes, commas and line breaks they hold |
| `Csv.QuotedWhenNeeded` | src/cli/output.rs:734-735 | a field is quoted exactly when it holds a comma, a quote or either line break character |
| `Csv.WriteCsvRow` | src/cli/output.rs:710-732 | a proxy's row is the row of its fields, the columns written without quoting needing none |
| `Csv.RowHasItsColumns` | src/cli/output.rs:713-718 | a reader gets the fields back, and they are the eight columns exactly when the proxy has at most one type |
| `Csv.ColumnsMatchHeader` | src/cli/output.rs:463-464 | the columns of a proxy with at most one type stand under their names in the header |
| `Csv.WriteCsv` | src/cli/output.rs:463-541 | a CSV pass writes the header if it is to, and one line per proxy |
| `Csv.CsvReadsBack` | src/cli/output.rs:463-541 | a whole CSV output, header and rows, is read back as its fields |
| `Csv.FileSurvives` | src/cli/output.rs:734-750 | any list of non-empty rows is read back from the file it is written as |
| `Endpoint.ProtocolRoundTrip` | src/proxy/models.rs:199-250 | parsing a protocol's text gives the protocol |
| `Endpoint.ParseLevel` | src/proxy/models.rs:221-229 | parsing a printed anonymity level gives the level |
| `Endpoint.PairRoundTrip` | src/providers/parsers.rs:68-92 | parsing a printed address and port gives both, unless the port is 0 |
| `Endpoint.AuthenticatedRoundTrip` | src/proxy/models.rs:614-664 | `scheme://user:pass@ip:port` gives every part back, whatever the password holds, exactly when the user is not empty and holds no colon and the port is not 0 |
| `Endpoint.PlainRoundTrip` | src/proxy/models.rs:614-664 | `scheme://ip:port` gives its parts and no credentials |
| `Endpoint.BareRoundTrip` | src/proxy/models.rs:440-454 | the text a proxy is created with parses to the same address and port |
| `Endpoint.SchemeRead` | src/providers/parsers.rs:41-53 | each supported scheme is stripped and names its protocol |
| `Endpoint.BareEndpointInLine` | src/providers/parsers.rs:72-92 | a bare endpoint is found at the beginning of a line, behind white space, whatever stands behind it after a separator or two slashes |
| `Endpoint.UrlInLine` | src/providers/parsers.rs:72-92 | an endpoint is found behind any scheme, whatever path, query or comment stands behind it |
| `Endpoint.FurtherFields` | src/providers/parsers.rs:88-91 | further fields behind the port are ignored |
| `Endpoint.UserWithoutPassword` | src/proxy/models.rs:650-656 | `scheme://user@ip:port` has an empty password |
| `Endpoint.EmptyUserinfo` | src/proxy/models.rs:633-637 | `scheme://@ip:port` is refused |
| `Endpoint.LevelInAnyCase` | src/proxy/models.rs:221-229 | levels are read in any letter case, with white space around them |
| `Endpoint.ProtocolTexts` | src/proxy/models.rs:199-219 | how protocols are written |
| `Net.Ipv4RoundTrip` | src/proxy/models.rs:440-454 | parsing a printed address gives the address |
| `Pool.RotatorPool.constructor` | src/rotator/pool.rs:44-50 | an empty pool |
| `Pool.RotatorPool.Add` | src/rotator/pool.rs:52-67 | refuses exactly duplicates and a full pool, appends otherwise |
| `Pool.RotatorPool.Ready` | src/rotator/pool.rs:80-87 | counts the available entries |
| `Pool.RotatorPool.Pick` | src/rotator/pool.rs:90-106 | the first available entry from the start position on, going round; nothing exactly when none is available; the cursor moves by one, wrapping at the machine word |
| `Pool.RotatorPool.ReportSuccess` | src/rotator/pool.rs:109-116 | clears failures and cooldown of that endpoint only |
| `Pool.RotatorPool.ReportFailure` | src/rotator/pool.rs:118-135 | cools the endpoint down, or swap-removes it on the third failure |
| `Pool.EveryEntryGetsATurn` | src/rotator/pool.rs:92-106 | over as many consecutive picks as there are entries, with a cursor that stays in step, every entry that stays available is picked |
| `Pool.OnePickEach` | src/rotator/pool.rs:92-106 | when all are available, a round of picks serves each exactly once if and only if the cursor stays in step: it does not wrap in the round, or the number of entries divides its range |
| `Pool.WrapRepeats` | src/rotator/pool.rs:98-101 | where the cursor wraps, an entry can be served twice in a row: three entries at the last cursor value |
| `Pool.HistoryInvariant` | src/rotator/pool.rs:52-135 | after any history of calls the endpoints are distinct and at most 25, each entry's failures are those reported since its insertion or last success and below 3, and it has a cooldown, 60 s behind the last of them, exactly when there is one |
| `Pool.LeavesOnThirdFailure` | src/rotator/pool.rs:118-135 | an endpoint leaves the pool exactly on its third such failure |
| `Pool.PickAfterHistory` | src/rotator/pool.rs:23-106 | after any history a pick serves nothing exactly when every pooled endpoint has failed less than 60 seconds ago; otherwise it serves the first that has not, from its start on and going round |
| `Pool.ReadyAfterHistory` | src/rotator/pool.rs:80-87 | the entries counted as ready are those that have not failed within the last 60 seconds |
| `Pool.AddAfterHistory` | src/rotator/pool.rs:52-67 | an endpoint that is not pooled enters at the end, as long as there are fewer than 25; anything else changes nothing |
| `Pool.LeaverIsReplaced` | src/rotator/pool.rs:118-131 | the last entry takes the place of one that leaves, and the others stay in theirs |
| `Fetcher.DedupTable.constructor` | src/fetcher/dedup.rs:32-38 | nothing seen |
| `Fetcher.DedupTable.Insert` | src/fetcher/dedup.rs:40-51 | new exactly when the key is not among the last keys that were new, as many as the capacity, or one when the capacity is 0 |
| `Fetcher.NewAgain` | src/fetcher/dedup.rs:40-51 | a key is new again only after at least as many other new keys as the window holds |
| `Fetcher.ProxyFetcher.constructor` | src/fetcher/mod.rs:344-360 | nothing sent, consumed or handed out |
| `Fetcher.ProxyFetcher.Accept` | src/fetcher/mod.rs:416-505 | accepted exactly when the key is not in the window and the country passes, and handed out with the location the database gives; the counters equal the number handed out; the stop signal is sent once, when the threshold is reached |
| `Fetcher.ProxyFetcher.CheckDrain` | src/fetcher/mod.rs:410-414 | moves the next waiting candidate into the lookahead slot, losing none |
| `Fetcher.ProxyFetcher.TakeNext` | src/fetcher/mod.rs:513-519 | takes the oldest candidate not yet consumed, from the slot or the channel |
| `Fetcher.ProxyFetcher.TakeOrWait` | src/fetcher/mod.rs:382-393 | the same, waiting for the next arrival when there is none, or for the channel to close |
| `Fetcher.ProxyFetcher.PollNext` | src/fetcher/mod.rs:507-536 | under any mix of calls, what was handed out is exactly the accepted part, in channel order, of what was consumed; nothing is left unjudged when it ends or would wait |
| `Fetcher.ProxyFetcher.GetOne` | src/fetcher/mod.rs:380-398 | the same with waiting, for any candidates that arrive meanwhile: it ends without an item only when everything ever sent has been judged, and once it has waited nothing that arrived is left unjudged |
| `Fetcher.EachKeyOnce` | src/fetcher/mod.rs:464-505 | as long as the keys of a stream fit the window, each is accepted once, at its first occurrence |
| `Fetcher.NewExactly` | src/fetcher/dedup.rs:40-51 | a key is new exactly when none of the last keys that were new is the same, as many as the capacity, or one |
| `Fetcher.CountriesHandedOut` | src/fetcher/mod.rs:464-505 | everything handed out came from the stream and carries the location the database gives; its country is listed, if any are, and not excluded |
| `Fetcher.FittingCandidateComesOut` | src/fetcher/mod.rs:464-505 | a candidate that is new in its place and whose country fits is handed out; without a database every country fits |
| `Fetcher.UnfitCandidateStaysOut` | src/fetcher/mod.rs:464-505 | a candidate that is not new, or whose country does not fit, adds nothing |
| `Fitting.VisibleLen` | src/cli/progress.rs:109-125 | the number of columns of the line |
| `Fitting.TruncateToVisible` | src/cli/progress.rs:127-151 | the text of the shortest run of whole units that shows the width |
| `Fitting.TruncationIsExact` | src/cli/progress.rs:127-151 | truncation gives a prefix of whole escapes and characters with the smaller of the width and the line's columns |
| `Fitting.FitTerminal` | src/cli/progress.rs:153-173 | an unknown or zero width leaves the line alone; otherwise it is cut or padded, with a reset when coloured |
| `Fitting.FittedExactly` | src/cli/progress.rs:153-173 | a fitted line fills the width exactly, if and only if it is coloured, or its escapes are closed, or it is not narrower than the width |
| `Fitting.FittedKeepsLine` | src/cli/progress.rs:153-173 | a fitted line begins with the line, or with its truncation when it is too wide, and adds only a reset and blanks |
| `Fitting.TruncationIsShortest` | src/cli/progress.rs:127-151 | no shorter run of a line's units shows as many columns as its truncation |
| `Fitting.EscapeShowsNothing` | src/cli/progress.rs:109-125 | an escape up to its first ASCII letter shows nothing, and what follows shows what it would on its own |
| `Fitting.PlainLine` | src/cli/progress.rs:109-125 | without escapes every character is a column |

## Left out

- Sockets, TLS, HTTP, the async runtime, the rotator server, judges and probing: a channel is a
  sequence, a file is bytes and a modification time, and installing a file is one step.
- Collector.CollectBody: does not model compressed bodies; its chunks are what comes out of
  decompression, which is a library's work.
- Error texts and log messages.
- Library functions: UTF-8 checking, Base64 decoding, trimming, splitting, number and IPv4 parsing are
  written as specifications in `Utf8`, `Base64`, `Text` and `Net`.
- DnsAnswers.ParseTxtResponse: takes the library's parser and printer of addresses as a parameter, because
  they also cover IPv6.
- Memo: the hit counter, poisoned locks, the clock behind the age check (a load may find its file
  expired at any time), clean-up of orphaned temporary files, races between two stores of the same URL
  on one temporary file, and the hash that names a cache file (a path is the file's identity).
- Quotas: parsing of quota arguments; the buffered path that sorts or shuffles before it applies
  quotas; the filters in front of the quotas, whose result is the modelled stream.
- JsonDocument.ProcessResult: does not model write errors, because what a failing file or pipe has taken
  is not known.
- Output: the text, json-lines, proxychains, prefix, pac and default formats; reopening of files;
  `--append`; run statistics.
- Serialisation: what `serde_json` renders for a proxy is a parameter of the JSON model, as are the
  printed response time and autonomous system number of a CSV row.
- Csv: modelled on characters; encoding them as UTF-8 changes no separator, quote or line break.
- Pool: `random_below` is a parameter of a pick, and time is a parameter of each call; methods run
  under the pool's lock and are single steps.
- Fetcher: stage events and the elapsed-time clock. The hash of the advertised protocols is part of the
  key, so its collisions are not modelled.
- HTML, JSON and regular-expression parsing of provider pages, the wizard, the status line,
  geolocation, provider lists, health scores and response-time sorting: library work, data, drawing or
  floating point with only easy properties.
