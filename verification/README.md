# zenoh-c: verified models of the build scripts and the storage example

Most of zenoh-c forwards to the zenoh crates. Four parts are programs of their own, and this
project models those four in Dafny and proves what they are for.

**The header splitter** (`buildrs/splitguide.rs`) reads one generated C header, cuts it into
records and writes every record to the headers that a split guide names.
`Lexer` and `Reprint` model the hand-written tokenizer down to the character, and the printer;
`Reading` says without any recogniser which token stands at the front of a text.
`Records` models the grouping state machine. `Contexts` says under which stack of `#if`/`#else`
branches a declaration sits. `Router` models the rules. `Splitting` puts them together, from text
to text, and `Splitter` is the imperative program (tokenizer object, record object, loops), proved
equal to those functions. A declaration is what the splitter takes for one. The main results:

* a written header, read again, declares exactly what was routed to it, every declaration under
  exactly the branches it had in the input, and its conditionals are balanced
  (`HeadersKeepContext`); this reading back succeeds if and only if no routed token was cut short
  by the end of the input (`HeaderReadsBack`);
* a split that succeeds loses no public declaration and invents none (`NothingLost`,
  `NothingInvented`);
* `group_tokens` is the only way to cut the stream into shortest complete runs, and it fails
  exactly when some prefix closes a conditional that was never opened (`GroupUnique`,
  `UnmatchedEndif`);
* the tokenizer reads exactly the token that stands at the front of the text, of which there is at
  most one, or panics or stops exactly where `NextOutcome` says (`NextDecided`, `FrontUnique`);
* a record's type is the kind of its only declaration, and decides which headers receive it
  (`RecordTypes`, `TypeReceives`);
* printing a record is a normal form (`ClosedRecordsRegroup`), comments come first and none is lost
  (`CommentsFirst`, `HeaderComments`).

**The in-memory storage** (`examples/z_storage.c`) is a hash table of doubly linked bins.
`Keys` models comparison and hashing, `Tables` the bins as values and the map they stand for,
`Storage` the heap (nodes with `next` and `prev`, the array of bins, the iterator, an allocator
whose tally only `z_malloc`, `z_free`, `z_sample_clone` and `z_drop` move), and `StorageRuns` the two
handlers interleaved between their steps: taking the mutex, searching a bin, emptying, linking or
unlinking a node, cloning into it, starting a pass, visiting one node, releasing the mutex.
The heap refines the last-writer-wins map and iteration meets every node once. Memory that was
never written or was freed holds `Wild` links and no sample, so that following a link or reading
a sample of it does not verify; nothing is freed or dropped twice. What was allocated and not freed
is the array and as many nodes as the map has entries (`NothingLeaks`), and nothing after
`storage_drop`. In every interleaving every answered query replied exactly the intersecting entries
of the map that held when it took the mutex (`EveryQueryIsASnapshot`); the log behind that map holds
exactly the operations that subscribers have finished (`FinishedIsLogged`), in an order that respects
real time (`FinishedLater`), and the latest one on a key decides (`LatestWins`).

**Feature conditionals** (`buildrs/cbindgen_generator.rs`, `buildrs/common_helpers.rs`).
`Directives` says which directives C sees in a line and which beginnings the loop tests for.
`FeatureFilter` compares the one-pass `skip`/`nest_level` loop with the meaning of nested
conditionals and their branches as C sees them (`Lines` is how text is read and written line by
line), `Preprocessing` shows that this meaning, and so the filter where
it is exact, leaves what the C preprocessor passes on unchanged, `Substitution` shows that substituting feature values does not depend on the order of
the feature map, `Features` characterises the substring test for features and shows the filter's
output to be the same for every order of the real feature table, and `TypeNames` shows
that splitting and joining type names are inverse to each other.

**Command line arguments** (`examples/parse_args.h`). `Args` models consumption of `argv` in place,
the repeated-option loop with its exactly sized buffers, and positional arguments.

## What turned out not to hold

* `process_feature_defines` counts only lines that begin with `#if `, `#ifdef` or `#endif`, and does
  not know `#else` and `#elif`. Between a false `#if` and its `#endif` it counts too low at
  `#ifndef` and at openers spelled otherwise (`#if(`, an indented `#if`), and too high at an `#endif`
  spelled otherwise. On balanced input without the latter its output is what the conditionals mean if
  and only if there is nothing of the former and no line of another branch that holds instead
  (`FilterExact`). Counting nothing too low, it lets nothing through (`NothingLeaksThrough`); counting
  nothing too high, it drops no line that is clear of false conditionals (`NothingIsDropped`).
  `HiddenOpenerLeaks` and `IndentedIfLeaks` give inputs for which text leaks out, `HiddenEndifDrops`
  and `ElseLost` inputs for which text disappears.
* Filtering a second time changes nothing as far as lines go (`FilterIdempotent`). As text it changes
  nothing if and only if no written line ends with a carriage return (`TextIdempotent`).
* `test_feature` accepts every prefix of an enabled feature. It agrees with `features()` exactly
  when the name is not a proper prefix of an enabled feature unless it is enabled itself
  (`TestAgrees`); enabling `transport_quic_datagram` alone makes `transport_quic` count as enabled
  (`QuicDatagramEnablesQuic`).
* `_storage_compare_string` stops at a NUL character. It decides equality with every other string
  exactly for strings that hold no NUL before their last character (`CompareExact`).
* `parse_opt` documents `-f` and `--flag`, each with a value after it if it takes one, and the code
  also reads `--flag=value`; but it matches any argument that begins with `--flag`. It returns and
  consumes what a parser of those forms would if and only if the first argument it matches does not
  go on after the flag, with `=` being allowed where a value is taken, up to names that hold `=` and
  inputs for which both exit (`ParsesDocumented`). `--keyboard=x` is taken for `--key`
  (`KeyboardIsKey`), `--complete=false` turns `--complete` on (`CompleteFalseIsComplete`), and neither
  is reported as unknown.
* The JSON list of repeated options is written in single quotes and nothing is escaped. It determines
  the values if none of them holds a quote (`ListDetermines`); otherwise one value can pass for two
  (`QuotesForge`).
* `#include "..."` always panics, because the search for the closing quote finds the opening one
  (`QuotedIncludePanics`).

## Model

| member | source | states |
|---|---|---|
| `Lexer.NextShape` | buildrs/splitguide.rs:287-457 | every token is a nonempty prefix of the text, and its span and id have the shape of its kind: ids are the maximal words before the final `;` or the last `(`, include names stand between `<` and the first `>`, define names are the first word after the keyword |
| `Reading.NextDecided` | buildrs/splitguide.rs:287-457 | a token is read exactly when it stands at the front of the text, with the extent and id that its kind has, and nothing makes the tokenizer panic |
| `Reading.FrontUnique` | buildrs/splitguide.rs:287-457 | a text has at most one token at its front |
| `Reading.NextOutcome` | buildrs/splitguide.rs:287-457 | the tokenizer panics on a quoted include, an include without `>`, a `#define` with nothing behind it, and a typedef cut short in a longer character; otherwise it reads a token exactly if the text begins as one or its first statement holds `const` or `(` |
| `Lexer.BracesCounted` | buildrs/splitguide.rs:309-318 | the depth that a typedef is scanned with is the number of opened minus the number of closed braces |
| `Lexer.LexLossless` | buildrs/splitguide.rs:475-495 | the spans of the tokens followed by the unread rest spell the input |
| `Lexer.LexStops` | buildrs/splitguide.rs:478-494 | tokenizing stops only at the end of the text or where no recogniser accepts |
| `Lexer.OnlyLastUnterminated` | buildrs/splitguide.rs:305-405 | only the last token of a text can have been closed by the end of the text, and none if the text could not be read to its end |
| `Lexer.NextComment` | buildrs/splitguide.rs:287-298 | a comment start is decided by the comment recogniser whatever follows |
| `Lexer.NextTypedef` | buildrs/splitguide.rs:287-298 | a text starting with `typedef` is never taken for a constant or a function |
| `Lexer.NextDirective` | buildrs/splitguide.rs:287-298 | `#endif`, `#define` and `#else` are decided by their own recognisers, even if the line looks like a statement |
| `Lexer.NextOpener` | buildrs/splitguide.rs:287-298 | includes and the three conditional openers are decided by their own recognisers |
| `Lexer.QuotedIncludePanics` | buildrs/splitguide.rs:442-457 | every text that begins with `#include "` makes the recogniser, and so the tokenizer, panic |
| `Lexer.AngleInclude` | buildrs/splitguide.rs:446-457 | the form in angle brackets is read up to the first `>`, and panics without one |
| `Lexer.IncludePanics` | buildrs/splitguide.rs:442-457 | the include recogniser panics exactly on the quoted form and on `#include <` without any `>` |
| `Reprint.TerminatedReprints` | buildrs/splitguide.rs:267-277 | a terminated token printed on its own line is read back as itself, whatever text follows |
| `Reprint.UnterminatedDiffers` | buildrs/splitguide.rs:389-396 | an unterminated token never reads back as itself |
| `Reprint.PrintLexRoundTrip` | buildrs/splitguide.rs:228-298 | tokens printed one per line are read back exactly and completely if and only if each of them is terminated |
| `Records.AddTokenMeaning` | buildrs/splitguide.rs:188-225 | adding a token keeps type, ids and nesting equal to what the record's tokens say, and is refused exactly when the nesting would become negative |
| `Records.TypeByPosition` | buildrs/splitguide.rs:188-225 | a run's record has type Function exactly if its only declaring token is a Function token, and so on for all six kinds; it is Empty exactly if none declares anything |
| `Records.IdsByPosition` | buildrs/splitguide.rs:188-194 | the ids of a record are the nonempty ids of its declaring tokens |
| `Records.DepthCounts` | buildrs/splitguide.rs:196-208 | nesting is the number of openers minus the number of `#endif` tokens |
| `Records.GroupingCuts` | buildrs/splitguide.rs:111-124 | grouping succeeds exactly when no prefix has negative depth; then the records are shortest complete runs that spell the stream, and the open record's nesting is the depth of the whole stream |
| `Records.GroupUnique` | buildrs/splitguide.rs:111-124 | any way of writing a stream as shortest complete runs and a pending rest is the way grouping cuts it |
| `Records.UnmatchedEndif` | buildrs/splitguide.rs:201-208 | the error is reported exactly when some prefix closes more conditionals than it opened |
| `Records.PendingPrefixes` | buildrs/splitguide.rs:176-178 | a pending run has no complete prefix, so no record could have been closed earlier |
| `Records.TrailingHoldsNothing` | buildrs/splitguide.rs:122-122 | on balanced input the record pushed last holds no declaration |
| `Contexts.GroupingKeepsPlacement` | buildrs/splitguide.rs:111-124 | the declarations of a stream with their branch stacks are those of its records, each placed on its own |
| `Contexts.StackByPosition` | buildrs/splitguide.rs:196-208 | a conditional that is open stands in the branch stack at its own depth, with its opening line and the number of its `#else` lines |
| `Contexts.PlacedByPosition` | buildrs/splitguide.rs:196-225 | every declaring token is placed once, in order, under the branches open where it stands |
| `Contexts.PrintOrderCore` | buildrs/splitguide.rs:228-245 | printing moves comments only, and printing in print order changes nothing |
| `Contexts.PrintsAll` | buildrs/splitguide.rs:228-245 | a printed record has exactly the tokens of the record that are no whitespace, each as often |
| `Contexts.CommentsFirst` | buildrs/splitguide.rs:228-245 | its comments are those of the record in their order, no comment stands after a token that is none, and the others keep their order |
| `Contexts.PrintedBlock` | buildrs/splitguide.rs:228-245 | a printed record is still a shortest complete run |
| `Router.ExclusiveWins` | buildrs/splitguide.rs:82-100 | if any exclusive rule asks for a record, a header receives it exactly when one of its own exclusive rules does |
| `Router.SharedOtherwise` | buildrs/splitguide.rs:82-100 | otherwise a header receives it exactly when one of its brand or shared rules asks for it |
| `Router.RoutedReaches` | buildrs/splitguide.rs:95-99 | a record that some rule asks for reaches at least one header of the guide |
| `Router.CopiesCounted` | buildrs/splitguide.rs:82-100 | a header receives a record exactly once for each position of a rule of its own that asks for it in the class that counts |
| `Router.RoutedInOrder` | buildrs/splitguide.rs:605-612 | runs, declarations and comments are routed to a header in the order of the records |
| `Router.GuideOrderIrrelevant` | buildrs/splitguide.rs:42-81 | the order in which the guide, a hash map, lists its headers changes no header's text |
| `Router.BodyPrints` | buildrs/splitguide.rs:605-612 | the text of a header is the printed text of the runs routed to it, once per matching rule |
| `Splitting.OutcomeDone` | buildrs/splitguide.rs:593-615 | the split succeeds exactly when conditionals match, the text can be read, every named id is declared, and every record reaches a header unless it declares nothing or only something private |
| `Splitting.EndifVerdict` | buildrs/splitguide.rs:593-602 | a bad `#endif` is reported exactly if a prefix has negative depth, and unreadable text only otherwise |
| `Splitting.UndefinedVerdict` | buildrs/splitguide.rs:597-602 | otherwise the first id that the guide names and no record declares is reported |
| `Splitting.UnusedVerdict` | buildrs/splitguide.rs:613-615 | only if there is none, the first record that is not used is reported |
| `Splitting.RequestedMeaning` | buildrs/splitguide.rs:101-108 | the requested ids are exactly those that some exclusive or shared rule names |
| `Splitting.HeaderReadsBack` | buildrs/splitguide.rs:605-612 | a header's text reads back as the tokens routed to it if and only if all of them are terminated |
| `Splitting.HeadersKeepContext` | buildrs/splitguide.rs:605-612 | a header read back is balanced and holds each routed record's declarations under the branches they had in the input, once per copy |
| `Splitting.HeaderComments` | buildrs/splitguide.rs:228-238 | a header read back holds the comments of its routed records, in order and once per copy |
| `Splitting.RecordTypes` | buildrs/splitguide.rs:209-225 | a record of a text has a type exactly if its only declaration is a token of that kind |
| `Splitting.TypeReceives` | buildrs/splitguide.rs:53-100 | a header whose rules ask for a type receives every record of it, and all its declarations, unless an exclusive rule asks for the record |
| `Splitting.TerminatedText` | buildrs/splitguide.rs:305-405 | if the last token of the input is terminated, so is every token of every header |
| `Splitting.NothingLost` | buildrs/splitguide.rs:138-174 | if the split succeeds, every public declaration is in some header under its branches |
| `Splitting.NothingInvented` | buildrs/splitguide.rs:605-612 | whatever is routed to a header, and whatever its text declares when read back, the input declares under the same branches |
| `Splitting.GroupInk` | buildrs/splitguide.rs:210-225 | whitespace never changes how a stream is grouped |
| `Splitting.RegroupPrinted` | buildrs/splitguide.rs:228-245 | a printed record, read and grouped again, is one record of the same type, ids and comments that prints to the same text |
| `Splitting.ClosedRecordsRegroup` | buildrs/splitguide.rs:111-124 | that holds for every closed record of every text that does not end inside one of its tokens |
| `Splitter.ReadTypedef` | buildrs/splitguide.rs:305-339 | the brace-counting loop ends after the first semicolon outside all braces |
| `Splitter.ReadWhitespace` | buildrs/splitguide.rs:373-387 | the loop takes the maximal run of whitespace |
| `Splitter.ReadToken` | buildrs/splitguide.rs:287-298 | the recognisers are tried in order until one accepts or panics |
| `Splitter.Tokenizer.Advance` | buildrs/splitguide.rs:475-495 | a pull cuts the next token off the front of the remaining text, or leaves it alone |
| `Splitter.Record.Add` | buildrs/splitguide.rs:196-225 | the record object changes as the record value does, and refuses the same `#endif` |
| `Splitter.Record.PushRecordTypeToken` | buildrs/splitguide.rs:188-194 | type, ids and tokens are updated, an empty id is not recorded |
| `Splitter.Record.PushPreprEndif` | buildrs/splitguide.rs:201-208 | an `#endif` is refused exactly when nothing is open, otherwise it closes one level |
| `Splitter.GroupTokens` | buildrs/splitguide.rs:111-124 | the loop yields the records of the whole text, or reports the bad `#endif` or the unreadable text, whichever comes first |
| `Splitter.AppropriateFiles` | buildrs/splitguide.rs:82-100 | every header is listed as often as the winning class of rules asks for it |
| `Splitter.WriteRecord` | buildrs/splitguide.rs:605-612 | one more record is in every header as often as it should be, and it is marked used exactly if some rule asked for it |
| `Splitter.SplitBindings` | buildrs/splitguide.rs:570-625 | the pass ends as `Outcome` says, and every header then holds the text of all records, or nothing if it stopped before writing |
| `Keys.CompareExact` | examples/z_storage.c:197-203 | comparison decides equality with every string exactly for strings without a NUL before their last character |
| `Keys.HashString` | examples/z_storage.c:187-195 | the loop computes the hash function |
| `Keys.HashIsPolynomial` | examples/z_storage.c:187-195 | for every word width the hash is 5381 * 33^n plus the characters weighted by powers of 33, reduced to the word, negative characters included |
| `Keys.BinIgnoresWord` | examples/z_storage.c:218-220 | if the number of bins divides the word, the bin does not depend on the word |
| `Tables.PutContents` | examples/z_storage.c:228-251 | a put is a map update and changes no other key |
| `Tables.DeleteContents` | examples/z_storage.c:253-274 | a delete removes one key and changes no other |
| `Tables.ContentsSize` | examples/z_storage.c:205-274 | the map has as many entries as there are samples in the bins |
| `Tables.PassAnswers` | examples/z_storage.c:86-99 | one pass over the bins replies exactly the entries that intersect the query, each once |
| `Storage.FindNode` | examples/z_storage.c:205-216 | the walk over live nodes that own their samples ends at the node that holds the key, or at null |
| `Storage.Overwrite` | examples/z_storage.c:235-250 | the node owns the new sample; exactly one clone is dropped and one made, and no node is allocated |
| `Storage.Append` | examples/z_storage.c:237-250 | the bin is a doubly linked chain with one more live node at its end; the allocator gave out exactly one node and one clone was made |
| `Storage.Unlink` | examples/z_storage.c:263-273 | the bin is a doubly linked chain without the node, whose memory is gone; exactly one clone was dropped and one node freed |
| `Storage.DropChain` | examples/z_storage.c:288-294 | the memory of every node of a bin is gone, with as many drops and frees as there are nodes |
| `Storage.Store.constructor` | examples/z_storage.c:276-284 | every bin is empty, the map is empty, the bin of a key is its hash modulo the number of bins, and the array is the one block allocated |
| `Storage.Store.Find` | examples/z_storage.c:218-226 | a node is found exactly for the keys of the map, and it is live and owns the map's sample |
| `Storage.Store.InsertInto` | examples/z_storage.c:228-251 | the heap keeps its invariant, the table changes by one put; by the allocator's tally an overwrite drops one clone and makes one, a new key allocates one node and makes one clone, and nothing else is allocated, cloned, dropped or freed |
| `Storage.Store.Insert` | examples/z_storage.c:228-251 | the map is updated at the key and the heap invariant is kept |
| `Storage.Store.Remove` | examples/z_storage.c:253-274 | the key leaves the map and the invariant is kept; by the allocator's tally one node is freed and one clone dropped if the key was there, and otherwise nothing |
| `Storage.Store.FirstNonEmptyBin` | examples/z_storage.c:299-307 | the iterator stands at the first node of the first nonempty bin, or past all bins if the rest are empty |
| `Storage.Store.Begin` | examples/z_storage.c:309-309 | the iterator stands before everything |
| `Storage.Store.Next` | examples/z_storage.c:315-320 | the pass has seen exactly one node more, and moves forward in the order of bins and of nodes in the bin |
| `Storage.Store.QueryHandler` | examples/z_storage.c:86-99 | every stored node is visited once, and the replies answer the query for the map |
| `Storage.Store.SubHandler` | examples/z_storage.c:74-83 | a put updates and a delete removes |
| `Storage.Store.DropAll` | examples/z_storage.c:286-297 | the memory of every node is gone, and by the allocator's tally, which counts the array too, no block and no clone is outstanding |
| `Storage.NothingLeaks` | examples/z_storage.c:228-297 | between operations the allocator's tally of clones made minus dropped equals the size of the map, and that of blocks allocated minus freed is one more, for the array |
| `Storage.VisitedOnce` | examples/z_storage.c:299-320 | the order of a pass holds no node twice |
| `StorageRuns.FillIsPut` | examples/z_storage.c:235-250 | emptying or linking a node where the search ended and then cloning into it is a put |
| `StorageRuns.ReplayRefines` | examples/z_storage.c:63-84 | after any sequence of operations the table is well formed and stands for the last-writer-wins map |
| `StorageRuns.RunInv` | examples/z_storage.c:63-99 | every state of every interleaved run satisfies the invariant of mutex, memory and handlers |
| `StorageRuns.RunsAreSafe` | examples/z_storage.c:63-99 | no two handlers are in the critical section, none reads a node that is being written, and with the mutex free the memory is the map of the operations done |
| `StorageRuns.QuerySnapshot` | examples/z_storage.c:86-99 | a query replies exactly the intersecting entries of the one map that held when it took the mutex, each once, and nothing changes meanwhile |
| `StorageRuns.EveryQueryIsASnapshot` | examples/z_storage.c:86-99 | in every run, for every query that is done, there is an earlier step at which it was waiting and the mutex was free, nothing changes from there until it is done, and its replies answer the map of that step |
| `StorageRuns.FinishedIsLogged` | examples/z_storage.c:63-84 | in every state of every run the log holds exactly the operations of the subscribers that have finished theirs, each as often |
| `StorageRuns.LogGrows` | examples/z_storage.c:63-84 | the log only grows at its end, and no handler ever serves another request than it was asked |
| `StorageRuns.FinishedLater` | examples/z_storage.c:63-84 | an operation finished after a step is logged behind all that were finished by then |
| `StorageRuns.LatestWins` | examples/z_storage.c:74-83 | an operation finished between two steps, with no other one on its key, decides what the map holds for the key: a put its sample, a delete nothing |
| `StorageRuns.QueryAfterDone` | examples/z_storage.c:63-99 | a query asked after a subscriber was done answers a map that its operation went into |
| `StorageRuns.LastOneDecides` | examples/z_storage.c:74-83 | in the map of a log the last operation on a key decides |
| `Directives.TestOf` | buildrs/cbindgen_generator.rs:491-498 | a line that the loop takes for an `#if` is one for C |
| `Directives.HiddenSpellings` | buildrs/cbindgen_generator.rs:491-498 | `#ifndef X`, `#if(Y)` and an indented `#if` are conditionals for C that the loop does not count, an indented `#endif` is one it does not count down |
| `FeatureFilter.ProcessFeatureDefines` | buildrs/cbindgen_generator.rs:485-511 | the loop over the lines of a text stops on a condition that cannot be evaluated, or writes a text that ends with a line end and comes apart into exactly the kept lines |
| `Lines.UnlinesComeApart` | buildrs/cbindgen_generator.rs:505-508 | written lines come apart again as they were, and reading them as a file drops carriage returns at their ends only |
| `Lines.PiecesSpell` | buildrs/cbindgen_generator.rs:505-508 | a text that ends with a line end is spelled by its pieces |
| `FeatureFilter.TextIdempotent` | buildrs/cbindgen_generator.rs:485-511 | filtering the written text again gives the same text if and only if no written line ends with a carriage return |
| `FeatureFilter.SkipMeansNested` | buildrs/cbindgen_generator.rs:489-502 | on every input `skip` holds exactly when the counter is positive, so the unsigned decrement never underflows |
| `FeatureFilter.FilterTracks` | buildrs/cbindgen_generator.rs:485-511 | if in false regions the loop counts as C does, the counter is the number of conditionals open since the outermost false `#if`, the output is the lines no false `#if` is around, and that is what the lines so far mean if and only if no line of a branch that holds was lost |
| `FeatureFilter.FilterExact` | buildrs/cbindgen_generator.rs:482-511 | on input that is balanced for C and whose false regions hold nothing the loop counts too high, the output is what the conditionals and their branches mean if and only if those regions hold nothing it counts too low, like `#ifndef`, and no line of an `#else` or `#elif` branch that holds |
| `FeatureFilter.NothingLeaksThrough` | buildrs/cbindgen_generator.rs:491-508 | if false regions hold nothing the loop counts too low, every line it writes belongs to the file's meaning and no false `#if` is around it |
| `FeatureFilter.NothingIsDropped` | buildrs/cbindgen_generator.rs:491-508 | if they hold nothing it counts too high, it writes every line that no false `#if` is around |
| `FeatureFilter.Conservation` | buildrs/cbindgen_generator.rs:491-508 | on every input, conditionals that C sees opened are kept, counted, or missed by the counter |
| `FeatureFilter.HiddenOpenerLeaks` | buildrs/cbindgen_generator.rs:491-508 | a false `#if` around a conditional the loop does not see, such as `#ifndef`, lets text through |
| `FeatureFilter.IndentedIfLeaks` | buildrs/cbindgen_generator.rs:491-508 | so does an indented `#if`, with an indented `#endif` closing the false one |
| `FeatureFilter.HiddenEndifDrops` | buildrs/cbindgen_generator.rs:491-508 | an `#endif` that the loop does not see makes it drop the text after the conditional |
| `FeatureFilter.ElseLost` | buildrs/cbindgen_generator.rs:491-508 | a false `#if` with an `#else` branch loses the text of that branch |
| `FeatureFilter.ReferenceMatched` | buildrs/cbindgen_generator.rs:482-484 | what a file with matched conditionals means has matched conditionals, and leaves open exactly the kept ones |
| `FeatureFilter.ClearedOrLost` | buildrs/cbindgen_generator.rs:482-511 | the lines no false `#if` is around are all the file means, or strictly fewer, exactly according to whether a branch is lost |
| `FeatureFilter.OutputBalanced` | buildrs/cbindgen_generator.rs:485-511 | if in false regions the loop counts as C does, input that is balanced for C gives balanced output and the loop ends outside every region, with the file's meaning if and only if no branch is lost |
| `FeatureFilter.PairKept` | buildrs/cbindgen_generator.rs:491-508 | by position, and if in false regions the loop counts as C does, the filter writes an opener exactly if it writes the `#endif` that closes it |
| `FeatureFilter.PanicsOnBroken` | buildrs/cbindgen_generator.rs:498-502 | on matched input in whose false regions the loop counts as C does, it panics exactly when some `#if ` with no false `#if` around it cannot be evaluated |
| `FeatureFilter.PanicsAtBreak` | buildrs/cbindgen_generator.rs:498-502 | on every input the loop panics exactly when it meets a broken condition while not skipping |
| `FeatureFilter.FilterIdempotent` | buildrs/cbindgen_generator.rs:485-511 | filtering the output again under the same features changes nothing |
| `Preprocessing.ReferencePreserves` | buildrs/cbindgen_generator.rs:482-484 | the compiler, with C's own reading of directives, is passed the same lines whether it is given the file or its meaning under the features, for every truth of the remaining directives, which may depend on everything passed before |
| `Preprocessing.FilterPreserves` | buildrs/cbindgen_generator.rs:485-511 | if in false regions the loop counts as C does and no branch is lost, the compiler is passed the same lines with and without the filter |
| `Substitution.OneMore` | buildrs/cbindgen_generator.rs:515-523 | replacing one more feature afterwards is substituting it together with the others |
| `Substitution.AskedAlone` | buildrs/cbindgen_generator.rs:515-522 | a question about one known feature becomes `true` or `false` |
| `Substitution.OrderIrrelevant` | buildrs/cbindgen_generator.rs:513-523 | every iteration order of the feature map gives the same line |
| `Substitution.EvaluateLine` | buildrs/cbindgen_generator.rs:513-530 | the evaluator is given the line with all features substituted at once and `#if` removed |
| `Substitution.ReplaceMeaning` | buildrs/cbindgen_generator.rs:515-525 | replacing cuts the text at the first occurrence of the pattern and goes on behind it |
| `Substitution.ConditionLeft` | buildrs/cbindgen_generator.rs:525-525 | removing `#if` from a line that begins with it and holds it nowhere else leaves the condition |
| `Features.TestIsPrefix` | buildrs/common_helpers.rs:26-28 | the substring test accepts exactly the prefixes of enabled features |
| `Features.SplitFeatures` | buildrs/common_helpers.rs:22-24 | splitting the feature string gives the features back, preceded by the empty string |
| `Features.FeatureSpelling` | buildrs/common_helpers.rs:22-28 | a feature is spelled, and asked for, behind ` zenoh/` |
| `Features.TestAgrees` | buildrs/common_helpers.rs:22-28 | the test agrees with the feature set exactly when the name is not a proper prefix of an enabled feature unless enabled itself |
| `Features.QuicDatagramEnablesQuic` | buildrs/cbindgen_generator.rs:22-37 | with only the datagram flavour enabled, plain QUIC counts as enabled |
| `Features.MacrosAreMacros` | buildrs/cbindgen_generator.rs:22-37 | every macro of the table is of the form substitution handles |
| `Features.SuffixDecides` | buildrs/cbindgen_generator.rs:22-37 | no two features of the table share a macro |
| `Features.NamesFollowFeatures` | buildrs/cbindgen_generator.rs:22-37 | every macro of the table is its feature's name in capitals, except for `unstable` and `transport_vsock` |
| `Features.TableOrderIrrelevant` | buildrs/cbindgen_generator.rs:485-530 | the filter's result is the same for every order in which the real table is iterated |
| `TypeNames.SplitJoin` | buildrs/common_helpers.rs:3-20 | splitting a joined name gives the parts back, whatever underscores the semantic part holds |
| `TypeNames.JoinSplit` | buildrs/common_helpers.rs:3-20 | joining what was split gives the name back, and a name splits exactly if it is a joined name |
| `TypeNames.PointerTypeSplits` | buildrs/cbindgen_generator.rs:892-911 | the generated pointer type splits into the prefix and semantic part it was built from |
| `TypeNames.PointerTypesInjective` | buildrs/cbindgen_generator.rs:541-558 | different types never share an owned or moved pointer type, and owned and moved never coincide |
| `Args.LongOptionForms` | examples/parse_args.h:104-105 | a long option is matched exactly by its forms (`--flag`, and `--flag=value` where a value is taken) and by arguments that go on otherwise, and no argument is both |
| `Args.ParsesDocumented` | examples/parse_args.h:68-127 | result and remaining `argv` are those of a parser of these forms if and only if nothing matches, or the first match does not go on after the option and a name that takes a value holds no `=`, or both miss a value and exit |
| `Args.WrongOptionConsumed` | examples/parse_args.h:79-127 | otherwise the first match is consumed although it is no form of the option, and the parser of the forms leaves it |
| `Args.KeyboardIsKey` | examples/parse_args.h:104-113 | `--keyboard=x` is consumed as the value of `--key` |
| `Args.CompleteFalseIsComplete` | examples/parse_args.h:104-109 | `--complete=false` is consumed as the flag `--complete` |
| `Args.ShortOptionForm` | examples/parse_args.h:90-91 | a short option is matched by a dash and its letter and nothing else |
| `Args.ParseOptInPlace` | examples/parse_args.h:79-127 | the loop consumes the first match and its value in place, or reports absence or exit |
| `Args.TakenValue` | examples/parse_args.h:93-118 | the value is the text after the first `=` or the next argument, and exactly the slots it came from are nulled |
| `Args.ParseConsumes` | examples/parse_args.h:79-127 | a parse only nulls slots after the first, and at least one if it finds something |
| `Args.RepeatIsTwoPasses` | examples/parse_args.h:179-191 | the loop that starts over every time takes all short-form values in order, then all long-form values in order, and exits exactly if one pass does |
| `Args.PassInOrder` | examples/parse_args.h:179-191 | a pass takes its values from left to right, each from behind the `=` or from the next argument, and leaves no occurrence out |
| `Args.CollectJsonList` | examples/parse_args.h:179-213 | the result is the bracketed list of those values, each in single quotes as it is, and no buffer cuts anything off |
| `Args.ListDetermines` | examples/parse_args.h:179-213 | values without a quote can be told from the list |
| `Args.QuotesForge` | examples/parse_args.h:179-213 | a value with quotes can give the list of two other values |
| `Args.CheckUnknownOpts` | examples/parse_args.h:135-142 | the first argument left that starts with a dash, or null if there is none |
| `Args.ParsePosArgs` | examples/parse_args.h:154-168 | the arguments left, in order, padded with nulls, or null exactly if there are more than expected |
| `Args.SurvivorAt` | examples/parse_args.h:154-168 | an argument that is left is returned at the place given by how many are left before it |
| `Args.SurvivorCount` | examples/parse_args.h:154-168 | as many are returned as slots after the first are not null |
| `Args.CallsConsume` | examples/parse_args.h:79-127 | after any parses each slot is what it was or consumed, the program name untouched |
| `Args.ConsumedAtMostOnce` | examples/parse_args.h:79-127 | no slot is the first match, or the value after it, of two parses |
| `Args.ParseNulls` | examples/parse_args.h:79-127 | a parse that does not exit nulls exactly the first match and, when the value is not inline, the slot after it |
| `Args.LeftoversExact` | examples/parse_args.h:144-168 | after any parses `argv` holds, where they stood, exactly the arguments that were neither the first match of a parse nor the value after it |

## Left out

- Files: opening, locking, truncating and deleting headers, and reading the split guide from YAML (rule strings, feature suffixes, `!`); the guide and the text are values.
- Banner: the fixed licence comment and the balanced `#ifdef DOCS` block written first into every header; the model's headers are what follows it.
- Lexer: identifiers are ASCII words, where the program accepts any Unicode letter or digit; text is a sequence of characters, and byte offsets matter only for an unterminated typedef that ends in a longer character, which panics in the model as in the program.
- Records: the nesting counter is an unbounded integer instead of 32 bits.
- Splitting: declarations are the splitter's own tokens, not what C makes of the text: a `#define` continued with a backslash ends at its first line, and `#elif` is no directive but the beginning of the next declaration.
- Splitting: contexts are stated for inputs whose conditionals are balanced; an input that leaves one open is grouped and written, but nothing is said about declarations after it.
- Storage: keys hold no NUL character and there is at least one bin, since the program divides by the number of bins; key expression intersection is a parameter, samples are a key and a payload.
- Storage.Store.DropAll: allocating and freeing the array of bins is counted, but a read of the array after it was freed is not ruled out, because the array is a Dafny array.
- StorageRuns: searching a bin, finding the next nonempty bin and unlinking a node are single steps, and samples and nodes are values; the heap operations themselves are in `Storage`.
- Directives: a line is looked at by itself; comments, continued lines and other spellings of `#` are not modelled.
- FeatureFilter: where the loop counts too high in a false region only the direction of `NothingLeaksThrough` is stated, because too low and too high can cancel out; the expression evaluator is a parameter that may fail; in the reference an `#elif` of a false `#if` that cannot be evaluated does not hold; read errors in the middle of the file are not modelled.
- Preprocessing: a directive's truth depends on the lines passed on before it and on its own text; macro expansion inside lines is not modelled.
- Features: the table's macros are written without their common beginning.
- Args: insertion into the zenoh configuration, the `--cfg` list, printed messages and the parsing of priorities and targets.
- Regex-driven searches, cbindgen, the generated generic macros and their text templates, `opaque_types_generator.rs`, `configure` and the target directory search.
- The Rust sources under `src/`: thin wrappers over the zenoh crates.
- The other examples: network clients without logic of their own.
