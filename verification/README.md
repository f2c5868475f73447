# Codemaster: a verified model of its hard core

Codemaster reviews pull requests. This project models the parts of it whose correctness cannot be read off one
function, and proves what those parts promise. Each Dafny module stands for one source file or one layer of it.

| files | what they model |
|---|---|
| `Bits`, `Recurrence`, `Tempering`, `Liveness`, `Seeding`, `SeedingReference`, `Draws`, `FisherYates`, `Mt19937` | the MT19937 engine: a class over a 624-word array, proved against the infinite linear recurrence, which is told bit by bit; seeding against a recurrence of words; the draws and the shuffle |
| `Lexicographic`, `Uuid7` | version 7 UUIDs as text, and their order |
| `SqlComments`, `MigrationPatterns`, `UnsafeMigration` | the migration gate: the comment stripper's loops against a recursive grammar, the patterns character by character, and the detector behind them |
| `JsonGateWalk`, `JsonRoundTrip`, `JsonLaws`, `JsonGate` | the JSON-safety gate: a depth-first walk with shared sets over a cyclic declaration graph; schemas, `JSON.stringify` and re-parsing, and their laws; and the link between the two |
| `JsText`, `LabelTaxonomy`, `LabelReference` | canonical labels, and their table, patterns and branches one by one |
| `Redaction`, `RedactionLeaks`, `PathContainment` | secret redaction by splicing, what it leaves of a secret, and the workspace containment test |
| `WorkspaceLease` | lease allocation and transitions as interleaved steps of any number of workers |
| `EmbeddingResize` | the resize transaction against the preflight that judges its result |
| `PolicyRules`, `ClassifyFiles` | the two policy chains with their ceilings, and file routing with isolated failures |

Loops and objects that change state in the source are methods and classes here. Their contracts tie them to
functions of the inputs or of the old state, and the lemmas are about those functions.

## What turned out not to hold

Twelve expectations a reader of the source may have are false. Each has the exact condition under which it holds.

- **Different seeds give different streams.** Seeds 2 and 4294967298 give the same stream. `init_by_array` adds
  `key[j] + j`, so a one-word key `[c]` and the two-word key `[c, c - 1]` add the same at every step. For magnitudes
  below 2^64, two seeds share a stream if and only if they differ in sign at most, or their magnitudes are such twins
  (`Seeding.SeedCollisions`).
- **`randbelow(n)` is uniform.** The bit-length loop shifts a signed 32-bit number; one draw is uniform if and only if
  n < 2^31 (`Draws.UniformExactly`). It still ends, with a value in range, for every n (`Mt19937.RandBelow`).
- **`getrandbits(k)` stays below 2^k.** It does if and only if k >= 1, since a shift by 32 is a shift by 0
  (`Draws.FieldRange`).
- **A schema that the JSON gate passes survives the wire.** Among schemas that accept something, a root for which the
  gate reports nothing loses no value if and only if nothing that the root leads to has a gap in a place where it
  matters: `z.number()` (its infinities come back as null), `z.unknown()`, or an optional schema where the value cannot
  be absent (`JsonGate.GatePromiseExactly`). The gate reports none of the three. It also reports `z.undefined()` on an
  object field, which would survive. Schemas that accept nothing lose nothing, whatever they contain
  (`JsonRoundTrip.UninhabitedExample`).
- **A canonical label is a canonical string.** For a label that, trimmed and in lower case, is `constructor` or
  `__proto__`, and for no other, the lookup in the recognition map finds an inherited property, which is not a string
  (`LabelTaxonomy.CanonicalExactly`).
- **Splicing from the right gives the assembly from the left.** With the markers the code writes, it does if and only
  if no two findings overlap (`Redaction.RedactsExactly`).
- **No character of a secret survives redaction.** None does if and only if one pass over the spans, from left to
  right, finds that the text goes on behind the end of every span so far wherever it goes on
  (`RedactionLeaks.FindingsLeakExactly`). Of two findings, something stays if and only if the later one ends inside the
  other and its marker is longer than what it replaces (`RedactionLeaks.TwoLeakExactly`): a key found inside a longer
  token leaves the end of the token readable (`Redaction.OverlapExample`).
- **`truncated` says whether anything was dropped.** It stays down over dropped rules exactly when some leading files
  hold the ceiling's number of rules to the one (`PolicyRules.TruncatedExactly`).
- **Offsets of the detector are offsets of the file.** They are if and only if upper-casing gives one character for
  each that stripping has left (`UnsafeMigration.OffsetsStayExactly`); a sharp s moves what follows it
  (`UnsafeMigration.OffsetMoves`). The reported lines are right all the same (`UnsafeMigration.ReportedLines`).
- **A lease has one valid transition from each state.** The code applies any change of state that leaves a state other
  than RELEASED, provided that a release was requested before it is completed or fails, and that a return to the active
  set finds the run without an active lease, committed or not (`WorkspaceLease.AppliedExactly`). Only RELEASED is final.
- **`uuid7` is a UUID for every clock.** It is, except for the 2^44 - 1 milliseconds before 1970, where a sign is left
  in the text. Its timestamp reads back if and only if it lies in [0, 2^48) (`Uuid7.WellFormedExactly`,
  `Uuid7.RoundTripExactly`).
- **An allocation never finds the lease gone.** It does if and only if its insert was a no-op, a later step took the
  run's lease away, and no step after that gave the run another before the select (`WorkspaceLease.ThrowsExactly`); a
  lease orphaned inside a second allocation's transaction is such a run (`WorkspaceLease.ThrowsExample`).

## Conventions

- Strings are sequences of code points; the source's are UTF-16 units. For text inside the basic plane the two are the
  same. A character outside it is one position here and two in the source: offsets and lengths after it differ, two
  blanks take its place in a stripped comment, and such patterns sort differently. Sanitising gives it two underscores
  in both.
- `toLowerCase` and `toUpperCase` are parameters. All that is assumed is that canonical labels are left alone, and
  that newlines come from newlines only (and, for the reported lines, that a blank stays a blank).
- Bitwise operators on 32-bit words are functions on natural numbers, with `>>> 0` as a remainder modulo 2^32; their
  bits are those of the operands (`Bits.BitXor`, `Bits.BitAnd`, `Bits.BitShr`, `Bits.BitShl`).
- Printing, reading and parsing are told by one law for each kind of value and schema: those of `JsonLaws` listed below,
  and beside them `PrintsObject`, `ParsesScalars`, `ParsesWrapped`, `ParsesReference`, `ParsesRecord`, `ParsesFields`.
- JSON texts are values up to spelling. A property that is missing and one that is `undefined` are identified, and so
  are 0 and -0. Dates are instants, and `GoodDates` states what is assumed of writing and reading them. `depth` bounds
  a chain of references between schemas; the theorems hold at every depth.
- The walk's declarations hold nodes (findings, warnings and mentioned names) in the order they are met, with the inline
  markers already looked up.
- A transaction's uncommitted insert makes other writers of the same index entry wait. Timestamps of a lease are flags.

## Model

| member | source | states |
|---|---|---|
| Recurrence.TwistBack | libs/platform/src/_mt19937.ts:97-111 | one step of the recurrence can be undone: two words give back the upper bit of x[k] and the lower bits of x[k+1] that it consumed |
| Recurrence.NeverCollapses | libs/platform/src/_mt19937.ts:75-111 | the 19937 significant bits are zero at one moment of a run if and only if they are zero at its start |
| Recurrence.SameWindowSameFuture | libs/platform/src/_mt19937.ts:97-111 | 624 consecutive words decide all later ones, wherever in a stream they stand |
| Recurrence.SameFutureSameState | libs/platform/src/_mt19937.ts:97-111 | 624 words after the state decide the state, all but the 31 bits of word 0 that are never read |
| Recurrence.StreamBit | libs/platform/src/_mt19937.ts:97-111 | each bit of each stream word is told from bits of the words 624, 623 and 227 before it and of the constant 0x9908b0df |
| Recurrence.StreamStarts | libs/platform/src/_mt19937.ts:97-111 | the first 624 words of a stream are the state |
| Tempering.TemperBijective | libs/platform/src/_mt19937.ts:113-120 | tempering is a bijection of the 32-bit words, with an explicit inverse |
| Tempering.TemperXor | libs/platform/src/_mt19937.ts:113-120 | tempering is linear over exclusive or |
| Tempering.TemperBit | libs/platform/src/_mt19937.ts:113-120 | each bit of an output is an exclusive or of bits of the state word, with the four shifts and the two masks written out |
| Bits.SameBits | libs/platform/src/_mt19937.ts:113-120 | words below 2^m with the same m bits are equal, so the laws of single bits decide every word |
| Liveness.TelescopesFar | libs/platform/src/_mt19937.ts:97-111 | for every power of two the stream is the difference, over that distance, of another stream built from it |
| Liveness.EventuallyPeriodic | libs/platform/src/_mt19937.ts:97-111 | every stream is periodic from some point on |
| Liveness.TopBitClearsAgain | libs/platform/src/_mt19937.ts:97-121 | from every state and after every point some output has bit 31 clear |
| Seeding.SeededNeverCollapses | libs/platform/src/_mt19937.ts:75-94 | no run from any integer seed ever reaches the all-zero state |
| Seeding.KeyValue | libs/platform/src/_mt19937.ts:82-94 | the key is the seed's base-2^32 numeral without leading zeros |
| Seeding.SameStateExactly | libs/platform/src/_mt19937.ts:48-76 | two keys of together up to 621 words, or of one length up to it, lead to one state if and only if they add the same number at every mixing step |
| Seeding.SameOutputsExactly | libs/platform/src/_mt19937.ts:97-121 | two states that agree on word 0 give the same outputs for ever if and only if they are the same |
| Seeding.SameSeedExactly | libs/platform/src/_mt19937.ts:48-94 | two seeds with such keys give the same outputs if and only if their keys add the same |
| Seeding.SeedCollisions | libs/platform/src/_mt19937.ts:48-94 | two seeds of magnitude below 2^64, of either sign, give the same outputs if and only if the magnitudes are equal or one is the two-word twin of the other's single word |
| Seeding.SeedCollisionExample | libs/platform/src/_mt19937.ts:48-94 | seeds 2 and 4294967298 give the same outputs |
| SeedingReference.SeededWords | libs/platform/src/_mt19937.ts:37-94 | the seeded vector holds 0x80000000 and the last 623 words of a recurrence that has neither the wrapping index nor the copied word 0, every constant written out |
| Mt19937Engine.Mt19937.InitGenrandInPlace | libs/platform/src/_mt19937.ts:37-45 | the vector becomes the one the single-word seeding function defines, all of it unread |
| Mt19937Engine.Mt19937.KeyPassInPlace | libs/platform/src/_mt19937.ts:49-64 | the first in-place mixing pass, with its two wrapping counters, is the pass defined by step number |
| Mt19937Engine.Mt19937.FinalPassInPlace | libs/platform/src/_mt19937.ts:65-74 | the second in-place pass, going on from where the first stopped, is the pass defined by step number |
| Mt19937Engine.KeyMixedIsKeyPass | libs/platform/src/_mt19937.ts:53-64 | counting the key's words round and adding unreduced gives the pass over the reduced addends |
| Mt19937Engine.Mt19937.Seed | libs/platform/src/_mt19937.ts:82-94 | after seeding, the engine stands before word 624 of the stream of that seed |
| Mt19937Engine.Mt19937.Regenerate | libs/platform/src/_mt19937.ts:97-111 | the three-part in-place twist replaces words k to k+623 of the stream by words k+624 to k+1247, though it reads words already replaced |
| Mt19937Engine.RegenerateWord | libs/platform/src/_mt19937.ts:100-109 | in each of the three parts, the word the in-place code computes is the next word of the recurrence |
| Mt19937Engine.Mt19937.GenrandUint32 | libs/platform/src/_mt19937.ts:97-121 | the n-th output after seeding is the tempered stream word 624 + n, across every regeneration |
| Mt19937Engine.Mt19937.RandomDouble | libs/platform/src/_mt19937.ts:128-132 | 2^53 times the result is 2^26 times the top 27 bits of one output, plus the top 26 bits of the next |
| Mt19937Engine.Mt19937.GetRandBits | libs/platform/src/_mt19937.ts:138-154 | the top k bits of one output, or the little-endian combination of ceil(k / 32) of them |
| Draws.FieldCount | libs/platform/src/_mt19937.ts:139-141 | each value below 2^k is the top field of exactly 2^(32-k) words, and no other value is |
| Draws.FieldRange | libs/platform/src/_mt19937.ts:139-141 | a k-bit draw is below 2^k for every word if and only if k >= 1 |
| Draws.WideDigit | libs/platform/src/_mt19937.ts:143-153 | each base-2^32 digit of a wide draw is the next word of the stream, cut short at the top only |
| Draws.WideBound | libs/platform/src/_mt19937.ts:143-153 | a wide draw of k bits is below 2^k |
| Draws.LoopBitsExact | libs/platform/src/_mt19937.ts:164-169 | the shifting loop counts the binary digits of n if and only if n < 2^31 |
| Draws.LoopBitsBeyond | libs/platform/src/_mt19937.ts:164-169 | what the loop counts for any n, from its low 32 bits read as a signed number |
| Draws.UniformExactly | libs/platform/src/_mt19937.ts:156-175 | a draw hits each value of [0, n) with exactly 2^(32-k) words if and only if n < 2^31 |
| Draws.SomeDrawAccepted | libs/platform/src/_mt19937.ts:170-174 | from every position of every stream a draw comes that rejection sampling accepts |
| Draws.BelowExactly | libs/platform/src/_mt19937.ts:170-174 | value and position of a draw are those of the first word from the start on whose field is below n, and no others |
| Mt19937Engine.Mt19937.RandBelow | libs/platform/src/_mt19937.ts:162-175 | the loop ends for every state and bound; the result is the field of the first word whose field is below the bound, and the position is the one after it |
| FisherYates.ShuffledMultiset | libs/platform/src/_mt19937.ts:195-202 | a shuffle keeps the multiset of elements |
| FisherYates.ShuffleIsBijective | libs/platform/src/randomness.ts:79-86 | for distinct elements, each order arises from exactly one sequence of choices |
| FisherYates.ShuffledIsSwaps | libs/platform/src/_mt19937.ts:195-202 | a shuffle is its swaps one after the other, from the last place down |
| Mt19937Engine.DrawnExactly | libs/platform/src/_mt19937.ts:195-202 | its choices are consecutive draws of the stream, each among as many places as are left |
| Mt19937Engine.Mt19937.Shuffle | libs/platform/src/_mt19937.ts:195-202 | the array and the stream position become those of the shuffle whose choices the stream makes, with the same elements |
| Uuid7.WellFormedExactly | libs/platform/src/randomness.ts:163-183 | the text can be read as a UUID unless the clock stands less than 2^44 ms before 1970 |
| Uuid7.RoundTripExactly | libs/platform/src/randomness.ts:163-183 | timestamp, version 7, both random fields and variant 0b10 read back if and only if the timestamp is in [0, 2^48) |
| Uuid7.OrderExactly | libs/platform/src/randomness.ts:163-183 | one identifier sorts before another if and only if its timestamp, then its rand_a, then its rand_b is smaller |
| Uuid7.WrapsAfter48Bits | libs/platform/src/randomness.ts:163-165 | past 48 bits the identifiers are those of the remainder |
| SqlComments.StripSqlComments | scripts/gates/check_unsafe_migration_pattern.ts:96-172 | the scanning loop computes the recursive grammar's stripped text |
| SqlComments.SkipBlock | scripts/gates/check_unsafe_migration_pattern.ts:114-132 | the depth counter ends the comment where the recursion of nested comments does, and blanks it |
| SqlComments.CopyQuoted | scripts/gates/check_unsafe_migration_pattern.ts:135-153 | the quote loop copies through the first quote that is not doubled |
| SqlComments.StripExact | scripts/gates/check_unsafe_migration_pattern.ts:86-172 | position by position: a blank inside a comment, the same character elsewhere, newlines where they were |
| SqlComments.KindExactly | scripts/gates/check_unsafe_migration_pattern.ts:99-170 | which characters open a line comment, a block comment and a quoted text, and that a dollar sign opens one if and only if a tag follows: two dollar signs with nothing, or a letter or underscore and word characters, between them |
| SqlComments.TagEndExactly | scripts/gates/check_unsafe_migration_pattern.ts:99-101 | the tag ends with its second dollar sign |
| SqlComments.LineExactly | scripts/gates/check_unsafe_migration_pattern.ts:106-112 | a line comment is blanked up to the first newline, which stays |
| SqlComments.BlockExactly | scripts/gates/check_unsafe_migration_pattern.ts:114-132 | a block comment ends where the text read so far first leaves no comment open, and is blanked; one that is never closed, or holds an unclosed one, takes all the rest |
| SqlComments.NestedExample | scripts/gates/check_unsafe_migration_pattern.ts:114-132 | the closer of an inner comment does not close the outer one |
| SqlComments.QuotedExactly | scripts/gates/check_unsafe_migration_pattern.ts:135-153 | quoted text ends at the first quote with no quote behind it and an odd number of quotes up to it, or is the rest of the text; it is kept |
| SqlComments.DollarQuotedExactly | scripts/gates/check_unsafe_migration_pattern.ts:156-167 | text behind any dollar tag ends with the first repetition of the tag, or is the rest of the text; it is kept |
| SqlComments.StripIdempotent | scripts/gates/check_unsafe_migration_pattern.ts:86-172 | stripping a stripped text changes nothing |
| SqlComments.CommentsDoNotMatter | scripts/gates/check_unsafe_migration_pattern.ts:86-172 | texts that differ inside comments only are stripped to the same text |
| SqlComments.RewriteComment | scripts/gates/check_unsafe_migration_pattern.ts:105-132 | one comment rewritten with the same extent and newlines is a difference inside comments only |
| SqlComments.RewriteLineComment | scripts/gates/check_unsafe_migration_pattern.ts:105-112 | any text of the same length without newlines may follow the opening of a line comment |
| UnsafeMigration.LineOf | scripts/gates/check_unsafe_migration_pattern.ts:175-181 | the line number is one more than the newlines before the offset |
| UnsafeMigration.NewlinesExactly | scripts/gates/check_unsafe_migration_pattern.ts:175-181 | the newlines counted are those of the text |
| UnsafeMigration.SearchedLine | scripts/gates/check_unsafe_migration_pattern.ts:175-189 | the line of any offset of the searched text is the line of the file position it comes from |
| UnsafeMigration.ReportedLines | scripts/gates/check_unsafe_migration_pattern.ts:188-231 | every reported line is the file's line of the character that the leftmost match of the reported statement comes from; that character is outside comments and begins the statement |
| UnsafeMigration.OffsetsStayExactly | scripts/gates/check_unsafe_migration_pattern.ts:174-189 | no offset moves if and only if upper-casing lengthens no character that stripping has left |
| UnsafeMigration.OffsetMoves | scripts/gates/check_unsafe_migration_pattern.ts:174-189 | a character with a two-letter upper case moves the offset after it |
| UnsafeMigration.FindUnsafeMigrationPatterns | scripts/gates/check_unsafe_migration_pattern.ts:188-231 | in the upper-cased stripped text: SET NOT NULL is reported if and only if it stands there and NOT VALID does not, DELETE FROM if and only if it and SET NOT NULL do; each once, in order, on the line of its first occurrence, with the first name that follows a DELETE FROM |
| MigrationPatterns.MatchesExactly | scripts/gates/check_unsafe_migration_pattern.ts:66-69 | the patterns match where the words stand with white space between them and no word character around them |
| MigrationPatterns.TableNameIs | scripts/gates/check_unsafe_migration_pattern.ts:67 | the table is the longest run of name characters behind the first DELETE FROM that such a run follows, in lower case, or `<unknown>` |
| UnsafeMigration.CommentsDoNotChangeFindings | scripts/gates/check_unsafe_migration_pattern.ts:188-231 | what comments say changes neither the findings nor their lines |
| JsonGateWalk.WalkCtx.WalkNamedDecl | scripts/gates/check_activity_input_json_safe.ts:274-307 | a walk ends; everything the declaration leads to is walked, except what an enclosing walk has entered |
| JsonGateWalk.WalkCtx.ReportError | scripts/gates/check_activity_input_json_safe.ts:523-536 | a finding is marked, exempted or silenced, and no finding is reported twice |
| JsonGateWalk.ClosedHoldsReached | scripts/gates/check_activity_input_json_safe.ts:330-362 | a set closed under references holds everything that a path leads to |
| JsonGateWalk.NothingMissed | scripts/gates/check_activity_input_json_safe.ts:274-362 | a finished walk has seen every un-marked, un-exempted construct in a declaration reachable from a root |
| JsonGateWalk.FindJsonUnsafeViolations | scripts/gates/check_activity_input_json_safe.ts:551-571 | the errors, warnings and used exemptions are exactly the unmarked constructs of the declarations that roots lead to, once each, stamped with the first root given for its contract |
| JsonGateWalk.EdgeExactly | scripts/gates/check_activity_input_json_safe.ts:279-306 | the walk goes where a declaration leads: to the file's own declaration of a mentioned name, else to what the file imports under it, and from an undeclared name to its re-exports |
| JsonGateWalk.StepsExactly | scripts/gates/check_activity_input_json_safe.ts:330-362 | the walk's steps are those that the nodes of the declaration ask for, a variable hiding a function and a function a type alias |
| JsonRoundTrip.RoundTrip | scripts/gates/check_activity_input_json_safe.ts:5-23 | a value accepted by a survivable schema comes back from the wire unchanged, through nested and recursive schemas |
| JsonRoundTrip.SurvivesExactly | scripts/gates/check_activity_input_json_safe.ts:5-23 | every value a schema accepts survives the wire if and only if the schema, and each schema it leads to where it is needed, is survivable, for schemas that accept something |
| JsonRoundTrip.SetSurvivesExactly | scripts/gates/check_activity_input_json_safe.ts:5-23 | a set of schemas that refer to each other, cycles included, loses no value if and only if each of them is survivable |
| JsonRoundTrip.UninhabitedExample | scripts/gates/check_activity_input_json_safe.ts:5-23 | a schema that refers to an endless list accepts nothing, and so loses nothing |
| JsonRoundTrip.GateMeaning | scripts/gates/check_activity_input_json_safe.ts:5-23 | a schema loses no value if the gate passes all that it leads to and none of it has a gap where it matters |
| JsonRoundTrip.GateMeaningExactly | scripts/gates/check_activity_input_json_safe.ts:5-23 | where the gate passes all that a schema leads to, the schema loses no value if and only if there is no such gap |
| JsonRoundTrip.GatePassesInfinity | scripts/gates/check_activity_input_json_safe.ts:80-95 | the gate passes `z.number()`, which does not survive |
| JsonLaws.PrintsArray | scripts/gates/check_activity_input_json_safe.ts:5-23 | an array is printed element by element, null for what is left out, and throws if and only if an element does |
| JsonLaws.PrintsExactly | scripts/gates/check_activity_input_json_safe.ts:77-95 | what every other value is printed as, what is left out, and what throws |
| JsonLaws.ReadsExactly | scripts/gates/check_activity_input_json_safe.ts:5-23 | what each JSON text reads as, element by element and member by member |
| JsonLaws.ParsesBanned | scripts/gates/check_activity_input_json_safe.ts:77-95 | the values that each banned schema takes |
| JsonLaws.ParsesArray | scripts/gates/check_activity_input_json_safe.ts:5-23 | an array is parsed element by element, and all of them must parse |
| JsonLaws.ParsesObject | scripts/gates/check_activity_input_json_safe.ts:5-23 | an object with a property that no field names is refused |
| JsonGate.UnflaggedIsClean | scripts/gates/check_activity_input_json_safe.ts:330-410 | a schema whose declaration raises no error contains no banned construct |
| JsonGate.SameMeaning | scripts/gates/check_activity_input_json_safe.ts:350-362 | what a schema accepts depends only on the schemas it refers to |
| JsonGate.SilentExactly | scripts/gates/check_activity_input_json_safe.ts:274-362 | the walk from a root has no error to report if and only if nothing that the root's schema leads to contains a banned construct |
| JsonGate.GatePromise | scripts/gates/check_activity_input_json_safe.ts:5-41 | if the walk from a root has no error to report, every value the root's schema accepts survives the wire, given that nothing it leads to has a gap where it matters |
| JsonGate.GatePromiseExactly | scripts/gates/check_activity_input_json_safe.ts:5-41 | the same promise root by root, as an if-and-only-if for schemas that accept something |
| LabelTaxonomy.CanonicalExactly | libs/contracts/src/codemaster_config.v1.ts:130-154 | the result is a canonical label through all five branches if and only if the input does not name an inherited property |
| LabelTaxonomy.CanonicalizeIdempotent | libs/contracts/src/codemaster_config.v1.ts:130-154 | canonicalising a canonicalised label changes nothing |
| LabelTaxonomy.FixedExactly | libs/contracts/src/codemaster_config.v1.ts:130-154 | the labels left alone are exactly those the canonical pattern matches |
| LabelTaxonomy.LabelFieldStable | libs/contracts/src/codemaster_config.v1.ts:156-185 | a label list that has been parsed parses to itself again |
| LabelReference.LanguageTable | libs/contracts/src/codemaster_config.v1.ts:74-87 | the fourteen names of languages, and what each stands for |
| LabelReference.FrameworkTable | libs/contracts/src/codemaster_config.v1.ts:89-98 | the ten names of frameworks |
| LabelReference.InfrastructureTable | libs/contracts/src/codemaster_config.v1.ts:100-106 | the seven names of infrastructure |
| LabelReference.TopicTable | libs/contracts/src/codemaster_config.v1.ts:108-115 | the eight names of topics |
| LabelReference.RecognizedExactly | libs/contracts/src/codemaster_config.v1.ts:72-118 | a name is recognised as a label if and only if the label is its category and what it stands for there |
| LabelReference.PatternExactly | libs/contracts/src/codemaster_config.v1.ts:69-70 | the canonical pattern, character by character |
| LabelReference.VersionExactly | libs/contracts/src/codemaster_config.v1.ts:143-146 | the version pattern, character by character |
| LabelReference.SanitizedAppend | libs/contracts/src/codemaster_config.v1.ts:147-148 | sanitising replaces one character after the other |
| LabelReference.CanonicalizeExactly | libs/contracts/src/codemaster_config.v1.ts:130-154 | the answer for every label, branch by branch |
| LabelReference.LabelFieldExactly | libs/contracts/src/codemaster_config.v1.ts:156-185 | a field is accepted if and only if it has at most 50 labels, all of them with a text, and holds those texts |
| Redaction.RedactSecrets | apps/backend/src/activities/chunk_and_redact.activity.ts:91-103 | the loop cuts in the findings by descending start |
| Redaction.SortStable | apps/backend/src/activities/chunk_and_redact.activity.ts:96 | findings that start at the same place stay in their order |
| Redaction.RedactsDisjoint | apps/backend/src/activities/chunk_and_redact.activity.ts:91-103 | disjoint findings in any order give the left-to-right assembly, of length text - spans + markers |
| Redaction.KeptText | apps/backend/src/activities/chunk_and_redact.activity.ts:91-103 | without the markers, the assembly is the text outside the spans, in order |
| Redaction.SpliceRightExactly | apps/backend/src/activities/chunk_and_redact.activity.ts:87-103 | for spans from left to right with non-empty markers, splicing from the right is the assembly if and only if the spans are disjoint |
| Redaction.RedactsExactly | apps/backend/src/activities/chunk_and_redact.activity.ts:91-103 | findings in any order are redacted to the assembly if and only if no two overlap |
| Redaction.OverlapExample | apps/backend/src/activities/chunk_and_redact.activity.ts:96-101 | two overlapping findings, with the markers the code writes, leave eight characters of a secret |
| RedactionLeaks.SourcesTold | apps/backend/src/activities/chunk_and_redact.activity.ts:97-101 | each character of the result is traced to the text position or the marker it comes from |
| RedactionLeaks.KeptExactly | apps/backend/src/activities/chunk_and_redact.activity.ts:97-101 | which positions of the text are kept, from any offset of the result on, told from the spans and marker lengths alone |
| RedactionLeaks.FindingsLeakExactly | apps/backend/src/activities/chunk_and_redact.activity.ts:91-103 | for any findings in any order, a character of a secret stays in the result if and only if a left-to-right pass over the spans finds a place |
| RedactionLeaks.TwoLeakExactly | apps/backend/src/activities/chunk_and_redact.activity.ts:91-103 | of two findings, a character of a secret stays if and only if the later one ends inside the other and its marker is longer than its span |
| RedactionLeaks.ShortMarkersHide | apps/backend/src/activities/chunk_and_redact.activity.ts:91-103 | nothing stays if no marker is longer than its span, however the spans overlap |
| RedactionLeaks.EndsInOrderHide | apps/backend/src/activities/chunk_and_redact.activity.ts:91-103 | nothing stays if the findings end in the order they start in |
| PathContainment.EscapesExactly | apps/backend/src/activities/chunk_and_redact.activity.ts:172-181 | the test on the relative path rejects if and only if the root is not a prefix of the target, names such as "..foo" included |
| PathContainment.AcceptsInside | apps/backend/src/activities/chunk_and_redact.activity.ts:172-181 | a relative path that never climbs above the root is accepted |
| PathContainment.StaysInside | apps/backend/src/activities/chunk_and_redact.activity.ts:170 | resolving any mix of "." and ".." that does not climb above the root stays under it |
| PathContainment.ResolveRelative | apps/backend/src/activities/chunk_and_redact.activity.ts:170-175 | resolving the relative path from any directory gives the target back |
| PathContainment.ResolveAbsolute | apps/backend/src/activities/chunk_and_redact.activity.ts:170 | an absolute path resolves to itself from anywhere |
| PathContainment.WalkCancels | apps/backend/src/activities/chunk_and_redact.activity.ts:170 | empty parts and single dots change nothing, and a name followed by ".." cancels |
| WorkspaceLease.RunSafe | apps/backend/src/activities/allocate_workspace.activity.ts:203-226 | every interleaving keeps the active rows unique, uncommitted ones included, and all rows within their constraints |
| WorkspaceLease.AtMostOneActive | apps/backend/src/activities/allocate_workspace.activity.ts:8-17 | in every reachable state a run has at most one active lease |
| WorkspaceLease.SameWorkspace | apps/backend/src/activities/allocate_workspace.activity.ts:203-226 | a later allocation of the run, with no deactivation since, answers the same workspace and adds no row |
| WorkspaceLease.RetryReturns | apps/backend/src/activities/allocate_workspace.activity.ts:203-226 | an attempt that begins while the run has a lease and no open transaction holds another row of the run answers that lease and adds no row, whatever the others do short of taking the lease away |
| WorkspaceLease.FreshAllocates | apps/backend/src/activities/allocate_workspace.activity.ts:203-226 | an attempt that begins while the run has no lease, with an id that nobody has, answers that id, and the run gains that one row, ALLOCATED |
| WorkspaceLease.InsertExactly | apps/backend/src/workspace/lease_repo.ts:98-112 | when the insert waits, does nothing, fails or makes its row, and that it changes nothing else |
| WorkspaceLease.AddsAtMostOne | apps/backend/src/activities/allocate_workspace.activity.ts:203-226 | an allocation adds at most its own candidate's row, to its own run |
| WorkspaceLease.ThrowsOnlyAfterDeactivation | apps/backend/src/activities/allocate_workspace.activity.ts:217-224 | an attempt finds no active lease only if the one that made its insert a no-op was deactivated before its select |
| WorkspaceLease.ThrowsExactly | apps/backend/src/activities/allocate_workspace.activity.ts:203-226 | over every run between insert and select: the error is thrown if and only if the insert was a no-op, the lease was taken away, and the run was given no other since |
| WorkspaceLease.ThrowsExample | apps/backend/src/activities/allocate_workspace.activity.ts:217-224 | a run of two allocations in which the error is thrown |
| WorkspaceLease.AppliedExactly | apps/backend/src/workspace/transition.ts:209-279 | which calls are applied, with the row's constraints and the partial unique index counted in |
| WorkspaceLease.RefusedExactly | apps/backend/src/workspace/transition.ts:209-250 | when a transition is a no-op, a drift of state or another installation's, and that nothing changes then |
| WorkspaceLease.AppliedEffect | apps/backend/src/workspace/transition.ts:258-309 | an applied transition changes the state and the timestamps of one row and appends one event |
| WorkspaceLease.ReleasedForEver | migrations/0001_baseline.sql:2600-2603 | a released row never changes again in any run |
| WorkspaceLease.LogReplays | apps/backend/src/workspace/transition.ts:274-300 | in every reachable state the log of events, read back, gives every row's state |
| EmbeddingResize.BuildResizeStatements | scripts/set_embedding_dimension.ts:62-81 | the statements in order: drop, alter and create for each target, then the two updates |
| EmbeddingResize.Database.Transact | scripts/set_embedding_dimension.ts:107-119 | all statements take effect or none does, wherever the failure strikes, COMMIT included |
| EmbeddingResize.Database.SetEmbeddingDimension | scripts/set_embedding_dimension.ts:83-120 | refused if and only if a target holds rows, or there is not just generation 1, active and with none pending; a refusal or failure leaves the database as it was |
| EmbeddingResize.ResizeExactly | scripts/set_embedding_dimension.ts:62-81 | the statements run to the end if and only if the dimension lies in 1 to 2000, and then give the resized database |
| EmbeddingResize.ResizedExactly | scripts/set_embedding_dimension.ts:62-81 | target columns, generation 1 and the singleton at the new width, every target index rebuilt, nothing else changed |
| EmbeddingResize.IndexesRestored | scripts/set_embedding_dimension.ts:19-30 | on the indexes that the migrations create, the resize rebuilds each as it was |
| EmbeddingResize.EvaluateEmbeddingDimension | apps/backend/src/deploy_preflight.ts:579-608 | the preflight's failures in order are those of the evaluation function |
| EmbeddingResize.EvaluateExactly | apps/backend/src/deploy_preflight.ts:579-608 | a failure is reported if and only if the observation holds that width, and it is not the configured one |
| EmbeddingResize.SilentExactly | apps/backend/src/deploy_preflight_io.ts:100-129 | the preflight is silent if and only if every width the database records is the configured one |
| EmbeddingResize.ResizeAgreesWithPreflight | scripts/set_embedding_dimension.ts:83-120 | after a committed resize the preflight, on columns that are all targets, accepts exactly the dimension the script was given |
| EmbeddingResize.ScriptAgreesWithPreflight | scripts/set_embedding_dimension.ts:19-41 | for the script's four targets and the preflight's four columns, the resize succeeds exactly for the widths 1 to 2000, and then satisfies the preflight |
| PolicyRules.AppendRulesCapped | apps/backend/src/activities/compute_policy_rules.activity.ts:82-93 | the list is cut at the ceiling, and the flag says whether anything was cut from it |
| PolicyRules.CollectRules | apps/backend/src/activities/compute_policy_rules.activity.ts:130-135 | the rules are the first 5000 of the flattened extraction; no file ever meets a full list |
| PolicyRules.ComputePolicyChain | apps/backend/src/activities/compute_policy_rules.activity.ts:113-153 | the chain's envelope, or the discovery's error |
| PolicyRules.ComputePolicyRules | apps/backend/src/activities/compute_policy_rules.activity.ts:171-208 | the yielding activity gives the same envelope for every input, and the exact number of turns to the event loop |
| PolicyRules.EnvelopeExactly | apps/backend/src/activities/compute_policy_rules.activity.ts:113-153 | nothing when the knowledge base is off, the discovery's error when it throws, and otherwise a bundle for each of the first 500 paths, resolved with the first 5000 rules of what the discovery found for the sorted patterns |
| PolicyRules.TurnsExactly | apps/backend/src/activities/compute_policy_rules.activity.ts:171-208 | a turn for every file that leaves room, and one for every twenty paths |
| PolicyRules.TruncatedExactly | apps/backend/src/activities/compute_policy_rules.activity.ts:130-152 | the flag is never raised wrongly, and misses a loss if and only if the ceiling falls between two files |
| PolicyRules.ExactFillExample | apps/backend/src/activities/compute_policy_rules.activity.ts:130-135 | one file of 5000 rules and one rule more: the rule is dropped and the flag stays down |
| PolicyRules.AscendingUnique | apps/backend/src/activities/compute_policy_rules.activity.ts:77-79 | the sorted list without duplicates is determined by the set of patterns |
| Lexicographic.LessExactly | apps/backend/src/activities/compute_policy_rules.activity.ts:77-79 | the order of texts: by the first character that differs |
| PolicyRules.PatternsAreASet | apps/backend/src/activities/compute_policy_rules.activity.ts:113-153 | order and repetition of the custom patterns cannot be seen in the envelope |
| ClassifyFiles.DoClassify | apps/backend/src/activities/classify_files.activity.ts:62-116 | the five lists are those of the routing function |
| ClassifyFiles.RouteConcat | apps/backend/src/activities/classify_files.activity.ts:75-107 | the routing of two lists in a row is the two routings joined: no file depends on its neighbours |
| ClassifyFiles.IsolationExactly | apps/backend/src/activities/classify_files.activity.ts:78-94 | a file leaves no trace among others but one failure entry if and only if it fails |
| ClassifyFiles.DeletingAFailure | apps/backend/src/activities/classify_files.activity.ts:78-94 | deleting a failing file removes one entry from the failures and changes nothing else |
| ClassifyFiles.EachPositionOnce | apps/backend/src/activities/classify_files.activity.ts:69-116 | every position has one place among failures or classifications, and all lists keep the input's order |
| ClassifyFiles.Buckets | apps/backend/src/activities/classify_files.activity.ts:96-106 | a path is failed only, skipped only, or reviewed and perhaps sandboxed |
| ClassifyFiles.RouteExactly | apps/backend/src/activities/classify_files.activity.ts:75-107 | which lists a path is on, by what reading and classifying it give |
| ClassifyFiles.ListsAreInput | apps/backend/src/activities/classify_files.activity.ts:75-107 | the four path lists together hold the input's paths and no others |
| ClassifyFiles.DecideExactly | apps/backend/src/files/router.ts:52-66 | generated, binary and empty files are skipped, all others reviewed, and of those the four languages go to the sandbox too |

## Left out

- Seeding.SameStateExactly: stated for keys of together up to 621 words, or of one length up to it: 621 is the number of addends that a state gives back, of the 624 steps. Longer keys are mixed by the model but not told apart; of keys of 624 words there are more than there are states.
- Seeding.SameSeedExactly: the same bound on the two keys, which every pair of seeds below 2^9920 meets.
- Mt19937Engine.Mt19937.RandomDouble: the result is the exact fraction; every such fraction is a double, so IEEE rounding does not occur.
- Draws.UniformExactly: uniformity of one draw over all words, not a statistical claim about a stream.
- JsonRoundTrip.SurvivesExactly: the schemas led to accept some value as it stands; that values survive is proved without this (`JsonRoundTrip.GateMeaning`).
- JsonGate.GatePromise: schema declarations that are objects, arrays, records, scalars, nullable, optional and references; plain-type payload declarations are walked as nodes of the graph but have no meaning attached.
- JsonGateWalk.FindJsonUnsafeViolations: of the roots that lead to a finding, which one is stamped on it, and the order of the list.
- UnsafeMigration.FindUnsafeMigrationPatterns: the message and suggestion texts are represented by the rule and the table name.
- WorkspaceLease.RunSafe: heartbeats, the janitor's own queries, the release activity and the validation of arguments at the boundary.
- EmbeddingResize.Database.SetEmbeddingDimension: one writer at a time, the row counts and state as one snapshot; a failure for other reasons may strike at any statement.
- EmbeddingResize.ResizeExactly: other indexes on the target columns, and permissions.
- PolicyRules.ComputePolicyChain: a changed path spelled `__proto__`, which assigns the bundle object's prototype; `extractRules`, `resolveGuidance` and the discovery walk are parameters.
- ClassifyFiles.DoClassify: reading and classifying are functions of the path, so a file does not change during the call.
- PathContainment.EscapesExactly: POSIX separators; following symbolic links is not part of this model.
- Redaction.RedactSecrets: `detectSecrets` is a parameter; PII redaction and the new chunk identifiers are left out.
- SqlComments.StripSqlComments: the code's own grammar, which does not know the backslash escapes of `E'...'` strings.
- Uuid7.RoundTripExactly: `uuid4` and `uuid5`, whose bits are set the same way, and an invalid date on the clock.
- `randint`, `uniform`, `choice` and `tokenBytes`: one call of a modelled draw each.
- Recognising banned calls in source text, resolving imports and finding the dispatch roots (ts-morph).
- Review and background job leases, the outbox, the scheduler, arbitration and cost caps, and the clients of GitHub, Vault and Postgres.
- The other checks of the deploy preflight, `boot_tasks` and the contract files whose bounds one reading settles.
