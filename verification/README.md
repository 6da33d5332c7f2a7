# Proofs about the localisation runtime and the downloader

This project models six parts of the repository and proves what they promise. Four of them belong to the
bundled message runtime in `intl/`, two to the downloader in `main/`. Code that works step by step is
modelled as methods with the same loops, arrays and linked nodes, and each method is proved against a
function of its inputs; what the source promises is then proved about these functions, for all inputs and
over all runs. `dafny verify dfyconfig.toml` checks everything.

## The parts

**Plural expressions** (`plural_*.dfy`, `digits.dfy`). The parser of plural formulas is a table-driven
shift/reduce automaton. The packed tables are taken over literally, as are the driver with its state
stack, value stack and lazily read lookahead, the semantic actions and the lexer. `plural_tables` proves
what the tables do in every state, `plural_soundness` an invariant that every step keeps and a measure that
every step lowers, `plural_completeness` that every sentence is accepted, and `plural_text` the round trip
from trees to text and back. Acceptance is characterised exactly, for tokens and in `plural_spelling` for texts: the
result is 0 if and only if the text is written out from a derivation of the grammar that fits below the stack limit.

**Catalogues and the translation cache** (`hash_string`, `double_hash`, `mo_table`, `catalogue`,
`sysdep_strings`, `loaded_catalogue`, `gettext_model`, `gettext_runs`, `gettext`). The hash function gives the
same value in 32-bit and wider words. The double-hashed table (section "The Format of GNU MO Files" of the GNU
gettext manual) is searched, and filled with system-dependent strings when a catalogue is loaded, without losing
or moving any entry; the two passes over these strings agree to the byte; and hash lookup, bisection and linear
scan agree. `LoadedCatalogue.Translate` joins them, from the tables of a file to the translation of a message.
The cache of translations is checked by a global counter; over every run of binding calls, domain changes,
lookups and environment changes it returns what a search without it returns, as long as changes of the
environment are announced, and exactly when it does not is proved as well.

**Formatted output** (`xsize`, `printf_parse`, `printf_grammar`, `printf_format`, `printf_rebuild`,
`printf_types`, `printf_parser`, `vasnprintf`). The parser of format strings (section 7.19.6.1 of ISO/IEC
9899:1999 and the positions `%n$` of POSIX) is proved to accept exactly a declarative grammar, and to give every
argument slot one type. The output engine rebuilds each directive in an exactly sized scratch buffer, hands it to
`snprintf`, and grows its buffer until the text fits; its result is independent of the initial buffer and of
the two deficiencies of `snprintf` that it works around, and its failures are characterised exactly.

**Locale files** (`locale_mask`, `l10nflist`, `locale_names`). The pool of locale files is sorted; a lookup inserts
a file and recursively all the files it inherits from, each with its whole list of successors. The bit count behind
the allocation is proved to bound the number of successors, and which files these are, in which order and with which
names, is proved bit by bit.

**Queue and splitting** (`list_sort`, `queue`, `splitting`, `dlist`). The intrusive list and its sort, which
moves the first descent to the end and starts over; and the division of the missing parts of a file among
several connections.

**String algorithms** (`mask_match`, `normalize_path`, `percent`). The mask matchers, the in-place path
normaliser, and percent encoding and decoding.

`arith`, `c_strings` and `options` hold what several parts use.

## What the proofs brought to light

- The insertion of strings into the double-hashed table ends for every string and every table with an empty slot
  exactly when the table size is prime (`MoTable.InsertionNeedsPrime`); for every other size a table and a string
  are given for which it goes on for ever. The format only suggests a prime size. The statements about single
  tables need only that the searches at hand end, and `MoTable.AllStopIff` and `Catalogue.SearchEndsIff` say when.
- A converter is remade when the codeset of a binding changes, but not when the character set of the
  environment does. For a domain that is bound to no codeset the conversion can therefore be stale even after
  `textdomain`. A changed character set is necessary for this, but not sufficient, because both may give the same
  text; `GettextRuns.StaleExactly` says over every run exactly when it happens.
- A change of the environment that is not followed by a `textdomain` call is not noticed by the cache. Over every
  run, a lookup is wrong exactly when it finds a valid translation and the search would now find something else
  than when it was last done for this message (`GettextRuns.CacheWrongExactly`, `GettextRuns.UnannouncedExactly`).
  Two files may have the same text; the caller sees a difference exactly when the texts differ
  (`GettextRuns.AnswerWrongExactly`).
- `unhexed_string` deviates from section 2.1 of RFC 3986 exactly on strings that contain `%00`: the decoded
  byte is passed as a null-terminated string, so it is dropped, and the character behind it is not looked at.
  The encoder never produces `%00`, because it finds the null character in its list of characters that are
  left alone; so the round trip holds for every string.
- The same `%00` makes `unhexed_string` count the length one too high, so that it looks one character behind the
  null character at the end of its string: exactly for the strings of `Percent.ReadsBehindIff`, `%00X%` for
  example. What it finds there does not influence the result.
- Splitting a file keeps all pieces non-empty exactly when the first cut does not ask for more pieces than the
  largest hole has bytes. This holds for all holes exactly up to 5120 parts, the length below which nothing is
  cut (`Splitting.AlwaysFeasibleIff`). `NumOfParts` is what the user asks for, or the number of holes that an
  earlier call stored in it.
- A relative path becomes an absolute one exactly when some `..` meets no component behind the first one, and a
  component or a slash at the end is left (`NormalizePath.RelativeBecomesAbsolute`): `a/../b` becomes `/b` and
  `a/../` becomes `/`, but `a/..` and `a/../b/..` become empty.
- A single hole is divided fairly: with at least 5120 bytes for each part, the parts differ by one byte at most
  (`Splitting.OneHoleFair`).
- The mask matchers take `*` for one or more characters, not for none.

## Model

| member | source | states |
|---|---|---|
| PluralTables.ExpectingAction | intl/plural.c:163-294 | In each of the states that wait for an operand, the packed tables shift exactly the four tokens that can begin one, and report an error for every other symbol. |
| PluralTables.AfterOperandAction | intl/plural.c:163-294 | In each state behind an operand, the tables shift an operator exactly when it binds more tightly than the one that waits, and otherwise reduce: C precedence, binary operators to the left, `?:` to the right. |
| PluralTables.OtherAction | intl/plural.c:163-294 | What the tables do in the remaining states: numbers, `n` and parentheses are reduced whatever follows, and only the end marker is accepted. |
| PluralTables.GotoAction | intl/plural.c:256-275 | After a reduction the goto tables lead to the state for an operand on the state below, or to the final state for the start symbol. |
| PluralTables.NoErrorShift | intl/plural.c:1125-1281 | No state shifts the error token, so error recovery can only empty the stack and fail. |
| PluralMachine.HaltsOnce | intl/plural.c:758-1119 | The driver has at most one result. |
| PluralSoundness.LinkShape | intl/plural.c:163-294 | Every transition of the automaton determines the kind of symbol it was made on and the state it came from. |
| PluralSoundness.ShiftKeeps | intl/plural.c:916-949 | A shift keeps the invariant (states linked by the symbols between them, the yields of the value stack spelling the tokens read so far) and lowers the termination measure. |
| PluralSoundness.ReduceKeeps | intl/plural.c:965-1119 | A reduction that replaces the symbols of a rule by a derivation with the same yield keeps the invariant and lowers the measure. |
| PluralSoundness.ReduceStep | intl/plural.c:950-1119 | Every reduction the tables ask for finds the symbols of its rule on the stack, and its action builds the value of the derivation. |
| PluralSoundness.StepKeeps | intl/plural.c:758-1119 | One step of the driver from any configuration with the invariant: it is defined, keeps the invariant and lowers the measure of unread tokens and pending reductions, or stops with a result. |
| PluralSoundness.ParserTerminates | intl/plural.c:758-1119 | On every stream of tokens the driver stops, with 0, 1 or 2. |
| PluralSoundness.ParserSound | intl/plural.c:758-1119 | Whenever the driver returns 0, the input is, token for token, the yield of a derivation that denotes the returned tree. |
| PluralCompleteness.RunExp | intl/plural.c:758-1119 | From every state that expects it, the driver parses the yield of a derivation with a following token that does not extend it, and leaves exactly its tree on the stack, or overflows exactly when the derivation is too deep. |
| PluralCompleteness.ParserComplete | intl/plural.c:758-1119 | The sentence of every derivation is accepted with its tree, unless the derivation needs YYMAXDEPTH states; then the result is 2. |
| PluralLexer.DecimalOfString | intl/plural.c:1366-1379 | Reading the decimal digits of a number gives the number. |
| PluralLexer.LexSpelled | intl/plural.c:1344-1483 | One call of the lexer on a spelled token, with blanks before it and nothing behind it that extends it, gives this token and stops right behind it. |
| PluralLexer.LexRendered | intl/plural.c:1344-1483 | A whole spelled token sequence, with any blanks between tokens that allow it, is read back token for token. |
| PluralParser.WrapDigit | intl/plural.c:1366-1379 | Reducing modulo the word size after every digit is reducing once at the end. |
| PluralParser.SkipSpace | intl/plural.c:1348-1362 | Skipping blanks stops at the first character that is no blank. |
| PluralParser.ScanNumber | intl/plural.c:1366-1379 | The digit loop reads the longest run of digits, modulo the word size. |
| PluralParser.ScanPunctuation | intl/plural.c:1381-1482 | The switch on operators, `n`, parentheses and invalid characters, with its lookahead of one character. |
| PluralParser.Yylex | intl/plural.c:1344-1483 | The lexer with its cursor delivers the next token and the rest of the input, for every character. |
| PluralParser.Unwind | intl/plural.c:1125-1281 | Error recovery ends with the result 1. |
| PluralParser.GrowStack | intl/plural.c:767-840 | The stack is enlarged by doubling up to YYMAXDEPTH, and refused exactly when that many states are used. |
| PluralParser.Decide | intl/plural.c:851-963 | The choice of the next action from the packed tables, reading a token only when it is needed, is the action of the state on the next pending token. |
| PluralParser.Yyparse | intl/plural.c:675-1312 | The driver loop with its stacks and lazily read lookahead returns exactly what the abstract machine returns on the token stream of its text; so it returns 0 if and only if the text is written out from a derivation within the stack limit of 10000 states, and every text of a derivation gives its tree or the overflow. |
| PluralSpelling.LexRead | intl/plural.c:1344-1483 | One call of the lexer that delivers a token has read blanks and a word that spells this token, and nothing else. |
| PluralSpelling.LexAllRead | intl/plural.c:1344-1483 | The converse of reading: every text without an invalid token consists of words that spell its tokens, with spaces and tabs between them, up to its end, a semicolon, a newline or a null character. |
| PluralSpelling.LexWords | intl/plural.c:1344-1483 | Words of tokens with gaps between them are read as these tokens; numerals may have zeros before them. |
| PluralSpelling.TextExact | intl/plural.c:675-1483 | For every text: the parser accepts it if and only if it is a text of some derivation that fits the stack, in terms of characters, not of the lexer; and each derivation of the text determines the result. |
| PluralText.ParserExact | intl/plural.c:675-1312 | The driver returns 0 if and only if the tokens are a sentence of the grammar within the stack limit; and every derivation of them determines the result. |
| PluralText.TextParses | intl/plural.c:675-1483 | Every sentence, written with any blanks the lexer allows and ended in any way it allows, gives its tree with numbers modulo the word size. |
| PluralText.PrintParses | intl/plural.c:675-1483 | Round trip: printing any expression tree with just the parentheses that precedence requires and parsing the text gives back this tree, numbers modulo the word size, unless it is too deep for the stack. |
| PluralGrammar.WrapCorrect | intl/plural.c:950-1066 | Parentheses where precedence requires them make a derivation fit its place and do not change its tree. |
| PluralGrammar.ParenthesizeCorrect | intl/plural.c:950-1066 | For every expression tree there is a derivation with the required parentheses that denotes it. |
| PluralGrammar.ParenthesizeShortest | intl/plural.c:950-1066 | No well-formed derivation of the same tree has fewer tokens: there are no needless parentheses. |
| HashString.LowBits | intl/hash-string.h:28-48 | Computing in a wider word and keeping the low 32 bits is computing in 32 bits. |
| HashString.CarryLost | intl/hash-string.h:36-46 | What a wider accumulator carries past bit 31 is shifted out of the low word. |
| HashString.StepAgrees | intl/hash-string.h:36-46 | One character: a wider word and a 32-bit word agree modulo 2^32, and the result is below 2^28. |
| HashString.HashAgrees | intl/hash-string.h:28-48 | For every string the hash is the same modulo 2^32 for every word size that is a multiple of 32 bits, and below 2^28. |
| HashString.HashOfByte | intl/hash-string.h:36-46 | The hash of a single byte is this byte. |
| HashString.HashIsNumber | intl/hash-string.h:36-46 | While it stays below 2^28, the hash of a string of bytes is the number with these bytes for digits, which may carry, in base 16. |
| HashString.HashOneMore | intl/hash-string.h:36-46 | One byte more, for every string: sixteen times the hash and the byte, without what exceeds 32 bits, the top digit folded into the second one by exclusive or. |
| HashString.HashString | intl/hash-string.h:28-48 | The loop over a null-terminated string computes this hash, in any word size. |
| DoubleHash.ProbeFormula | intl/dcigettext.c:742-784 | Subtracting to wrap around is adding the increment modulo the table size. |
| DoubleHash.IncrRemainder | intl/dcigettext.c:748 | The increment is one more than the remainder of the hash value modulo the table size less two, for every hash value. |
| DoubleHash.ProbesDiffer | intl/dcigettext.c:742-784 | In a table of prime size no slot is probed twice within a round. |
| DoubleHash.ProbesCover | intl/dcigettext.c:742-784 | In a table of prime size every slot is probed within a round. |
| DoubleHash.ProbesStay | intl/dcigettext.c:742-784 | A divisor of the table size confines some search to one residue class. |
| MoTable.CoverageNeedsPrime | intl/dcigettext.c:742-784 | The probes of every string visit every slot if and only if the table size, a 32-bit number, is prime: for every other size a string without null characters is given whose probes never visit the first slot. |
| MoTable.InsertionNeedsPrime | intl/loadmsgcat.c:1321-1343 | The insertion loop ends for every string and every table of this size with an empty slot if and only if the size is prime. |
| MoTable.AllStopIff | intl/loadmsgcat.c:1321-1343 | In a table of prime size all insertions end if and only if there are as many free slots as strings. |
| MoTable.AugmentScans | intl/loadmsgcat.c:1317-1343 | A table whose searches agree with a linear scan goes on doing so after all insertions, also when equal strings are added. |
| MoTable.FindAgrees | intl/dcigettext.c:742-784 | With a complete table a search finds a message exactly when a string has it, and the same one as a linear scan when the strings are distinct. |
| MoTable.SearchStops | intl/dcigettext.c:742-784 | In a table of prime size every search meets an empty slot if and only if there is one. |
| MoTable.FillKeepsFind | intl/loadmsgcat.c:1317-1343 | Filling an empty slot changes no search that was successful before. |
| MoTable.InsertKeeps | intl/loadmsgcat.c:1326-1341 | One insertion whose probes meet an empty slot: the table stays complete, every message found before is still found at the same index, and the new one is found. |
| MoTable.AugmentKeeps | intl/loadmsgcat.c:1317-1343 | All insertions: the same for the whole list of system-dependent strings, whenever each insertion ends; each takes one free slot. |
| MoTable.InsertString | intl/loadmsgcat.c:1326-1341 | The probe loop, if some probe meets an empty slot, stops and writes the entry into the slot where the search for the string ends. |
| MoTable.AugmentTable | intl/loadmsgcat.c:1317-1343 | The copy of the file's table, filled in place, is the augmented table. |
| Catalogue.LengthFilterSafe | intl/dcigettext.c:752-768 | Testing the length before comparing never rejects a match, for static and for system-dependent strings. |
| Catalogue.SearchEndsIff | intl/dcigettext.c:750-784 | A search of the hash table ends if and only if the message is there or a probe meets an empty slot; in a table of prime size with an empty slot it always does. |
| Catalogue.HashLookup | intl/dcigettext.c:736-784 | The probe loop, whenever it ends, returns what the search of the table returns. |
| Catalogue.BinaryLookup | intl/dcigettext.c:786-811 | The bisection over the sorted strings returns what a linear scan returns, for hits and for misses. |
| Catalogue.Lookup | intl/dcigettext.c:736-811 | Whichever index a catalogue has, a lookup that ends finds a message exactly when a string has it; for distinct strings, and always for bisection, it gives what a linear scan gives. |
| Catalogue.AugmentedCatalogue | intl/loadmsgcat.c:1317-1343 | After the strings were added, every static string keeps its index, and exactly the static and the added strings are found. |
| SysdepStrings.SizeString | intl/loadmsgcat.c:1118-1181 | The sizing loop over the segments of a string tells whether it is usable and how much memory it takes. |
| SysdepStrings.SizingPass | intl/loadmsgcat.c:1118-1181 | The sizing pass fails exactly on a malformed pair that it reaches, and otherwise counts the usable pairs and the bytes of the block: 32 for both descriptors of a pair, 4 for a slot of the hash table, and the strings. |
| SysdepStrings.NeedGrows | intl/loadmsgcat.c:1118-1181 | Later pairs only add to the needed memory and to the accepted pairs. |
| SysdepStrings.ContentSize | intl/loadmsgcat.c:1118-1306 | The content of a usable string has exactly the size that the sizing pass computed. |
| SysdepStrings.ScanMeaning | intl/loadmsgcat.c:1141-1167 | A string is usable exactly if it has one segment or all its values exist, and makes the file invalid exactly if the first value that is missing is not even listed. |
| SysdepStrings.ContentMeaning | intl/loadmsgcat.c:1283-1304 | A composed string is the static segments in the order of the file, each but the last with its value behind it. |
| SysdepStrings.NeedMeaning | intl/loadmsgcat.c:1138-1169 | A string takes its length in memory, and none if it has a single segment. |
| SysdepStrings.AcceptedMeaning | intl/loadmsgcat.c:1174-1178 | Exactly the pairs with two usable strings are kept, in the order of the file. |
| SysdepStrings.StillValid | intl/loadmsgcat.c:1187-1245 | The fill pass accepts a string exactly when the sizing pass did. |
| SysdepStrings.Compose | intl/loadmsgcat.c:1262-1306 | Composing writes the static characters and the segment values in their order, and nothing before them. |
| SysdepStrings.FillString | intl/loadmsgcat.c:1246-1306 | A descriptor is made that denotes the content of the string, in memory of exactly the reserved size. |
| SysdepStrings.FillPair | intl/loadmsgcat.c:1246-1306 | Both strings of a pair are filled, and the strings filled before stay as they are. |
| SysdepStrings.FillNext | intl/loadmsgcat.c:1204-1306 | A pair is filled behind those that are filled already, which stay as they are. |
| SysdepStrings.FillPass | intl/loadmsgcat.c:1187-1315 | The fill pass accepts exactly the pairs of the sizing pass, leaves the place of the tables alone, fills the rest of the block completely and stays within it, and every descriptor denotes its content; the abort cannot happen. |
| LoadedCatalogue.ContentEnds | intl/loadmsgcat.c:1283-1307 | A composed string ends in the null character of its last static segment. |
| LoadedCatalogue.DescDenotes | intl/loadmsgcat.c:1261-1309 | The pointer and the length of a composed string lead to all of it, in the file or in memory, and as a null-terminated string it is the message. |
| LoadedCatalogue.Load | intl/loadmsgcat.c:1037-1370 | A file is refused exactly when its minor revision is not 0 and it has no hash table or a malformed pair is reached; otherwise the loaded catalogue has the static strings, the composed strings of exactly the accepted pairs in their order, and the augmented hash table. |
| LoadedCatalogue.InvalidMeaning | intl/loadmsgcat.c:1060-1156 | Which files are refused, value by value: a minor revision without a hash table, or a pair whose original string, or with a usable original whose translation, refers to a value that is not listed. |
| LoadedCatalogue.EntriesMeaning | intl/dcigettext.c:816-826 | Every entry: a static message with the bytes of its translation and a null character, or the composed strings of an accepted pair; all translations end in a null character. |
| LoadedCatalogue.LoadedIndex | intl/dcigettext.c:736-811 | A search of the loaded catalogue agrees with a linear scan over the static messages and then the composed ones, also when a composed message equals another one. |
| LoadedCatalogue.FindMsg | intl/dcigettext.c:734-826 | Looking a message up in a loaded catalogue gives the bytes of the translation of the first entry for it, static or composed. |
| LoadedCatalogue.Translate | intl/loadmsgcat.c:1037-1370 | Loading and looking up together: whatever the file, the result is the translation of the first entry for the message among the static entries and the entries of the accepted pairs, and none for an invalid file. |
| LoadedCatalogue.PairsAreFound | intl/loadmsgcat.c:1187-1349 | Every accepted pair is found under its composed message and, unless an earlier entry has the same message, gives its composed translation. |
| LoadedCatalogue.PrimeEnds | intl/loadmsgcat.c:1321-1343 | A table of prime size with more empty slots than accepted pairs is enough for loading and for every lookup to end. |
| GettextRuns.SetBindingLookup | intl/bindtextdom.c:95-339 | After a binding call the domain has the new directory or codeset, and all other domains have what they had. |
| GettextRuns.SetBindingBumps | intl/bindtextdom.c:334-336 | A binding call changes nothing, or changes bindings and raises the counter by one. |
| GettextRuns.BindingCounts | intl/bindtextdom.c:95-339 | A binding call raises the global counter if and only if it changes the binding, and the counter of the codeset if and only if it changes the codeset, each by one. |
| GettextRuns.TextDomainMeaning | intl/textdomain.c:74-131 | After `textdomain` a query without a domain is a query for the new domain, `messages` for the empty name; the counter goes up even for the old name, and a call without a name changes nothing. |
| GettextRuns.LookupAgrees | intl/dcigettext.c:487-692 | When the cache is right, a lookup returns what the uncached search returns. |
| GettextRuns.ElementsMeaning | intl/dcigettext.c:585-607 | The names of a language list are non-empty pieces without colons, with colons between them, that together are the list. |
| GettextRuns.SearchMeaning | intl/dcigettext.c:531-690 | What a search finds: the first variant that has the message, of the first usable name of the list for which there is one, unless `C` or `POSIX` comes before; in the absolute directory of the binding, or below the working directory, or in the default one. |
| GettextRuns.LookupText | intl/dcigettext.c:664-715 | What a query gets: the message for no plural or for 1, the other form for all other numbers if nothing is found; and the converted text, or its plural form, if something is. |
| GettextRuns.LookupCached | intl/dcigettext.c:487-529 | With a valid translation in the cache a query gets this one, or its plural form. |
| GettextRuns.FoundIsCached | intl/dcigettext.c:640-681 | A translation that was found is in the cache afterwards, and the next lookup does not search. |
| GettextRuns.CharsetMeaning | intl/dcigettext.c:828-837 | The character set of a text: that of the loaded converter unless the codeset has changed since, else the codeset of the domain, else that of the environment. |
| GettextRuns.LookupLoads | intl/dcigettext.c:618-637 | A lookup that searches loads exactly the files that it comes to: the variants of the usable names, up to the one that has the message. |
| GettextRuns.LookupKeepsCache | intl/dcigettext.c:644-681 | A lookup leaves the cache right. |
| GettextRuns.LookupKeepsUncached | intl/dcigettext.c:580-692 | A lookup does not change what the uncached search returns for any key. |
| GettextRuns.RunKeeps | intl/dcigettext.c:476-692 | Over every run of binding calls, domain changes, lookups and environment changes the cache invariant holds, except while an environment change is unannounced. |
| GettextRuns.CacheCoherent | intl/dcigettext.c:476-692 | The cache is invisible: after every run whose last environment change was announced by `textdomain`, a lookup returns what a search without the cache returns. |
| GettextRuns.ConvertersCoherent | intl/dcigettext.c:828-837 | The remembered converters are invisible as well, while the character set of the environment stays or the domain is bound to a codeset. |
| GettextRuns.StaleIff | intl/dcigettext.c:828-837 | In every state that a run reaches, remembered converters change what a search hands out if and only if the search finds a text whose domain is bound to no codeset, whose file was loaded for none, and which converts differently to the character set of that time and to the present one. |
| GettextRuns.StaleExactly | intl/dcigettext.c:828-837 | Over every run whose changes of the environment are announced, a lookup hands out something else than with nothing loaded before if and only if this is so. |
| GettextRuns.RunCaches | intl/dcigettext.c:487-681 | Over every run, with announced changes or without, a valid translation is what the search gave in the environment of its last search, and its file is loaded with a converter for the present codeset. |
| GettextRuns.CacheWrongExactly | intl/dcigettext.c:487-692 | Over every run, a lookup hands out something else than the uncached search if and only if it finds a valid translation and the search now finds something else than in the environment of the last search for this key. |
| GettextRuns.UnannouncedExactly | intl/dcigettext.c:487-692 | After a run without unannounced changes, one unannounced change of the environment makes a lookup wrong if and only if the translation is cached and the search finds something else in the new environment; its character set does not matter. |
| GettextRuns.LookupHandsOut | intl/dcigettext.c:487-692 | Every lookup answers with the cached translation, if it is valid, and else with the found one. |
| GettextRuns.AnswerWrongExactly | intl/dcigettext.c:487-692 | The same for the text that the caller sees, over every run: it is wrong if and only if there is a valid translation and the search now finds something with another text, for this query, than when it was last done. |
| GettextRuns.UnannouncedChange | intl/dcigettext.c:487-500 | A run in which this happens: the list of languages changes. |
| GettextRuns.UnboundCharsetChange | intl/dcigettext.c:828-837 | A changed character set is not noticed by a domain without a codeset, even after `textdomain`. |
| Gettext.Intl.FindBinding | intl/bindtextdom.c:116-128 | The walk over the sorted list finds the binding of the domain, if there is one. |
| Gettext.Intl.Enqueue | intl/bindtextdom.c:298-316 | A new binding is linked in its place of the sorted list. |
| Gettext.Intl.Overwrite | intl/bindtextdom.c:130-211 | A binding that is there gets its new directory or codeset in place. |
| Gettext.BindingInForce | intl/bindtextdom.c:95-339 | A directory or codeset that is given is in force for the domain afterwards, and what is not given stays. |
| Gettext.Intl.SetBindingValues | intl/bindtextdom.c:95-339 | The call changes bindings and counter as the model of a binding call says, and hands back the directory and the codeset that are in force afterwards, or the default directory. |
| Gettext.Intl.BindTextDomain | intl/bindtextdom.c:343-348 | Binding a directory: the bindings change as the model says, and the directory in force afterwards is returned. |
| Gettext.Intl.BindTextDomainCodeset | intl/bindtextdom.c:352-357 | Binding a codeset: the bindings change as the model says, and the codeset in force afterwards is returned. |
| Gettext.Intl.TextDomain | intl/textdomain.c:74-131 | The default domain and the counter change as the model says, and the new domain is returned. |
| Gettext.Intl.FindMsg | intl/dcigettext.c:719-837 | A message of a catalogue, converted by the converter that is remembered or is made now. |
| Gettext.Intl.FindInLocale | intl/dcigettext.c:618-637 | The catalogues of one locale are visited in order until one has the message. |
| Gettext.Intl.FindInList | intl/dcigettext.c:580-692 | The list of languages is walked from its colons on, skipping what is not allowed, until `C` or `POSIX` or a message. |
| Gettext.Intl.DcIGettext | intl/dcigettext.c:476-716 | A call changes cache and loaded catalogues, and returns its string, as the model of a lookup says. |
| XSize.XSum | intl/xsize.h:57-61 | The wrapping sum with its test is the sum, or SIZE_MAX when that does not fit. |
| XSize.XSum4 | intl/xsize.h:78-81 | The same for four sizes. |
| XSize.XTimes | intl/xsize.h:99-100 | The product, or SIZE_MAX when that does not fit, from a test by division. |
| XSize.TimesBound | intl/xsize.h:99-100 | The test by division is exact. |
| PrintfParse.SaturatedIsDecimal | intl/printf-parse.c:144-145 | The saturating loop over digits reads the number, or SIZE_MAX when it does not fit. |
| PrintfParse.GivenMeaning | intl/printf-parse.c:134-156 | A position is the number written, counted from 1; 0 and numbers that do not fit below SIZE_MAX are refused. |
| PrintfTypes.SignedTypes | intl/printf-parse.c:387-401 | The types of `d` and `i` for every size specifier. |
| PrintfTypes.UnsignedTypes | intl/printf-parse.c:402-416 | The types of `o`, `u`, `x` and `X` for every size specifier. |
| PrintfTypes.FloatTypes | intl/printf-parse.c:417-425 | The types of the eight conversions of numbers with a fraction. |
| PrintfTypes.TextTypes | intl/printf-parse.c:426-460 | The types of characters, strings and pointers, plain and wide. |
| PrintfTypes.CountTypes | intl/printf-parse.c:461-475 | The types of `n` for its size specifiers. |
| PrintfTypes.Conversions | intl/printf-parse.c:384-482 | Exactly 21 characters convert anything. |
| PrintfTypes.Letters | intl/printf-parse.c:158-193 | The six flags, each rebuilt if and only if it was given, and the seven size specifiers. |
| PrintfTypes.RebuiltEnds | intl/vasnprintf.c:526-552 | The size specifiers and the conversion of a rebuilt directive, `lc` and `ls` for wide characters. |
| PrintfTypes.ClaimMeaning | intl/printf-parse.c:285-291 | A position takes its own slot and does not count as a regular argument; without one the next slot is taken. |
| PrintfTypes.RoomMeaning | intl/printf-parse.c:83-101 | The array of arguments doubles, or grows to the index if that is more. |
| PrintfTypes.RefusedExactly | intl/printf-parse.c:83-113 | An argument is refused if and only if its slot has another type or the array of 32 bytes for each would reach SIZE_MAX. |
| PrintfFormat.SizeFlagsMeaning | intl/printf-parse.c:313-380 | For every sequence of size specifiers the flags tell one `h` from several, whether there is an `L`, and the number of long specifiers. |
| PrintfGrammar.Layout | intl/printf-parse.c:115-500 | A directive stands at a place exactly when its parts stand there one after another. |
| PrintfGrammar.ReadSpecText | intl/printf-parse.c:115-500 | What the parser reads as a directive is, character for character, the text of a directive of the grammar. |
| PrintfGrammar.TextRead | intl/printf-parse.c:115-500 | Every directive of the grammar, wherever it is written and whatever follows it, is read back part by part. |
| PrintfFormat.FormatTiles | intl/printf-parse.c:115-520 | The directives of an accepted format are in order and disjoint, each begins with `%`, and no `%` stands between them or behind them. |
| PrintfFormat.JoinedIsFormat | intl/printf-parse.c:115-520 | Gaps and directives put together are the format. |
| PrintfFormat.ParseSpelled | intl/printf-parse.c:115-520 | Parsing a text spelled from literal pieces and directives gives exactly the directives and argument types that these declare, or fails exactly when their claims do. |
| PrintfFormat.ParsedIsSpelled | intl/printf-parse.c:115-520 | Only texts that can be spelled so are accepted. |
| PrintfFormat.RegisterTypes | intl/printf-parse.c:83-113 | Registering an argument gives its slot the type, keeps all types that are known, and adds no other. |
| PrintfFormat.ApplyTypes | intl/printf-parse.c:195-498 | After a directive the slots of its width, its precision and its value have the types it asks for, and only these slots are new. |
| PrintfFormat.FormatTyped | intl/printf-parse.c:83-498 | In an accepted format every directive stands in the grammar, every slot it uses has exactly its type, every typed slot is used by a directive, and the last slot is typed: the slot count is one more than the largest index used. |
| PrintfParser.ScanPosition | intl/printf-parse.c:134-156 | The test for a position delivers the index and the place behind it, or refuses it, as the grammar says. |
| PrintfParser.ScanFlags | intl/printf-parse.c:158-193 | The flag loop takes the longest run of flag characters. |
| PrintfParser.ScanSizes | intl/printf-parse.c:311-381 | The loop over size specifiers takes the longest run and combines its flags. |
| PrintfParser.RegisterArg | intl/printf-parse.c:83-113 | `REGISTER_ARG` on the growing array, with its overflow and ambiguity errors. |
| PrintfParser.TakeArg | intl/printf-parse.c:285-291 | The given argument, or the next regular one, is claimed. |
| PrintfParser.ScanWidth | intl/printf-parse.c:195-247 | A width is read and its argument claimed. |
| PrintfParser.ScanPrecision | intl/printf-parse.c:249-309 | A precision is read and its argument claimed. |
| PrintfParser.ParseConversion | intl/printf-parse.c:311-498 | Size specifiers, conversion and argument. |
| PrintfParser.ParseDirective | intl/printf-parse.c:117-499 | One directive, exactly as the grammar and the claims of its arguments determine it; nothing behind the terminator is read. |
| PrintfParser.AddDirective | intl/printf-parse.c:501-516 | A directive is added, and the array is doubled when it is full, so that there is always room for one more. |
| PrintfParser.ParseFormat | intl/printf-parse.c:66-531 | The parser accepts exactly the accepted formats and delivers their directives, the end of the format behind the last one, the argument types and the two maximal lengths, in arrays that are large enough. |
| PrintfRebuild.ScratchFits | intl/vasnprintf.c:147-148 | The directive rebuilt for `snprintf`, with `%n` and the null character, fits in the scratch buffer, which has not one character to spare for a format that needs it all. |
| PrintfRebuild.RebuildIsText | intl/vasnprintf.c:501-557 | The rebuilt string is the directive of the format without its positions and with the size of its type. |
| PrintfRebuild.ApplyInOrder | intl/vasnprintf.c:565-578 | A directive without positions takes width, precision and value one after another. |
| PrintfRebuild.RebuiltMeaning | intl/vasnprintf.c:501-578 | Read by the rules of the parser, the rebuilt directive has the flags, fields and conversion of the original one, and takes exactly the arguments that are passed, with their promoted types. |
| Vasnprintf.PassedInPlace | intl/vasnprintf.c:565-578 | `snprintf`, reading the rebuilt directive, takes its width, its precision and its value from slots that hold exactly those of the original directive, and nothing else is passed. |
| Vasnprintf.OutputMeaning | intl/vasnprintf.c:221-262 | `%%` puts out one percent sign; `%n` nothing, and its argument gets the length of the output so far. |
| Vasnprintf.RenderMeaning | intl/vasnprintf.c:207-848 | The output is the literal pieces and the formatted values in turn, in the order of the format. |
| Vasnprintf.GrownIs | intl/vasnprintf.c:184-205 | The buffer doubles, or gets what is needed if that is more, and has 12 characters at first. |
| Vasnprintf.DirectiveSizeMeaning | intl/vasnprintf.c:784-846 | A buffer in which a text and its null character fit stays as it is, and one for a value is never smaller; `%%` needs the room of one character and `%n` none. |
| Vasnprintf.StandsUsable | intl/vasnprintf.c:222-262 | For a directive of an accepted format none of the consistency checks can fail. |
| Vasnprintf.AcceptedPrintable | intl/vasnprintf.c:222-262 | The same for all directives of an accepted format, which are in order. |
| Vasnprintf.RenderedWithin | intl/vasnprintf.c:207-220 | No intermediate output is longer than the whole. |
| Vasnprintf.EnsureAllocation | intl/vasnprintf.c:184-205 | Room for the needed size, by doubling, with the written characters kept; it fails exactly on overflow. |
| Vasnprintf.MakeMoreRoom | intl/vasnprintf.c:780-830 | After a text that did not fit the buffer grows strictly, also when the reported length is exactly the room there was, and not beyond what the output needs. |
| Vasnprintf.Append | intl/vasnprintf.c:209-219 | A literal piece is appended. |
| Vasnprintf.PutFlags | intl/vasnprintf.c:506-517 | The `%` and the flags are written in their order. |
| Vasnprintf.BuildDirective | intl/vasnprintf.c:501-563 | The directive is rebuilt in the scratch buffer, within its bounds. |
| Vasnprintf.Attempt | intl/vasnprintf.c:757-800 | One call of `snprintf` and its two ways to report a length: the length is known, or `%n` is given up, or the text did not fit. |
| Vasnprintf.Turn | intl/vasnprintf.c:580-846 | One turn of the retry loop: the text fits, or `%n` is given up, or the buffer grows. |
| Vasnprintf.FormatValue | intl/vasnprintf.c:580-846 | The retry loop ends, for libraries with and without `%n` and with and without full lengths, and appends the whole text of the directive; the size of the buffer afterwards, or its overflow, is a function of the sizes alone. |
| Vasnprintf.FailureStays | intl/vasnprintf.c:184-205 | A size that has overflowed on the way has overflowed at the end. |
| Vasnprintf.Convert | intl/vasnprintf.c:264-846 | A directive appends the text of its rebuilt form for its arguments. |
| Vasnprintf.Execute | intl/vasnprintf.c:221-848 | Each directive: `%%` appends a percent sign, `%n` records the length so far, all others append their text. |
| Vasnprintf.FetchArgs | intl/printf-args.c:29-119 | Fetching fails exactly on a slot without a type. |
| Vasnprintf.Finish | intl/vasnprintf.c:849-861 | The output is ended, and a buffer of our own is cut to its size. |
| Vasnprintf.Produce | intl/vasnprintf.c:207-848 | The loop over literal texts and directives delivers the whole output in a buffer of the computed size, and fails exactly when that overflows. |
| Vasnprintf.Vasnprintf | intl/vasnprintf.c:110-880 | A call fails with EINVAL exactly for a format that is not accepted or leaves a slot without a type; with ENOMEM if and only if the scratch buffer reaches SIZE_MAX or the size of the buffer, computed along the directives, does, which needs twice the output to reach it and happens when the output does; and otherwise delivers the literal pieces and formatted directives in order, whatever the initial buffer, in the caller's buffer exactly when that has room for them and a null character. |
| LocaleMask.PopCounts | intl/l10nflist.c:155-165 | The four steps of masks, shifts and sums count the bits of every number below 2^16. |
| LocaleMask.SubmaskCount | intl/l10nflist.c:333-336 | A mask has two to the power of its number of bits submasks. |
| L10nFList.ArgzCount | intl/l10nflist.c:88-99 | The number of strings in an argz list. |
| L10nFList.ArgzStringify | intl/l10nflist.c:111-122 | All null characters but the last become separators, in place. |
| L10nFList.SlashedIsDirText | intl/l10nflist.c:217-223 | The list with its separators and a final slash is the text of its directories. |
| L10nFList.NameSizeExact | intl/l10nflist.c:190-210 | The size that is allocated for a file name is exactly its length and one. |
| L10nFList.BuildName | intl/l10nflist.c:190-267 | The name is built in this memory, part by part, and fills it completely. |
| L10nFList.Find | intl/l10nflist.c:269-287 | The walk over the decreasing list finds the file of this name, or the only place where it may be inserted. |
| CStrings.StrCmpOrder | intl/l10nflist.c:273-283 | `strcmp` is the order of dictionaries: the first difference decides, and a prefix comes first. |
| L10nFList.InsertKeeps | intl/l10nflist.c:317-318 | Inserting a file there keeps the list strictly decreasing. |
| L10nFList.DecreasingDistinct | intl/loadinfo.h:88-89 | No name occurs twice in the pool. |
| LocaleNames.FlagBits | intl/l10nflist.c:190-246 | Every test of a flag of the mask is a test of its bits. |
| LocaleNames.SuccessorsMeaning | intl/l10nflist.c:333-357 | The successors, bit by bit: the files for exactly those masks below the mask, or up to it with several directories, that have no other bits, not bits of both syntaxes, and not both codesets; from the largest down, and for each mask one file for each directory in order. |
| LocaleNames.SuccessorIff | intl/l10nflist.c:333-357 | A name is that of a successor if and only if it is the name for such a mask and one of the directories. |
| LocaleNames.NameMeaning | intl/l10nflist.c:216-267 | The parts of a name in their order, each behind its separator, selected by the bits of the mask. |
| LocaleNames.NameSeparators | intl/l10nflist.c:216-267 | Read back from a name: how often each separator occurs says which parts it has, when no part contains one. |
| LocaleNames.EntriesJoined | intl/l10nflist.c:88-99 | The strings of an argz list, each with its null character, are the list. |
| LocaleNames.DirTextMeaning | intl/l10nflist.c:217-223 | Directories are separated by colons and ended by a slash. |
| L10nFList.SuccessorsFit | intl/l10nflist.c:297-304 | The successors and the null pointer behind them fit in the array that is allocated. |
| L10nFList.AddSuccessors | intl/l10nflist.c:338-357 | For one mask a successor is added, or one for each of several directories, and every file made on the way has its whole successor list. |
| L10nFList.FillSuccessors | intl/l10nflist.c:320-358 | The successors are exactly the files for the admissible masks from the largest down to 0, in this order, ended by a null pointer; and so are those of every file made on the way. |
| L10nFList.NewFile | intl/l10nflist.c:295-318 | A new file with its flag `decided` and its array is put into its place. |
| L10nFList.AddFile | intl/l10nflist.c:295-361 | A new file at its place, with its whole successor list and the files in it. |
| L10nFList.MakeL10nFList | intl/l10nflist.c:168-361 | The recursion ends; the pool stays strictly decreasing and keeps all its files; a file that is there is returned and nothing changes, no file is made unless allowed; and every file that is made, the returned one and all others, has exactly its successors, ended by a null pointer and all of them in the pool. |
| Queue.TQueue.Dispose | main/queue.cc:112-121 | The oldest node is dropped and all links stay in order. |
| Queue.DropsReach | main/queue.cc:31-36 | The loop, which is entered for limits other than 0, comes to its end if and only if the limit is positive. |
| Queue.TQueue.FreeToLimit | main/queue.cc:31-36 | Exactly as many of the oldest nodes are dropped as one more node needs. |
| Queue.TQueue.InitLimit | main/queue.cc:38-47 | The nodes are counted again and the oldest ones dropped until one less than the limit is left, if there were as many. |
| Queue.TQueue.Append | main/queue.cc:52-59 | A node is linked behind the last one. |
| Queue.TQueue.Insert | main/queue.cc:49-60 | A node is appended, and the queue keeps the newest nodes, as many as its limit allows. |
| Queue.TQueue.Del | main/queue.cc:98-110 | A node is unlinked and the others keep their order. |
| Queue.TQueue.MoveToBack | main/queue.cc:136-138 | Deleting and inserting moves a node to the end, and no node is dropped. |
| ListSort.MoveDecreases | main/queue.cc:132-144 | Moving the first descent to the end lowers a measure that ranks misplaced elements, although it may create inversions; for every total preorder. |
| ListSort.AscendingIsSorted | main/queue.cc:132-144 | A list without a descent between neighbours is sorted. |
| ListSort.ArrangeCorrect | main/queue.cc:132-144 | The sorted arrangement that the measure refers to exists. |
| Queue.TQueue.Sort | main/queue.cc:132-144 | The sort ends with a sorted permutation of the same nodes, with all links and the count intact. |
| Splitting.CutOrdered | main/dlist.cc:1758-1777 | Cutting a piece of at least as many bytes as the divisor keeps the pieces ordered, disjoint and non-empty. |
| Splitting.CutCovers | main/dlist.cc:1758-1777 | A cut changes no byte of the union. |
| Splitting.CutFeasible | main/dlist.cc:1758-1777 | A feasible request stays feasible after a cut. |
| Splitting.SplitKeeps | main/dlist.cc:1758-1777 | The pieces stay ordered, disjoint and non-empty if and only if the first cut asks for no more pieces than it has bytes; and then they hold the same bytes. |
| Splitting.AlwaysFeasibleIff | main/dlist.cc:1695-1777 | This is so for all holes if and only if no more parts are asked for than SPLIT_MINIMUM_PART. |
| Splitting.SplitReaches | main/dlist.cc:1758-1777 | The requested number of pieces is reached unless every piece is shorter than the minimum. |
| Splitting.CutMeaning | main/dlist.cc:1770-1775 | A cut puts the boundary at one part of the piece, rounded down, and leaves everything else alone. |
| Splitting.OneHoleFair | main/dlist.cc:1758-1777 | A single hole with at least 5120 bytes for each part is divided into exactly these parts, and no two of them differ by more than one byte. |
| Splitting.CutBalanced | main/dlist.cc:1758-1777 | What is left of a hole is at least one more than the splits left times each piece cut from it; a cut keeps this. |
| Splitting.SplitBalanced | main/dlist.cc:1758-1777 | So it holds when the loop ends. |
| Splitting.ShiftOrdered | main/dlist.cc:1778-1781 | Moving the first boundary by a tenth leaves the second piece non-empty. |
| Splitting.ShiftMeaning | main/dlist.cc:1778-1781 | The boundary of the first two pieces moves by a tenth of the first one, rounded down, exactly when they meet. |
| Splitting.ShiftCovers | main/dlist.cc:1778-1781 | It changes no byte of the union. |
| Splitting.PreparedPieces | main/dlist.cc:1758-1781 | From separated holes, splitting and shifting give ordered, disjoint, non-empty pieces of exactly the missing bytes. |
| Dlist.FindLargest | main/dlist.cc:1760-1768 | The walk finds the first of the largest holes. |
| Dlist.CutSegment | main/dlist.cc:1770-1775 | The hole is cut and the rest linked behind it. |
| Dlist.SplitOnce | main/dlist.cc:1758-1777 | One round of the loop, or its end when the largest hole is too short. |
| Dlist.SplitHoles | main/dlist.cc:1758-1777 | The loop ends with the list of all pieces and their number. |
| Dlist.ShiftBoundary | main/dlist.cc:1778-1781 | The first boundary is moved when the two pieces meet. |
| Dlist.HandOut | main/dlist.cc:1782-1866 | The parts, reused or new, get their numbers and exactly these pieces, in order. |
| Dlist.Complete | main/dlist.cc:1867-1870 | A first part that starts at 0 may load up to the end of the file; no other part and no link changes. |
| Dlist.PrepareSplits | main/dlist.cc:1743-1870 | All of it: every part loads its piece, and a first part that starts at 0 may load the whole file. |
| MaskMatch.CheckMask | main/locstr.cc:729-816 | The backtracking loop and its recursion end, and return true exactly when the string can be cut into pieces that fit the characters of the mask, `*` one or more characters, `?` exactly one. |
| MaskMatch.StarStep | main/locstr.cc:735-742 | A `*` at the front of a mask takes one character and then any number. |
| MaskMatch.CharStep | main/locstr.cc:743-747 | Any other mask character takes exactly one character. |
| MaskMatch.LiteralMask | main/locstr.cc:729-816 | A mask without special characters stands for itself alone; for the first matcher `?` is not special. |
| MaskMatch.AnyMask | main/locstr.cc:753-788 | Question marks alone stand for every string of their number. |
| MaskMatch.SameLetter | main/locstr.cc:790-816 | Ignoring case, a letter stands for itself and its other case, and every other character for itself. |
| MaskMatch.UncaseIsLower | main/locstr.cc:790-816 | The form that ignores case is the other one on both strings in lower case. |
| NormalizePath.NextComponent | main/locstr.cc:821-845 | The test of at most three characters behind a slash recognises exactly an empty component, `.` and `..`. |
| NormalizePath.PopText | main/locstr.cc:834-838 | Going back to the last slash takes the last component away. |
| NormalizePath.PopComponent | main/locstr.cc:834-838 | The loop that goes back. |
| NormalizePath.SkipComponents | main/locstr.cc:823-845 | The inner loop drops components until one comes that is kept; the write pointer never passes the read pointer. |
| NormalizePath.Normalize | main/locstr.cc:818-852 | In place, the path becomes the one whose components are walked through: the first kept as it is, empty ones and `.` dropped, `..` taking one away, a slash at the end kept; it is never longer. |
| NormalizePath.NormalizedIsClean | main/locstr.cc:818-852 | The result has no `//`, `/./` or `/../` and no `/.` or `/..` at its end. |
| NormalizePath.FixedIffClean | main/locstr.cc:818-852 | Exactly the paths without these are left as they are. |
| NormalizePath.Idempotent | main/locstr.cc:818-852 | A second run changes nothing. |
| NormalizePath.WalkDepth | main/locstr.cc:820-850 | The number of components left is the depth counted along the path, never below 0, and the first component is emptied exactly when some `..` meets depth 0. |
| NormalizePath.AbsoluteIff | main/locstr.cc:818-852 | For every path: the result begins with a slash if and only if the first component is empty, or some `..` meets no component behind it, and a component or the slash at the end is left. |
| NormalizePath.RelativeBecomesAbsolute | main/locstr.cc:818-852 | For every relative path: it becomes an absolute one if and only if some `..` meets no component behind the first one, and a component or the slash at the end is left. |
| NormalizePath.NothingLeftIff | main/locstr.cc:818-852 | For every path: the result is empty if and only if the first component is empty or lost, no other one is left, and there is no slash at the end. |
| NormalizePath.FirstComponentLost | main/locstr.cc:834-838 | An example: `a/../b` becomes `/b`, for every first component `a` and every component `b` that is kept. |
| NormalizePath.FirstComponentOnly | main/locstr.cc:834-850 | Two more: `a/..` becomes empty and `a/../` the root, for every first component. |
| Percent.ToHexBack | main/locstr.cc:307-344 | The two digits written for a byte are read back as this byte. |
| Percent.HexDigits | main/locstr.cc:307-322 | Exactly the ten digits and the letters `a` to `f` of either case are digits, with their values. |
| Percent.WrittenDigits | main/locstr.cc:330-339 | Digits are written in order and as capitals. |
| Percent.LeftAlone | main/locstr.cc:433-436 | Exactly which characters are not encoded: letters, digits, 15 others, and the null character. |
| Percent.HexedString | main/locstr.cc:428-444 | The loop over a string that grows under it encodes every character as it should, the null character excepted. |
| Percent.UnhexedString | main/locstr.cc:446-463 | The loop over a string that shrinks under it ends, and decodes character by character from left to right, with what it does on `%00`; the result does not depend on what is behind the null character of the string, which is read exactly when `ReadsBehind` says so. |
| Percent.BehindIff | main/locstr.cc:450-459 | For every rest of a string: the read behind the null character happens if and only if a `%00` was dropped before or occurs in it, and the last character is a `%` that is looked at. |
| Percent.ReadsBehindIff | main/locstr.cc:446-463 | For every string: the loop reads one character behind the null character if and only if `%00` occurs, the last character is `%`, and an even number of `%00` stand directly before it. |
| Percent.NullEscapeIs | main/locstr.cc:454-458 | What the loop drops is the literal text `%00`, and nothing else. |
| Percent.UnhexedExact | main/locstr.cc:446-463 | It decodes as section 2.1 of RFC 3986 says if and only if `%00` does not occur in the string. |
| Percent.NullEscapeFails | main/locstr.cc:446-463 | `%00%41` is decoded to `%41` instead of a null character and `A`. |
| Percent.RoundTrip | main/locstr.cc:428-463 | Decoding undoes the encoding, for every string of bytes, including `%`, high bytes and null characters. |

## Left out

- PluralParser.Yyparse: `unsigned long` is a parameter, the number of its values, which must be at least 10; numbers are taken modulo it.
- Plural values: fields of the value union that a token does not set are modelled as unset; no action reads them.
- Debugging output, verbose error messages and the reallocation of the parser stacks; the stack is a sequence with the same limit.
- Evaluation of plural expressions, and choosing a plural form in a translation: a parameter of the model of lookups.
- MoTable.AugmentTable: the insertions at hand are required to end, because the source's loop does not otherwise; so are the searches of `Catalogue.Lookup` and `LoadedCatalogue.FindMsg`.
- LoadedCatalogue.Load: the major revision is 0 or 1, and the values of the system-dependent segments are given, so their names are not checked.
- SysdepStrings.SizingPass: sizes are those of a 64-bit system and unbounded; a sum that exceeds `size_t` is not modelled.
- SysdepStrings.FillPass: the place of the descriptors and of the augmented hash table (`MoTable.AugmentTable`) in the memory block is reserved, but they are sequences and an array of their own.
- Opening, mapping and reading catalogues, byte order, and the format's header: a catalogue is its decoded tables.
- Conversion by `iconv` and the memory pool of converted strings: conversion is a function of file, character set and text.
- Gettext.Intl.DcIGettext: the counter is an unbounded integer; it does not wrap around.
- Gettext.Intl.Enqueue: the list of bindings is a sequence in the order of its `next` pointers, and the search tree of known translations is a map.
- Gettext.Intl.FindInLocale: the names of the catalogue variants of a locale are a parameter; they are computed in `finddomain.c`, which is not part of this model.
- Locks, `errno`, and the log of untranslated messages.
- PrintfParser.ParseFormat: the flag word of size specifiers and the fields of a directive are written at once at the end of a directive; the flag word is unbounded, so formats with 2^28 or more long specifiers in one directive are not modelled.
- PrintfParse.ConversionType: all optional types exist, `int` has 32 bits and `long`, `size_t`, `intmax_t` and `ptrdiff_t` have 64.
- Vasnprintf.FetchArgs: decides which formats fail; the values read with `va_arg` are given.
- Vasnprintf.Vasnprintf: arguments are given as a sequence of values in slot order; reading them with `va_arg`, their representation, and the truncation of a length that `%n` stores in a small type are not modelled.
- Vasnprintf.Snprintf: stands for the C library's `snprintf`; it truncates, writes a null character, and its lengths fit in an `int`. Encoding errors, for which it returns -1 whatever the buffer size, are not modelled.
- Vasnprintf.FormatValue: only the branch that uses `snprintf` is modelled, not the one for systems that have only `sprintf`.
- Failing memory allocation, except where a saturated size leads to the same exit.
- L10nFList.MakeL10nFList: the pool is a sequence in the order of its `next` pointers; entries without a name, which nothing creates, and the field `data` are not modelled.
- LocaleMask.PopCounts: only numbers of at most 16 bits, as the source assumes.
- L10nFList.BuildName: the pieces of a name are strings without null characters; normalising a codeset name is left out.
- Queue.TQueue.FreeToLimit: limits are not negative, here and in `InitLimit`: on a negative one the loop of the source goes on for ever (`Queue.DropsReach`); the program keeps its settings in range (`main/var.cc:75-79`).
- Queue.TQueue: walking with the cursor, inserting before a node, and emptying the queue, which would only add easy members.
- Queue.TQueue.Sort: comparison functions are total preorders on the nodes; floating-point scores are not modelled.
- Dlist.PrepareSplits: the list of holes and its length in `offset_in_file` are given, because `segments.cc` computes them; alternative sources, log paths, configuration and locks are left out, and so is freeing the holes.
- Dlist.PrepareSplits: only the split information of the chained downloads is modelled, not the downloads around it.
- MaskMatch.CheckMask: the three matchers are one method with a parameter for their differences; lower case is that of the C locale.
- Percent.UnhexedString: the character at the end of the string is its null character, as `c_str()` has it; the one behind it is a parameter.
- NormalizePath.Normalize: `normalize_path_full`, which expands a home directory first.
- Sockets, protocols, threads, the user interface, and the other path normaliser in `main/path.cc`.
