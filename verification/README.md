# linhub: verified models of its self-contained logic

linhub is a Go toolkit around Gin, GORM and OpenTelemetry. This project models, in Dafny, the pieces
of it that carry logic of their own, and proves what their comments and documentation promise, or the
exact condition under which the code keeps the promise. All paths below are relative to the
repository's root.

| files | what they model |
|---|---|
| `IdCode`, `CodeFormula`, `CodeUniqueness`, `IdUniqueness`, `Rid` | short codes (`id/code.go`, `id/options.go`): the generator, each character as a formula, the digit box, when ids get different codes; and resource ids (`rid/rid.go`) |
| `VersionText`, `VersionParse`, `VersionRoundTrip` | the two regular expressions, `parse` and `String` of `util/version/version.go` |
| `VersionOrder`, `VersionLexicographic`, `VersionTransitivity`, `VersionPrecedence`, `VersionSelect` | `compareInternal`: what it decides, its laws, when it is an order, when it is the standard's; `HighestSupportedVersion` |
| `DynamicVersion` | the guarded global of `version/dynamic.go` |
| `SlogTree`, `SlogTreeFacts`, `SlogLeaves` | what an OpenTelemetry record looks like after any sequence of `WithAttrs` and `WithGroup`, as a tree and as leaves under key paths |
| `OtelHandler`, `OtelFamily` | the handlers of `otelslog/handler.go` on the heap, sharing buffers and group chains |
| `Wildcard`, `WildcardPatterns`, `PathMatchers` | the scan of `token/token.go`, for which patterns it is right, `matchPath`, and the matcher of `middleware/gin/observability.go` |
| `TokenRevocation` | signing, destroying and checking tokens (`authn/jwt/jwt.go`) over runs with a clock |
| `Utf8Reverse` | `Reverse` of `util/strings/strings.go` on bytes |
| `Paging`, `StoreList` | `Options` of `store/where/where.go` and `List`/`Count` of `store/store.go` over an abstract table |
| `Arithmetic`, `Text`, `Optional` | number theory, splitting, an option type |

`dafny verify dfyconfig.toml` checks the whole project.

## How the model is arranged

Every loop or object that changes state in the source is a method or class here, and its `ensures`
equates what it does with a specification function (`Code`, `Parse`, `Compare`, `Tree`,
`TokenAccepts`, `EndDestroy`, `Fill`, `Window`). The main results are lemmas about those functions,
and each has an independent partner: a decoder for the encoder, a printer for the parser, the
precedence rules of section 11 of Semantic Versioning 2.0.0 for the comparison, the call history for
the handler, the glob language for the matchers, RFC 3629 for the byte reversal.

Go's widths are explicit: `uint64` products and sums wrap, `byte` arithmetic is modulo 256, version
numbers are bounded by 2^64-1, page offsets are signed 64-bit.

## Where the code and its documentation differ

The code is modelled as it is; each line names the lemma that shows the difference or its exact extent.

- Short codes are said to be unique because n1 and c, and n2 and l, are coprime. The bytes must not overflow
  either (`CodeUniqueness.BoxUniqueExact`), and for c^l up to 2^64 a single wrap of n1*id+salt costs
  uniqueness, unless c^l divides 2^64; for a sound box with c^l above 2^64 wraps do no harm and n1 must be odd:
  `IdUniqueness.UniqueExact`, `LongCodesExact`. The salt of resource ids is a 64-bit hash, so
  `Rid.RidsUniqueExact` is a condition on it.
- Version strings are said to have surrounding white space ignored. A trailing newline is not: `.` does
  not match it (`VersionRoundTrip.TrailingSpaceExact`).
- The comparison is said to follow semantic versioning. It compares two identifiers as strings unless both
  are numbers that fit in 64 bits, and three things follow. With a digit-led identifier such as `1a` it is
  cyclic, 9 < 10 < 1a < 9 (`VersionTransitivity.LeadingDigitCycle`; exact condition `TransitiveExact`).
  Digit-led identifiers can also rank below numbers, against section 11 of the standard. And a number
  beyond 2^64-1, which the parser accepts, can be put after a longer one: 99999999999999999999 compares above
  100000000000000000000 (`VersionPrecedence.HugeNumbersSwap`; exact condition `PrecedenceExact`).
- Versions of mixed kinds compare by components only, so 1.0.0 and 1.0.0-a both equal a generic 1.0.0:
  `VersionTransitivity.MixedExact` says when a collection of both kinds is ordered all the same.
- Groups of log attributes are drawn as nesting. An enclosing group without attributes of its own is
  dropped even when it holds another group, and the innermost group may be emitted empty:
  `SlogTreeFacts.DocumentedExact`, `OuterGroupLost`, `EmptyMapsTree`.
- A wildcard pattern also accepts texts in which literal parts share characters with the last one, or lie
  wholly inside it, as `a*b*cb` accepts "acb" (`WildcardPatterns.InnerPartSwallowed`). `TokenExact` says for every
  pattern whether that can happen; for `p*q` it is whether an end of p is a start of q (`OneStarExact`).
  In `matchPath` a pattern ending in `/*` also matches the bare prefix, and a star before a final star is
  read literally (`PathMatchers.FinalStarLiteral`); `MatchPathExact` says which patterns mean their language.
- `Destroy` without a store reports success and revokes nothing (`TokenRevocation.DestroyNeedsStore`);
  with one, on a token without an expiry, it dereferences nil (`DestroyExact`).
- A token with a lifetime below one second may be expired the moment it is signed
  (`TokenRevocation.AcceptedAtOnceExact`).
- `Reverse` is right exactly on valid UTF-8, and panics exactly when an invalid byte stands first, or
  second after one ASCII byte (`Utf8Reverse.ReverseExact`, `PanicExact`).
- A page offset beyond 2^63-1 wraps and shows wrong rows (`Paging.PageExact`); under an order with ties
  at a page boundary, pages may repeat or lose rows (`Paging.TilesExact`).

## Model

| member | source | states |
|---|---|---|
| IdCode.ConfigureWellFormed | id/options.go:13-47 | no sequence of options can empty the alphabet or make the length non-positive |
| IdCode.ConfigureSnoc | id/options.go:13-47 | one option more sets its own field, if its argument is usable, and leaves the other four |
| IdCode.FillSlots | id/code.go:18-23 | the first loop leaves in the array the mixed base-c digits of the number, whatever it held before |
| IdCode.ReadOut | id/code.go:25-30 | the second loop spells the digits in the order of the index permutation |
| IdCode.NewCode | id/code.go:4-31 | for every uint64 and every option list the result is the code of the id, or a division by zero exactly when the alphabet size or the length is a multiple of 256 |
| CodeFormula.CodeFormula | id/code.go:9-29 | for all settings that run, position i of a code shows digit k = i*n2 mod l of y = (n1*id + salt) mod 2^64, plus k times the stored digit 0, all in byte arithmetic |
| CodeFormula.CodeInRange | id/code.go:9-29 | when no byte overflows, that is character (y / c^k + k*(y mod c)) mod c of the alphabet |
| CodeFormula.FirstCode | id/code_test.go:19 | with the defaults the code of id 1 is VHB4JX86 |
| IdCode.SlotsExact | id/code.go:25-29 | without byte overflow, the indices i*n2 mod l reach every digit iff n2 is coprime to l |
| CodeUniqueness.DecodeEncode | id/code.go:12-30 | the explicit decoder returns the encoded number modulo c^l |
| CodeUniqueness.EncodeDecode | id/code.go:12-30 | every string of length l over the alphabet is the encoding of its decoding: with DecodeEncode, a bijection from [0, c^l) |
| CodeUniqueness.BoxUniqueExact | id/code.go:12-30 | the digit box is injective on [0, c^l) iff c is 1, or the characters are distinct, no byte overflow makes two digits collide and every digit is read out: both directions, for all settings that run |
| CodeUniqueness.BoxSoundInRange | id/options.go:61-66 | when no byte overflows and the alphabet is distinct, the box is sound iff n2 is coprime to l |
| IdUniqueness.CodePeriod | id/code.go:9-30 | for ids whose expansion keeps its remainder (no wrap, or c^l divides 2^64), n1 of either sign: two ids share a code iff they agree modulo c^l |
| IdUniqueness.CodeOfId | id/code.go:4-31 | every string of length l over the alphabet is the code of the id computed by the inverse of n1 |
| IdUniqueness.IdOfCode | id/code.go:4-31 | that computed id, applied to a code, is the original id modulo c^l: with CodeOfId, a bijection |
| IdUniqueness.AnyWrap | id/code.go:10 | when c^l is at most 2^64 and does not divide it, one wrap among the first c^l ids makes two of them collide, whatever n1, n2, alphabet and length |
| IdUniqueness.AllIdsExact | id/code.go:4-31 | for all settings that run, all uint64 ids have distinct codes iff n1 is odd and the digit box keeps uint64 numbers apart, whatever the salt and the number of wraps |
| IdUniqueness.LongCodesExact | id/code.go:4-31 | with a sound box and c^l of 2^64 or more, that is: iff n1 is odd |
| IdUniqueness.UniqueExact | id/code.go:3-31 | the uint64 ids below c^l have distinct codes iff: for c^l up to 2^64, the box is sound, nothing above 1 divides both n1 and c, and no id wraps or c^l divides 2^64 (or c is 1); for c^l above, as in AllIdsExact |
| IdUniqueness.LuckyWraps | id/code.go:10 | one setting with c^l below 2^64 that wraps twice and still has distinct codes, which UniqueExact does not cover |
| Rid.RidSettings | rid/rid.go:31-36 | the settings a resource id is made with; a zero salt keeps the default one |
| Rid.NewShape | rid/rid.go:28-38 | an id is its prefix, a hyphen and six lower-case letters or digits |
| Rid.RidsUniqueExact | rid/rid.go:28-38 | ids are unique jointly in prefix and counter below 36^6, even for prefixes containing "-", iff 17*(36^6-1)+salt is below 2^64 |
| Rid.DefaultCodesUnique | id/options.go:51-69 | with the defaults every id below 30^8 has its own code |
| VersionParse.MatchVersionIs | util/version/version.go:22 | the first expression on any text of its shape: the groups, or no match exactly when the rest has a newline |
| VersionParse.MatchVersionParts | util/version/version.go:22 | every match splits the text into white space, an optional v, a dotted number and a newline-free rest |
| VersionParse.MatchExtraIs | util/version/version.go:24 | the second expression finds the pre-release and build of any text of its shape |
| VersionParse.MatchExtraParts | util/version/version.go:24 | every match is a pre-release, a build and white space, and nothing else |
| VersionParse.ParseNumbers | util/version/version.go:39-52 | the component loop: the numbers, or the first offending component with its reason |
| VersionParse.ComponentsError | util/version/version.go:39-52 | an error is the first component that is too large or has a leading zero where none is allowed, the leading zero reported first; without one all numbers are read |
| VersionParse.FirstZeroPrefixed | util/version/version.go:61-67 | the identifier loop: the first uint with a leading zero, if any |
| VersionParse.CheckedExact | util/version/version.go:61-67 | a pre-release passes iff no identifier that fits in 64 bits has a leading zero; otherwise the first such identifier is reported |
| VersionParse.ParseVersion | util/version/version.go:27-71 | the whole parser in both modes, with every error case, as the function the theorems are about |
| VersionParse.PrintVersion | util/version/version.go:224-246 | the printing loop writes the dotted components and the marked sections |
| VersionRoundTrip.ParseSemanticExact | util/version/version.go:131-136 | ParseSemantic(str) is v iff v is well-formed and str is v printed with white space, an optional v, and newline-free trailing space |
| VersionRoundTrip.ParsePrinted | util/version/version.go:222-246 | parsing the printed form of a well-formed version gives back all fields |
| VersionRoundTrip.SemanticRoundTrip | util/version/version.go:222-246 | for every accepted string, parse after print after parse is parse |
| VersionRoundTrip.PrintsInputBackExact | util/version/version.go:222-246 | String returns the input iff the input starts with a digit and does not end in white space |
| VersionRoundTrip.GenericKeepsComponents | util/version/version.go:114-120 | reparsing the printed form generically keeps the components, for both kinds |
| VersionRoundTrip.ParseGenericExact | util/version/version.go:114-120 | ParseGeneric(str) is v iff str is white space, an optional v, a dotted number whose fields read as v and the first of which has no leading zero, and a newline-free rest that does not continue it |
| VersionRoundTrip.NoMatchExact | util/version/version.go:28-31 | "could not parse" is reported iff the text is not white space, an optional v, a dotted number and a newline-free rest |
| VersionRoundTrip.TrailingSpaceExact | util/version/version.go:114-117 | appended white space is ignored iff it has no newline; with one the text is rejected |
| VersionRoundTrip.LeadingSpaceIgnored | util/version/version.go:114-117 | prepended white space of every kind is ignored |
| VersionOrder.PaddedCmpTransitive | util/version/version.go:249-267 | zero-padded comparison of components is transitive, strict steps staying strict |
| VersionOrder.OnlyZerosLoop | util/version/version.go:317-324 | true iff every element is zero |
| VersionOrder.CompareComponents | util/version/version.go:250-267 | the loop and the tail check decide the zero-padded lexicographic order |
| VersionOrder.CompareIdentifiers | util/version/version.go:282-313 | the identifier loop decides the lexicographic order of identifiers, the shorter list first |
| VersionOrder.CompareInternal | util/version/version.go:249-314 | the whole comparison, for all mixes of generic and semantic versions |
| VersionLexicographic.StrCmpExact | util/version/version.go:299-303 | string order: a proper start comes first, otherwise the smaller character at the first difference |
| VersionLexicographic.PaddedCmpExact | util/version/version.go:250-267 | component order: the smaller number at the first index that differs, zeros appended |
| VersionLexicographic.CompareExact | util/version/version.go:249-314 | -1, and likewise 1, iff the first difference says so: components, then a pre-release before none, then identifiers by value if both fit in 64 bits and as strings otherwise, then the shorter list |
| VersionOrder.CompareFlip | util/version/version.go:326-337 | swapping the arguments flips the sign, for all versions; at-least is the negation of less-than |
| VersionOrder.CompareZeroExact | util/version/version.go:249-314 | parsed semantic versions compare equal iff components and pre-release are equal, build metadata aside |
| VersionTransitivity.CompareTransitive | util/version/version.go:249-314 | compareInternal is transitive on semantic versions whose identifiers are uints or harmless: with CompareFlip, a total preorder |
| VersionTransitivity.TransitiveExact | util/version/version.go:249-314 | over any set of identifiers joined to the numbers, the order is transitive iff each is a uint or harmless: as a string below "1", above 19 nines, or a 1 and then a character below "0" |
| VersionTransitivity.LeadingDigitCycle | util/version/version.go:285-303 | 1.0.0-9 < 1.0.0-10 < 1.0.0-1a < 1.0.0-9 |
| VersionTransitivity.MixedExact | util/version/version.go:261-271 | over any collection of generic and semantic versions with tame identifiers, transitive iff no generic one has the components of two semantic ones of different pre-release |
| VersionPrecedence.PrecedenceExact | util/version/version.go:249-314 | over any set of parsed identifiers joined to the numbers, the comparison is the precedence of section 11 of Semantic Versioning 2.0.0 iff, as strings, those that are not uints are above 19 nines and the numbers among them are below longer numbers and below non-numbers |
| VersionPrecedence.LettersRankRight | util/version/version.go:285-303 | when all identifiers but the uints start with a letter, the comparison is transitive and is that precedence |
| VersionPrecedence.HugeNumbersSwap | util/version/version.go:285-303 | two accepted versions with numbers beyond 64 bits that the standard orders one way and the code the other |
| VersionSelect.HighestSupportedVersion | util/version/version.go:75-112 | a v1 entry is returned iff one parses; it is at least every entry with major at most 1 and above every such later one; each failure is characterised |
| DynamicVersion.PlaceholderReference | version/dynamic.go:48-53 | the placeholder indeed does not parse, and stands for 0.0.0 |
| DynamicVersion.ValidateExact | version/dynamic.go:34-61 | a version is valid iff it is non-empty and is the default or parses to the default's three components (0.0.0 for the placeholder); emptiness and mismatch are reported for what they are |
| DynamicVersion.GitVersion.constructor | version/dynamic.go:12-15 | the stored version starts as the default |
| DynamicVersion.GitVersion.SetDynamicVersion | version/dynamic.go:17-61 | a call is accepted iff its argument is non-empty and is the default or has the default's numbers; a rejected call leaves the stored version; what is stored is always the run of all calls so far |
| DynamicVersion.RunAllowed | version/dynamic.go:12-61 | after any sequence of calls the stored version is the default, or an argument of some call that parses with the default's major, minor and patch |
| SlogTree.EmitIsTree | otelslog/handler.go:192-235 | the bottom-up folding of the group list equals the top-down tree of the call history, attribute-less enclosing groups dropped |
| SlogTreeFacts.LeavesConserved | otelslog/handler.go:211-232 | flattened in order, the record lists every retained attribute of every call and then of the record, once each, at any depth |
| SlogLeaves.RetainedLeaves | otelslog/handler.go:413-493 | what is kept of any attributes, flattened with key paths, is exactly their leaves in order: only nil values without a key are missing, and a keyless group adds no path step |
| SlogLeaves.TreeLeaves | otelslog/handler.go:192-235 | the record shows exactly the leaves of the calls' and the record's attributes, in order, each under the groups that are kept around it; an innermost group in which nothing is left is shown empty |
| SlogLeaves.ValuesConserved | otelslog/handler.go:192-235 | the values of all attributes given to the calls and the record come out once each, in call order, whatever the groups |
| SlogTreeFacts.EmptyMapsTree | otelslog/handler.go:221-226 | the record has the empty maps of the attributes, plus one exactly when the innermost group is emitted with nothing retained |
| SlogTreeFacts.DocumentedExact | otelslog/handler.go:283-361 | the record is the documented nesting iff no enclosing group around content lacks attributes of its own and no innermost group is emitted empty |
| SlogTreeFacts.OuterGroupLost | otelslog/handler.go:353-359 | WithGroup("G").WithGroup("H") loses G |
| OtelHandler.KvBuffer.constructor | otelslog/handler.go:385-387 | a new buffer is empty with its own array |
| OtelHandler.KvBuffer.Append | otelslog/handler.go:446-449 | appends one pair, in place or in a fresh array, keeping the rest |
| OtelHandler.KvBuffer.AddAttr | otelslog/handler.go:421-451 | appends what is retained of an attribute: nothing, one pair, or the members of a keyless group (what that is, SlogLeaves.RetainedLeaves) |
| OtelHandler.KvBuffer.AddAttrs | otelslog/handler.go:413-419 | appends what is retained of each, in order |
| OtelHandler.KvBuffer.ConvertValue | otelslog/handler.go:453-493 | a group value is gathered in a buffer of its own and becomes a map of what is kept |
| OtelHandler.KvBuffer.Clone | otelslog/handler.go:397-403 | an equal buffer with an array of its own |
| OtelHandler.KvBuffer.AppendSlice | otelslog/handler.go:405-411 | the slice that append returns: in the shared array if it has room, past the visible part, else in a new one with nothing written |
| OtelHandler.KvBuffer.KeyValues | otelslog/handler.go:405-411 | returns contents and arguments joined; may write the spare part of the array but keeps the contents |
| OtelHandler.KvBuffer.EmitTwice | otelslog/handler.go:405-411 | a second emission changes what the slice of the first shows iff the array has room for both and they differ in their common length |
| OtelHandler.Group.Clone | otelslog/handler.go:363-371 | same name, attributes and tail; a buffer of its own |
| OtelHandler.Group.AddAttrs | otelslog/handler.go:373-379 | extends this group's attributes only |
| OtelHandler.WrapInGroups | otelslog/handler.go:342-361 | the loop over the chain folds the enclosing groups, and no group of the chain changes what it holds |
| OtelHandler.NextNonEmpty | otelslog/handler.go:333-340 | the first group of the chain with attributes; all before it have none |
| OtelFamily.Handler.WithAttrs | otelslog/handler.go:257-273 | a fresh handler holding the receiver's view plus the attributes; nothing existing is written |
| OtelFamily.Handler.WithGroup | otelslog/handler.go:275-281 | a fresh handler with one more group in front, sharing the receiver's chain; nothing existing is written |
| OtelFamily.Handler.ConvertRecord | otelslog/handler.go:192-235 | the emitted attributes are the fold of what the handler held on entry; only spare array parts are written |
| OtelFamily.Family.WithAttrs | otelslog/handler.go:257-273 | on a heap of handlers sharing buffers and tails, every handler keeps the view of its own history |
| OtelFamily.Family.WithGroup | otelslog/handler.go:275-281 | the same for opening a group on any handler of the heap |
| OtelFamily.Family.Handle | otelslog/handler.go:186-235 | any handler at any time emits the tree of its own call history, which shows exactly the leaves of the attributes given to it, and afterwards every handler still holds the view of its history |
| Wildcard.ScanFinds | token/token.go:221-236 | the greedy leftmost scan succeeds iff the parts occur one after the other anywhere |
| Wildcard.ScanMiddle | token/token.go:221-236 | the loop succeeds iff the leftmost scan does, and never slices out of range |
| Wildcard.MatchWildcard | token/token.go:203-237 | accepts iff the first part is a prefix, the last a suffix, and the middle parts embed in order after the first |
| Wildcard.TokenAgainstGlob | token/token.go:203-237 | every text of the language is accepted, and an accepted text is in the language iff the scan left room for the last part |
| Wildcard.TokenLanguage | token/token.go:203-237 | what is accepted in terms of the language: the pattern up to its last star, and separately the last part as suffix |
| WildcardPatterns.TokenExact | token/token.go:203-237 | for every pattern: the matcher decides the language on all texts iff no part, with those after it, reaches into the last one |
| WildcardPatterns.OneStarExact | token/token.go:203-237 | for p*q that condition is that no end of p is a start of q |
| WildcardPatterns.InnerPartSwallowed | token/token.go:221-236 | a*b*cb accepts "acb" although no end of a or b is a start of cb |
| PathMatchers.GinExact | middleware/gin/observability.go:253-276 | the middleware's matcher decides the glob language on all texts iff the pattern's only stars are its first or last character |
| PathMatchers.GinMeaning | middleware/gin/observability.go:253-276 | for every pattern: a text is accepted iff it is the pattern without its end stars, inner stars read literally, with anything before it if the pattern starts with a star and anything after it if it ends with one |
| PathMatchers.MatchersAgree | token/token.go:203-237 | on the patterns of GinExact both matchers and the language agree on every text |
| PathMatchers.MatchPathMissesExact | token/token.go:177-201 | matchPath misses no path of the language iff the pattern has no second star before a final one |
| PathMatchers.MatchPathExact | token/token.go:177-201 | matchPath is the language on all paths iff the pattern does not end in slash-star, holds no second star before a final one, and otherwise has no overlap as in TokenExact |
| PathMatchers.SlashStarExact | token/token.go:184-188 | a final slash-star matches every extension of the bare prefix, where the language wants the slash |
| PathMatchers.FinalStarLiteral | token/token.go:184-193 | a final star, or slash and star, makes the rest of the pattern a literal prefix, inner stars included |
| PathMatchers.PathIsScan | token/token.go:178-200 | without a final star matchPath is the wildcard scan |
| TokenRevocation.SignedLifetime | authn/jwt/jwt.go:154-189 | at any time whatever, a signed token is accepted exactly from the second it was signed in to its reported expiry, and refused as expired before and after |
| TokenRevocation.AcceptedAtOnceExact | authn/jwt/jwt.go:154-189 | a signed token is accepted immediately at every signing time iff the lifetime is at least one second |
| TokenRevocation.SignedTimes | authn/jwt/jwt.go:156-168 | expiry, start and issue time are each the whole second their time lies in, and the reported expiry is the signed one |
| TokenRevocation.TokenStore.Set | authn/jwt/store.go:9-22 | a failed write changes nothing; a successful one sets this key only |
| TokenRevocation.JWTAuth.Destroy | authn/jwt/jwt.go:226-243 | result and blacklist after each outcome, with time passing between parsing and storing |
| TokenRevocation.JWTAuth.ParseClaims | authn/jwt/jwt.go:245-277 | result of each outcome: empty, unparsable, store failure, blacklisted, accepted |
| TokenRevocation.DestroyExact | authn/jwt/jwt.go:226-243 | after any delay, an entry is written iff the token is still valid then, and lasts to exactly its expiry; success without an entry only from the expiry on; nil dereference iff there is no expiry |
| TokenRevocation.RunKeepsInv | authn/jwt/jwt.go:219-277 | over whole runs with interleaved operations, a moving clock, failures and eviction: each destroyed token is blocked until its expiry, and each key comes from a destroyed token; only the destroyed tokens' hashes have to differ |
| TokenRevocation.DestroyedStaysDestroyed | authn/jwt/jwt.go:226-277 | once Destroy has succeeded, a check passes the blacklist only from the expiry on (less the store's slack), so with an exact store only if time passed between its halves |
| TokenRevocation.BlacklistExact | authn/jwt/jwt.go:226-277 | before the expiry a working blacklist refuses a token iff it was destroyed: no other token is affected |
| TokenRevocation.DestroyNeedsStore | authn/jwt/jwt.go:219-243 | Destroy has an effect iff a store is configured |
| Utf8Reverse.DecodeEncoded | util/strings/strings.go:98 | decoding after encoding gives the rune and its width, whatever follows (section 3 of RFC 3629) |
| Utf8Reverse.EncodeDecoded | util/strings/strings.go:98-100 | encoding after decoding gives the bytes read, or the byte was invalid and the replacement rune is returned with width 1 |
| Utf8Reverse.WriteRune | util/strings/strings.go:100 | writes the encoding there and nothing before it, or panics exactly when it does not fit |
| Utf8Reverse.CopyRune | util/strings/strings.go:97-101 | the loop body: reads one rune and leaves what the fill of the rest must give, or panics |
| Utf8Reverse.Reverse | util/strings/strings.go:94-104 | on every byte string the buffer is filled from the back as the specification says, or the write panics |
| Utf8Reverse.ReverseExact | util/strings/strings.go:94-104 | the result is the encoding of the reversed runes iff the text is valid UTF-8 |
| Utf8Reverse.PanicExact | util/strings/strings.go:100 | panics iff an invalid byte stands first, or second after an ASCII byte |
| Utf8Reverse.ReverseInvolutive | util/strings/strings.go:94-104 | on valid text the result is valid and reversing twice is the identity |
| Paging.PageExact | store/where/where.go:293-304 | Page(p, s) shows rows (p-1)*s onwards of every result iff the product fits in an int64; a page below 1 is the first |
| Paging.LeExact | store/where/where.go:484-486 | ordering is ascending and lexicographic: the first expression that tells two rows apart decides |
| Paging.DefaultDescends | store/store.go:288-307 | under the default order unique keys descend strictly |
| Paging.TilesExact | store/store.go:261-286 | reading page after page, the database free to break ties anew each time, gives every row once iff no tie spans a page boundary |
| Paging.DefaultArrangement | store/store.go:288-307 | under the default order, unique keys leave one arrangement |
| Paging.DefaultPages | store/store.go:288-307 | hence pages under the default order concatenate to the whole result, in order |
| StoreList.Options.O | store/where/where.go:275-282 | a negative offset becomes 0; nothing else of the options changes |
| StoreList.Options.L | store/where/where.go:284-291 | a non-positive limit becomes -1; nothing else of the options changes |
| StoreList.Options.Page | store/where/where.go:293-304 | sets offset and limit with 64-bit wrap-around; nothing else of the options changes |
| StoreList.Options.CountOptions | store/where/where.go:426-444 | a fresh copy with the conditions and without paging or order |
| StoreList.Options.Where | store/where/where.go:446-494 | pushes down all conditions and orders in order; offset and limit only when set |
| StoreList.Store.Count | store/store.go:229-242 | the number of all matching rows, whatever the paging |
| StoreList.MatchingExact | store/where/where.go:460-465 | a row is matched as often as it is in the table if it meets every condition, and else not at all |
| StoreList.Store.Find | store/store.go:280 | the window, by the query's own offset and limit, of rows that pass its own conditions in its own order |
| StoreList.Store.List | store/store.go:253-286 | the query built has the options' conditions and orders (or the default order); the result is the window of an arrangement of all matching rows, with the full match count; by default keys fall, strictly if unique, and otherwise the given order holds |
| StoreList.Store.ListChain | store/where/where.go:293-304 | the chain of condition, order and Page, listed, gives that page of the rows passing the condition, and their number |
| StoreList.Store.ReadPages | store/store.go:253-286 | a client listing Page(1,s), Page(2,s), ... gets every matching row once, by strictly descending key |
| StoreList.AllPages | store/store.go:253-307 | the same as a statement about tables, conditions and page sizes |

## Left out

- IdUniqueness.UniqueExact: leaves open settings with c^l below 2^64, not dividing it, whose first c^l ids wrap more than once; `LuckyWraps` shows that their codes can all differ. For c^l above 2^64 and an unsound box, which uint64 numbers the box confuses is not worked out.
- Functional options and chained setters that only store a value are data here (`CodeOption`, `Apply`); error texts and their translations are dropped, error kinds kept.
- Strings are sequences of characters except in `Utf8Reverse`, which works on bytes. In the parser and the matchers only ASCII characters are special, so the difference does not show.
- Versions: a nil receiver of `String`, the `With*` copies, accessors other than those used, and the `Must*` wrappers.
- Log values: all kinds but groups are opaque leaves, and resolving a `LogValuer` is not modelled. Timestamps, severity, message and `Enabled` are left out; the source location is an opaque prefix of the record.
- Log records: a record holds slices that may share spare capacity with a handler's buffer, and `EmitTwice` says when a later emission overwrites one. In `Handle` records are taken as values at the time of the call; lasting stability is claimed for the handlers only.
- Capacities: how far `append` grows a full slice is left open in the body of `Append`; the bodies of `Grow` and `Clone` allocate just enough, but no contract exposes a capacity beyond what is asked for.
- Tokens: JWT encoding, signatures and HMAC are the function `decode` of a configuration; SHA-256 is any function; the theorems ask that the tokens destroyed in the run, and the one asked about, have different hashes. The Redis store is a map whose keys may vanish `slack` nanoseconds before the time asked for; deleting and closing are left out.
- Goroutines: the two halves of `Destroy` and `ParseClaims` interleave freely in the run model; data races within one half are not modelled.
- `rid.Salt` and machine ids read the environment; the salt is a parameter. The Sonyflake generator is left out.
- Wildcards: `matchPathPattern`'s equality and trailing-slash branches around the modelled matcher are one-line tests.
- GORM is a filtered, ordered sequence with offset and limit. Joins, groups, havings, selects, preloads, clauses and transactions are left out, as are database errors. The order among ties is a parameter of `List`.
- Walking the pages (`ReadPage`, `ReadEach`, `ReadPages`) is what a client of the store does, not a function of the repository; it is written out to state what such a client gets.
- Gin, Kafka, Mongo, Casbin, OpenTelemetry exporters, servers, `app`, `errx`, `options`, `log` and the generated API are wiring or tables.
