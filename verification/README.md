# secretstash: a verified model

secretstash hands out one-time secrets. A wrap token of 32 random bytes is the only key to a stored
secret; the server keeps the ciphertext under the token's hash until its reads are used up, it is
revoked, or its time runs out, and then keeps a tombstone that says which. A token can be split among
people with Shamir's scheme, on the command line or in the browser. Two token buckets per client
address limit all traffic and, more strictly, failed attempts.

The model proves these three parts, and what joins them:

- **Sharing.** The field GF(2^8) as the code computes it, proved to be multiplication modulo
  x^8 + x^4 + x^3 + x + 1 (FIPS 197, section 4.2); polynomials over it up to the theorem that the code's
  Lagrange sum is the value at 0 of the one polynomial through the points; quorum recovery, threshold
  secrecy and the effect of a forged share; the text codecs (base64url, RFC 4648 sections 5 and 3.2,
  share strings, tokens); the loops of the Go and of the JavaScript implementation, both proved against
  the same functions and so against each other.
- **The store.** A class with the source's maps, entries and ciphertext arrays, whose every method
  records the step it takes. The recorded history is proved to be a run of a transition system over
  values, and the laws (who may read, what evidence says, how long it lasts, what is conserved) are
  proved for all runs of that system, with purges anywhere in between.
- **The limiter.** A class with lazily refilled and swept buckets, proved to answer every call as ideal
  buckets that are never swept would, the window bounds of such buckets, and the failure budget of
  concurrent requests as the handlers charge it.

## How the parts fit

| file | holds |
|---|---|
| `gf256.dfy`, `fieldreference.dfy`, `polynomials.dfy`, `sharing.dfy` | the field, its independent definition, polynomials, and what sharing promises for one split |
| `base64url.dfy`, `browserbase64.dfy`, `text.dfy`, `sharecodec.dfy`, `tokens.dfy` | the codecs on both sides |
| `combining.dfy` | what combining a list of strings means, for any decoder |
| `shamir.dfy`, `browsershamir.dfy` | the loops of both implementations |
| `endtoend.dfy`, `sharecompat.dfy` | from a token to shares and back, and exactly where the two implementations agree |
| `storespec.dfy`, `storelaws.dfy`, `storeevidence.dfy`, `storejanitor.dfy` | the transition system and its laws over all runs |
| `storereaders.dfy` | what a reader's bytes become in any continuation of a run |
| `store.dfy`, `storesweep.dfy`, `storeclients.dfy` | the mutable store, the sweep's invariant, and what callers may rely on |
| `tokenbucket.dfy`, `failurebudget.dfy`, `ratelimiter.dfy` | ideal buckets, concurrent failures, the mutable limiter |
| `api.dfy`, `unwraprace.dfy`, `budgetrun.dfy` | admission and handlers, two overlapping unwraps, and the budget derived from any schedule of critical sections |

Values the code gets from outside are parameters: the random coefficients are `draws` (a row of the
wrong length stands for a failed read), SHA-256 is a function `Hash`, authenticated decryption a
function `decrypt`, and a clock is an object whose readings never go back. A method of the store or the
limiter is one critical section, so any sequence of calls is an interleaving of concurrent requests. A
handler is not: `HandleUnwrap` takes the requests that are served between its take and its decryption as a
parameter, and in `BudgetRun` each request advances by single critical sections, interleaved at will with
those of all others.
`Valid()` of the store says that its recorded events and states are a `Run`; every law about a `Run`
therefore holds of every store that was only ever used through its methods.

## What the proofs found

- The comment on `Take` (`internal/store/store.go:107-108`) calls the returned entry a copy. Only the
  last read clones the ciphertext. An earlier read hands out the store's own array: after any further
  requests it holds the stored bytes if the store still holds the entry, and zeros otherwise
  (`StoreClients.ReadThenServe`). A reader's bytes are stable in every continuation if and only if
  `ReadsRemaining` is not positive (`StoreReaders.StableIffLast`); `StoreReaders.OverlappingReaders` is a
  run of two readers in which they are not.
- `handleUnwrap` decrypts after the store's lock is released (`internal/api/api.go:214-220`), so what it
  opens is the stored ciphertext or, if the entry left in between, zeros (`Api.Api.HandleUnwrap`). Of two
  overlapping unwraps of a token with two reads left, the first one always opens zeros, and answers 500
  if they do not open (`UnwrapRace.OverlappedUnwrap`).
- Evidence is recorded if and only if the tombstone cap has room (`StoreEvidence.LookBuries`,
  `StoreEvidence.PurgeBuries`); without room a spent secret is reported as never stored
  (`StoreEvidence.EvidenceDroppedAtCap`).
- "Once gone, never live again" holds until the ID is stored anew (`StoreLaws.LifeCycle`), and no longer:
  whatever became of an ID before, a second `Put` makes it live until its deadline
  (`StoreLaws.ReuseRevives`). The server never stores an ID twice, tokens being random.
- `README.md:154` promises a reconstructed token identical to the original, which holds of every token a
  server issues (`EndToEnd.IssuedTokenSurvivesSharing`). `ParseToken` also accepts other spellings of the
  same bytes (`Tokens.StrayBitsAccepted`); those come back in the canonical spelling
  (`EndToEnd.TokenSurvivesSharing`).
- The two implementations agree on all that a split emits, and on every list of strings over the share
  alphabet, corrupt ones included (`BrowserShamir.ImplementationsAgree`). On arbitrary strings they agree
  except exactly where one side reads a string and the other does not (`ShareCompat.DecodersAgreeExactly`,
  `ShareCompat.ListsAgreeExactly`): `strconv.Atoi` accepts a plus sign, and the browser trims, skips white
  space and takes padding, `+` and `/` inside base64 fields.

## Model

| member | source | states |
|---|---|---|
| `Gf256.MulComm` | internal/shamir/shamir.go:183-195 | the shift-and-add product is commutative, although its loop treats the operands differently |
| `Gf256.MulAssoc` | internal/shamir/shamir.go:183-195 | the product is associative |
| `Gf256.MulAddLeft` | internal/shamir/shamir.go:183-195 | the product distributes over XOR |
| `FieldReference.MulIsRemainder` | internal/shamir/shamir.go:183-195 | for all pairs of bytes the product is the remainder of the carry-less product modulo 0x11b, and the only byte that is |
| `Gf256.Pow256` | internal/shamir/shamir.go:197-200 | raising any element to the 256th power gives it back |
| `Gf256.Pow255` | internal/shamir/shamir.go:197-200 | every nonzero element to the 255th power is 1: the group order the comment on `gfInv` relies on |
| `Gf256.InvCorrect` | internal/shamir/shamir.go:197-210 | a^254 is the multiplicative inverse of every nonzero a |
| `Gf256.InvZero` | internal/shamir/shamir.go:197-210 | the inverse of 0 is taken to be 0 |
| `Gf256.NoZeroDivisors` | internal/shamir/shamir.go:183-210 | a product is 0 only when a factor is |
| `Gf256.GfMul` | internal/shamir/shamir.go:185-195 | the masking loop computes the field product |
| `Gf256.GfInv` | internal/shamir/shamir.go:200-210 | square-and-multiply over the fixed exponent computes a^254 |
| `Polynomials.EvalAtZero` | internal/shamir/shamir.go:128-137 | a polynomial's value at 0 is its constant term, which is where the secret byte goes |
| `Polynomials.EvalIsPowerSum` | internal/shamir/shamir.go:173-181 | Horner's rule computes the sum of the coefficients times the powers of the coordinate |
| `Polynomials.FactorTheorem` | internal/shamir/shamir.go:173-181 | dividing by a linear factor leaves the value at its root: the partial values of Horner's scheme are the quotient |
| `Polynomials.RootBound` | internal/shamir/shamir.go:173-181 | a polynomial with at most m coefficients and m distinct roots is zero |
| `Polynomials.UniqueFit` | internal/shamir/shamir.go:173-181 | at most one polynomial of m coefficients passes through m points with distinct coordinates |
| `Polynomials.InterpolantFits` | internal/shamir/shamir.go:173-181 | and there is one |
| `Polynomials.LagrangeTheorem` | internal/shamir/shamir.go:143-171 | for every polynomial and every list of at least as many distinct coordinates as it has coefficients, the Lagrange sum at 0 over its values is its constant term |
| `Polynomials.LagrangeIsInterpolation` | internal/shamir/shamir.go:143-171 | for any points with distinct coordinates the sum is the value at 0 of the interpolating polynomial |
| `Sharing.QuorumRecovers` | internal/shamir/shamir.go:54-56 | any k or more distinct shares of one split, any secret, any coefficients, any order, recover the secret byte for byte |
| `Sharing.RecoverInterpolates` | internal/shamir/shamir.go:146-171 | any points with distinct coordinates, from a split or not: each byte recovered is the value at 0 of the only polynomial through that byte's points |
| `Sharing.RecoverPermuted` | internal/shamir/shamir.go:146-171 | recovery does not depend on the order of the points |
| `Sharing.EveryPointCounts` | internal/shamir/shamir.go:154-168 | with distinct nonzero coordinates every point's weight is nonzero, so changing one point's byte alone always changes the byte recovered |
| `Sharing.ForgedShareShows` | internal/shamir/shamir.go:154-168 | with k-1 genuine points and one forged at a fresh coordinate, the byte recovered is right if and only if the forged byte is the polynomial's value there |
| `Sharing.ForgedSharesShow` | internal/shamir/shamir.go:154-168 | for any number of forged points the byte recovered is off by exactly the Lagrange sum of their errors, so it is right if and only if the errors cancel |
| `Sharing.ThresholdSecrecy` | internal/shamir/shamir.go:128-140 | k-1 observed bytes at distinct nonzero coordinates fit each of the 256 candidate secrets with exactly one choice of the other coefficients |
| `Shamir.GfEval` | internal/shamir/shamir.go:175-181 | Horner's loop over the coefficient slice computes the polynomial's value |
| `Shamir.SplitRaw` | internal/shamir/shamir.go:121-141 | row i holds, byte by byte, the value at i+1 of that byte's polynomial, then i+1; it fails exactly when a draw fails |
| `Shamir.Split` | internal/shamir/shamir.go:56-77 | empty secret, threshold out of 2..n and more than 255 shares are refused by name in that order; otherwise the n encoded shares of the mathematical split, unless a draw fails |
| `Shamir.CombineByte` | internal/shamir/shamir.go:154-168 | the nested loops compute the Lagrange sum of one byte position |
| `Shamir.CombineRaw` | internal/shamir/shamir.go:146-171 | the loops compute the mathematical recovery, the same for every list |
| `Shamir.Combine` | internal/shamir/shamir.go:83-118 | on every list of strings: the first fault in list order with its share number and class, else too few shares, else the recovered secret |
| `Combining.SucceedsExactly` | internal/shamir/shamir.go:79-118 | combining succeeds if and only if there are at least two and at least k decodable shares of one threshold and length with distinct coordinates |
| `Combining.FaultNamed` | internal/shamir/shamir.go:91-106 | the first share out of order names the error with its number: its own if it does not decode, else another threshold, else another length, else a coordinate seen before |
| `Combining.TooFewNamed` | internal/shamir/shamir.go:84-86 | fewer than two shares, or shares in order but fewer than their threshold, are too few; and only those |
| `Combining.OrderIrrelevant` | internal/shamir/shamir.go:79-118 | reordering a list changes neither success nor the secret |
| `Combining.SplitThenCombine` | internal/shamir/shamir.go:54-118 | strings that decode to any k or more distinct shares of a split combine to its secret |
| `Combining.SameOutcome` | internal/web/static/shamir.js:169-194 | two decoders that agree on the strings of a list yield the same outcome, errors and share numbers included |
| `Combining.OutcomesAgreeExactly` | internal/shamir/shamir.go:83-118 | and if they differ only in what they call malformed, the outcomes are the same exactly when they agree on every share that is reached before a fault |
| `Combining.MalformedEnds` | internal/shamir/shamir.go:91-95 | combining ends in a malformed-share error if and only if a share is reached that the decoder calls malformed |
| `Base64Url.DigitsSpellBytes` | internal/shamir/shamir.go:212-217 | every group of up to three bytes is the 24-bit number that its base64 digits spell, missing digits counting as zero (RFC 4648, section 4) |
| `Base64Url.AlphabetInOrder` | internal/shamir/shamir.go:212-217 | the 64 characters are those of RFC 4648, tables 1 and 2, in that order |
| `Base64Url.LineBreakSkipped` | internal/shamir/shamir.go:235-242 | a return or line feed anywhere is skipped in decoding, and no other character outside the alphabet is accepted |
| `Base64Url.DecodeEncode` | internal/shamir/shamir.go:212-247 | base64url decoding undoes encoding, for byte strings of any length |
| `Base64Url.EncodeDecode` | internal/shamir/shamir.go:235-242 | of all accepted spellings, exactly those over the alphabet with zero fill bits are reproduced by encoding |
| `Text.ParseDecimal` | internal/shamir/shamir.go:215-234 | both number parsers read back what `%d` printed |
| `Text.DecimalDigits` | internal/shamir/shamir.go:215 | numbers are printed in decimal, digit by digit, without leading zeros |
| `Text.SplitJoins` | internal/shamir/shamir.go:225 | splitting gives pieces without dots that join to the string |
| `Text.ParsersAgree` | internal/web/static/shamir.js:134-137 | on strings without a leading sign both number parsers accept the same numbers of a range |
| `ShareCodec.DecodeShare` | internal/shamir/shamir.go:220-247 | whatever the input, an accepted share has 2 <= k <= 255, 1 <= x <= 255 and a body, and the only errors are the two documented ones |
| `ShareCodec.FieldsExactly` | internal/shamir/shamir.go:221-228 | a string has four fields exactly if it is "sss1." and those, joined by dots, none containing one |
| `ShareCodec.AcceptedExactly` | internal/shamir/shamir.go:220-257 | a string is accepted as a share if and only if its four fields spell the threshold in 2..255, the coordinate in 1..255, the first four bytes of the hash over 1, k, x and the body, and a body that is not empty |
| `ShareCodec.EncodedSpells` | internal/shamir/shamir.go:213-217 | the encoder's string spells its share in just that way |
| `ShareCodec.ChecksumTells` | internal/shamir/shamir.go:249-257 | no part of a share is left out of the checksum: for any two different shares some hash tells theirs apart |
| `ShareCodec.ShareRoundTrip` | internal/shamir/shamir.go:212-247 | decoding an encoded share gives back threshold, coordinate and body |
| `ShareCodec.Reencode` | internal/shamir/shamir.go:212-247 | however an accepted share was spelled, its re-encoding decodes to the same share |
| `ShareCodec.EncodersAgreeOnShares` | internal/web/static/shamir.js:125-128 | both sides spell every share the same way |
| `ShareCodec.DecodersAgreeOnShares` | internal/web/static/shamir.js:130-150 | on every string over the share alphabet both decoders return the same share or the same error; the exact set is that of `ShareCompat.DecodersAgreeExactly` |
| `ShareCodec.PlusSignAccepted` | internal/shamir/shamir.go:229 | off that alphabet they differ: for every share, a plus sign before its threshold is accepted by the server side only |
| `BrowserBase64.EncodersAgree` | internal/web/static/shamir.js:96-100 | the route through `btoa` and replacement spells every byte string as the server does |
| `BrowserBase64.JsDecodeExactly` | internal/web/static/shamir.js:102-107 | the route through `atob` decodes exactly the strings of either alphabet, white space and padding dropped, whose length is not one more than a multiple of four |
| `BrowserBase64.DecodersAgree` | internal/web/static/shamir.js:102-107 | on all text the server reads, line breaks and stray fill bits included, the browser decodes the same bytes |
| `BrowserBase64.DecodersAgreeExactly` | internal/web/static/shamir.js:102-107 | for every string: both decode alike if and only if the server reads it or the browser refuses it |
| `BrowserBase64.PaddingExactly` | internal/web/static/shamir.js:102-107 | the browser drops proper padding after alphabet text, and any other makes it refuse |
| `BrowserBase64.WhiteSpaceSkipped` | internal/web/static/shamir.js:102-107 | the five white space characters are skipped by the browser wherever they stand |
| `BrowserBase64.DecodersDiffer` | internal/web/static/shamir.js:102-107 | an instance: the browser decodes "++", the server refuses it |
| `BrowserShamir.JsGfMul` | internal/web/static/shamir.js:20-30 | the branching loop on 32-bit numbers computes the same field product |
| `BrowserShamir.JsGfInv` | internal/web/static/shamir.js:33-41 | and the same inverse |
| `BrowserShamir.JsGfEval` | internal/web/static/shamir.js:44-48 | and the same polynomial value |
| `BrowserShamir.JsSplitRaw` | internal/web/static/shamir.js:52-68 | and the same table of shares |
| `BrowserShamir.JsCombineRaw` | internal/web/static/shamir.js:72-92 | and the same recovery |
| `BrowserShamir.JsSplit` | internal/web/static/shamir.js:155-165 | the same refusals by name, and given the same coefficients the same strings as the server side |
| `BrowserShamir.JsCombine` | internal/web/static/shamir.js:169-194 | on every list, the outcome of combining with the browser's trimming decoder, errors without a share number |
| `BrowserShamir.ImplementationsAgree` | internal/web/static/shamir.js:169-194 | on every list of strings over the share alphabet, corrupt ones included, both implementations yield the same bytes or the same error |
| `ShareCompat.ServerReadsFirst` | internal/shamir/shamir.go:220-242 | what the server reads before it looks at the checksum, the browser reads as the same share and checksum, unless a number begins with a plus sign, which the browser refuses |
| `ShareCompat.BrowserReadsFirst` | internal/web/static/shamir.js:130-145 | what the browser reads, the server reads as the same if the untrimmed string has the prefix and base64 fields of url-safe text up to line breaks, and refuses otherwise |
| `ShareCompat.DecodersAgreeExactly` | internal/web/static/shamir.js:130-150 | for every hash and string, trimming included: the decoders agree if and only if both read it or neither does; of a string the server reads, iff no number is signed; of one the browser reads, iff its fields are the server's |
| `ShareCompat.SpaceInFront` | internal/web/static/shamir.js:176 | for every share: with a space in front the browser accepts it and the server side calls it malformed |
| `ShareCompat.ListsAgreeExactly` | internal/web/static/shamir.js:169-194 | for every list: same bytes or same error at the same share if and only if no share is reached that just one side reads |
| `ShareCompat.ClassesAgreeExactly` | internal/web/static/shamir.js:169-194 | for every list: same bytes or same class of error, which is what both sides show, if and only if no share is reached that just one side reads or each side stumbles over a share it does not read |
| `ShareCompat.ServerSecretInBrowser` | internal/web/static/shamir.js:169-194 | a list the server side combines gives the browser the same secret if and only if none of its numbers is signed |
| `ShareCompat.BrowserSecretOnServer` | internal/shamir/shamir.go:83-118 | a list the browser combines gives the server side the same secret if and only if every string has the prefix in front and fields the server reads |
| `BrowserShamir.EncodedSharesAreShareText` | internal/web/static/shamir.js:125-128 | everything a split emits lies in that alphabet |
| `Tokens.ParseEncode` | internal/crypto/crypto.go:56-77 | parsing a rendered token gives back its 32 bytes |
| `Tokens.ParsedExactly` | internal/crypto/crypto.go:58-77 | on either side a string parses to a value exactly if it is "ss." and a text that decodes to it, and it is 32 bytes long |
| `Tokens.EncodeParse` | internal/crypto/crypto.go:56-77 | rendering a parsed token gives back the string if and only if it was canonically spelled |
| `Tokens.TokensRenderAlike` | internal/web/static/shamir.js:204-207 | both sides render every 32 bytes as the same token |
| `Tokens.TokenParsersAgreeExactly` | internal/web/static/shamir.js:196-202 | for every string both sides parse to the same bytes or the same error, except exactly for prefixed strings outside the server's alphabet that the browser reads as 43 characters |
| `Tokens.PlusesOnlyInBrowser` | internal/web/static/shamir.js:196-202 | a witness that there are such strings |
| `Tokens.IssuedTokensAreCanonical` | internal/crypto/crypto.go:50-53 | every token rendered from 32 bytes, as issued, is canonically spelled and parses to its bytes |
| `Tokens.StrayBitsAccepted` | internal/crypto/crypto.go:58-67 | a witness that the parser accepts a token that is not |
| `EndToEnd.QuorumOfStrings` | internal/shamir/shamir.go:54-118 | the strings a split emits, any k or more of them in any order, combine to the secret on the server side |
| `EndToEnd.QuorumInBrowser` | internal/web/static/shamir.js:152-194 | and in the browser, whichever side split |
| `EndToEnd.SharesDescribeThemselves` | internal/shamir/shamir.go:71-75 | each string of a split decodes, on either side, to its threshold, its own number from 1 on, and a body as long as the secret |
| `EndToEnd.BelowQuorumRefused` | internal/shamir/shamir.go:79-82 | fewer shares than the threshold, however picked, are refused as too few on either side |
| `EndToEnd.IssuedTokenSurvivesSharing` | README.md:154-155 | every token a server issues, split and combined from any quorum, is rendered as the identical string |
| `EndToEnd.TokenSurvivesSharing` | internal/crypto/crypto.go:58-77 | any accepted token comes back identical if and only if it was canonically spelled; its bytes always come back |
| `EndToEnd.OrderOfStringsIrrelevant` | internal/shamir/shamir.go:79-118 | the order of the strings given to combine matters to neither success nor result |
| `EndToEnd.CorruptionRejected` | internal/shamir/shamir.go:249-257 | a string that spells another share than its checksum was made for is rejected whenever the two checksums differ |
| `EndToEnd.MistypedShare` | internal/shamir/shamir.go:243-257 | for any two different shares there is a hash under which one's fields with the other's checksum, written out, are rejected |
| `StoreSpec.Limits.WithDefaults` | internal/store/store.go:55-63 | both caps are positive, and a configured positive cap is kept |
| `Store.Wipe` | internal/crypto/crypto.go:160-164 | every byte becomes zero |
| `Store.Store.constructor` | internal/store/store.go:75-82 | an empty store with the defaulted limits |
| `Store.Store.Put` | internal/store/store.go:85-102 | refused exactly at the cap and then changing nothing; else the entry is held under its ID with its deadline and all its reads, everything else unchanged |
| `Store.Store.TombLocked` | internal/store/store.go:205-221 | below the cap a tombstone with its reason, time and term of at least a day; at the cap nothing |
| `Store.Store.Evict` | internal/store/store.go:118-126 | the entry is no longer held, is buried below the cap, and its array is all zeros; no other entry changes |
| `Store.Store.LiveLocked` | internal/store/store.go:182-200 | the live entry exactly if there is one before its deadline, else standing evidence, else nothing; expired entries go with their arrays zeroed, outlived tombstones go |
| `Store.Store.SpendLocked` | internal/store/store.go:114-126 | one read is spent; the last returns a fresh array with the old bytes and zeroes the store's, an earlier one returns the store's array |
| `Store.Store.Take` | internal/store/store.go:109-129 | extends the recorded run by one take step with the returned answer; returns the stored bytes; a departed entry's array is zero, every other array as it was |
| `Store.Store.Peek` | internal/store/store.go:132-142 | extends the run by one peek step; a found entry is returned and nothing else changes |
| `Store.Store.Revoke` | internal/store/store.go:147-162 | extends the run by one revoke step; true exactly when a live entry was ended; afterwards the ID is not held and its array is zero |
| `Store.Store.Purge` | internal/store/store.go:224-241 | whatever order it visits the maps in, one purge step: exactly the overdue entries leave, their arrays zeroed; every entry left is before its deadline, every tombstone left before its term; every other entry and every byte of every other array is as it was |
| `Store.Store.SweepEntries` | internal/store/store.go:229-235 | the first loop, in any order: overdue entries removed and buried while the cap has room |
| `Store.Store.SweepTombs` | internal/store/store.go:236-240 | in any order, a tombstone stays, as it was, exactly if its term has not run out |
| `Store.Store.Stats` | internal/store/store.go:173-177 | both counts are those of the one present state |
| `StoreLaws.RunHolds` | internal/store/store.go:85-241 | in every run at every point the entries agree with what the history says of every ID, however often it is stored anew |
| `StoreLaws.RunAgrees` | internal/store/store.go:85-241 | and so do the tombstones of an ID that is stored but once |
| `StoreLaws.PurgeClears` | internal/store/store.go:224-241 | after a purge the tombstones are exactly those still standing and those just made, and the entries exactly those before their deadline |
| `StoreLaws.LookupsRefineHistory` | internal/store/store.go:104-142 | in every run a lookup finds a secret if and only if the last one put was not revoked, read fewer times than allowed and not yet expired; a peek reports reads minus takes, a take one less |
| `StoreLaws.EvidenceIsTruthful` | internal/store/store.go:25-32 | "consumed" means the reads were exactly used up and carries the time of the last; "revoked" carries its time; "expired" the original deadline, however late it was noticed |
| `StoreLaws.ReadsAreCountedDown` | internal/store/store.go:104-129 | under any interleaving the remaining counts handed out are reads-1, reads-2, ... without repetition, and unrevoked tries before the deadline have min(reads, tries) winners |
| `StoreLaws.HandedOutOn` | internal/store/store.go:114-127 | every successful take adds the count it returned to those handed out, and nothing else does |
| `StoreLaws.AccountFrozen` | internal/store/store.go:109-221 | once a secret is unavailable, nothing but a new put changes what the history says of its ID |
| `StoreLaws.UnknownAtFirst` | internal/store/store.go:104-108 | before its put, an ID is unknown to every lookup |
| `StoreLaws.AbsentStays` | internal/store/store.go:109-221 | an ID that is not held stays so until it is put anew, and its tombstone only ever goes |
| `StoreLaws.LifeCycle` | internal/store/store.go:109-221 | as long as an ID is not put anew, answers go from found to gone to unknown and never back; all gone answers carry one reason and one time |
| `StoreLaws.ReuseRevives` | internal/store/store.go:85-102 | whatever became of an ID before, after any put the next lookup finds that secret if and only if its deadline has not passed |
| `StoreLaws.RevivedRun` | internal/store/store.go:85-102 | a run in which an ID is reported consumed and then found again |
| `StoreEvidence.TombstoneAnswers` | internal/store/store.go:182-221 | a recorded tombstone answers every lookup until its term, whatever runs in between |
| `StoreEvidence.GoneExactly` | internal/store/store.go:194-199 | of an ID that is not held a lookup reports evidence exactly until its term, and from then on answers unknown and forgets it |
| `StoreEvidence.OutlivedTakeNoRoom` | internal/store/store.go:236-240 | after a purge only the tombstones still standing and the new ones count towards the cap |
| `StoreEvidence.LookBuries` | internal/store/store.go:202-221 | a lookup that ends an entry leaves a tombstone if and only if the cap has room, standing until the deadline or a day on, whichever is later |
| `StoreEvidence.PurgeBuries` | internal/store/store.go:224-235 | a purge leaves a tombstone of every overdue entry if and only if the cap has room for all of them, and otherwise of exactly as many as there is room for |
| `StoreEvidence.DepartureIsBuried` | internal/store/store.go:202-241 | any departure with room leaves a tombstone with that term |
| `StoreEvidence.EvidenceLasts` | internal/store/store.go:202-241 | in every run, after a departure with room, every lookup until the later of the deadline and a day after the burial reports the true end |
| `StoreEvidence.EvidenceDroppedAtCap` | internal/store/store.go:205-208 | the room is needed: a run under a cap of one in which the second spent secret is unknown at once |
| `StoreEvidence.RunWithinLimits` | internal/store/store.go:85-102 | in every run both maps stay within their caps and no ID is in both |
| `StoreEvidence.SecretsAreConserved` | internal/store/store.go:85-241 | in every run: puts = held + consumed + revoked + expired |
| `StoreEvidence.TalliedByCause` | internal/store/store.go:109-241 | each step is counted under its cause, a last read, a revocation, an expiry noticed by a lookup or by a purge, and under no other |
| `StoreJanitor.JanitorIsInvisible` | internal/store/janitor.go:8-10 | two runs with the same requests at the same times, any purges and any further clock readings: every lookup finds the same secret with the same reads left, or none, in both |
| `StoreJanitor.ReportsAgree` | internal/store/store.go:182-221 | what both such runs report gone of an ID stored once, they report for the same reason, and expired at the same time |
| `StoreJanitor.JanitorKeepsTimes` | internal/store/store.go:209-220 | and consumed or revoked at the same time too, if the steps that ended it read the same time |
| `StoreJanitor.LazyOrPurged` | internal/store/store.go:182-241 | an instance: expired lazily with two clock readings in one run, purged before and so read once in the other, reported alike |
| `StoreClients.Serve` | internal/store/store.go:85-241 | any caller's request is one matching recorded step; arrays still the store's keep their bytes, arrays that left are zero; only a lookup's own entry, or for a sweep an overdue one, may leave |
| `StoreClients.ServeAll` | internal/store/store.go:85-241 | and so for any list of requests |
| `StoreClients.ReadThenServe` | internal/store/store.go:117-123 | after a read and any further requests, puts, takes, revocations and purges among them, the reader has the stored bytes if the read was the last or the store still holds the array, and zeros otherwise; unless the ID is put anew the store holds it exactly while it holds the entry |
| `StoreClients.LastReadIsStable` | internal/store/store.go:120-126 | what the last read returned equals what was stored and survives any later requests, while the store's array stays zero |
| `StoreClients.EarlierReadIsWiped` | internal/store/store.go:117-126 | after any number of reads and any requests in between, once somebody makes the last read the bytes an earlier read returned are zero |
| `StoreClients.RevocationWipes` | internal/store/store.go:147-162 | a revocation right after a read that is not the last makes the reader's bytes zero, unconditionally |
| `StoreReaders.StableIffLast` | internal/store/store.go:117-123 | a reader's bytes, not all zero, are the stored ones in every continuation of the run if and only if no reads remain |
| `StoreReaders.SecondReaderWipesFirst` | internal/store/store.go:114-126 | two takes in a row of an ID with two reads, before its deadline: both find it, and the first reader's bytes are zero |
| `StoreReaders.OverlappingReaders` | internal/store/store.go:114-126 | such a run from the empty store |
| `TokenBucket.SpentInWindow` | internal/api/ratelimit.go:59-74 | a bucket's balance after a window of charges is at most burst plus what accrued less the charges |
| `TokenBucket.WindowBound` | internal/api/ratelimit.go:44-74 | if the balance never falls below -c, a window of length d holds at most burst + c + rate*d charges |
| `TokenBucket.OnlyRelevantCallsMatter` | internal/api/ratelimit.go:52-57 | other keys' calls and all peeks are without effect on a key's bucket |
| `TokenBucket.AllowKeepsBalance` | internal/api/ratelimit.go:33-42 | a key used only through `allow` keeps its balance within 0 and burst |
| `TokenBucket.BalanceExactly` | internal/api/ratelimit.go:59-74 | a bucket's balance in closed form: the least of the burst and, over all charges, of burst less the charges since then plus rate times the time since then |
| `TokenBucket.ChargedExactly` | internal/api/ratelimit.go:33-57 | a take charges its key once, an allow exactly if it is answered true, a peek never, and no call another key |
| `TokenBucket.AnsweredExactly` | internal/api/ratelimit.go:33-57 | an allow is answered true if and only if with it no window up to now exceeds burst + rate*d, and a peek if and only if without it none does |
| `TokenBucket.RefillsInTime` | internal/api/ratelimit.go:68-71 | a bucket left alone until as many tokens accrued as were ever charged is full again |
| `TokenBucket.AdmittedAgain` | internal/api/ratelimit.go:68-71 | so after such a pause a peek is answered true, and an allow exactly if the burst holds a whole token |
| `TokenBucket.AdmissionsInWindow` | internal/api/ratelimit.go:33-42 | a key used only through `allow` is answered true at most burst + rate*d times in any window of length d |
| `RateLimiter.RefillTwice` | internal/api/ratelimit.go:59-74 | refilling in two steps, cap included, is refilling once |
| `RateLimiter.RefillKeepsFaith` | internal/api/ratelimit.go:59-74 | writing a bucket's present worth back changes no bucket's worth at any later time |
| `RateLimiter.SweepKeepsFaith` | internal/api/ratelimit.go:76-89 | deleting a fully refilled bucket changes no bucket's worth at any later time |
| `RateLimiter.SweepsTheFull` | internal/api/ratelimit.go:83-88 | a sweep keeps a bucket, as it was, exactly if it would not be full by now |
| `RateLimiter.ChargeKeepsFaith` | internal/api/ratelimit.go:33-50 | taking a token from a refilled bucket is a charge on the ideal one, and on no other |
| `RateLimiter.Limiter.GcLocked` | internal/api/ratelimit.go:78-89 | at most once a minute the sweep deletes exactly the fully refilled buckets, in any order, and leaves every key's present and future worth as it was |
| `RateLimiter.Limiter.RefillLocked` | internal/api/ratelimit.go:59-74 | the bucket returned holds exactly the ideal balance, at most burst |
| `RateLimiter.Limiter.Allow` | internal/api/ratelimit.go:33-42 | answers as a bucket that is never swept would |
| `RateLimiter.Limiter.Take` | internal/api/ratelimit.go:44-50 | charges one token whatever the balance |
| `RateLimiter.Limiter.PeekOK` | internal/api/ratelimit.go:52-57 | answers as a bucket that is never swept would, and charges nothing |
| `FailureBudget.BalanceCoversFlight` | internal/api/middleware.go:69-80 | under any legal interleaving, which `BudgetRun.Drive` shows every schedule to be, the failure balance is at least the number of requests in flight less c |
| `FailureBudget.BalanceFloor` | internal/api/middleware.go:69-80 | with at most c admitted requests of an address in flight its failure balance never falls below -c |
| `FailureBudget.FailuresInWindow` | internal/api/middleware.go:69-80 | and its charged failures in any window of length d are at most burst + c + rate*d |
| `FailureBudget.BudgetIsTheLimiters` | internal/api/api.go:329-341 | the limiter charges an address exactly at its failures |
| `FailureBudget.LimiterWithinBudget` | internal/api/ratelimit.go:44-57 | so the limiter's own charges and balance of an address obey both bounds |
| `BudgetRun.FlyingAt` | internal/api/middleware.go:69-80 | replacing or dropping one request under way changes the number in flight by just that one |
| `BudgetRun.ActArrive` | internal/api/middleware.go:72 | a new request is under way exactly if the general limiter's ideal bucket holds a token; nothing else changes |
| `BudgetRun.ActCheck` | internal/api/middleware.go:72 | a request past the general limiter is admitted exactly if the failure balance is not negative, and refused otherwise |
| `BudgetRun.ActLookUp` | internal/api/api.go:208-303 | an admitted request's well-formed token makes one matching store step, whose answer awaits its report; a malformed one is charged at once, a missing one ends uncharged |
| `BudgetRun.ActReport` | internal/api/api.go:305-341 | an answered request ends, charged once exactly if nothing was found |
| `BudgetRun.ActTask` | internal/api/api.go:208-341 | each step of a request under way has exactly its outcome, and one that does not apply does nothing; routes without a token end uncharged |
| `BudgetRun.Drive` | internal/api/middleware.go:69-80 | any schedule of critical sections of any number of requests, and of the store's other clients: every action has exactly its outcome, the budget steps made are legal, and the failure limiter was asked exactly their calls |
| `BudgetRun.RunningIsBounded` | internal/api/ratelimit.go:33-57 | of a running server no failure balance is below -c, every window holds at most burst + c + rate*d charged failures of an address and burst + rate*d of its calls that the general limiter answered true |
| `BudgetRun.DriveFresh` | internal/api/middleware.go:69-80 | and so of a fresh server driven by any schedule in which at most c admitted requests of an address are in flight |
| `FailureBudget.AdmissionIsPeek` | internal/api/middleware.go:69-80 | admission on a balance that is not negative is what the limiter's peek answers |
| `Api.Api.RateLimit` | internal/api/middleware.go:69-80 | a request passes exactly when the general bucket held a token, now spent, and the failure balance is not negative; the failure bucket is only consulted if the first test passed |
| `Api.Api.TokenFrom` | internal/api/api.go:287-303 | a missing header is 400 and free, a malformed token is 404 and charged like an unknown one |
| `Api.Api.WriteGone` | internal/api/api.go:305-327 | 410 with evidence, 404 without, charged once either way |
| `Api.Api.HandleUnwrap` | internal/api/api.go:208-239 | one take of the token's ID, any requests after it; charged exactly once on 404 or 410 and not otherwise; the status reports the store's answer; what is opened is the stored ciphertext if the read was the last or the entry is still held, and zeros otherwise |
| `UnwrapRace.OverlappedUnwrap` | internal/api/api.go:214-220 | of two overlapping unwraps of a token with two reads left, before its deadline the first opens zeros, whatever was stored |
| `Api.Api.HandlePeek` | internal/api/api.go:241-259 | one peek, with the same charging and reporting |
| `Api.Api.HandleRevoke` | internal/api/api.go:261-275 | one revoke, with the same charging and reporting |

## Left out

- AES-GCM, HKDF and SHA-256 are functions without properties; nothing is claimed about collisions of the four checksum bytes beyond `CorruptionRejected`.
- Randomness: coefficients and tokens are arbitrary values; that `NewToken` never repeats an ID is the assumption `FreshIds`.
- Constant-time behaviour of `gfMul`, and what Go's garbage collector may copy before a wipe, cannot be expressed here.
- Floating point: tokens and seconds are exact reals, so rounding in the limiter is not modelled.
- Time: the store and each limiter have their own clock object; that they read one process clock is not used. The zero `lastGC` of a new limiter is a minute before its start.
- Runs in which an ID is put twice: a tombstone may then outlive the entry put over it, so the laws on evidence and conservation exclude such runs; the others cover them. In `Store.Store.Put` every ciphertext is an array of its own, as `Seal` makes it.
- JanitorIsInvisible: how long evidence lasts and when `Put` is refused do depend on purges, because retention counts from detection and both maps are capped; the law does not claim them.
- HandleUnwrap: a wipe that overlaps the decryption itself is a data race and could be seen half done; here each wipe is over before or after it.
- The shares of `splitRaw` are the rows of one two-dimensional array, and lists passed to the combine methods are sequences; aliasing between share slices is not modelled.
- The source's `Take`, `Revoke` and `purge` are single bodies; here their common statements (delete, bury, wipe) are one method, `Evict`.
- Wiping of the parsed token and the plaintext in the handlers, which work on values here.
- `Len`, health, metrics, logging, audit records, `idPrefix` and the JSON bodies, including the message texts of `writeGone`.
- `handleWrap` and its validation of time to live and reads; body size limits; security headers.
- `remoteIP` and the proxy header: the client address is a parameter.
- The ticker of `Janitor` and its cancellation: a purge may happen at any time.
- HTTP, TLS, the command line client, the web pages.
