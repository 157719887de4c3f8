# A verified model of sk-pqc

sk-pqc composes library primitives (X25519, ML-KEM-768, HKDF-SHA256, AES-256-GCM, SHA-256) into sealed
messages, a multi-recipient envelope, a routing envelope, queue addresses and two epoch ratchets. What the
package itself decides is byte framing, canonical transcripts, text codecs and a counter state machine.
This project models those parts at the level of single bytes and code points and proves what they promise.

## How the model is built

* **Bytes and text.** A `bytes` value is a sequence of bytes; a `str` is a sequence of Unicode code points,
  lone surrogates included, because Python strings may hold them (`Basics.dfy`).
* **Primitives.** `Crypto.Primitives` is a record of functions. The only hypotheses about it
  (`Crypto.Lawful`) are correctness laws: output lengths, opening undoes sealing, both sides of an
  exchange agree, decapsulation undoes encapsulation. `Crypto.LawsSatisfiable` gives an instance, so the
  laws do not contradict each other. Nothing is assumed injective or unforgeable. A security result says
  exactly when the code lets something through, and in all other cases that it is refused or that one of
  two violations is exhibited: two different HKDF or SHA-256 inputs with one output, or an AEAD call that
  succeeds though its key, nonce, ciphertext and associated data are not together those of a sealing call,
  the key being the one that the opening code derived or unwrapped. That X25519 masks the top bit of a
  received coordinate (section 5 of RFC 7748) is a hypothesis of its own (`Crypto.MasksTopBit`), used only
  where a lemma says so.
* **Randomness and time** (`os.urandom`, ephemeral keys, `time.time`) are parameters.
* **Library text codecs** (UTF-8 strict and "replace", lenient base64, `bytes.fromhex`, `json.dumps` with
  sorted keys and ASCII escapes, `json.loads` with its guess at the encoding of bytes) are modelled as
  Python's standard library behaves and are total, so the parsers of the package are total as well.
* **Form.** Expressions and calls are functions; `seal_multi`, `_pqdm2_iter_slots` and `open_multi` are
  methods with loops, proved against functions that do not scan; the ratchets and the suite registry are
  classes whose methods are tied to functions of their state.

| file | models |
|---|---|
| `Basics`, `Ordering`, `Hex`, `Utf8`, `Base64`, `Json`, `JsonText`, `JsonRoundTrip`, `JsonCanonical`, `JsonGrammar`, `Encodings` | the codecs and the sort that the transcripts and frames rest on |
| `Crypto`, `PqKem`, `KemBox` | the primitives; the hybrid KEM; what all sealed formats make of it |
| `PqDm` | prekey bundle, negotiation, downgrade-lock AAD, `seal`, `open_sealed` |
| `Slots`, `Pqdm2`, `Pqdm2Theorems` | the pqdm2 envelope: slot codec, sealing and opening, its guarantees |
| `PqRoute` | the pqroute1 envelope |
| `AnonQueue` | the aqid address codec |
| `Ratchet` | the 1:1 and the group ratchet, which differ in their labels only |
| `DomainSeparation` | all HKDF derivations of the package side by side |
| `CryptoSuites` | the suite registry |

## Where the code and its documentation disagree

The model follows the code; each disagreement is a lemma, together with the exact condition.

* *Any tamper fails the open* (`pqroute.py:252-253`, `pqdm.py:334`, `pqdm.py:572-573`; for the KEM
  `SECURITY.md:57` and `tests/test_properties.py:126-129`). The combiner hashes the leg secrets and not
  the ciphertext, and X25519 ignores one bit of what it receives, so a KEM ciphertext with the top bit of
  byte 31 flipped gives the same secret (`PqKem.FlippedLegs`), and every sealed format opens with it as
  with the original (`FlippedRouteOpens`, `FlippedSealOpens`, `FlippedSlotOpens`,
  `FlippedPayloadUnwraps`). Exactly: where everything but the KEM ciphertext is as sealed, an open
  succeeds if the ciphertext leads to the same wrap key, which is if both leg secrets are the same or HKDF
  collides (`KemBox.OneKeyExact`); everything else is refused or shows an AEAD call that was never sealed
  (`RoutedOpensExactly`, `SealedOpensExactly`, `Ratchet.UnwrapExactly`, `Pqdm2Theorems.UnwrapExactly`,
  `EnvelopeOpensExactly`).
* *All enrolled devices of both parties can open the message* (`pqdm.py:386-388`). `seal_multi` accepts
  repeated key ids, and `open_multi` looks at the first slot with its key id only. A device that is first
  with its key id always opens (`FanoutOpens`); one behind another with the same key id opens exactly if
  its private key leads to the wrap key of that other slot, short of the AEAD accepting under a second key
  (`ShadowedOpensExactly`).
* *Stripping a slot (and its kid) breaks every remaining open; the slot set is authenticated*
  (`pqdm.py:398-400`, `440-441`). What is authenticated is the string to which the header's key ids join;
  the slots themselves are never compared with it. A device whose own slot is in place opens the body
  exactly when the header's suite and that string are the sealed ones, short of a SHA-256 collision or a
  forgery (`DeviceOpensExactly`). So a strip is caught when key ids are only removed from the header and
  one of them is not empty (`StripDetected`, `StripNoticed`), and goes unnoticed when the slot goes and
  the header is left alone (`SlotStripUndetected`), when the header names the joined string as its one key
  id (`SlotAndKidStripUndetected`), and when the key id is empty (`EmptyKidStripUndetected`).
* *The digest binds the envelope to its exact recipient list* (`pqdm.py:440-441`). It binds no list by itself:
  every list shares its AAD with the one-element list of its joined string (`KidBoundariesNotBound`). For a
  list of key ids of one non-zero length, the lists with the same string and the same slots are exactly
  those that keep to that length (`EqualLengthKidsDetermined`); a receiver can check that, `open_multi`
  does not.
* *`pqdm2` binds the parties* (`pqdm.py:398`, `436-441`). It binds `suite|sender|recipient` as one string
  (`AadExact`). Given suite and slot set, sender and recipient are determined exactly when neither contains
  a `|` (`PartiesBoundExactly`), all three strings exactly when none of them does (`AadBindsEverything`).
* *`is_hybrid` tells of a usable hybrid prekey* (`pqdm.py:155`). A key that is not hex, has a wrong length or is
  refused by the KEM counts as well and cannot be sealed to (`HybridYetUnusable`); `SealAccepts` gives the
  exact condition.
* *The downgrade-lock AAD binds the parties* (`pqdm.py:217-223`). Exact up to joining surrogate pairs
  (`AadEqual`), hence exact on strings without surrogates (`AadInjective`).
* *`decode_aqid` rejects a non-base64url id* (`anon_queue.py:152-156`). The lenient reader skips foreign
  characters (`SecondSpelling`); an accepted address is the encoder's own exactly when its id part is
  canonical (`AcceptedSpelling`).
* *`active_suites` are all classical today* (`crypto_suites.py:299`). The package itself registers active suites
  that are not (`ActiveNotAllClassical`).
* *`all_suites` lists classical suites first* (`crypto_suites.py:291`). Exactly unless an inactive classical
  suite is registered beside an active one of another status (`ClassicalFirstExact`).

## Model

| member | source | states |
|---|---|---|
| Pqdm2Theorems.FanoutOpens | src/sk_pqc/pqdm.py:465-603 | end to end through UTF-8, JSON, base64, the "." split, the slot scan, the KEM and both AEAD opens: for every body and recipient list that sealing accepts, each recipient whose slot is the first with its key id gets exactly the body |
| Pqdm2Theorems.SealedTokenOpens | src/sk_pqc/pqdm.py:577-600 | the sealed token with any private key: the key unwrapped from the first slot with the key id decides, the message key giving the body and no key None |
| Pqdm2Theorems.ShadowedOpensExactly | src/sk_pqc/pqdm.py:594-600 | a recipient behind another with its key id: it gets the body exactly if its private key leads to the wrap key of that first slot, nothing if the KEM refuses that slot, and otherwise nothing, unless the AEAD accepts the wrapped key under a second key |
| Pqdm2.SealMulti | src/sk_pqc/pqdm.py:465-532 | the loop that grows the slot region yields the token over the packed list of individually sealed slots, or the error of the first recipient that has one, or the error for no recipients or text without UTF-8 form |
| Pqdm2Theorems.SealingAccepts | src/sk_pqc/pqdm.py:484-509 | sealing succeeds exactly when there is a recipient, all strings have a UTF-8 form, no key id exceeds 255 bytes and every public key reads as hex and can be encapsulated to |
| Pqdm2Theorems.SealingRefuses | src/sk_pqc/pqdm.py:484-509 | which error sealing ends with: no recipient, a string without UTF-8 form, otherwise that of the first recipient that cannot be sealed to |
| Pqdm2Theorems.EnvelopeLayout | src/sk_pqc/pqdm.py:486-522 | what sealing writes part by part: one slot for each recipient in order, each carrying the message key under a key derived from a secret encapsulated to its public key, and the nonce before the body sealed under the message key and the AAD |
| Pqdm2.SealedSlotsValid | src/sk_pqc/pqdm.py:499-514 | slot i of a sealed list is what sealing to recipient i alone gives, and has the fixed field lengths |
| Pqdm2.OpenMulti | src/sk_pqc/pqdm.py:557-603 | for every token the lazy scan with early return computes: parse the whole region, take the first matching record, unwrap, open; None in all other cases |
| Pqdm2Theorems.ParseTokenOf | src/sk_pqc/pqdm.py:577-583 | parsing a built token gives back header (up to surrogate pairing), slots and body part |
| Pqdm2Theorems.TokenLayout | src/sk_pqc/pqdm.py:525-532 | the text of a token: the scheme, then the base64 of header, slot region and blob with dots between them |
| Pqdm2Theorems.ParseTokenExact | src/sk_pqc/pqdm.py:577-583 | a text of the scheme and three parts between dots parses exactly when all three are base64 and the first is of a JSON document, and to those |
| Pqdm2Theorems.ParsedTokenHasParts | src/sk_pqc/pqdm.py:577-583 | no other text parses |
| Pqdm2Theorems.OpenNeedsTokenAndKey | src/sk_pqc/pqdm.py:576-592 | nothing opens without a text that parses and a private key that reads as hex; with both the envelope decides |
| Pqdm2Theorems.ClaimsOfHeader | src/sk_pqc/pqdm.py:585-587 | a sealed header claims the hybrid suite and the key ids it was built with |
| Pqdm2Theorems.HeaderFields | src/sk_pqc/pqdm.py:516-522 | the five fields of a sealed header |
| Pqdm2Theorems.HeaderDefaults | src/sk_pqc/pqdm.py:585-587 | headers that were not sealed: what a missing suite or missing key ids stand for, key ids given as a string or a dict, and what raises |
| Pqdm2Theorems.UnwrapOwnSlot | src/sk_pqc/pqdm.py:597-599 | the private key of the recipient a slot was sealed to unwraps the message key from it, also with the top bit of the slot's X25519 share flipped |
| Pqdm2Theorems.UnwrapExactly | src/sk_pqc/pqdm.py:597-599 | any record with any nonce, tried with that private key: the message key exactly where nonce and wrapped key are the sealed ones behind a KEM ciphertext for the same wrap key; otherwise None, or the AEAD accepted what was never sealed |
| Pqdm2Theorems.ScanStopsAtMatch | src/sk_pqc/pqdm.py:594-600 | any bytes behind the first matching record, well formed or not, change nothing |
| Pqdm2Theorems.NoSlotNoBody | src/sk_pqc/pqdm.py:594-603 | a token none of whose whole records carries the key id opens to None |
| Slots.IterSlots | src/sk_pqc/pqdm.py:535-554 | the offset loop yields the records, and the raise, of the recursive parse of the region; it terminates |
| Slots.SlotCodec | src/sk_pqc/pqdm.py:535-554 | a region parses to a list without a raise exactly when it is that list packed: the codec is a bijection |
| Slots.RecordLayout | src/sk_pqc/pqdm.py:511-514 | a record part by part: one byte for the length of the key id, the key id, 1120 bytes of KEM ciphertext, 48 bytes of wrapped key |
| Slots.PackInjective | src/sk_pqc/pqdm.py:511-514 | different slot lists pack to different bytes |
| Slots.ParsePacked | src/sk_pqc/pqdm.py:540-554 | a packed list followed by any bytes yields the list, then what the bytes yield |
| Slots.PackParsed | src/sk_pqc/pqdm.py:540-554 | every region is its records packed plus a remainder; the iterator raises exactly when the remainder is not empty, and the remainder is shorter than the record it announces |
| Slots.TruncationExact | src/sk_pqc/pqdm.py:540-554 | a packed region cut anywhere yields exactly the records wholly inside the cut, and raises exactly when the cut is off a record boundary |
| Slots.PackedNotEmpty | src/sk_pqc/pqdm.py:543-553 | every record advances the iterator by at least 1169 bytes |
| Slots.FirstMatch | src/sk_pqc/pqdm.py:594-596 | no record before the chosen one decodes to the key id, and the chosen one does |
| Utf8.DecodeReplaceExact | src/sk_pqc/pqdm.py:550 | a key id without U+FFFD matches exactly the kid bytes that are its UTF-8 encoding |
| Utf8.ReplacementAmbiguous | src/sk_pqc/pqdm.py:550 | with U+FFFD in the key id the replacing decoder also matches foreign bytes |
| Utf8.EncodeCharExact | src/sk_pqc/pqdm.py:501 | length, marker bits and the bits of the code point in each byte of its encoding |
| Utf8.ReplacesMaximalParts | src/sk_pqc/pqdm.py:550 | each U+FFFD of the replacing decoder stands for a maximal ill-formed part |
| Pqdm2Theorems.AadOrderFree | src/sk_pqc/pqdm.py:443 | the order of the recipients does not enter the AAD |
| Pqdm2Theorems.AadLayout | src/sk_pqc/pqdm.py:443-452 | the AAD part by part: the UTF-8 forms of suite, sender and recipient and the digest of the key ids in ascending order, with '\|' between them; none exactly where a string has no UTF-8 form |
| Ordering.SortTextsAscending | src/sk_pqc/pqdm.py:443 | the sorted key ids are their one ascending rearrangement |
| Ordering.LexExact | src/sk_pqc/pqdm.py:443 | the order of strings: a prefix comes first, otherwise the first code points that differ decide |
| Pqdm2Theorems.AadExact | src/sk_pqc/pqdm.py:436-452 | for all strings, two AADs are equal exactly when the strings joined by '\|' and the digests are equal |
| Pqdm2Theorems.AadBindsSuiteAndSlots | src/sk_pqc/pqdm.py:436-452 | between fixed parties the AAD determines the suite and, short of a SHA-256 collision, the joined key ids |
| Pqdm2Theorems.PartiesBoundExactly | src/sk_pqc/pqdm.py:436-452 | for any suite and slot set: all parties with this AAD are these two exactly when neither of the two contains a '\|' |
| Pqdm2Theorems.AadBindsEverything | src/sk_pqc/pqdm.py:436-452 | the AAD determines suite, sender and recipient exactly when none of the three contains a '\|', and always the joined key ids, short of a SHA-256 collision |
| Pqdm2Theorems.AadPipeAmbiguous | src/sk_pqc/pqdm.py:444-452 | for every sender and recipient of which one contains a '\|', two other parties with the same AAD |
| Pqdm2Theorems.AadBindsPipeFreeSenders | src/sk_pqc/pqdm.py:436-452 | between two conversations whose suites and senders are free of '\|', whatever the recipients contain, the AAD determines all four fields, short of a SHA-256 collision |
| Pqdm2Theorems.BodyOpensOnlyForItsSlotSet | src/sk_pqc/pqdm.py:585-603 | the outcome of every open of a sealed body, with any header, slots, device and parties around it: the body where suite and parties join to the sealed string, the key ids to theirs and the device unwraps the message key; otherwise None, or SHA-256 collides, or the AEAD accepts the body, under the very key this device unwrapped, with foreign associated data (or with a second key) |
| Pqdm2Theorems.DeviceOpensExactly | src/sk_pqc/pqdm.py:585-600 | a device whose own slot is in place, whatever the header and the other slots: the body exactly when the header's suite is the sealed one and its key ids join to the sealed string; otherwise None, short of a SHA-256 collision or a forgery under the message key |
| Pqdm2Theorems.TamperedTokenOpens | src/sk_pqc/pqdm.py:577-600 | the outcome for whole tokens with other key ids that join to the sealed string and any slots, any key id and any private key: the body where the first matching slot unwraps to the message key, None where it unwraps to nothing |
| Pqdm2Theorems.FlippedSlotOpens | src/sk_pqc/pqdm.py:572-573 | a token whose own slot has the top bit of its X25519 share flipped is another token and opens to the body |
| Pqdm2Theorems.EnvelopeOpensExactly | src/sk_pqc/pqdm.py:585-603 | the outcome of every open of every envelope, told against a sealed body: the body exactly under the message key with the sealed blob and an equal AAD; otherwise None, or the AEAD accepted what was never sealed under the key the device unwrapped |
| Pqdm2Theorems.OtherBlobRefused | src/sk_pqc/pqdm.py:590-600 | own slot in place and a changed nonce or body ciphertext: None, or the AEAD accepts another ciphertext or AAD under the message key, or the wrapped key under another nonce |
| Pqdm2Theorems.StripDetected | src/sk_pqc/pqdm.py:398-400 | when the header has only lost key ids, at least one of them not empty, a device whose own slot is in place opens nothing, short of a SHA-256 collision or a forgery under the message key |
| Pqdm2Theorems.StripNoticed | src/sk_pqc/pqdm.py:443 | removing any number of key ids leaves the joined string unchanged exactly when all of them are empty |
| Pqdm2Theorems.SlotStripUndetected | src/sk_pqc/pqdm.py:594-600 | any slot can be dropped under an unchanged header: every other device still gets the body from the token |
| Pqdm2Theorems.SlotAndKidStripUndetected | src/sk_pqc/pqdm.py:443 | the same with the key id gone from the header too, which then names the joined string as its only key id |
| Pqdm2Theorems.EmptyKidStripUndetected | src/sk_pqc/pqdm.py:398-400 | the same with an empty key id removed from the header and nothing else changed in it |
| Pqdm2Theorems.EqualLengthKidsDetermined | src/sk_pqc/pqdm.py:443 | key ids of one non-zero length: among all lists that join to their string, exactly those that keep to this length are the same multiset |
| Pqdm2Theorems.KidBoundariesNotBound | src/sk_pqc/pqdm.py:443 | every list of key ids shares its AAD with the one-element list of its joined string, and with itself and any empty key ids; only a list of one element is that list |
| PqDm.AadLayout | src/sk_pqc/pqdm.py:233-243 | the AAD byte for byte: four keys in sorted order, tight separators, extra bytes behind |
| PqDm.AadText | src/sk_pqc/pqdm.py:233-243 | for a suite and parties of printable ASCII without quotes and backslashes the AAD is this literal text around them |
| PqDm.AadEqual | src/sk_pqc/pqdm.py:233-243 | for all strings and extra bytes: AADs are equal exactly when suite, sender and recipient agree up to surrogate pairing and the extra bytes are equal |
| PqDm.AadInjective | src/sk_pqc/pqdm.py:233-243 | on strings without surrogates: equal exactly when all four inputs are |
| PqDm.AadConfusesSurrogatePair | src/sk_pqc/pqdm.py:233-243 | two different senders with one AAD, for every suite, recipient and extra |
| PqDm.SealedOpensOnlyAsSealed | src/sk_pqc/pqdm.py:265-360 | opening returns the body under the suite and parties sealed under; under any others it reports a downgrade, or the AEAD accepted its ciphertext with foreign associated data |
| PqDm.SealedOpensExactly | src/sk_pqc/pqdm.py:312-360 | the outcome of opening any byte string under any suite and parties: the body exactly for the sealed transcript (up to pairing), nonce and AEAD ciphertext behind a KEM ciphertext for the same wrap key; every other is refused with its error, or the AEAD accepted what was never sealed |
| PqDm.FlippedSealOpens | src/sk_pqc/pqdm.py:334 | a changed sealed blob that opens: the one with the top bit of its X25519 share flipped |
| PqDm.NegotiatedSuiteIsHonest | src/sk_pqc/pqdm.py:368-377 | hybrid is negotiated exactly when the host supports it and the bundle advertises it, and the classical suite otherwise, both literally; a bundle that does not advertise is never sealed to, and one that does is exactly when its key is usable |
| PqDm.SealAccepts | src/sk_pqc/pqdm.py:265-309 | sealing succeeds exactly for a bundle negotiated as hybrid whose key reads as hex and can be encapsulated to; it is refused as malformed exactly for a classical one, bad hex or a wrong length |
| PqDm.SealedLayout | src/sk_pqc/pqdm.py:299-309 | a sealed blob part by part: KEM ciphertext, nonce, the body sealed under the hybrid suite's AAD and a key derived with it |
| PqDm.WrapInfoText | src/sk_pqc/pqdm.py:255-262 | the label of the wrap key, literally |
| PqDm.HybridYetUnusable | src/sk_pqc/pqdm.py:153-156 | a bundle that advertises hybrid, negotiates hybrid and cannot be sealed to |
| PqDm.GeneratedKeyIsUsable | src/sk_pqc/pqdm.py:417-433 | a generated key published in hex is sealed to whenever the KEM accepts, and its holder reads the body |
| Hex.HexRoundTrip | src/sk_pqc/pqdm.py:417-433 | key material published in hex reads back exactly |
| Hex.ToHexAt | src/sk_pqc/pqdm.py:430-431 | two digits for each byte, the high one first |
| Hex.FromHexExact | src/sk_pqc/pqdm.py:503 | text without white space reads as bytes exactly when it is their hex form in either case |
| Hex.SpaceBetweenBytes | src/sk_pqc/pqdm.py:503 | white space in front and between bytes counts for nothing |
| JsonRoundTrip.LoadsDumps | src/sk_pqc/pqroute.py:130-132 | reading a canonically dumped value gives the value with surrogate pairs joined in strings and keys; the value itself exactly when no string or key holds such a pair |
| JsonText.PlainText | src/sk_pqc/pqroute.py:130-132 | printable ASCII without quotes and backslashes is written as it is, between quotes |
| JsonText.ShortEscapes | src/sk_pqc/pqroute.py:130-132 | the seven characters with an escape of two characters, literally |
| JsonText.OtherEscapes | src/sk_pqc/pqroute.py:130-132 | every other character: printable ASCII stands for itself, the rest is \u with four lower-case hex digits for each UTF-16 unit |
| JsonText.EscapeConcat | src/sk_pqc/pqroute.py:130-132 | a string is written character by character |
| JsonText.IntegerText | src/sk_pqc/pqroute.py:130-132 | integers are their digits, with a minus sign for negative ones only; the three keywords |
| JsonText.DigitsExact | src/sk_pqc/pqroute.py:130-132 | decimal digits, each at its place, and no more of them than the number needs |
| JsonText.ArrayText | src/sk_pqc/pqroute.py:130-132 | an array is its items in order between brackets, with commas and no spaces |
| JsonText.ObjectText | src/sk_pqc/pqroute.py:130-132 | an object is its members in ascending order of the keys, with colons and commas and no spaces |
| JsonText.DocumentExact | src/sk_pqc/pqroute.py:226-229 | white space around a document is skipped and anything else behind it is refused |
| JsonGrammar.LoadsExactly | src/sk_pqc/pqroute.py:226-229 | the reader accepts exactly the texts of the JSON grammar with the words that Python adds, white space anywhere between tokens and any spelling of strings and numbers, and reads each as what it means |
| JsonGrammar.SpelledScanned | src/sk_pqc/pqroute.py:226-229 | every spelling of a string, raw, with short escapes or with \u in either case, is read as that string, an escaped surrogate pair as one character |
| Encodings.LoadsBytesDumps | src/sk_pqc/pqdm.py:581 | the reader that guesses the encoding takes a dumped object for UTF-8 and reads it back |
| Encodings.RecodedDumps | src/sk_pqc/pqdm.py:581 | one header has ten byte forms: a dumped object is read as the same object in UTF-8, UTF-16 and UTF-32 of either byte order, with a byte-order mark or without |
| JsonCanonical.DumpsSelfDelimiting | src/sk_pqc/pqdm.py:233-243 | equal bytes from dumped objects with arbitrary bytes behind them mean equal objects (up to pairing) and equal bytes behind; where pairing keeps the order of the keys, exactly so |
| JsonCanonical.PairingShows | src/sk_pqc/pqroute.py:130-132 | a value is written as its paired form is exactly when pairing neither merges keys of a dict nor changes their order |
| PqRoute.FramingExact | src/sk_pqc/pqroute.py:321-332 | for arbitrary bytes: the split succeeds with a part and a rest exactly when the input is that part, length-prefixed, before that rest |
| PqRoute.SealRoutedAccepts | src/sk_pqc/pqroute.py:182-214 | sealing succeeds exactly when header and metadata fit a 32-bit length and the key can be encapsulated to, and which error each refusal gives |
| PqRoute.RoutedLayout | src/sk_pqc/pqroute.py:197-214 | an envelope part by part: the length of the header as four big-endian bytes, the header, KEM ciphertext, nonce, and the length-prefixed metadata with the content sealed under the header's AAD and a key derived with it |
| PqRoute.AadText | src/sk_pqc/pqroute.py:135-150 | the AAD and the label of the wrap key, literally |
| PqRoute.RelayExact | src/sk_pqc/pqroute.py:217-246 | what reading and replacing make of any blob that has a header, and that reading, replacing and opening refuse all others as malformed |
| PqRoute.RoutedRoundTrip | src/sk_pqc/pqroute.py:155-214 | a sealed envelope opens to the same header, metadata and content, and the relay reads the same header |
| PqRoute.RoutedOpensOnlyAsSealed | src/sk_pqc/pqroute.py:249-313 | behind the canonical bytes of its header the envelope opens to header, metadata and content; behind any other bytes the open fails, or the AEAD accepted foreign associated data under the key derived from those bytes |
| PqRoute.RoutedOpensExactly | src/sk_pqc/pqroute.py:249-313 | the outcome of opening any byte string, told against a sealed envelope: header, metadata and content exactly where the header bytes, nonce and AEAD ciphertext are the sealed ones behind a KEM ciphertext for the same wrap key; every other is refused with its error, or the AEAD accepted what was never sealed |
| PqRoute.RoutedSwapExactly | src/sk_pqc/pqroute.py:290-299 | another KEM ciphertext and nothing else changed: refused by the KEM it fails, with the same wrap key it opens to what was sealed, with another key it fails, unless the AEAD accepts the ciphertext under that key |
| PqRoute.FlippedRouteOpens | src/sk_pqc/pqroute.py:252-253 | a tampered envelope that opens to the same header, metadata and content: the one with the top bit of its X25519 share flipped |
| PqRoute.RelayAgrees | src/sk_pqc/pqroute.py:217-230 | whatever blob the destination accepts, the relay has read the same header from it |
| PqRoute.ReplaceLaws | src/sk_pqc/pqroute.py:233-246 | for any blob with a header: the new header reads back, the sealed part is untouched, the later replacement wins, and exactly headers with the original canonical bytes restore the blob |
| PqRoute.LastReplacementWins | src/sk_pqc/pqroute.py:233-246 | after any chain of replacements only the last is left |
| PqRoute.RewritingWhatWasRead | src/sk_pqc/pqroute.py:217-246 | a relay that writes back the header it read restores a sealed blob byte for byte exactly when pairing keeps the order of the header's keys |
| AnonQueue.AqidRoundTrip | src/sk_pqc/anon_queue.py:119-178 | encoding succeeds exactly for a non-empty relay without '/' and a 16-byte id, and then decodes to both exactly |
| AnonQueue.AqidLayout | src/sk_pqc/anon_queue.py:134-146 | an address part by part, with the padded form it is cut from, and the error of each refusal |
| AnonQueue.DecodeExact | src/sk_pqc/anon_queue.py:158-178 | which texts are refused, in which order and with which error, and what all others decode to |
| AnonQueue.AqidInjective | src/sk_pqc/anon_queue.py:119-146 | different addresses are written differently |
| AnonQueue.AcceptedSpelling | src/sk_pqc/anon_queue.py:149-178 | an accepted address is the encoding of what it decodes to exactly when its id part is canonical |
| AnonQueue.SecondSpelling | src/sk_pqc/anon_queue.py:170-173 | every address has a second accepted spelling with characters outside base64url |
| Base64.DecodeEncode | src/sk_pqc/pqdm.py:525-532 | base64 text reads back to the bytes written, for bytes of any length and both alphabets |
| Base64.EncodeExact | src/sk_pqc/pqdm.py:525-532 | what is written: three bytes are four letters of the literal alphabet, six bits each; one or two bytes at the end are filled with zero bits and closed with equal signs |
| Base64.ForeignSkipped | src/sk_pqc/anon_queue.py:171 | a character outside alphabet and padding is skipped wherever it stands |
| Base64.PaddingExact | src/sk_pqc/anon_queue.py:171 | letters and padding are accepted exactly when the last group is whole or completed, and what stands behind a completed group changes nothing |
| Base64.ValueExact | src/sk_pqc/anon_queue.py:171 | which characters are read as letters: those of the alphabet, and by the URL-safe reader those of the standard one as well |
| Base64.PaddingRestored | src/sk_pqc/anon_queue.py:171 | for bytes of any length, appending -len mod 4 equals signs to the unpadded text restores the padded form |
| PqKem.EncapLayout | src/sk_pqc/pqkem.py:243-287 | lengths and order of the composite ciphertext, and the X25519 secret before the ML-KEM secret in the combiner's key material |
| PqKem.KeypairLayout | src/sk_pqc/pqkem.py:214-240 | X25519 before ML-KEM in both halves of a key pair, which secrets they belong to, and when generation succeeds |
| PqKem.EncapAccepts | src/sk_pqc/pqkem.py:264-287 | when encapsulation succeeds and which error each refusal gives |
| PqKem.DecapAccepts | src/sk_pqc/pqkem.py:313-334 | when decapsulation succeeds, from which parts of key and ciphertext, and its one error |
| PqKem.DecapInvertsEncap | src/sk_pqc/pqkem.py:290-334 | for every key pair, randomness and info label, decapsulation returns the sender's secret |
| PqKem.CombinerInputInjective | src/sk_pqc/pqkem.py:195-206 | with legs of fixed length combiner inputs are equal exactly when both legs and the label are |
| PqKem.SameSecretSameLegs | src/sk_pqc/pqkem.py:290-334 | two decapsulations give one secret only if both legs and the label agree, or HKDF collides |
| PqKem.OtherCiphertext | tests/test_properties.py:126-129 | a changed ciphertext: an error if a leg is refused, the same secret with the same legs, and with other legs another secret, or HKDF collides |
| PqKem.FlippedLegs | src/sk_pqc/pqkem.py:317-334 | flipping the top bit of the X25519 share changes the ciphertext and neither leg secret, so not the secret |
| KemBox.OneKeyExact | src/sk_pqc/pqkem.py:195-206 | two KEM ciphertexts lead to one wrap key exactly when both leg secrets are equal or HKDF collides |
| KemBox.BoxSwapExactly | src/sk_pqc/pqkem.py:195-206 | in any sealed format, another KEM ciphertext and nothing else changed: nothing if the KEM refuses it, the plaintext with the same wrap key, otherwise nothing or the AEAD accepts the ciphertext under a second key |
| Basics.U64Equal | src/sk_pqc/dm_ratchet.py:86-87 | the 8-byte encodings of two integers are equal exactly when these agree modulo 2^64 |
| Basics.IntegerBytes | src/sk_pqc/dm_ratchet.py:86-87 | byte i of the 8-byte and of the 4-byte encoding is the digit to base 256 that stands at that place, the most significant first |
| Basics.U64Value | src/sk_pqc/dm_ratchet.py:86-87 | read back, the 8-byte encoding is the number modulo 2^64 |
| Ratchet.MessageKeyInputEqual | src/sk_pqc/dm_ratchet.py:86-120 | two message keys come from one derivation exactly when layer and secret are equal and epoch and index agree modulo 2^64 |
| Ratchet.MessageKeyLayout | src/sk_pqc/dm_ratchet.py:90-120 | which counter goes where: the secret as key material, the epoch big-endian modulo 2^64 at the end of the salt behind the layer's epoch label, the index at the end of the info behind its message label |
| Ratchet.KeyAccepts | src/sk_pqc/dm_ratchet.py:90-120 | a key is derived exactly from a secret of 32 bytes |
| Ratchet.UnwrapOfWrap | src/sk_pqc/dm_ratchet.py:133-209 | a payload has 1180 bytes on both layers, gives back the secret on its own layer, and is refused on the other, short of an HKDF collision or an AEAD open under a second key |
| Ratchet.WrapAccepts | src/sk_pqc/dm_ratchet.py:133-172 | wrapping succeeds exactly for a secret of 32 bytes and a public key that can be encapsulated to, and which error each refusal gives |
| Ratchet.PayloadLayout | src/sk_pqc/dm_ratchet.py:133-172 | a payload part by part: KEM ciphertext, nonce, the secret sealed without associated data under the key derived with the layer's wrap label |
| Ratchet.UnwrapExactly | src/sk_pqc/dm_ratchet.py:175-209 | the outcome of unwrapping any byte string: the secret exactly where nonce and wrapped secret are the sealed ones behind a KEM ciphertext for the same wrap key; every other is refused with its error, or the AEAD accepted what was never sealed |
| Ratchet.FlippedPayloadUnwraps | src/sk_pqc/dm_ratchet.py:175-209 | a changed payload that unwraps: the one with the top bit of its X25519 share flipped |
| Ratchet.EpochRatchet.constructor | src/sk_pqc/dm_ratchet.py:239-244 | the fields and their defaults |
| Ratchet.EpochRatchet.MessageKey | src/sk_pqc/dm_ratchet.py:246-249 | link: the method answers with the key function that RunsAgree and PeekThenSend are about, and changes nothing |
| Ratchet.EpochRatchet.NextOutboundKey | src/sk_pqc/dm_ratchet.py:251-261 | the current index and its key, the counter one further and nothing else changed; no change when there is no key |
| Ratchet.EpochRatchet.ShouldRekey | src/sk_pqc/group_ratchet.py:307-312 | link: the method answers with the policy function that RekeyIsFinal and CarefulSenderIsBounded are about |
| Ratchet.PeekThenSend | src/sk_pqc/group_ratchet.py:290-305 | the announced key is the key the next send returns |
| Ratchet.RunKeepsInvariant | src/sk_pqc/dm_ratchet.py:246-261 | what every event of a run keeps: consecutive indices, the keys sent, receiver keys equal to sender keys, an untouched secret |
| Ratchet.RunsAgree | src/sk_pqc/dm_ratchet.py:246-261 | for every interleaving of sends with lossy, repeated, reordered deliveries, each delivered packet gives the receiver the sender's key and sent indices are consecutive |
| Ratchet.RunRepeatsNoDerivation | src/sk_pqc/group_ratchet.py:131-165 | two messages of a run share a derivation exactly when a multiple of 2^64 apart; up to 2^64 messages equal keys mean an HKDF collision |
| Ratchet.ConversationAgrees | src/sk_pqc/group_ratchet.py:178-256 | a receiver that unwrapped the epoch secret derives the sender's key for every packet of every run |
| Ratchet.RekeyIsFinal | src/sk_pqc/dm_ratchet.py:263-268 | over any use with non-decreasing times, once the policy asks for a rekey it always does |
| Ratchet.CarefulSenderIsBounded | src/sk_pqc/dm_ratchet.py:251-268 | a sender that asks before each send emits exactly the smaller of the room under the message bound and the number of times before the age limit, with consecutive indices below the bound |
| DomainSeparation.LabelsSeparate | src/sk_pqc/dm_ratchet.py:67-75 | over all derivations of the package, two use one salt block and info exactly when they have the same purpose, AAD, layer, epoch and index modulo 2^64 |
| DomainSeparation.PurposesShareNoKey | src/sk_pqc/group_ratchet.py:96-98 | keys of different purposes coincide only by an HKDF collision |
| CryptoSuites.Registry.constructor | src/sk_pqc/crypto_suites.py:131 | the registry starts empty |
| CryptoSuites.Registry.Register | src/sk_pqc/crypto_suites.py:134-137 | assigns the suite under its id, keeps every key the id of its value, returns the suite |
| CryptoSuites.Registry.Seed | src/sk_pqc/crypto_suites.py:140-274 | registers the nine suites of the package in order |
| CryptoSuites.RegistrationsKeepInvariant | src/sk_pqc/crypto_suites.py:131-137 | after any sequence of registrations every key occurs once and is the id of its value |
| CryptoSuites.LastWriteWins | src/sk_pqc/crypto_suites.py:134-137 | after any sequence an id has the last suite registered for it, or what it had |
| CryptoSuites.AllSuitesSortedPermutation | src/sk_pqc/crypto_suites.py:290-295 | the view is the registered suites, each once, in order |
| CryptoSuites.ViewOrder | src/sk_pqc/crypto_suites.py:292-295 | of two suites in the view: active before inactive, then classical, hybrid, pure, symmetric, then ascending ids, each id once |
| CryptoSuites.AllSuitesCanonical | src/sk_pqc/crypto_suites.py:290-295 | the view depends only on what the ids map to |
| CryptoSuites.CallOrderIrrelevant | src/sk_pqc/crypto_suites.py:134-137 | registration sequences with the same last suite per id are reported alike |
| CryptoSuites.ActiveSuitesArePrefix | src/sk_pqc/crypto_suites.py:298-300 | the active suites are the leading part of the view, and nothing behind is active |
| CryptoSuites.ActiveSuitesExact | src/sk_pqc/crypto_suites.py:298-300 | the active view holds exactly the registered suites that are active |
| CryptoSuites.ActiveNotAllClassical | src/sk_pqc/crypto_suites.py:299 | the package itself registers an active suite that is not classical |
| CryptoSuites.ResistantIffNotClassical | src/sk_pqc/crypto_suites.py:303-316 | resistance is reported exactly when the status is not classical, and never for an unknown id |
| CryptoSuites.StatusReported | src/sk_pqc/crypto_suites.py:303-316 | what is reported of every suite in the view is its own status, and resistance for exactly three of the four statuses; an id outside the view is classical |
| CryptoSuites.StatusAfterRegistrations | src/sk_pqc/crypto_suites.py:303-316 | after any sequence of registrations the status and the resistance of an id are those of the last suite registered for it |
| CryptoSuites.SeedReport | src/sk_pqc/crypto_suites.py:140-274 | after the package has registered its suites each of them is reported with its status |
| CryptoSuites.ClassicalFirstExact | src/sk_pqc/crypto_suites.py:290-295 | the view lists classical suites first exactly unless an inactive classical suite meets an active one of another status |

## Left out

- The mathematics of X25519, ML-KEM, SHA-256, HKDF and AES-GCM, and every computational security claim (confidentiality, anonymity, deniability, forward secrecy): the primitives are functions with correctness laws.
- Limits of the libraries and of the interpreter: AES-GCM plaintext size, JSON nesting depth, the number of digits of an integer, memory.
- A missing liboqs backend (`PqKemUnavailable`), environment variables, lazy import, `is_available`: plumbing around the primitives.
- Quality of randomness and the redraw loop of `new_queue_pair`: random values are parameters.
- `auth_tag` and `verify_tag`: a thin wrapper around HMAC.
- Argument type checks, missing dictionary keys in a recipient, exception messages; exceptions are error values.
- Rounding of floats to binary64: a float is the characters that JSON writes and reads for it, and two floats are equal when these are.
- Suite descriptions, primitive lists and references, and the `to_dict`/`from_dict` views of suites and prekey bundles; the signature and key id of a bundle: carried along, never read.
- Float rounding in the age test: times are real numbers.
- The two ratchet files are one module with a layer parameter: they are the same code with different labels.
