# HardMail: what is signed is what was shown

HardMail is a hardware-signer application. A host sends it an email in APDU chunks; the device parses the
payload, shows every field on its own screen, and signs `sha256(payload)` once the human approves. This
project models the parser and the printer of the payload, the review screen, the signing session and the
host client, and proves the guarantee that ties them together: a signature covers exactly the email that
was on the screen.

`dafny verify dfyconfig.toml` checks the whole project.

## Main results

- **The signature covers the screen** (`Runs.SignatureCoversScreen`, `Firmware.AppMain`). In every run, every
  signature answers an approving choice on the review shown just before it. Whoever reads that screen, each line found
  by its tag, reads one well-formed email; the chunks kept since the session's chunk 0 are its encoding, and the
  signature is that of its digest under that chunk's path.
- **The screen can be read** (`Screen.ScreenReadsBack`, `Screen.ScreenLines`, `Display.Ui.ShowEmail`). From the lines
  of a review, found by their tags, the whole email comes back, through hexadecimal, decimal, C strings and the optional
  pair of lines, whatever text the attachment name holds. Hence the screen determines the payload
  (`Screen.ScreenDeterminesPayload`).
- **One chunk 0, one review, one signature** (`Runs.DisarmedStays`, `Runs.SessionIsolation`,
  `Runs.OneSignaturePerSession`, `Runs.DigestStable`). This rests on the payload format being prefix-free
  (`WireTheorems.AcceptedPrefixFree`) and on chunk data never being empty.
- **A key leaves only when it may** (`Keys.KeyReleasedIff`, `Keys.AddressIsAnsweredOnce`, `Keys.RequestKey`). In every
  run, a public key answers a command with P1 = 0, or an approving choice on the address review that the command with
  P1 = 1 just before it opened, and in no other case.
- **End to end** (`EndToEnd.EndToEndSignature`, `EndToEnd.SignEmail`). From every idle state, the host's chunks for a
  printable email within the cap lead to that email's review, and approval gives the host the signature of the digest of
  what it serialized. On the live object every outcome has its reply: the two refusals of a payload, the refusal by the
  human, a failing signing call, and the signature.
- **The parser is exact** (`Layout.StatusIff`, `Layout.CutRefused`, `WireTheorems.AcceptedIff`, `LeftmostFailure`,
  `EncodingErrorIff`, `AcceptanceArithmetic`). Each status is given with exactly the byte strings that get it, once by
  the grammar and once by byte positions in literal numbers; the methods over buffers do what the specification says
  (`Parser.Deserialize`, `Printer.Serialize`, `Firmware.App`).
- **Every answer has its causes** (module `StatusWords`). For each status word, in any state: exactly the commands that
  get it, in the numbers of the protocol, and what each command does to the context.

## How it is laid out

| file | content |
|---|---|
| `ByteString.dfy`, `Memory.dfy` | bytes, big-endian integers, C strings, pointers, memmove, explicit_bzero |
| `Wire.dfy`, `WireTheorems.dfy` | the payload grammar, its reader as a function, and what the reader accepts and refuses |
| `Layout.dfy` | the payload by byte positions: where each field stands, and the status of any bytes read off their positions |
| `Parser.dfy`, `Printer.dfy`, `RoundTrip.dfy` | `transaction_deserialize` and `transaction_serialize` over buffers and records |
| `Screen.dfy`, `Display.dfy` | the strings of the review, and the code that fills the display buffers with them |
| `Session.dfy`, `Runs.dfy` | the device as a step function over events, and what holds of all its runs |
| `StatusWords.dfy` | which commands get which answer, and what they do to the context |
| `Firmware.dfy` | the global context and the handlers as a class; each method does the step of `Session` |
| `Host.dfy`, `EndToEnd.dfy` | the Python client's encoder, chunker and unpacker, and the composition of everything |
| `Keys.dfy` | when a public key leaves the device |

An email is six parts in a fixed order. Each part has an encoding and a reader that are exact inverses on the front of
any byte string (`Wire.ReadEncoded`, `Wire.ReadSound`); everything about whole payloads follows by induction over the
parts. The session is a function `Session.Step` on a device state and an event (a command, an undecodable command, or
the answer to a review), so theorems about runs are about sequences of events. The class `Firmware.App` carries its
history as ghost state, and its validity says that it is where that history leads.

## Assumptions

- SHA-256 (FIPS 180-4, section 6.2) and Ed25519 signing (section 5.1.6 of RFC 8032) are two arbitrary functions, with
  results of 32 and 64 bytes; all statements hold for every choice of them. A hash call may fail and leave any digest
  behind; a signing call may fail; key derivation, point compression and the address computation have arbitrary
  outcomes. These outcomes come with the event.
- The SDK's `buffer_*` functions are a cursor that never passes its size; `buffer_read_bip32_path` reads one to ten
  big-endian words; `format_hex` writes upper-case digits; `snprintf` cuts to its buffer.
- A command's data pointer is null exactly when its length is zero.
- Commands and responses alternate: while a review is pending the next event is its answer. `Runs.DisarmedStays`,
  `Runs.DigestStable`, `Runs.SessionIsolation` and `Runs.AccumulatorInvariant` do not need this.

## Where the code and its documentation differ

- src/handler/sign_tx.h:9-10 says that the path must parse for a transaction to be signed. The request type is set
  before the path is read, so a refused chunk 0 still opens the session (`Runs.RefusedStartStillSigns`).
  `Runs.SignedPath` states exactly when the signature is under a path the host packed: when chunk 0 was answered with
  success.
- tests/application_client/email_payload.py:3 says that the encoder mirrors the parser exactly. It writes control
  characters, attachment hashes of any length and payloads above the cap, all of which the device refuses
  (`Host.TabRefused`, `Host.ShortHashRefused`, `Host.LongRefused`). `Host.HostDeviceAgreement` gives the exact condition,
  and `Host.AcceptedIsSerialized` shows that nothing the device accepts is out of the encoder's reach.
- The per-field maxima add up to 2627 bytes with an attachment, above the 2600-byte cap, so not every well-formed email
  is accepted (`WireTheorems.AcceptanceIsTight`, `WireTheorems.AcceptanceArithmetic`).

## Model

| member | source | states |
|---|---|---|
| `ByteString.U16be` | src/transaction/serialize.c:52-53 | Two bytes whose value is the number, the first one counting 256 |
| `ByteString.U32be` | src/transaction/serialize.c:65-68 | Four bytes whose value is the number, the first one counting most |
| `Wire.ReadEncoded` | src/transaction/deserialize.c:68-143 | Reading the encoding of a well-formed part, whatever follows, gives the part back and stops where it ends |
| `Wire.ReadSound` | src/transaction/deserialize.c:68-143 | Whatever a stage reads was the encoding of a well-formed part, and no byte is lost |
| `WireTheorems.AcceptedIff` | src/transaction/deserialize.c:56-147 | PARSING_OK exactly when the payload is at most 2600 bytes and encodes a well-formed email; that email is unique |
| `WireTheorems.Decode` | src/transaction/tx_types.h:14-21 | The email of an accepted payload is well formed and encodes to that payload |
| `WireTheorems.EncodingAccepted` | src/transaction/deserialize.c:56-147 | Every well-formed email that fits the cap is accepted and decodes to itself |
| `WireTheorems.EncodeInjective` | src/transaction/tx_types.h:14-21 | The encoding tells apart any two emails whose lengths fit their prefixes, well formed or not |
| `WireTheorems.EncodingAcceptedIff` | src/transaction/deserialize.c:56-147 | A written email is accepted exactly when it is well formed and fits the cap |
| `WireTheorems.LeftmostFailure` | src/transaction/deserialize.c:63-146 | The input splits into well-formed parts and a rest that does not begin with the next part; how many parts there are fixes the status, each with its own error |
| `WireTheorems.EncodingErrorIff` | src/transaction/deserialize.c:91-109 | FIELD_ENCODING_ERROR exactly for a body within bounds that holds a forbidden byte, after four well-formed parts |
| `Layout.StatusIff` | src/transaction/deserialize.c:56-147 | Each of the nine statuses exactly for the byte strings that have, or lack, the right bytes at the right positions |
| `Layout.TextAtIff` | src/transaction/deserialize.c:37-54 | A text stands at a position exactly when the bytes from there on begin with a length-prefixed printable text within the bound |
| `Layout.HeaderLayout` | src/transaction/tx_types.h:15-18 | Challenge, from, to and subject stand at their positions, each text behind its length |
| `Layout.BodyLayout` | src/transaction/tx_types.h:19-20 | The body stands behind two bytes of value its length, high byte first, and before the attachment count |
| `Layout.FileLayout` | src/transaction/tx_types.h:21 | Name behind its length, four bytes of value the size, high byte first, then the hash |
| `Layout.CutRefused` | src/transaction/deserialize.c:63-143 | Every strict prefix of an encoded email is refused, with the status given by the byte position of the cut |
| `WireTheorems.ExtensionRefused` | src/transaction/deserialize.c:145-146 | Any bytes after a complete email give WRONG_LENGTH_ERROR |
| `WireTheorems.AcceptedPrefixFree` | src/transaction/deserialize.c:56-147 | No accepted payload is a strict prefix of another |
| `WireTheorems.AcceptanceArithmetic` | src/transaction/tx_types.h:28-36 | Without an attachment every well-formed email has at most 2526 bytes and is accepted; with one it is accepted exactly when its five texts have at most 2541 bytes |
| `WireTheorems.AcceptanceIsTight` | src/transaction/tx_types.h:28-36 | Both bounds are reached: 2526 accepted bytes, and a well-formed email of 2627 bytes that is refused |
| `Parser.IsTextOk` | src/transaction/deserialize.c:23-34 | The byte loop answers whether every byte is printable, newlines being allowed only on request |
| `Parser.ReadTextField` | src/transaction/deserialize.c:37-54 | Reads a length-prefixed text exactly as the specification, leaving the cursor after it and the pointer on it |
| `Parser.DeserializeBody` | src/transaction/deserialize.c:88-109 | The body stage: the body and the cursor after it, or the right one of its two errors |
| `Parser.DeserializeAttachment` | src/transaction/deserialize.c:111-143 | The attachment stage: none or one file with name, size and hash, or its error |
| `Parser.Deserialize` | src/transaction/deserialize.c:56-147 | On any buffer and offset the status is the specification's; on success every field points at its bytes in the buffer and the cursor is at the end |
| `Printer.Serialize` | src/transaction/serialize.c:25-79 | -1 exactly when the full encoding exceeds the capacity; whatever the record points into, bytes past the written ones are unchanged, and those are the encoding on success and its head on a late failure, provided no field lies in the output before the place it is copied to |
| `RoundTrip.Parse` | src/transaction/deserialize.c:56-147 | Parsing a buffer from its start gives the status of its bytes and a record that stands for the decoded email |
| `RoundTrip.PrintParsed` | unit-tests/test_tx_parser.c:105-118 | Printing what was parsed reproduces the payload byte for byte and touches nothing after it |
| `RoundTrip.ParsePrinted` | src/transaction/serialize.c:25-79 | Parsing what was printed gives the same email back, a nonzero has_attachment becoming 1 |
| `Screen.DecimalReadsBack` | src/ui/nbgl_display_transaction.c:93 | The digits shown for the attachment size stand for that size |
| `Screen.HexReadsBack` | src/ui/nbgl_display_transaction.c:74-96 | The hexadecimal digits shown stand for the bytes |
| `Screen.AttachmentLineReadsBack` | src/ui/nbgl_display_transaction.c:93 | "name (N bytes)", taken apart at its last bracket, gives name and size back, even when the name itself contains such text |
| `Screen.ScreenLines` | src/ui/nbgl_display_transaction.c:78-104 | Under each tag stands its own field, and the tags are in the order of the list |
| `Screen.ScreenReadsBack` | src/ui/nbgl_display_transaction.c:60-109 | A reader who finds each line by its tag reads exactly the email that is shown |
| `Screen.ScreenInjective` | src/ui/nbgl_display_transaction.c:60-109 | Two emails with the same tag/value list are the same email |
| `Screen.ScreenDeterminesPayload` | src/ui/nbgl_display_transaction.c:60-109 | Two accepted payloads with the same screen are equal byte for byte |
| `Display.CopyField` | src/ui/nbgl_display_transaction.c:42-47 | The buffer is the bounded copy padded with NULs, and a NUL-free text that fits is read back whole as a C string |
| `Display.AttachmentLineFits` | src/ui/nbgl_display_transaction.c:34 | The attachment line of any name and any 32-bit size fits its 104 bytes |
| `Display.FormatHex` | src/ui/nbgl_display_transaction.c:74-76 | -1 exactly when the digits and the NUL do not fit; otherwise the buffer reads as the hexadecimal digits |
| `Display.Ui.SetPairs` | src/ui/nbgl_display_transaction.c:78-104 | The list holds five or seven lines in order and never exceeds its seven slots |
| `Display.Ui.ShowEmail` | src/ui/nbgl_display_transaction.c:66-118 | For a well-formed email the lines that the review reads as C strings are its screen, nothing cut and nothing missing, and reading them by their tags gives the email back |
| `Runs.AccumulatorInvariant` | src/handler/sign_tx.c:79-112 | After any events the accumulated bytes are the chunks kept since chunk 0, in order, at most 2600, under the path that chunk left; no session means no bytes |
| `Runs.RefusedChunkKeepsContext` | src/handler/sign_tx.c:100-106 | A chunk of the other command, or one that does not fit, is refused and changes nothing |
| `Runs.SignatureCoversScreen` | src/ui/action/validate.c:62-76 | Every signature of every run follows an approving choice on the review just shown; the email read from that screen by its tags is well formed, is encoded by the kept chunks, and has its digest signed under the session's path |
| `Runs.ReviewIsAnsweredOnce` | src/ui/action/validate.c:62-76 | A review is followed by one answer: a refusal gives SWO_CONDITIONS_NOT_SATISFIED, a failing signing call SWO_SECURITY_ISSUE, both with the state reset; approval gives the signature and the approved state; nothing else changes |
| `Runs.DisarmedStep` | src/ui/nbgl_display_transaction.c:61-64 | Only a SIGN_TX chunk 0 arms the context; a review needs an armed context and disarms it, and so do GET_PUBLIC_KEY and a token chunk 0 |
| `Runs.DisarmedStays` | src/ui/nbgl_display_transaction.c:61-64 | From a disarmed state no events without a SIGN_TX chunk 0 open an email review |
| `Runs.SessionIsolation` | src/handler/sign_tx.c:144-190 | After a token chunk 0, a GET_PUBLIC_KEY or a review, the next email review comes after a fresh SIGN_TX chunk 0 |
| `Runs.FirstReviewNeedsOpen` | src/app_main.c:57-58 | From the start, no email review comes before a SIGN_TX chunk 0 |
| `Runs.OneSignaturePerSession` | src/handler/sign_tx.c:144-190 | Between two signatures of a run there is a SIGN_TX chunk 0 |
| `Runs.DigestStable` | src/handler/sign_tx.c:114-142 | Once the bytes have parsed, later chunks of the session neither parse again nor change the digest or the path |
| `Runs.OpenForgets` | src/handler/sign_tx.c:79-90 | After a chunk 0 or a GET_PUBLIC_KEY, states and responses do not depend on anything before it |
| `Runs.PackedPathLayout` | tests/application_client/boilerplate_command_sender.py:99-105 | A packed path is its word count and then four bytes per word, high byte first |
| `Runs.PathOfBytes` | src/handler/sign_tx.c:84-87 | What any chunk 0 leaves as path, byte by byte; missing words are zero |
| `Runs.PathOkIff` | src/handler/sign_tx.c:84-87 | Chunk 0 is answered with success exactly when its data begin with a packed path of one to ten words |
| `Runs.SignedPath` | src/handler/sign_tx.c:79-90 | Every signature is under what its session's chunk 0 left as path; that chunk was answered with success exactly when it carried a packed path, and then it is that path |
| `Runs.RefusedStartStillSigns` | src/handler/sign_tx.c:80-87 | A refused chunk 0 still opens the session: the email that follows it is shown and signed |
| `Runs.Stuttering` | src/apdu/dispatcher.c:36-118 | Deleting all commands that the dispatcher refuses or answers with a constant leaves a legal run with the same end state and the same other outputs |
| `Runs.ResponseConservation` | src/app_main.c:71-99 | In every run the commands received are the replies sent plus the one owed by a pending review |
| `StatusWords.RefusalIff` | src/apdu/dispatcher.c:36-118 | Wrong class, unknown instruction, wrong P1 or P2 and a refused token each exactly for their commands; bytes that are no command are refused for their length |
| `StatusWords.WrongLengthIff` | src/apdu/dispatcher.c:66-89 | SWO_WRONG_DATA_LENGTH exactly for missing data, a missing path, and a chunk that does not fit |
| `StatusWords.SuccessIff` | src/handler/sign_tx.c:144-160 | SWO_SUCCESS exactly for a chunk 0 with a path, a kept chunk with more to come, and a taken token |
| `StatusWords.PayloadIff` | src/handler/sign_tx.c:114-192 | The email review, SWO_CONDITIONS_NOT_SATISFIED and SWO_INCORRECT_DATA exactly for their last chunks, chunks of another session and addresses that cannot be shown; the review reads as the accumulated email |
| `StatusWords.KeyIff` | src/handler/get_public_key.c:36-71 | Key, address review and derivation error exactly for their GET_PUBLIC_KEY commands; no command is answered by a signature |
| `StatusWords.ContextAfter` | src/handler/sign_tx.c:79-142 | What each command does to the context, and that no other command touches it |
| `Keys.KeyReleasedIff` | src/handler/get_public_key.c:66-70 | In every run a key is sent exactly for a command with P1 = 0 and for an approving choice right after a command with P1 = 1 whose address was shown; the host unpacks that command's key and chain code |
| `Keys.AddressIsAnsweredOnce` | src/ui/action/validate.c:28-34 | An address review is followed by one answer: the key, or SWO_CONDITIONS_NOT_SATISFIED and no key |
| `Keys.RequestKey` | tests/application_client/boilerplate_command_sender.py:76-94 | On a live device, with or without confirmation, the host gets the derived key or the exact refusal |
| `Firmware.ReadBip32Path` | src/handler/sign_tx.c:84-87 | Reads one to ten big-endian words; success exactly when all are there, and the words before a missing one are stored |
| `Firmware.App.ReadPath` | src/handler/get_public_key.c:41-44 | Length and words read from the command leave in the wiped context the path of the specification, and succeed exactly when it is complete |
| `Firmware.App.InitTransactionContext` | src/handler/sign_tx.c:79-90 | Wipes the context, sets the request type, then reads the path; the status says whether that succeeded |
| `Firmware.App.AccumulateTransactionData` | src/handler/sign_tx.c:100-112 | Appends the chunk to the 2600-byte buffer, or refuses it and changes nothing |
| `Firmware.App.ProcessTransaction` | src/handler/sign_tx.c:114-142 | Parses the accumulated bytes in place and hashes them; on success the record stands for their email |
| `Firmware.App.DisplayTransaction` | src/ui/nbgl_display_transaction.c:60-119 | Refuses any other request type or state; otherwise opens the review with the screen of the accumulated email |
| `Firmware.App.HandlerSignTx` | src/handler/sign_tx.c:144-192 | The whole handler does the session step, from any context |
| `Firmware.App.HandlerGetPublicKey` | src/handler/get_public_key.c:36-71 | Wipes the context whatever the outcome, so any signing session is closed, then sends the key without display and asks for the address review with it |
| `Firmware.App.SendResponseSig` | src/helper/send_reponse.c:43-53 | The reply is length, signature and v |
| `Firmware.App.SendResponsePubkey` | src/helper/send_reponse.c:29-41 | The reply is both lengths and both values |
| `Firmware.App.ValidateTransaction` | src/ui/action/validate.c:62-76 | Approve, approve with a failing signature and reject each lead to their state and reply |
| `Firmware.App.Dispatcher` | src/apdu/dispatcher.c:36-118 | One command extends the history of the object by one legal step with that step's output |
| `Firmware.App.Answer` | src/ui/nbgl_display_transaction.c:50-57 | The answer to the pending review extends the history by one legal step with that step's output |
| `Firmware.AppMain` | src/app_main.c:40-100 | On any legal sequence of events the outputs are those of the run, and each signature signs what was shown just before it, a screen that some well-formed email has |
| `Host.PayloadHeader` | tests/application_client/email_payload.py:47-70 | The encoder writes challenge, sender, recipient and subject at their positions, character by character |
| `Host.PayloadTail` | tests/application_client/email_payload.py:36-74 | The two bytes before the body have its length as value, the four after the attachment name its size, high byte first; then the hash |
| `Host.HostDeviceAgreement` | tests/application_client/email_payload.py:62-74 | The device accepts a serialized email exactly when its text is printable, its attachment hash has 64 digits (blanks aside) and the whole fits the cap, and then decodes that email |
| `Host.TabRefused` | tests/application_client/email_payload.py:47-50 | An email that the encoder writes and the device refuses for a control character |
| `Host.ShortHashRefused` | tests/application_client/email_payload.py:36-44 | One that it refuses for the length of its attachment hash |
| `Host.LongRefused` | tests/application_client/email_payload.py:62-74 | One of 2627 bytes that meets every other condition and is refused for the cap |
| `Host.HexDigestAt` | tests/application_client/email_payload.py:32-34 | Byte i is written as its two lower-case digits, high one first |
| `Host.FromHexDigest` | tests/application_client/email_payload.py:32-44 | Reading a hexadecimal digest gives its bytes back |
| `Host.AcceptedIsSerialized` | tests/application_client/email_payload.py:62-74 | Every accepted payload is what the encoder writes for the email it carries |
| `Host.ShownHexReadsBack` | src/ui/nbgl_display_transaction.c:74-96 | The hexadecimal text shown for the request id and the hash reads back as those bytes |
| `Host.SplitIsWhole` | tests/application_client/boilerplate_command_sender.py:53-54 | The chunks put together are the message |
| `Host.SplitAt` | tests/application_client/boilerplate_command_sender.py:53-54 | Chunk k is the slice of the message that starts at k times the chunk size |
| `Host.SplitFront` | tests/application_client/boilerplate_command_sender.py:53-54 | The first k chunks are the first k times the chunk size bytes of the message, or all of it |
| `Host.SplitFitsP1` | tests/application_client/boilerplate_command_sender.py:106-113 | A payload within the cap takes at most eleven chunks, below P1_MAX |
| `Host.HostCommandCount` | tests/application_client/boilerplate_command_sender.py:97-114 | One command for the path and one for each started 255 bytes, up to the one the device has no room for |
| `Host.HostCommandIs` | tests/application_client/boilerplate_command_sender.py:97-114 | Each command in the numbers of the protocol: class, instruction, P1 counting up, P2 0x80 but on the last, and its slice of the payload |
| `Host.UnpackPacked` | tests/application_client/boilerplate_response_unpacker.py:55-76 | Both replies byte by byte, and the unpackers undo them |
| `EndToEnd.ChunkingIndependence` | src/handler/sign_tx.c:144-190 | In a session of either signing command, any two cuts of the same bytes, with any chunk numbers, end in the same context and the same response |
| `EndToEnd.FinishAccepted` | src/ui/nbgl_display_transaction.c:60-64 | A payload that parses and is hashed opens the review in an email session; in a token session it is refused and the state reset |
| `EndToEnd.FinishRefused` | src/handler/sign_tx.c:124-139 | One that does not parse leaves the context alone; a failing hash leaves it parsed with no review; both answer SWO_INCORRECT_DATA |
| `EndToEnd.HostRun` | tests/application_client/boilerplate_command_sender.py:97-114 | From any idle state, for either signing command and any payload, all the host's commands but the last are acknowledged; the last meets the whole payload in a fresh session, or is refused for its length when the payload exceeds 2600 bytes |
| `EndToEnd.EndToEndSignature` | tests/application_client/boilerplate_command_sender.py:97-114 | For every printable email within the cap, from every idle state, the screen reads as that email and after approval the host unpacks the signature of the digest of what it serialized |
| `EndToEnd.SignTransaction` | tests/application_client/boilerplate_command_sender.py:97-114 | For either signing command and any payload the device receives exactly the host's commands, with their outcome; an exchange raises exactly for the empty payload and for one above 2805 bytes |
| `EndToEnd.SignEmail` | tests/standalone/test_sign_cmd.py:48-125 | On a live device an encodable email is shown, and reads as itself, exactly when it is printable, fits the cap and is hashed, and is refused with its status otherwise; rejection, a failing signature and approval each give their reply and state, and only the last a signature, that of the digest of the serialized bytes |

## Left out

- Swap (`src/swap`, `check_and_sign_swap_tx`): not enabled in this application, and written for fields the email no longer has.
- Tokens (`src/token`, `src/handler/provide_token_info.c`): only that the command leaves the signing context alone; its verdict comes with the event.
- Key derivation, point compression, address computation, SHA-256 and Ed25519 themselves.
- The contents of the version and name replies, the menu, page layout, the address shown for a public key, and NBGL rendering beyond the strings handed to it.
- NVM settings, transport failures (a failing send ends `app_main`), and the numeric values of the status words.
- The union of `pk_info` and `tx_info`: the class keeps both. Every path between the two wipes the context, and the accumulated length is zero after it.
- Commands that arrive while a review is pending.
- The memo helpers, the fuzzing target and the inherited transaction documents, which do not concern the email format.
- Printer.Serialize: which bytes result when a field lies in the output before the place it is copied to; the source has then overwritten it already.
- Firmware.App.ValidateTransaction: the signature buffer after a failed signing call is not specified; nothing reads it.
- Host.UnpackPacked: only responses that the device packs; what the unpackers make of truncated responses is modelled but not characterised.
