# Verified models of go-kerberos

This project models the parts of a pure Go Kerberos implementation that carry the most state and arithmetic, and
proves what they promise:

- the schema-driven DER codec (`Der*.dfy`);
- GSS per-message tokens, their scatter/gather form and two contexts over a hostile network (`Gss*.dfy`);
- the iprop update log, its XDR codec and a polling replica (`Xdr*.dfy`, `Ulog*.dfy`, `Replica*.dfy`);
- FILE credential caches, the KCM daemon and its client (`Credentials.dfy`, `Ccache*.dfy`, `MatchCredential.dfy`,
  `Kcm*.dfy`);
- n-fold (`NFold*.dfy`);
- the AP replay cache, IAKERB, TGS referral chasing and realm paths (`ReplayCache.dfy`, `Iakerb*.dfy`, `Tgs.dfy`,
  `RealmPath.dfy`);
- preauthentication reordering (`Padata.dfy`).

`dafny verify dfyconfig.toml` checks everything. `Bytes.dfy`, `Wire.dfy` and `Arithmetic.dfy` hold what the others share:
octets as integers from 0 to 255, fixed-width integers, cursors over big-endian data, quotients and remainders.

Each operation appears twice where the source works by changing things: as a function that says what it computes, and as
a method with the source's loops, buffers and fields whose postcondition is that function. The theorems are about the
functions. Errors are `None` or an error constructor.

What lies outside is a parameter. Encryption and checksums are functions with three laws (decryption undoes encryption
under the same key, usage and associated data; a ciphertext is 16 octets of confounder, the plaintext and a checksum
long; all checksums of a context have one size below 2^16); nothing assumes that checksums never collide, and theorems that need it for a particular pair say so. Clocks,
random numbers, KDC replies, name parsing, case folding, map iteration order and persistence are functions or arguments
that the theorems quantify over.

## Findings

Some promises turned out to hold only under a condition. Each item names the lemma that gives the exact condition and,
where there is one, a lemma with a failing input.

- An optional OCTET STRING that is present and empty decodes like an absent one (`EmptyOctetsCollide`); re-encoding gives
  the input back exactly when this does not occur and every absent field can be nil (`Uniqueness`).
- A failed `UnwrapIOV` consumes a sequence number exactly when the token was valid but the DATA buffers do not take the
  plaintext (`RejectedButCounted`, `CountedButRejected`).
- The XDR writer pads the whole buffer while the reader pads the item; they agree exactly on aligned buffers
  (`OpaqueNeedsAlignment`). Every message that the writer makes keeps the buffer aligned.
- An add to the update log that skips serials can bring a dropped entry back (`GapReturnsDropped`). The ring then still
  answers like an unbounded log exactly when no block of a skipped serial answers for it (`GapExact`), and its header
  counts its window exactly when the ring was full or one short of it (`GapCount`).
- Asked for what follows the greatest serial, the update log starts over at zero: it answers with nothing, as it should,
  exactly when no block answers for any serial up to the last one (`AfterGreatest`, `GreatestReturnsOld`).
- The search for entries ends exactly when the last serial is below the greatest one or some block is damaged
  (`EndsExactly`); in a new log whose cursor is set to the greatest serial it has no end (`EndlessLog`).
- The iprop server reads its last serial and its entries in two steps; what is logged in between is applied by the
  replica although the new cursor does not cover it (`OutrunsCursor`). The database is that of the cursor exactly when the
  last thing logged in between for each key is what the key already had (`Converges`).
- REPLACE sets the time offset and INITIALIZE clears it, so the two ways of writing a cache leave equal namespaces exactly
  when the offset is zero (`WritesAgree`); and the frame limit stops the newer way of reading before the older one
  (`ReadsAgree`, `ListOutgrowsFrame`).
- GEN_NEW makes a new cache unless a client has made one under the generated name (`GenNewIsNew`, `GenNewCollides`).
- A match credential loses its key exactly when its enctype is zero (`MatchRoundTrip`), and the ccache reader refuses
  exactly those written files that are over 64 MiB (`CacheRoundTrip`).
- Initial tokens and proxy tokens can be taken apart again exactly when their content is shorter than 65536 octets
  (`FrameBack`); so an IAKERB exchange without errors is established exactly when its AP token is that short
  (`FinishedVerifies`).
- A framed content that ends right after the mechanism, or one octet later, makes the unframing slice past the end,
  except when the memory after the token shows another token identifier, and nothing else does (`UnframeExact`, `BareMechanism`).
- The replay cache accepts an authenticator twice when the clock goes back after a sweep (`BackwardClock`). It decides
  like a cache that never forgets exactly when no key that a sweep dropped is presented again within the window
  (`LazyExact`).
- Folding to a number of bits that is not a multiple of eight puts the end-around carry in the wrong place
  (`NibbleCarry`). The result is right exactly when the carries together take away a multiple of the modulus of its octets
  (`FoldExact`): always for whole octets or without a carry (`CancelWhen`), and never when there is a carry and the chunks
  add up to at most that modulus (`FewCarries`).

## Model

| member | source | states |
|---|---|---|
| DerTlv.ReadsEncodedLength | krb5/asn1/asn1.go:605-651 | a length that can be encoded is read back, with its size, whatever follows |
| DerTlv.EncodesReadLength | krb5/asn1/asn1.go:605-651 | a length that is accepted is the one encoding of its value: minimal form only |
| DerTlv.ReadsEncodedTLV | krb5/asn1/asn1.go:588-636 | an encoded element is read back with tag, content and end, whatever follows |
| DerTlv.EncodesReadTLV | krb5/asn1/asn1.go:588-636 | an accepted element is exactly the encoding of its tag and content |
| DerTlv.IntBytesDenote | krb5/asn1/asn1.go:653-672 | the shortest two's-complement octets of a number denote it and are minimal |
| DerTlv.IntBytesUnique | krb5/asn1/asn1.go:691-707 | minimal octets are the encoding of the number they denote |
| DerTlv.IntBytesCount | krb5/asn1/asn1.go:653-672 | a number takes at most k octets exactly when it is in the k-octet range |
| DerTlv.DecodeIntegerExact | krb5/asn1/asn1.go:691-707 | decodeInteger gives n exactly for the one encoding of an n that fits 64 bits |
| DerTlv.DecodeUnsignedExact | krb5/asn1/asn1.go:709-727 | decodeUnsignedInteger gives n exactly for the one encoding of an n below 2^32 |
| DerTheorems.RoundTrip | krb5/asn1/asn1.go:38-48 | decoding an encoding gives the normal form of the value, consuming every octet, or fails exactly beyond the decoder's limits; it gives the value itself exactly when that is in normal form |
| DerTheorems.DecodeOfEncode | krb5/asn1/asn1.go:173-351 | the same for a value at any depth of nesting, in the encoder and in the decoder |
| DerTheorems.DecodeOfEncodeFields | krb5/asn1/asn1.go:270-308 | the same for the fields of a struct, with optional fields left out and skipped |
| DerTheorems.DecodeOfEncodeItems | krb5/asn1/asn1.go:203-268 | the same for the elements of a SEQUENCE OF |
| DerTheorems.Uniqueness | krb5/asn1/asn1.go:76-97 | re-encoding a decoded value gives the input back exactly when no optional OCTET STRING is present and empty and every absent field can be nil |
| DerTheorems.EncodeOfDecode | krb5/asn1/asn1.go:310-473 | the same at any depth of nesting, the encoder being no deeper than the decoder |
| DerTheorems.EncodeOfDecodeFields | krb5/asn1/asn1.go:475-560 | the same for the fields of a struct, by the skip rule |
| DerTheorems.LosslessFaithful | krb5/asn1/asn1.go:475-560 | for schemas without optional OCTET STRINGs and with nil for every optional type all accepted input qualifies |
| DerTheorems.DecodeInjective | krb5/asn1/asn1.go:76-97 | for such schemas no two inputs decode to the same value |
| DerTheorems.EmptyOctetsCollide | krb5/asn1/asn1.go:475-560 | two inputs that decode to the same value with an optional OCTET STRING |
| DerMethods.EncodeLengthLoop | krb5/asn1/asn1.go:638-651 | the loop over a four-octet buffer yields the minimal length |
| DerMethods.ReadLengthLoop | krb5/asn1/asn1.go:605-627 | the loop that shifts octets together reads it |
| DerMethods.EncodeIntegerLoop | krb5/asn1/asn1.go:653-672 | filling eight octets and dropping redundant ones yields the shortest two's complement |
| DerMethods.EncodeUnsignedIntegerLoop | krb5/asn1/asn1.go:674-689 | the unsigned form, which refuses values of 2^63 and above |
| DerMethods.DecodeIntegerLoop | krb5/asn1/asn1.go:691-707 | the wrapping 64-bit loop decodes exactly the minimal octets |
| DerMethods.DecodeUnsignedIntegerLoop | krb5/asn1/asn1.go:709-727 | the unsigned form decodes exactly values below 2^32 |
| DerMethods.EncodeValueRun | krb5/asn1/asn1.go:173-201 | encodeValue computes the encoding |
| DerMethods.EncodeBareRun | krb5/asn1/asn1.go:203-268 | encodeBare computes the encoding |
| DerMethods.EncodeItemsLoop | krb5/asn1/asn1.go:203-268 | the element loop appends the encodings in order |
| DerMethods.EncodeFieldsLoop | krb5/asn1/asn1.go:270-308 | the field loop leaves out nil optional fields |
| DerMethods.DecodeValueRun | krb5/asn1/asn1.go:310-351 | decodeValue computes the decoding |
| DerMethods.DecodeBareRun | krb5/asn1/asn1.go:353-473 | decodeBare computes the decoding |
| DerMethods.DecodeItemsLoop | krb5/asn1/asn1.go:353-473 | the element loop consumes the content |
| DerMethods.DecodeFieldsLoop | krb5/asn1/asn1.go:475-560 | the position cursor skips absent optional fields and refuses what is left over |
| GssToken.UnwrapOfWrap | krb5/gssapi/gssapi.go:676-801 | unwrapping a wrap token, rotated by any RRC, gives the data exactly at the peer that expects its sequence number, and nothing elsewhere |
| GssToken.RotationUndone | krb5/gssapi/gssapi.go:1113-1119 | rotating left undoes rotating right by the same count |
| GssToken.VerifyOfMic | krb5/gssapi/gssapi.go:803-866 | a MIC verifies exactly at the peer that expects it, for data with the same checksum |
| GssToken.KindsDisjoint | krb5/gssapi/gssapi.go:1103-1111 | no wrap token verifies as a MIC and no MIC unwraps, at any context |
| GssNetwork.AcceptedIffNext | krb5/gssapi/gssapi.go:736-886 | a delivered token is accepted exactly if it is the peer's next one for this kind of call |
| GssNetwork.AcceptedArePrefix | krb5/gssapi/gssapi.go:676-886 | over a network that replays, reorders, drops and reflects, what each side accepted is always a prefix of what the peer sent |
| GssNetwork.NextIsAccepted | krb5/gssapi/gssapi.go:676-886 | and the peer's next token is accepted whenever it is delivered |
| GssIovTheorems.IovRoundTrip | krb5/gssapi/iov.go:108-415 | UnwrapIOV after WrapIOV restores every DATA fragment at its length, for any fragmentation, sealed or not, with SIGN_ONLY and DCE |
| GssIovTheorems.IovIsFlatToken | krb5/gssapi/iov.go:108-185 | outside DCE and SIGN_ONLY the HEADER, DATA and TRAILER buffers are the flat wrap token |
| GssIovTheorems.StreamRoundTrip | krb5/gssapi/iov.go:235-415 | a STREAM buffer with a flat token unwraps to its data |
| GssIovTheorems.WrapLeaves | krb5/gssapi/iov.go:138-185 | what WrapIOV leaves: header, dealt payload and trailer of the token, an empty padding, and all other buffers and lengths as they were |
| GssContext.ParseIOV | krb5/gssapi/iov.go:427-477 | succeeds exactly when every type is known and only DATA and SIGN_ONLY occur more than once, and finds every position |
| GssContext.ConcatBuffers | krb5/gssapi/iov.go:479-489 | the contents of one type in order |
| GssContext.OrderedBuffers | krb5/gssapi/iov.go:491-503 | DATA and SIGN_ONLY contents in the caller's order |
| GssContext.OrderedBuffersWithData | krb5/gssapi/iov.go:505-527 | the same with the DATA contents taken from the plaintext |
| GssContext.SetOutput | krb5/gssapi/iov.go:539-550 | fills exactly one buffer, if it is nil or large enough |
| GssContext.DistributeIOV | krb5/gssapi/iov.go:577-603 | deals a value out over the DATA buffers at their sizes, or fails exactly when it does not fit, and then what it has overwritten |
| GssContext.StoreIOV | krb5/gssapi/iov.go:138-185 | HEADER, DATA, TRAILER and PADDING after a wrap, or what is left when one of them does not fit |
| GssContext.JoinBuffers | krb5/gssapi/iov.go:361-378 | the header of 16 octets and then data, padding and trailer in order, or nothing for a shorter header |
| GssContext.Context.TakeSequence | krb5/gssapi/gssapi.go:676-730 | the number to send under, and the 64-bit counter after it |
| GssContext.Context.HeaderFlags | krb5/gssapi/gssapi.go:676-730 | the flag octet for role, subkey and sealing |
| GssIovTheorems.RejectedButCounted | krb5/gssapi/iov.go:235-415 | UnwrapIOV fails and still advances the sequence exactly for a valid token whose plaintext the DATA buffers do not take; any failure without a valid token leaves the buffers alone |
| GssIovTheorems.CountedButRejected | krb5/gssapi/iov.go:235-415 | such a failure: the peer's next token with its data in the PADDING buffer |
| GssContext.Context.Wrap | krb5/gssapi/gssapi.go:676-730 | the wrap token, and the sequence number goes up by one |
| GssContext.Context.CheckIncoming | krb5/gssapi/gssapi.go:1103-1111 | accepts exactly the identifier, filler, direction and sequence number that are expected |
| GssContext.Context.ValidateIncoming | krb5/gssapi/gssapi.go:868-886 | the same without the identifier |
| GssContext.Context.UnwrapMessage | krb5/gssapi/gssapi.go:736-801 | header, rotation, then the sealed or the clear branch; the expected sequence number changes exactly on success |
| GssContext.Context.Unwrap | krb5/gssapi/gssapi.go:732-734 | the same with the context's DCE setting |
| GssContext.Context.MIC | krb5/gssapi/gssapi.go:803-831 | the MIC token, and the sequence number goes up by one |
| GssContext.Context.VerifyMIC | krb5/gssapi/gssapi.go:833-866 | the decision; the expected sequence number changes exactly on success |
| GssContext.Context.WrapDCE | krb5/gssapi/iov.go:205-233 | the DCE token with an extra count of 16 |
| GssContext.Context.MakeIovToken | krb5/gssapi/iov.go:125-137 | the token of a buffer list, by wrap, wrapDCE or with associated data |
| GssContext.Context.WrapIOV | krb5/gssapi/iov.go:101-185 | the buffers after wrapping, what a failure leaves in them, and when it has used up a sequence number |
| GssContext.Context.UnwrapStream | krb5/gssapi/iov.go:235-415 | the STREAM path of UnwrapIOV, which changes nothing when it fails |
| GssContext.Context.UnwrapPlain | krb5/gssapi/iov.go:379-409 | the plaintext without associated data: rotation, DCE filler and unwrapping |
| GssContext.Context.OpenAssociated | krb5/gssapi/iov.go:252-359 | the plaintext with associated data; the sequence number is not touched yet |
| GssContext.Context.OpenAssociatedSealed | krb5/gssapi/iov.go:268-322 | the sealed branch of it |
| GssContext.Context.OpenAssociatedClear | krb5/gssapi/iov.go:327-354 | the clear branch of it |
| GssContext.Context.UnwrapBuffers | krb5/gssapi/iov.go:235-415 | the buffer path of UnwrapIOV, what a failure leaves in the buffers, and when the sequence advances |
| GssContext.Context.UnwrapIOV | krb5/gssapi/iov.go:235-415 | the buffers after unwrapping, what a failure leaves in them, and exactly when the sequence advances |
| XdrTheorems.UpdateBack | krb5/iprop/iprop.go:569-581 | an update decodes to itself with only the selected arms and leaves what follows untouched, or is refused exactly when a list is longer than 2^20 |
| XdrTheorems.UpdateRoundTrip | krb5/iprop/iprop.go:135-160 | UnmarshalUpdate gives the update itself exactly when its lists are short enough and only the arm of its type is set in each value |
| XdrTheorems.ArmBack | krb5/iprop/iprop.go:732-807 | each union arm decodes to the value with that arm |
| XdrTheorems.ModerateIsFine | krb5/iprop/iprop.go:673-862 | an update of at most 2^20 octets is within all limits |
| XdrTheorems.OpaqueNeedsAlignment | krb5/iprop/iprop.go:494-500 | what the writer appends is what the reader takes off exactly when the buffer was aligned |
| XdrMethods.Writer.U32 | krb5/iprop/iprop.go:480-484 | appends the four octets |
| XdrMethods.Writer.I32 | krb5/iprop/iprop.go:485-485 | the same for a signed number |
| XdrMethods.Writer.I16 | krb5/iprop/iprop.go:486-486 | the same for a 16-bit number |
| XdrMethods.Writer.Boolean | krb5/iprop/iprop.go:487-493 | the same for a boolean |
| XdrMethods.Writer.Opaque | krb5/iprop/iprop.go:494-500 | the padding loop pads the whole buffer; from an aligned one that is the item's padding |
| XdrMethods.Writer.WriteTime | krb5/iprop/iprop.go:503-503 | appends the time and keeps alignment |
| XdrMethods.Writer.WritePrincipal | krb5/iprop/iprop.go:504-512 | appends the layout and keeps alignment |
| XdrMethods.Writer.WriteNumbers | krb5/iprop/iprop.go:516-519 | appends the counted numbers and keeps alignment |
| XdrMethods.Writer.WriteOpaques | krb5/iprop/iprop.go:520-523 | appends the counted items and keeps alignment |
| XdrMethods.Writer.WriteKey | krb5/iprop/iprop.go:513-524 | appends the layout and keeps alignment |
| XdrMethods.Writer.WriteKeys | krb5/iprop/iprop.go:532-536 | appends the counted keys and keeps alignment |
| XdrMethods.Writer.WriteHistory | krb5/iprop/iprop.go:537-544 | appends the nested lists and keeps alignment |
| XdrMethods.Writer.WriteTLs | krb5/iprop/iprop.go:545-550 | appends the list and keeps alignment |
| XdrMethods.Writer.WriteValue | krb5/iprop/iprop.go:525-562 | appends the arm of the type and keeps alignment |
| XdrMethods.Writer.WriteEntry | krb5/iprop/iprop.go:563-568 | appends the attributes and keeps alignment |
| XdrMethods.Writer.WriteChange | krb5/iprop/iprop.go:569-573 | appends the first half of an update and keeps alignment |
| XdrMethods.Writer.WriteMeta | krb5/iprop/iprop.go:574-581 | appends the second half and keeps alignment |
| XdrMethods.Writer.WriteUpdate | krb5/iprop/iprop.go:569-581 | appends the update and keeps alignment |
| XdrMethods.MarshalUpdate | krb5/iprop/iprop.go:135-140 | the encoding of an update |
| XdrMethods.Reader.TakeBytes | krb5/iprop/iprop.go:600-607 | takes exactly so many octets off, or fails when there are fewer |
| XdrMethods.Reader.U32 | krb5/iprop/iprop.go:608-614 | takes a number off |
| XdrMethods.Reader.I32 | krb5/iprop/iprop.go:615-615 | takes a signed number off |
| XdrMethods.Reader.I16 | krb5/iprop/iprop.go:616-625 | takes a 16-bit number off, or fails when it is out of range |
| XdrMethods.Reader.Boolean | krb5/iprop/iprop.go:626-635 | takes zero or one off, and nothing else |
| XdrMethods.Reader.Opaque | krb5/iprop/iprop.go:636-650 | takes the item and its padding off |
| XdrMethods.Reader.ReadTime | krb5/iprop/iprop.go:665-672 | reads a time |
| XdrMethods.Reader.Count | krb5/iprop/iprop.go:673-697 | a count of at most 2^20 |
| XdrMethods.Reader.ReadDatas | krb5/iprop/iprop.go:673-697 | the loop over components |
| XdrMethods.Reader.ReadPrincipal | krb5/iprop/iprop.go:673-697 | reads what the layout says and advances past it |
| XdrMethods.Reader.ReadNumbers | krb5/iprop/iprop.go:698-731 | the loop over enctypes |
| XdrMethods.Reader.ReadOpaques | krb5/iprop/iprop.go:698-731 | the loop over contents |
| XdrMethods.Reader.ReadKey | krb5/iprop/iprop.go:698-731 | reads what the layout says and advances past it |
| XdrMethods.Reader.ReadKeys | krb5/iprop/iprop.go:743-753 | the loop over keys |
| XdrMethods.Reader.ReadHistory | krb5/iprop/iprop.go:754-780 | reads the nested lists |
| XdrMethods.Reader.ReadTLs | krb5/iprop/iprop.go:781-794 | reads the list |
| XdrMethods.Reader.ReadArm | krb5/iprop/iprop.go:738-806 | reads the arm of the type |
| XdrMethods.Reader.ReadEntry | krb5/iprop/iprop.go:808-822 | reads the attributes |
| XdrMethods.Reader.ReadUpdate | krb5/iprop/iprop.go:823-862 | reads an update |
| XdrMethods.ParseUpdate | krb5/iprop/iprop.go:142-160 | one update and nothing after it |
| Ulog.HeaderBack | krb5/iprop/ulog.go:325-360 | a header that was written is read back, if it is one readHeader accepts |
| Ulog.EntryBlockBack | krb5/iprop/ulog.go:156-173 | a written block answers for its own serial with the update, and for no other serial |
| Ulog.MarkerBlockBack | krb5/iprop/ulog.go:289-323 | a marker is never an entry, whatever serial is asked for |
| UlogTheorems.AddInv | krb5/iprop/ulog.go:142-197 | AddUpdate at a serial of the window or the next one keeps file and unbounded log in step |
| UlogTheorems.QuietInv | krb5/iprop/ulog.go:142-197 | an add that skips serials keeps it too, if no block of a skipped serial answers for it |
| UlogTheorems.NewHeader | krb5/iprop/ulog.go:174-195 | the header after it describes the new window and counts the serials used, up to the capacity |
| UlogTheorems.AddCrashInv | krb5/iprop/ulog.go:160-196 | so does stopping before the header write, with at most the one entry lost whose slot was taken |
| UlogTheorems.CursorInv | krb5/iprop/ulog.go:259-287 | SetCursor starts a new log |
| UlogTheorems.CursorCrashInv | krb5/iprop/ulog.go:259-287 | stopping before its header write loses at most the entry in the marker's slot |
| UlogTheorems.StepInv | krb5/iprop/ulog.go:142-345 | every operation, crash and reopening keeps the refinement, adds over a quiet gap included |
| UlogTheorems.RunInv | krb5/iprop/ulog.go:142-345 | so does every run |
| UlogTheorems.ReopenRestores | krb5/iprop/ulog.go:98-123 | opening a file again restores the header written last |
| UlogTheorems.GetEntriesIs | krb5/iprop/ulog.go:199-223 | GetEntries returns exactly the entries above both `after` and the last serial minus the capacity |
| UlogTheorems.EntriesExact | krb5/iprop/ulog.go:199-223 | these are all the entries of the unbounded log there, and nothing else |
| UlogTheorems.EntriesSorted | krb5/iprop/ulog.go:212-221 | in the order of their serials |
| UlogTheorems.RingRefinesLog | krb5/iprop/ulog.go:57-323 | after any run since Create the ring answers from the unbounded log, except about the greatest serial if a block answers for some serial; its header counts the serials used up to the capacity, which are those of its window exactly if none was skipped or the capacity is reached |
| UlogTheorems.CrashLosesOldest | krb5/iprop/ulog.go:160-196 | a log reopened between the two writes reports the previous window less the serial whose slot was taken |
| UlogTheorems.GapKeepsBlocks | krb5/iprop/ulog.go:142-197 | an add beyond the next serial leaves the blocks in between as they were |
| UlogTheorems.GapExact | krb5/iprop/ulog.go:142-223 | an add that skips serials succeeds and leaves a ring that answers from the unbounded log exactly when no block of a skipped serial answers for it |
| UlogTheorems.GapCount | krb5/iprop/ulog.go:174-195 | after a gap the header counts its window exactly when the ring was full or one short of it |
| UlogTheorems.AfterGreatest | krb5/iprop/ulog.go:199-223 | asked for what follows the greatest serial the log answers rightly exactly when no block answers for any serial |
| UlogTheorems.GreatestReturnsOld | krb5/iprop/ulog.go:199-223 | a log that then returns its one entry |
| UlogLoop.Settles | krb5/iprop/ulog.go:212-221 | with a last serial below the greatest one the loop ends with what is collected |
| UlogLoop.GoesRound | krb5/iprop/ulog.go:212-221 | otherwise it goes round all serials until it is stopped |
| UlogLoop.EndsExactly | krb5/iprop/ulog.go:199-223 | it ends, wherever it starts, exactly if the last serial is below the greatest one or some block is damaged |
| UlogLoop.LoopIsGetEntries | krb5/iprop/ulog.go:199-223 | and then with the result of GetEntries |
| UlogLoop.EndlessLog | krb5/iprop/ulog.go:199-287 | a new log whose cursor is set to the greatest serial: the loop is running after any number of turns |
| UlogTheorems.GapReturnsDropped | krb5/iprop/ulog.go:142-223 | a run in which a dropped entry comes back |
| UlogFile.CreateLog | krb5/iprop/ulog.go:57-86 | the file of a new log with 1000 entries by default, or an error exactly above 2^20 entries |
| UlogFile.UpdateLog.Open | krb5/iprop/ulog.go:98-123 | the header is restored from the file, or nothing changes |
| UlogFile.UpdateLog.ReadAt | krb5/iprop/ulog.go:298-323 | the entry and the time of a serial |
| UlogFile.UpdateLog.AddUpdate | krb5/iprop/ulog.go:142-197 | header, file header and blocks after an add, and the same after a failed one |
| UlogFile.UpdateLog.Advance | krb5/iprop/ulog.go:174-195 | the header fields it moves, and the one that a failure has moved |
| UlogFile.UpdateLog.GetEntries | krb5/iprop/ulog.go:199-223 | the loop over serials, with its 32-bit counter, collects what the log holds; called exactly where it ends |
| UlogFile.UpdateLog.SetCursor | krb5/iprop/ulog.go:259-287 | header, file header and marker |
| UlogFile.UpdateLog.Reset | krb5/iprop/ulog.go:234-254 | the same as a cursor of zero |
| Replica.ReplayAll | krb5/iprop/rpc.go:906-936 | replaying everything from the cursor gives the database of the whole log, however far earlier attempts got |
| Replica.NextInv | krb5/iprop/rpc.go:864-936 | every event leaves each key at its value at some serial from the cursor on |
| Replica.RunInv | krb5/iprop/rpc.go:864-936 | so does every run |
| Replica.RepliesRest | krb5/kdb/ulog.go:84-129 | the updates of an OK reply are exactly those after the cursor |
| Replica.Synchronizes | krb5/iprop/rpc.go:864-893 | a successful poll leaves the database of all that was logged when the master read its entries, and the cursor of when it read its last serial |
| Replica.FoldUnchanged | krb5/kdb/kdb.go:1083-1099 | applying updates changes nothing exactly when the last one for each key leaves what it had |
| Replica.Converges | krb5/iprop/rpc.go:864-936 | after any run of failing and succeeding polls, resets and resynchronizations a successful poll leaves the database of everything logged; it is the database of the new cursor exactly when the last thing logged for each key during the poll is what the key already had |
| Replica.OutrunsCursor | krb5/iprop/rpc.go:734-753 | a poll whose database is ahead of its cursor |
| Replica.NilIsSynchronized | krb5/kdb/ulog.go:84-129 | a replica that is told there is nothing new is up to date |
| ReplicaMethods.MasterLog.Append | krb5/kdb/ulog.go:131-157 | the log with the next serial and the retained end of it |
| ReplicaMethods.MasterLog.SetCapacity | krb5/kdb/ulog.go:42-57 | what stays retained |
| ReplicaMethods.MasterLog.Reset | krb5/kdb/ulog.go:61-69 | nothing is retained and the serial stays |
| ReplicaMethods.MasterLog.Find | krb5/kdb/ulog.go:84-129 | the first retained entry with a serial |
| ReplicaMethods.MasterLog.Entries | krb5/kdb/ulog.go:84-129 | the status and the updates for a cursor, by searching the retained entries |
| ReplicaMethods.Node.Apply | krb5/iprop/rpc.go:906-936 | the database after the updates before the first one that is refused |
| ReplicaMethods.Node.Record | krb5/iprop/rpc.go:883-889 | what the replica's own log holds after adding updates until one is refused |
| ReplicaMethods.Node.Poll | krb5/iprop/rpc.go:864-892 | what stays applied and logged when a poll fails, and that the cursor moves exactly when everything worked |
| ReplicaMethods.Node.SetCursor | krb5/iprop/rpc.go:895-904 | the cursor and the replica's log after a full resynchronization |
| ReplicaMethods.PollIsStep | krb5/iprop/rpc.go:864-892 | a poll against the master's answer is one of the events of the convergence theorem |
| Credentials.PrincipalBack | krb5/ccache/ccache.go:324-346 | a principal reads back whatever follows, so its count guard never refuses it |
| Credentials.PrincipalFront | krb5/ccache/ccache.go:152-181 | what is read as a principal is exactly its encoding |
| Credentials.ListBack | krb5/ccache/ccache.go:391-425 | addresses and authorization data read back |
| Credentials.ListFront | krb5/ccache/ccache.go:252-296 | what is read as such a list is exactly its encoding |
| Credentials.CredentialBack | krb5/ccache/ccache.go:348-389 | an encodable credential reads back whatever follows |
| Credentials.CredentialFront | krb5/ccache/ccache.go:183-250 | what is read as a credential is exactly its encoding, and can be encoded |
| Ccache.HeaderBack | krb5/ccache/ccache.go:298-322 | the header field that is written sets the same time offset |
| Ccache.CacheRoundTrip | krb5/ccache/ccache.go:62-146 | Write fails exactly for caches with a field out of range, and Read returns every written cache unless it is over 64 MiB |
| Ccache.ReadIsCanonical | krb5/ccache/ccache.go:62-146 | a readable file is the file of its cache except for the header fields; writing it again gives the same octets exactly when the header is the written one |
| CcacheMethods.Buffer.Counted | krb5/internal/binfmt/binfmt.go:108-116 | appends a counted field, or fails exactly when its length does not fit 32 bits |
| CcacheMethods.Buffer.Principal | krb5/ccache/ccache.go:324-346 | the component loop appends the encoding or stops at a field that is too long |
| CcacheMethods.Buffer.List | krb5/ccache/ccache.go:391-425 | the element loop appends the encoding or stops at a field that is too long |
| CcacheMethods.Buffer.Fixed | krb5/ccache/ccache.go:364-378 | the times, the is_skey octet and the flags |
| CcacheMethods.Buffer.Credential | krb5/ccache/ccache.go:348-389 | appends the encoding exactly for encodable credentials |
| CcacheMethods.WriteCache | krb5/ccache/ccache.go:108-146 | the file, or nothing if anything cannot be encoded |
| CcacheMethods.Decoder.Octets | krb5/internal/binfmt/binfmt.go:38-45 | takes exactly so many octets off, or fails when there are fewer |
| CcacheMethods.Decoder.U8 | krb5/internal/binfmt/binfmt.go:48-54 | takes an octet off |
| CcacheMethods.Decoder.U16 | krb5/internal/binfmt/binfmt.go:57-63 | takes a 16-bit number off |
| CcacheMethods.Decoder.U32 | krb5/internal/binfmt/binfmt.go:66-72 | takes a 32-bit number off |
| CcacheMethods.Decoder.Counted | krb5/internal/binfmt/binfmt.go:84-93 | takes a counted field off, or fails when it is cut short |
| CcacheMethods.Decoder.Principal | krb5/ccache/ccache.go:152-181 | reads what the layout says, with its count guard |
| CcacheMethods.Decoder.List | krb5/ccache/ccache.go:252-296 | reads what the layout says, with its count guard |
| CcacheMethods.Decoder.Fixed | krb5/ccache/ccache.go:200-217 | the loop over four times, then is_skey and flags |
| CcacheMethods.Decoder.Credential | krb5/ccache/ccache.go:183-250 | reads what the layout says |
| CcacheMethods.Decoder.AllCredentials | krb5/ccache/ccache.go:97-103 | credentials while anything is left |
| CcacheMethods.ParseHeader | krb5/ccache/ccache.go:298-322 | any tags, of which the last time offset counts |
| CcacheMethods.ReadCache | krb5/ccache/ccache.go:62-105 | the cache of a file |
| MatchCredential.MatchRoundTrip | krb5/ccache/kcm_wire.go:222-415 | a match credential reads back as itself exactly when it has an enctype or no key, and otherwise without the key |
| MatchCredential.PackBack | krb5/ccache/kcm_wire.go:83-93 | the header bits read back |
| KcmServer.MatchesItself | krb5/ccache/kcm_wire.go:425-494 | a credential matches itself under any flags |
| KcmServer.CStringBack | krb5/ccache/kcm_wire.go:417-423 | a name without zeros is split off again |
| KcmServer.UuidInjective | krb5/ccache/kcm_server.go:424-495 | different counters below 2^64 give different UUIDs |
| KcmServer.DispatchParallel | krb5/ccache/kcm_server.go:207-422 | no request gets credentials and their UUIDs out of step |
| KcmTheorems.DispatchInv | krb5/ccache/kcm_server.go:207-495 | every request keeps the two maps inverse to each other, the lists in step, all UUIDs issued and different, and everything readable |
| KcmTheorems.InitializeInv | krb5/ccache/kcm_server.go:268-279 | initializing keeps this |
| KcmTheorems.StoreInv | krb5/ccache/kcm_server.go:301-309 | storing keeps this |
| KcmTheorems.RemoveCredInv | krb5/ccache/kcm_server.go:368-396 | removing keeps this |
| KcmTheorems.ReplaceInv | krb5/ccache/kcm_server.go:438-487 | replacing keeps this |
| KcmTheorems.DestroyInv | krb5/ccache/kcm_server.go:280-288 | destroying keeps this |
| KcmTheorems.EnsureInv | krb5/ccache/kcm_server.go:424-436 | making a cache keeps this |
| KcmTheorems.KeptAre | krb5/ccache/kcm_server.go:379-390 | RemoveCred keeps only pairs of the cache that do not match |
| KcmTheorems.KeptExact | krb5/ccache/kcm_server.go:379-390 | and every such pair |
| KcmTheorems.RemovesItself | krb5/ccache/kcm_server.go:368-396 | removing a credential leaves no copy of it |
| KcmTheorems.DispatchOnlyNew | krb5/ccache/kcm_server.go:207-495 | a request brings only UUIDs of its own into use |
| KcmTheorems.RunInv | krb5/ccache/kcm_server.go:207-495 | the invariant holds in every run |
| KcmTheorems.NeverReissued | krb5/ccache/kcm_server.go:424-495 | in every run a UUID that is no longer in use is never used again |
| KcmRuns.DispatchNames | krb5/ccache/kcm_server.go:207-266 | a request brings only the name it gives, or generates from the counter, into use |
| KcmRuns.NamesTraced | krb5/ccache/kcm_server.go:207-495 | in every run a cache that was not there throughout was made by a request that names it and stayed, or has a name generated from a counter of this run |
| KcmRuns.GeneratedInjective | krb5/ccache/kcm_server.go:220-226 | different counters generate different names |
| KcmRuns.GenNewIsNew | krb5/ccache/kcm_server.go:220-226 | in every run GEN_NEW makes a new cache unless the generated name is in use, and then a request of the run made that cache under its name |
| KcmRuns.GenNewCollides | krb5/ccache/kcm_server.go:220-226 | after an INITIALIZE of the name generated next, GEN_NEW answers with that cache |
| KcmIsolation.OthersUnchanged | krb5/ccache/kcm_server.go:179-205 | a request changes no other user's namespace, unless the namespace is configured to be shared |
| KcmIsolation.Noninterference | krb5/ccache/kcm_server.go:179-422 | in every run without a shared namespace a user's replies and namespace are those of a daemon that serves this user alone |
| KcmIsolation.ServerRunSound | krb5/ccache/kcm_server.go:179-495 | every namespace of the daemon keeps its invariant |
| KcmMethods.SameComponents | krb5/ccache/kcm_wire.go:431-457 | the component loop decides equality |
| KcmMethods.SameAuthData | krb5/ccache/kcm_wire.go:483-492 | the authorization-data loop decides equality |
| KcmMethods.NamesMatch | krb5/ccache/kcm_wire.go:426-457 | the comparison of client and server |
| KcmMethods.CredentialMatches | krb5/ccache/kcm_wire.go:425-494 | the loops decide matching |
| KcmMethods.Chosen | krb5/ccache/kcm_server.go:381-387 | a stored credential is selected when it can be read and matches |
| KcmMethods.Compact | krb5/ccache/kcm_server.go:379-394 | the in-place compaction of the two arrays leaves the pairs that stay, in order |
| KcmMethods.FindUuid | krb5/ccache/kcm_server.go:333-339 | the first position of a UUID |
| KcmMethods.FirstMatch | krb5/ccache/kcm_server.go:361-367 | the first matching credential |
| KcmMethods.ListCreds | krb5/ccache/kcm_server.go:310-319 | the counted list of credentials |
| KcmMethods.Joined | krb5/ccache/kcm_server.go:320-327 | the UUIDs of a cache one after the other |
| KcmMethods.IssueUuids | krb5/ccache/kcm_server.go:477-480 | fresh UUIDs in the order of the counter |
| KcmMethods.ReplaceArguments | krb5/ccache/kcm_server.go:438-475 | the parsed arguments, or nothing if any credential is malformed |
| KcmMethods.Remove | krb5/ccache/kcm_server.go:368-396 | the namespace and reply of REMOVE_CRED |
| KcmMethods.Replaced | krb5/ccache/kcm_server.go:438-487 | the namespace and reply of REPLACE |
| KcmMethods.Retrieved | krb5/ccache/kcm_server.go:347-367 | the reply of RETRIEVE |
| KcmMethods.ByUuid | krb5/ccache/kcm_server.go:328-346 | the reply of GET_CRED_BY_UUID |
| KcmMethods.Initialized | krb5/ccache/kcm_server.go:268-279 | the namespace and reply of INITIALIZE |
| KcmMethods.PrincipalReply | krb5/ccache/kcm_server.go:289-300 | the reply of GET_PRINCIPAL |
| KcmMethods.Stored | krb5/ccache/kcm_server.go:301-309 | the namespace and reply of STORE |
| KcmMethods.OffsetSet | krb5/ccache/kcm_server.go:409-416 | the namespace and reply of SET_KDC_OFFSET |
| KcmMethods.HandleRequest | krb5/ccache/kcm_server.go:267-421 | the namespace and reply of each operation |
| KcmMethods.AllUuids | krb5/ccache/kcm_server.go:227-234 | every cache's UUID exactly once, in some order |
| KcmMethods.Request | krb5/ccache/kcm_server.go:207-266 | the namespace and reply of a request |
| KcmMethods.Daemon.DispatchPeer | krb5/ccache/kcm_server.go:179-422 | the daemon after a request: the peer's namespace and reply, the invariant, and nobody else's namespace changed |
| KcmClient.ReadsAgree | krb5/ccache/kcm_client.go:134-191 | the list read and the UUID read agree while the list fits a frame; when it does not the first fails and the second works as long as the UUIDs fit; both fail for a missing cache |
| KcmClient.ReachableReadsAgree | krb5/ccache/kcm_client.go:134-191 | this holds after every run of framed requests |
| KcmRuns.ListOutgrowsFrame | krb5/ccache/kcm_client.go:134-191 | a run of three framed requests whose cache only the older way can read |
| KcmClient.RunSmall | krb5/ccache/kcm_wire.go:314-326 | every stored credential fits a reply, because it came in a frame |
| KcmClientWrite.WritesAgree | krb5/ccache/kcm_client.go:193-234 | REPLACE and INITIALIZE with STORE leave the same principal, credentials and UUIDs; the namespaces are equal exactly when the time offset is zero; when REPLACE does not fit a frame both fail and change nothing |
| KcmClientWrite.ReadAfterWrite | krb5/ccache/kcm_client.go:134-234 | a cache written either way reads back either way, up to microseconds and, for the older way, the time offset |
| KcmClientMethods.CacheHandle.Call | krb5/ccache/kcm_client.go:54-99 | the daemon's namespace and the result of a call, through the request frame, its limit, the dispatch, the reply's limit and its status |
| KcmClientMethods.CacheHandle.Read | krb5/ccache/kcm_client.go:122-191 | the cache, by the list or by the UUIDs |
| KcmClientMethods.CacheHandle.ParseListed | krb5/ccache/kcm_client.go:144-168 | the offset loop over a list reply |
| KcmClientMethods.CacheHandle.ReadEach | krb5/ccache/kcm_client.go:176-190 | the loop over UUIDs, one call each |
| KcmClientMethods.CacheHandle.Arguments | krb5/ccache/kcm_client.go:197-215 | the arguments of REPLACE, or nothing if something cannot be encoded |
| KcmClientMethods.CacheHandle.Write | krb5/ccache/kcm_client.go:193-234 | the daemon's namespace and whether the write succeeded |
| NFold.OnesAddCongruent | krb5/crypto/crypto.go:766-782 | addition with end-around carry is addition modulo m - 1 |
| NFoldMethods.Gcd | krb5/crypto/crypto.go:784-789 | Euclid's loop computes the recursive definition |
| NFoldMethods.GcdFacts | krb5/crypto/crypto.go:784-789 | it divides both numbers and is a combination of them |
| NFoldMethods.GcdIsGreatest | krb5/crypto/crypto.go:784-789 | every common divisor divides it |
| NFoldMethods.LeastMultiple | krb5/crypto/crypto.go:791-791 | computes the lcm |
| NFoldMethods.LcmFacts | krb5/crypto/crypto.go:791-791 | the lcm is a multiple of both numbers, by which factors |
| NFoldMethods.LcmIsLeast | krb5/crypto/crypto.go:791-791 | every common multiple is a multiple of it |
| NFoldMethods.AddPass | krb5/crypto/crypto.go:767-772 | the sum and the carry out of it |
| NFoldMethods.CarryPass | krb5/crypto/crypto.go:774-780 | adding the carry, with the carry out of that |
| NFoldMethods.AddOneComplement | krb5/crypto/crypto.go:766-782 | the sum with end-around carry, after at most one more pass |
| NFoldMethods.StreamAt | krb5/crypto/crypto.go:750-756 | the bit that is read is the bit of the rotated copies |
| NFoldMethods.InputBit | krb5/crypto/crypto.go:750-757 | the position, with the sign of the source's remainder |
| NFoldMethods.BuildTerm | krb5/crypto/crypto.go:748-760 | the term is the chunk of the rotated copies |
| NFoldMethods.Fold | krb5/crypto/crypto.go:740-764 | the value for any number of bits, and nil exactly for empty input or no bits |
| NFoldMethods.FoldIsChunkSum | krb5/crypto/crypto.go:740-764 | for whole octets it is the ones'-complement sum of the chunks of lcm/len copies, copy i rotated right by 13 * i |
| NFoldMethods.ChunkSumCongruent | krb5/crypto/crypto.go:740-764 | and so the sum of the chunks modulo 2^m - 1 |
| NFoldMethods.NibbleCarry | krb5/crypto/crypto.go:740-782 | a four-bit fold that is not the ones'-complement sum |
| NFoldMethods.SumIsResidue | krb5/crypto/crypto.go:740-782 | the accumulated sum in closed form, for any padding |
| NFoldMethods.ChunkSumIs | krb5/crypto/crypto.go:740-764 | the ones'-complement sum in closed form, which tells zero from 2^m - 1 |
| NFoldMethods.FoldExact | krb5/crypto/crypto.go:740-782 | for any input and number of bits the fold is the ones'-complement sum, at the front of its octets, exactly when its carries take away a multiple of the modulus of the octets |
| NFoldMethods.CancelWhen | krb5/crypto/crypto.go:740-782 | they do for whole octets, and when there is no carry |
| NFoldMethods.FewCarries | krb5/crypto/crypto.go:740-782 | they do not when there is one and the chunks add up to at most the modulus |
| ReplayCache.LazyIsFull | krb5/ap/ap.go:103-117 | while neither end of the window moves back the swept cache decides like one that never forgets |
| ReplayCache.LazyDecisions | krb5/ap/ap.go:333-361 | from an empty cache, for any interleaving of sweeps and checks |
| ReplayCache.LazyExact | krb5/ap/ap.go:103-117 | for any clock the two decide alike exactly when no key that a sweep dropped is presented again within the window |
| ReplayCache.SteadyClockForward | krb5/ap/ap.go:534-540 | a fixed skew and a clock that does not go back are such a window |
| ReplayCache.AcceptedOnce | krb5/ap/ap.go:333-361 | no authenticator is accepted twice in a run |
| ReplayCache.BackwardClock | krb5/ap/ap.go:333-361 | three whole requests, the last with the clock set back, of which the first and the last accept the same authenticator |
| ReplayCache.SetBack | krb5/ap/ap.go:333-361 | the same three requests to the shared cache |
| ReplayCache.Shared.DropExpired | krb5/ap/ap.go:110-114 | exactly the entries within the window stay |
| ReplayCache.Shared.SweepExpired | krb5/ap/ap.go:103-117 | the sweep, when it is due |
| ReplayCache.Shared.VerifyOnce | krb5/ap/ap.go:333-361 | the decision and the cache after it |
| IakerbToken.FrameBack | krb5/gssapi/gssapi.go:985-1069 | a frame is taken off again exactly for content shorter than 65536 octets |
| IakerbToken.HeaderBack | krb5/gssapi/iakerb.go:37-61 | an IAKERB header reads back as itself |
| IakerbToken.TokenBack | krb5/gssapi/iakerb.go:97-145 | a proxy token reads back as what it was built from, or not at all if it is too long |
| IakerbToken.ApBack | krb5/gssapi/gssapi.go:985-1043 | an AP token is taken apart again exactly when it is short enough |
| IakerbToken.UnframeExact | krb5/gssapi/gssapi.go:1014-1043 | unframing slices past the end exactly for a content that is the mechanism with at most one octet after it, unless the memory after the token shows another identifier; otherwise it does not depend on that memory |
| IakerbToken.BareMechanism | krb5/gssapi/gssapi.go:1014-1043 | the shortest such token |
| IakerbToken.KindsDiffer | krb5/gssapi/iakerb.go:668-722 | no token is both a proxy token and an AP token |
| IakerbToken.BuiltIsNotAp | krb5/gssapi/iakerb.go:97-110 | a proxy token is never taken for an AP token, however long |
| IakerbTheorems.StepKeeps | krb5/gssapi/iakerb.go:340-578 | a step without an error adds what it received and then what it sends to the transcript, seals the checksum of the transcript, and never goes back |
| IakerbTheorems.RelayTranscript | krb5/gssapi/iakerb.go:661-720 | an acceptor that relays adds the token and its answer, and relays at most 32 |
| IakerbTheorems.RoundAgrees | krb5/gssapi/iakerb.go:340-727 | a round keeps the transcripts equal up to the token on its way |
| IakerbTheorems.RunAgrees | krb5/gssapi/iakerb.go:340-727 | so does every run without an error, with at most 32 relayed tokens and a state that never goes back |
| IakerbTheorems.FinishedVerifies | krb5/gssapi/iakerb.go:512-727 | in every run without an error the finished checksum verifies and the context is established, exactly when the AP token is short enough to be framed |
| IakerbTheorems.StepRefs | krb5/gssapi/iakerb.go:438-471 | a step enters no realm by referral, or one that was not visited |
| IakerbTheorems.ReferralsBounded | krb5/gssapi/iakerb.go:454-466 | whatever it is sent an initiator enters no realm by referral twice, and at most ten |
| IakerbMethods.IakerbInitiator.InitTgsPath | krb5/gssapi/iakerb.go:296-337 | the target realm, the path and the visited set, and whether it succeeded |
| IakerbMethods.IakerbInitiator.AbsorbTgs | krb5/gssapi/iakerb.go:438-471 | the state after a TGS response, unchanged if it is refused |
| IakerbMethods.IakerbInitiator.AskKdc | krb5/gssapi/iakerb.go:477-507 | the next request along the path or for the service |
| IakerbMethods.IakerbInitiator.RequestTgs | krb5/gssapi/iakerb.go:472-508 | the pending request again, or the next one |
| IakerbMethods.IakerbInitiator.ApStep | krb5/gssapi/iakerb.go:512-558 | the AP token over the transcript, or the reply's verification |
| IakerbMethods.IakerbInitiator.TgsStep | krb5/gssapi/iakerb.go:430-511 | the TGS state |
| IakerbMethods.IakerbInitiator.AsStep | krb5/gssapi/iakerb.go:377-429 | the AS state |
| IakerbMethods.IakerbInitiator.AdvanceStep | krb5/gssapi/iakerb.go:376-559 | the step of the current state |
| IakerbMethods.IakerbInitiator.ProxyRequest | krb5/gssapi/iakerb.go:561-578 | the token, added to the transcript |
| IakerbMethods.IakerbInitiator.NextStep | krb5/gssapi/iakerb.go:340-559 | a step of the initiator |
| IakerbMethods.IakerbAcceptor.AcceptToken | krb5/gssapi/iakerb.go:661-727 | a step of the acceptor |
| Tgs.ExchangeBounded | krb5/client/tgs.go:47-207 | against any KDC an exchange makes at most 22 requests in at most two attempts, and no referral loop asks a realm twice |
| Tgs.OnceBounded | krb5/client/tgs.go:71-207 | an attempt walks at most ten realms and chases at most eleven, and asks for the fallback only after its first request |
| Tgs.WalkBounded | krb5/client/tgs.go:109-149 | a walk asks each realm of the path in turn at most once |
| Tgs.ChaseBounded | krb5/client/tgs.go:151-206 | a referral loop makes at most eleven requests to different realms |
| Tgs.GrantedByLast | krb5/client/tgs.go:151-206 | a ticket comes from the realm asked last, and every realm before it referred to the next |
| Tgs.ChaseReferrals | krb5/client/tgs.go:151-206 | the referral loop |
| Tgs.WalkPath | krb5/client/tgs.go:109-149 | the loop along the configured path |
| Tgs.ExchangeOnce | krb5/client/tgs.go:71-207 | one attempt |
| Tgs.TgsExchange | krb5/client/tgs.go:47-207 | the exchange with its one fallback |
| RealmPath.FindPath | krb5/config/config.go:79-131 | exactly when the configured values are invalid, and otherwise a path from client to server with at most eleven realms, none twice ignoring case if it has intermediate ones |
| Padata.SortPreferred | krb5/client/client.go:381-413 | the in-place loop takes the first element of each preferred type in turn to the front |
| Padata.MoveToFront | krb5/client/client.go:407-410 | the shift and the insertion move one element and keep the others in order |
| Padata.FindFrom | krb5/client/client.go:397-403 | the first element of a type from the base on |
| Padata.SortedIsPermutation | krb5/client/client.go:381-413 | nothing is lost or added |
| Padata.SortedIsStable | krb5/client/client.go:396-411 | the elements of any one type keep their order |
| Padata.FrontInOrder | krb5/client/client.go:396-411 | the front follows the order of preference |
| Padata.FrontPreferred | krb5/client/client.go:396-411 | the front has only preferred types, and a preferred element is left over only if the front has one of its type |
| Padata.RestInOrder | krb5/client/client.go:396-411 | the rest keeps its order |

## Left out

- DER KerberosTime, flag types, OBJECT IDENTIFIER, raw DER, and implicit, choice, bare and signed fields: the schema has explicit and application tags, SEQUENCE OF, references, integers, strings, octets and booleans.
- AES, Camellia, HMAC, CMAC, PBKDF2 and ciphertext stealing: only the three laws above are used.
- WrapIOVWithOptions with a DCE setting other than the context's, UnwrapInitial, and the lengths that WrapIOVLength reports.
- GssNetwork.AcceptedArePrefix: assumes that no two messages whose MICs are compared have the same checksum, and that fewer than 2^64 tokens are sent.
- Aliasing of caller buffers in scatter/gather calls: buffers are values with a capacity.
- XdrTheorems.UpdateRoundTrip: lists and strings of 2^32 elements and more, whose 32-bit lengths the writer truncates.
- Files with a block size other than 2048, torn writes inside a block or a header, and a crash inside Create.
- UlogTheorems.RingRefinesLog: adds below the window and serials next to 2^32; adds over blocks that answer for skipped serials are the subject of GapExact.
- The RPC transport of iprop, its GSS session and the conversion between database records and attribute lists; the replica receives what the master answers.
- KcmClientMethods.CacheHandle.Call: requests of 2^32 octets and more, whose length the frame truncates; the list of all caches, whose order is that of a map; and reconnecting.
- Interleavings inside one KCM request: each request is one step.
- KcmTheorems.NeverReissued: assumes that a namespace issues fewer than 2^64 UUIDs, as do the other invariants of the daemon.
- KcmClient.ReadsAgree: a cache name with a zero octet, or one too long for a frame.
- MIT flag mapping, cache collections, the KEYRING and MSLSA cache types, sockets and socket permissions.
- The replay cache kept on disk, and ticket and authenticator checks before the replay check.
- ReplayCache.LazyIsFull: assumes that the digest of an authenticator determines its time.
- Channel bindings, flags and the sequence numbers of the context that IAKERB establishes; what the KDC client makes of responses, and the initiator of the AP reply, are parameters.
- The contents of TGS requests and the checks of replies; a reply is what the source takes it for.
- Parsing of krb5.conf; RealmPath starts from the values configured for the two realms, and the order in which entries that match only ignoring case are tried is not modelled.
- AS, FAST, PKINIT, SPAKE, OTP and S4U flows, kpasswd, kadmin, the KDC and the command line tools.
