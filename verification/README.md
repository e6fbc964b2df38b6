# A verified model of dbus-asio's wire codec and stream protocol

The project models the D-Bus client library dbus-asio: how values and messages become bytes, how bytes that arrive in
arbitrary pieces become messages again, and the session around it: handshake, send queue, table of waiting calls. Each part
has a specification on values, theorems about that specification, and, where the code works by changing objects or in loops,
classes and methods with the same fields proved to do what the specification says.

- **Values.** `Values`, `Signatures`, `Octets`: the recursive value type, type signatures and the bracket-counting scanner,
  words in either byte order, padding. `Texts` has numbers and letters spelled out.
- **Codec.** `Marshalling` and `Unmarshalling` say what bytes a value gives at a position and what a signature reads from
  bytes at an offset; `OutputStreams` and `InputStreams` are the stream objects with the back-patched array length and the
  nested sub-streams. `RoundTrips`, `Locality` and `Layout` relate the two: the round trip, independence from position, and
  the exact layouts that survive; `Shapes` has the condition free of lucky zeros. `Endings` says when decoding ends at all,
  and `Standard` which values have the bytes the D-Bus Specification gives them. `WireBytes`, `WireReads` and `ContainerReads`
  state what is written and read with literal bytes, letters and alignments only.
- **Messages.** `Messages` and `MessageWriting` assemble packets, `Receiving` and `MessageReading` build messages from a header
  and a body, `Numerals` has the detour of numbers through text. `PacketBytes` gives every packet byte by byte, `ReceivedFields`
  what any header and body come to.
- **Stream protocol.** `Protocol`, `Framing`, `StreamEndings` and `MessageProtocols`: the three-state machine with its cache.
  `Delivery` puts both ends together.
- **Session.** `Transports`, `Authentication`, `Replies`, and `Sessions` and `Natives`, which join them over whole runs.
  `Callbacks` says which callbacks a run makes.

A byte order is a parameter on both sides: the order a host writes in, and the order of the host that reads. `Outcome` and
`Result` keep three endings apart: a value, an exception, and no result that can be modelled (`Outside`, `Unmodelled`, `Stuck`),
which covers undefined behaviour, endless recursion or looping, and text forms of doubles. Doubles are their 64 bits. The
callbacks given with a call are a number; making one is an entry in a list, and which of them end in an exception is given with
the session.

## Where the code differs from its documentation

The model follows the code.

- `Array::marshall` notes where the length goes before the length is padded (src/dbus_type_array.cpp:141-150), so a non-empty array
  off a 4-byte boundary has its length in the padding. `PatchedLength` says what a reader finds.
- Doubles are padded when written and not when read (src/dbus_messageistream.cpp:67-74). With the point above, this is why the
  round trip has a layout condition, and `RoundTripExactlyWhenLaidOut` shows the condition is the right one.
- Variants align to eight (src/dbus_type_variant.h:41), though the comment at src/dbus_type_variant.cpp:35-37 and the section
  "Marshaling (Wire Format)" of the D-Bus Specification say one. Arrays of variants round-trip, but
  have the standard's bytes only off 8-byte boundaries and if that holds of the arrays of variants inside them as well
  (`VariantArrayIsStandardExactly`; for all values, with the misplaced lengths, `StandardExactlyWhenConforming`).
- Numbers in headers go through `stoi` (src/dbus_type.cpp:43-51): serials of 2^31 and more are dropped on receipt (`HandledAsSent`)
  and a body size of 2^31 or more throws.
- Received calls and returns have flags of zero (src/dbus_message_methodcall.cpp:34, src/dbus_message_methodreturn.cpp:42).
- A received error keeps no text: a local variable hides the member (src/dbus_message_error.cpp:57). Its name field is not read
  either. One whose body does not begin with a string is dropped, whatever it announces (`ErrorDispatchedExactly`); the text is
  among the parameters of the others.
- The handshake's data is never trimmed (src/dbus_auth.cpp:73-74), so its first line is acted on again for every piece that follows.
  A request for file descriptors that is answered with OK never ends (`NegotiationNeverEnds`).
- After an exception from a header the protocol is reset but its cache is not emptied (src/dbus_messageprotocol.cpp:204-208), so
  messages before the refused header are dispatched again with every later chunk (`RefusalRepeats`).
- A signature inside a variant is not checked. One of two or more opening brackets and nothing else is unmarshalled inside itself
  without end (`UnclosedVariantNeverEnds`), so every type with a variant in it, the header's own included, can be fed bytes on
  which decoding never ends (`EndsExactlyWhenVariantFree`).
- A reply's callback is made before its entry is erased (src/dbus_native.cpp:201-203), and an exception it ends in is swallowed
  (src/dbus_messageprotocol.cpp:244-248), so the entry stays and the next reply makes the callback again (`EachCallAnsweredOnce`).
- A return or error without a reply serial leaves the serial uninitialised (src/dbus_message.cpp:74-76). The history of the reply
  table ends there (`HistoryKept`).

## Model

| member | source | states |
|---|---|---|
| Signatures.ExtractInvertsPrint | src/dbus_type.cpp:358-414 | wherever a well-formed type is printed, the scanner returns exactly its text, although it counts one kind of bracket only and whatever precedes or follows |
| Signatures.CutInvertsPrintAll | src/dbus_type_struct.cpp:146-152 | types printed one after another are cut apart into exactly those types, in order |
| Signatures.ScanOverType | src/dbus_type.cpp:358-414 | scanning across a complete type at any depth, for either kind of bracket, ends just after it with the depth unchanged |
| Signatures.CountBrackets | src/dbus_type.cpp:358-414 | the counting loop returns the text through the matching bracket, or all that is left when there is none |
| Signatures.ExtractSignature | src/dbus_type.cpp:358-414 | the scanner as it runs, recursion on `a` included, computes the function the lemmas are about |
| WireReads.BracketsCut | src/dbus_type.cpp:358-414 | for any text, well formed or not: what is cut out at a bracket ends where the brackets of that kind are first balanced; if they never are it is everything left and the bracket once more |
| WireReads.LettersCut | src/dbus_type.cpp:358-414 | anywhere else it is one letter, or an `a` and what is cut out behind it |
| Values.SignatureIsType | src/dbus_type_array.cpp:174-181 | the signature computed from a typed value is the text of its type, also for an empty array that only carries a signature |
| Octets.WordRoundTrip | src/dbus_messageistream.h:62-70 | a number written in one byte order is read back from the same bytes in that order |
| Octets.SwapReadsOtherOrder | src/dbus_messageistream.h:32-49 | reading in the host's order and reversing the bytes is reading in the other order, at every width |
| Octets.PaddingFacts | src/dbus_utils.cpp:60-74 | the padding is the least number of bytes that reaches the boundary |
| WireBytes.WordBytes | src/dbus_messageostream.h:36-70 | a word is the number's digits to the base 256, the least significant first on a little-endian host and last on a big-endian one |
| WireBytes.TypeLetters | src/dbus_type.cpp:120-154 | the text of every type, with its letters written out |
| OutputStreams.MessageOStream.WriteWord | src/dbus_messageostream.h:36-70 | a padded write appends zeros to the boundary and then the word in the host's order |
| OutputStreams.MessageOStream.WriteString | src/dbus_messageostream.h:85-98 | the length, cut to 32 bits, the bytes and a NUL are appended |
| OutputStreams.MessageOStream.WriteSignature | src/dbus_messageostream.h:100-108 | the length, cut to one byte, the bytes and a NUL are appended |
| OutputStreams.MarshallData | src/dbus_type.cpp:209-249 | marshalling appends to any stream exactly the bytes `Marshall` gives for its current length |
| OutputStreams.MarshallArrayTo | src/dbus_type_array.cpp:139-151 | the stream after the back-patch: the length overwrites the four bytes at the position recorded before padding, nothing else changes |
| OutputStreams.MarshallContents | src/dbus_type_array.cpp:153-158 | the loop appends every item at the position the one before left |
| Marshalling.TranslationInvariance | src/dbus_messageostream.h:110-119 | a value marshalled at two positions equal modulo eight gives identical bytes |
| Marshalling.TranslationInvarianceAll | src/dbus_messageostream.h:110-119 | the same for a list of values marshalled one after another |
| Marshalling.PatchedLength | src/dbus_type_array.cpp:139-151 | on a little-endian host the length a reader finds is the size divided by 256 per byte of padding; it is the size if and only if the array starts on a boundary or has no bytes; the contents are intact |
| WireBytes.BasicBytes | src/dbus_messageostream.h:32-108 | every basic value stands at the least multiple of its type's size behind zeros and is the bytes of a table by letter: widths, length words and terminators are literals |
| WireBytes.ContentsAreAligned | src/dbus_type_array.cpp:139-172 | the contents of any typed array begin at the least multiple of the element type's alignment behind the length word, which stands at the least multiple of four; the alignments are written out by type |
| WireBytes.ContainersAreAligned | src/dbus_type_struct.h:71 | structs and dict entries begin at the least multiple of eight |
| InputStreams.OctetBuffer.RemovePrefix | src/dbus_octetbuffer.cpp:35-43 | drops the prefix, or refuses and leaves the buffer alone when it is too long |
| InputStreams.OctetBuffer.Find | src/dbus_octetbuffer.cpp:64-72 | the first place of the byte, or none exactly when it does not occur |
| InputStreams.MessageIStream.SubStream | src/dbus_messageistream.cpp:34-41 | the nested stream reads the same buffer up to its own end, at the parent's offset; the parent moves past it; it fails exactly when the size is too large |
| InputStreams.MessageIStream.ReadInteger | src/dbus_messageistream.h:62-70 | aligned read with the byte swap, equal to reading in the data's order |
| InputStreams.MessageIStream.ReadDoubleBits | src/dbus_messageistream.cpp:67-74 | the double read, which does not align, with its own reversal |
| InputStreams.UnmarshallString | src/dbus_type_string.cpp:42-48 | length, bytes and terminator, equal to the pure read |
| InputStreams.UnmarshallSignature | src/dbus_type_signature.cpp:40-45 | length byte, bytes and terminator, equal to the pure read |
| InputStreams.UnmarshallData | src/dbus_type.cpp:251-286 | the object-based, signature-driven decoder with its nested sub-streams computes `Unmarshall` of the bytes from the current offset and stops where it says |
| InputStreams.UnmarshallContents | src/dbus_type_array.cpp:160-172 | the loop over the sub-stream collects its items in order and ends at its end |
| InputStreams.UnmarshallFieldsFrom | src/dbus_type_struct.cpp:141-153 | the do-while loop over the signature collects the fields in order |
| InputStreams.UnmarshallEntryFrom | src/dbus_type_dictentry.cpp:89-99 | alignment, the key check, key and value |
| InputStreams.UnmarshallVariantFrom | src/dbus_type_variant.cpp:86-93 | the contained signature is read from the data and drives the read of the value |
| WireReads.NumberReads | src/dbus_messageistream.h:62-70 | on any bytes, a number of any type is the one whose digits stand at the least multiple of its alignment, doubles wherever the stream is; for want of bytes it throws |
| WireReads.TextReads | src/dbus_type_string.cpp:42-48 | on any bytes, a text is its length, that many bytes and one byte more; for want of bytes it throws |
| ContainerReads.ArrayReads | src/dbus_type_array.cpp:160-172 | on any bytes: where length word, contents and each item stand, that the items fill exactly the length, and that an array throws or never ends exactly where its bytes run out or an item does, seeing nothing behind its end |
| ContainerReads.StructReads | src/dbus_type_struct.cpp:141-153 | on any bytes and any signature: the fields stand one behind the other, each cut out of the signature behind the one before; the first is read in any case, and the rest while more than one letter is left |
| ContainerReads.EntryReads | src/dbus_type_dictentry.cpp:89-99 | on any bytes: the least multiple of eight, a key of one of the thirteen letters or an exception, and the value behind it |
| ContainerReads.VariantReads | src/dbus_type_variant.cpp:86-93 | on any bytes: a length, that many letters, a terminator, and directly behind them a value of that type |
| Texts.OtherLettersReadNothing | src/dbus_type.cpp:251-286 | a signature that begins with none of the letters reads nothing, without an exception |
| WireReads.EmptyItemsNeverEnd | src/dbus_type_array.cpp:160-172 | so an array of such items is never read to its end unless it is empty |
| Texts.KeyLetters | src/dbus_validation.cpp:22-43 | the letters a key may have |
| Unmarshalling.SignatureDrivenIsTypeDriven | src/dbus_type.cpp:251-286 | on any bytes at any offset, decoding by walking signature text equals decoding by structural recursion on the type |
| Unmarshalling.Decode | src/dbus_type_array.cpp:160-172 | a successful read takes at least one byte and never passes the end of the view, so every array turn shrinks its sub-stream |
| Endings.CleanEnds | src/dbus_type_variant.cpp:86-93 | for every well-formed signature, variants included: decoding ends in a value or an exception whenever each signature it reads for a variant is the text of some well-formed type |
| Endings.VariantFreeEnds | src/dbus_type.cpp:251-285 | so without variants it ends on any bytes at any offset |
| Endings.EndsExactlyWhenVariantFree | src/dbus_type_variant.cpp:86-93 | decoding a well-formed type ends on all bytes at all offsets if and only if the type has no variant in it, at any depth; asked of types whose text is shorter than 2^28 bytes, so that an array can hold the bytes that show it |
| Endings.FieldIsStructExactly | src/dbus_type_struct.cpp:141-153 | the text cut out for a field is its struct's own signature, for the first field of a signature of two or more opening brackets and nothing else, and in no other case |
| Endings.UnclosedNeverEnds | src/dbus_type_struct.cpp:141-153 | such a signature unmarshals itself inside itself for ever, exactly when the view reaches the next 8-byte boundary; otherwise it throws |
| Endings.RotatedSignatureEnds | src/dbus_type.cpp:358-414 | other unclosed signatures come to an end: `((y` reads one byte as a struct in a struct |
| Unmarshalling.FieldShrinks | src/dbus_type.cpp:358-414 | why they do: the text cut out for a field is shorter than its struct's or opens with fewer brackets, unless it is the struct's own |
| Endings.UnclosedVariantNeverEnds | src/dbus_type_variant.cpp:86-93 | the same for a variant that carries such a signature |
| Endings.TrapNeverEnds | src/dbus_type.cpp:251-285 | for every type with a variant in it, bytes that a reader never gets past, whatever stands around them |
| Locality.UnmarshallMoves | src/dbus_messageistream.cpp:43-50 | whatever the signature: a read inside a view that succeeds, or that never ends, does the same in any buffer that holds the view at a multiple of eight; one that throws does so too if the buffer ends with the view |
| Locality.UnmarshallTranslates | src/dbus_messageistream.cpp:43-50 | translation invariance of decoding: behind any multiple of eight other bytes, any signature and bytes give the identical result, value, exception or none, so many bytes later |
| RoundTrips.RoundTrip | src/dbus_type_array.cpp:139-172 | every well-typed value with sound layout, at any offset, in either byte order and before any suffix, decodes to itself (booleans normalised) and consumes exactly the bytes written |
| RoundTrips.StructRoundTrip | src/dbus_type_struct.cpp:129-153 | the same for structs, through the padding to eight |
| RoundTrips.VariantRoundTrip | src/dbus_type_variant.cpp:76-93 | the same for self-describing values |
| RoundTrips.EntryRoundTrip | src/dbus_type_dictentry.cpp:71-99 | the same for dict entries |
| Layout.ValueRoundTrip | src/dbus_type.cpp:209-286 | the round trip stated with the value's own signature |
| Layout.RoundTripExactlyWhenLaidOut | src/dbus_messageistream.cpp:67-74 | a written value in which no double zero stands off an 8-byte boundary is read back, value and extent, if and only if every non-empty array starts at a multiple of four and every double at a multiple of eight |
| Layout.ReadBackImpliesLayout | src/dbus_type_array.cpp:139-151 | for such a value, even when only the value is compared, being read back implies that layout |
| Shapes.ShapeSurvivesExactlyWhenLaidOut | src/dbus_messageistream.cpp:67-74 | with no condition on zeros: a value has that layout if and only if every value that differs from it only in the bits of its doubles is read back, value and extent, wherever its bytes stand at that offset |
| Standard.StandardExactlyWhenConforming | src/dbus_type_array.cpp:139-158 | a value has the bytes the standard gives it if and only if, at every depth, arrays of variants start their contents where the standard does and arrays with contents start at a multiple of four; asked of values whose empty arrays, at least, are as long as the standard's |
| Standard.ConformingAgrees | src/dbus_type_array.cpp:139-158 | such a value has the standard's bytes, whatever its empty arrays |
| Standard.AlignmentsDifferForVariants | src/dbus_type.cpp:325-356 | the library's table of alignments is the standard's, by letter, for everything but variants |
| Standard.StartsAlikeExactly | src/dbus_type_array.cpp:139-151 | contents of every other type begin where the standard has them; variants if and only if the length word ends on an 8-byte boundary |
| Standard.VariantArrayIsStandardExactly | src/dbus_type_array.cpp:139-151 | on a 4-byte boundary, an array of variants has the standard's bytes if and only if it does not start on an 8-byte boundary and its contents conform at every depth |
| Standard.EmptyArrayHides | src/dbus_type_array.cpp:139-151 | why empty arrays are set apart: in `(avt)` the padding an empty array has too much is what the standard pads with |
| Values.MadeEntryHasType | src/dbus_type_dictentry.cpp:71-76 | the entry `set` makes is of a type the round trip accepts if and only if its key is basic and of the key's type and its value of the value's type |
| Layout.DoubleAfterByteIsLost | src/dbus_messageistream.cpp:67-74 | a non-zero double after one byte does not survive |
| Layout.ArrayAfterByteIsLost | src/dbus_type_array.cpp:139-151 | a one-byte array after one byte does not survive |
| Layout.ZeroAfterByteSurvives | src/dbus_messageostream.h:72-76 | the double zero keeps its value off a boundary, but the reader stops short of the writer |
| Numerals.StoiOfDecimal | src/dbus_type.cpp:43-51 | a number turned to text and back through `stoi` survives if and only if it is below 2^31 |
| Texts.StoiReads | src/dbus_type.cpp:43-51 | blanks, a sign or none and digits are read as that number, whatever follows, if and only if it fits 32 bits with sign |
| Texts.StoiRefuses | src/dbus_type.cpp:43-51 | without a digit there it throws |
| Numerals.HexRoundTrip | src/dbus_utils.cpp:26-50 | decoding the hexadecimal form of any bytes gives them back |
| Texts.HexReads | src/dbus_utils.cpp:26-38 | any text is read in pairs of characters, blanks skipped; what each pair stands for, digits or not, is in a table |
| Texts.HexDigits | src/dbus_utils.cpp:26-50 | digits are written in lower case and read in either case |
| Numerals.ConvertBinaryToHexString | src/dbus_utils.cpp:40-50 | the loop appends the hexadecimal form of the whole input |
| Numerals.ConvertHexStringToBinary | src/dbus_utils.cpp:26-38 | the extraction loop appends what the two-character words stand for, blanks skipped |
| Messages.AssembleIsOneStream | src/dbus_message.cpp:109-183 | the packet joined from three streams is one `(yyyyuua(yv))` struct marshalled in a single stream, padding to eight, and the body |
| PacketBytes.PacketBytes | src/dbus_message.cpp:109-183 | every packet byte by byte: order letter, type, flags, version, the three words, the fields, the padding and the body, with the numbers written out |
| PacketBytes.FieldArrayBytes | src/dbus_message_methodcall.cpp:60-99 | the field array of each kind of message byte by byte, with codes and letters, the error's name and the path's type included |
| PacketBytes.FlagsAreSent | src/dbus_message_methodcall.cpp:45-54 | the third byte is below four; its low bit is the refusal of a reply, the next the refusal to start a service, and it is zero for all but calls |
| PacketBytes.ShortCallIsSendable | src/dbus_message_methodcall.cpp:60-99 | every call without parameters and with up to a megabyte of names can be sent, so that the delivery theorems speak of it |
| MessageWriting.MarshallMessage | src/dbus_message.cpp:109-183 | the code's assembly emits exactly that packet |
| MessageWriting.MarshallCall | src/dbus_message_methodcall.cpp:60-99 | the repeated `add` of header fields gives the packet of the call |
| MessageWriting.MarshallReturn | src/dbus_message_methodreturn.cpp:56-79 | the same for returns, with the reply serial |
| MessageWriting.MarshallError | src/dbus_message_error.cpp:73-101 | the same for errors, whose body is the text |
| MessageWriting.MarshallSignal | src/dbus_message_signal.cpp:66-102 | the same for signals, with the destination left out when empty |
| MessageWriting.SerialCounter.Assign | src/dbus_message.cpp:35-39 | an explicit serial is kept and the counter untouched; zero draws the next one, modulo 2^32 |
| MessageWriting.AssignMany | src/dbus_message.cpp:32-39 | over any sequence of messages, explicit serials are kept and each of the others gets the number of automatic ones before it, on from one and modulo 2^32 |
| MessageWriting.AutomaticSerialsDiffer | src/dbus_message.cpp:32-39 | in any such sequence with fewer than 2^32 automatic messages these get pairwise distinct serials, none of them zero |
| MessageWriting.SerialsDistinct | src/dbus_message.cpp:32-39 | the first 2^32 - 1 automatic serials are pairwise distinct and not zero, and the next one is zero |
| MessageReading.ParseParametersFrom | src/dbus_message.cpp:89-106 | the body parsed with the announced signature, in the order of the flag |
| MessageReading.ReadFieldsFrom | src/dbus_message.cpp:50-81 | the loop over the header fields records what the pure fold records, or throws where it does |
| MessageReading.BaseFrom | src/dbus_message.cpp:41-87 | the shared receive constructor, with its exceptions |
| MessageReading.BuildFrom | src/dbus_messageprotocol.cpp:211-251 | the switch over the type and the constructors behind it: flags zeroed for calls and returns, a second read of an error's body |
| Receiving.FieldsAnnounce | src/dbus_message.cpp:50-81 | the fields each kind of message adds are read back as the same addressing, signature and reply serial |
| ReceivedFields.FieldsReadExactly | src/dbus_message.cpp:50-81 | any header fields: they are read if and only if each can be; path, interface, member, destination, sender and signature are then the texts in the last fields with codes 1, 2, 3, 6, 7 and 8, empty without one, and the reply serial the number in the last one with code 5 |
| ReceivedFields.CodesAreBytes | src/dbus_message.cpp:50-57 | those codes are the bytes the fields begin with |
| Receiving.ParametersParse | src/dbus_message.cpp:89-106 | a non-empty parameter list has a non-empty body, which parses back into those parameters |
| Receiving.HandledAsSent | src/dbus_messageprotocol.cpp:211-251 | header and body as sent are dispatched as the same message if and only if its serial and reply serial are below 2^31, and are dropped otherwise |
| ReceivedFields.DispatchedExactly | src/dbus_messageprotocol.cpp:211-251 | any header and body: dispatched if and only if the type is 1 to 4, the serial below 2^31, every field readable, a body that is there a struct of the announced types, and an error's body begins with a string |
| ReceivedFields.DispatchedAsAnnounced | src/dbus_message.cpp:41-106 | and then type, serial, flags, addressing, reply serial and parameters are those of the header, the fields and the body; flags are zero for calls and returns |
| ReceivedFields.OtherTypesAreDropped | src/dbus_messageprotocol.cpp:211-251 | messages of any other type are dropped |
| Receiving.ErrorDispatchedExactly | src/dbus_message_error.cpp:43-63 | an error is dispatched if and only if the shared constructor accepts it and its body begins with a whole string: at least five bytes, and as many as the length word and the terminator need |
| Receiving.EmptyErrorIsDropped | src/dbus_message_error.cpp:43-63 | so one whose body is empty is never dispatched |
| Protocol.FlagTellsOrder | src/dbus_messageprotocol.cpp:36-47 | whichever host writes the flag, every host reads in the order it stands for |
| Framing.OrderByFlag | src/dbus_messageprotocol.cpp:36-47 | `l` is little-endian, `B` big-endian, any other flag the host's own order |
| Protocol.Process | src/dbus_messageprotocol.cpp:111-188 | the framing invariant: header size a multiple of eight and within the limit, header plus body within the message limit, and fewer bytes left than the state waits for |
| Protocol.RestIsSuffix | src/dbus_messageprotocol.cpp:167-188 | processing takes bytes only from the front |
| Protocol.ProcessAppend | src/dbus_messageprotocol.cpp:167-188 | processing a buffer and then more bytes equals processing their concatenation, and a stop is at the same place with the same reason |
| Protocol.ProcessIsIdempotent | src/dbus_messageprotocol.cpp:167-188 | running again on what is left changes nothing |
| Protocol.ReceiveChunkIsProcess | src/dbus_messageprotocol.cpp:190-209 | the direct pass followed by the cached pass equals one pass over cache and chunk |
| Protocol.ChunkingInvariance | src/dbus_messageprotocol.cpp:167-209 | on arbitrary bytes, every way of cutting a stream gives the dispatches, state, sizes, header and cache of one call; if a header is refused, the same dispatches come first and the same stop |
| Protocol.ThrowLeaves | src/dbus_messageprotocol.cpp:190-209 | an exception leaves cache and chunk cached whole, or nothing at all when the cache was empty before |
| Protocol.RefusedCacheRepeats | src/dbus_messageprotocol.cpp:204-208 | if what is cached is refused from the start of a message, the next chunk dispatches the same messages again, is refused again and is added to the cache |
| Framing.HeaderEndsInFrame | src/dbus_messageprotocol.cpp:111-154 | a header that decodes ends exactly where the length at byte twelve says, inside the computed size, with fewer than eight bytes left, and its fixed fields are the bytes at their places |
| Framing.HeaderStepReads | src/dbus_messageprotocol.cpp:135-154 | the seven fields are always there and the body size is the word at byte four, below 2^31 |
| Framing.SizeStepExactly | src/dbus_messageprotocol.cpp:111-133 | of sixteen bytes the last four are the size of the fields; more than 64 MiB is refused, otherwise the header ends at the least multiple of eight behind them |
| Framing.HeaderStepExactly | src/dbus_messageprotocol.cpp:135-154 | a header that decodes is refused if and only if the body has 2^31 bytes or more or the message more than 128 MiB |
| StreamEndings.HeaderStuckExactly | src/dbus_messageprotocol.cpp:135-154 | a header step has no end if and only if decoding the header has none |
| StreamEndings.CleanBodySettles | src/dbus_messageprotocol.cpp:211-251 | a message whose announced signature and contained signatures are well-formed, and whose header fields hold no double, is dispatched or dropped |
| StreamEndings.CleanStreamSettles | src/dbus_messageprotocol.cpp:167-188 | if that holds of every header and body the receiver takes from a stream, processing it waits for more or throws, and never gets stuck |
| StreamEndings.CleanChunksSettle | src/dbus_messageprotocol.cpp:190-209 | the same for the stream in any chunks |
| MessageProtocols.MessageProtocol.ReadHeaderSize | src/dbus_messageprotocol.cpp:111-133 | `getHeaderSize`: waits below sixteen bytes, throws above the array limit, otherwise sets size and state |
| MessageProtocols.MessageProtocol.ReadHeader | src/dbus_messageprotocol.cpp:135-154 | `unmarshallHeader`: waits, throws, or sets header and body size and consumes exactly the header size |
| MessageProtocols.MessageProtocol.ReadBody | src/dbus_messageprotocol.cpp:156-165 | `getBody`: waits, or consumes exactly the body, hands the message on and starts over |
| MessageProtocols.MessageProtocol.OnBodyComplete | src/dbus_messageprotocol.cpp:211-251 | one message is dispatched or dropped and the next awaited either way |
| MessageProtocols.MessageProtocol.ProcessData | src/dbus_messageprotocol.cpp:167-188 | the loop terminates and does to state, buffer and callbacks what `Process` says |
| MessageProtocols.MessageProtocol.OnReceiveData | src/dbus_messageprotocol.cpp:190-209 | both passes and the cache; afterwards fewer bytes are cached than the state waits for |
| Delivery.PacketIsFramed | src/dbus_messageprotocol.cpp:111-188 | framing does not depend on the parameters: a packet with any parameters, however laid out, is taken whole and nothing more, and what follows is processed as if it came first, unless handling it leaves the model |
| Delivery.PacketsAreFramed | src/dbus_messageprotocol.cpp:167-188 | so packets with unsound parameters do not disturb the others in a stream |
| Delivery.PacketIsDelivered | src/dbus_messageprotocol.cpp:167-251 | a packet at the front of any stream is handled as the message it was made from and nothing more is consumed |
| Delivery.OversizePacketThrows | src/dbus_messageprotocol.cpp:111-154 | a packet over either limit makes the receiver throw before dispatching anything of it |
| Delivery.EndToEnd | src/dbus_messageprotocol.cpp:167-251 | any list of messages, marshalled on a host of either order, concatenated and cut into any chunks, is handled on a host of either order as that list, in order, once each, ending with an empty cache and the initial state |
| Delivery.AllDispatched | src/dbus_type.cpp:48-51 | with serials below 2^31 every one of them is dispatched just as it was sent |
| Transports.Transport.constructor | src/dbus_transport.cpp:25-48 | connecting writes the single NUL octet and nothing is counted |
| Transports.Transport.SendString | src/dbus_transport.cpp:127-138 | written at once when ready, otherwise queued behind what waits |
| Transports.Transport.OnAuthComplete | src/dbus_transport.cpp:105-116 | the queued messages are written in order, counted, the queue is empty and the transport ready |
| Authentication.FirstLine | src/dbus_auth.cpp:68-78 | the least length at which a CR LF ends, or none exactly when there is no CR LF |
| Authentication.AcceptedExactly | src/dbus_auth.cpp:184-231 | a stream completes the handshake if and only if its first line begins with the letters OK, when no descriptors were asked for, or AGREE_UNIX_FD |
| Authentication.HandshakeEndsExactly | src/dbus_auth.cpp:129-138 | from any part heard before without an end, and however the rest is cut, the handshake ends if and only if the whole stream does; then exactly BEGIN and what was waiting is written, and nothing at all for a first line that begins with neither |
| Authentication.OkIsAnsweredWithRequest | src/dbus_auth.cpp:163-167 | OK to a request for descriptors is answered with that request, at least once and with nothing else |
| Authentication.HandshakeTexts | src/dbus_auth.cpp:53-120 | the three lines that are written, letter by letter |
| Authentication.ListenIsByFirstLine | src/dbus_auth.cpp:68-96 | for any cut of the stream the handshake ends if and only if the first CR LF line of the whole stream is an accepted one; then BEGIN was written once, what waited was released, and exactly the bytes through that line were consumed |
| Authentication.NegotiationNeverEnds | src/dbus_auth.cpp:73-74 | after a request for file descriptors is answered with OK, no further bytes end the handshake |
| Authentication.AuthenticationProtocol.SendAuth | src/dbus_auth.cpp:53-66 | sets the type and writes the EXTERNAL line with the user's number in hexadecimal |
| Authentication.AuthenticationProtocol.OnCommand | src/dbus_auth.cpp:184-231 | the table of eight words: only OK and AGREE_UNIX_FD act, the argument taken behind the word always exists |
| Authentication.AuthenticationProtocol.ProcessData | src/dbus_auth.cpp:68-78 | the first line of all the data so far is acted on, and the data is kept |
| Authentication.AuthenticationProtocol.OnReceiveData | src/dbus_auth.cpp:80-93 | the loop over LF-ended pieces leaves data, transport and unread bytes as `Listen` says |
| Replies.KeysAreOpenCalls | src/dbus_native.cpp:134-147 | in any history the keys are exactly the serials of calls with no reply since whose callback returned |
| Replies.EachCallAnsweredOnce | src/dbus_native.cpp:194-218 | callbacks are made for exactly the replies that come while a call waits, in their order, from the call's own pair and of the reply's kind; no call gets a second one if and only if no callback that throws is followed by a further reply |
| Replies.ThrowingCallbackIsRepeated | src/dbus_native.cpp:201-203 | a callback that throws leaves its entry, and is made again for the next reply |
| Replies.IgnoredExactlyWhenNothingWaits | src/dbus_native.cpp:194-218 | a reply leaves the table unchanged if and only if no open call has its serial |
| Replies.WaitingOrAnswered | src/dbus_native.cpp:134-218 | waiting calls plus callbacks that returned equals calls sent, if and only if no serial is reused while it waits |
| Replies.ReusedSerialLosesCallbacks | src/dbus_native.cpp:143-144 | two calls with one serial: the second pair of callbacks is lost |
| Sessions.HandOver | src/dbus_native.cpp:61-95 | in any run of sends and arrivals, for any chunks, the session is authenticated if and only if the stream's first line is accepted, and the message protocol has then processed exactly the bytes after it; up to the first refused header its dispatches, state and cache are those of one call, and those dispatches stay |
| Sessions.AuthenticatedExactly | src/dbus_native.cpp:61-78 | in any run, the session is authenticated if and only if the stream's first line begins with those letters |
| Sessions.RefusalRepeats | src/dbus_native.cpp:80-95 | a session whose cache is refused from the start of a message dispatches the messages before the refused header once more with every chunk that follows, for ever |
| Sessions.RefusedExactlyWhenThrowing | src/dbus_native.cpp:80-95 | a session with the beginning of a message cached becomes such a one with a chunk if and only if cache and chunk together contain a header that is refused, and what precedes it is what is repeated |
| Sessions.OversizeAfterSendableIsRefused | src/dbus_messageprotocol.cpp:190-209 | two chunks that get there: a sendable message cut within its first sixteen bytes, then one over the limits |
| Sessions.SendOrder | src/dbus_transport.cpp:105-163 | in any run: before BEGIN no message is written and all wait; after it every message is written once in the order sent, directly behind BEGIN; queued = pumped + waiting, and the counters agree with the log |
| Sessions.SessionEndToEnd | src/dbus_native.cpp:61-95 | an accepted handshake followed by packets, in any chunks mixed with any sends, handles exactly those messages and writes greeting, BEGIN and all sends |
| Sessions.WaitingUntilReplied | src/dbus_native.cpp:134-218 | in any run a call is waiting if and only if nothing dispatched since it was sent is a return or error for its serial whose callback returned |
| Sessions.CallsAreAnswered | src/dbus_native.cpp:134-218 | with the peer's messages marshalled, cut and received, a call is settled if and only if one of those arriving after it is a return or error for it whose callback returned |
| Callbacks.CallbacksInRun | src/dbus_native.cpp:194-218 | in any run whose calls have serials of their own: the callbacks made are, in order and without exception, one for each return or error that finds its call waiting, with the serial and the pair given with that call, the failure callback exactly for errors |
| Callbacks.CallbacksForPeer | src/dbus_native.cpp:194-218 | the same with the peer's messages marshalled, cut and received |
| Callbacks.ReplyExpectedAsSent | src/dbus_native.cpp:134-147 | a call is entered in the table if and only if the packet that is sent has NO_REPLY_EXPECTED clear |
| Sessions.HistoryKept | src/dbus_message.cpp:74-76 | the reply table stays defined if and only if every return and error carried a reply serial |
| Sessions.RunIsUnambiguous | src/dbus_native.cpp:134-147 | calls with distinct serials make every run's table history unambiguous, so that the table theorems hold of it |
| Sessions.AutomaticCallsDistinct | src/dbus_message.cpp:32-39 | messages numbered one after another by the counter, fewer than 2^32 of them automatically, and sent in any order at most once, have those distinct serials |
| Natives.Native.BeginAuth | src/dbus_native.cpp:56-59 | the state after the handshake is opened |
| Natives.Native.SendMethodCall | src/dbus_native.cpp:134-147 | the call is marshalled and sent, and entered in the table when a reply is expected, never over an entry already there |
| Natives.Native.SendMethodReturn | src/dbus_native.cpp:149-154 | marshalled and sent, nothing else changes |
| Natives.Native.SendError | src/dbus_native.cpp:156-161 | marshalled and sent, nothing else changes |
| Natives.Native.SendSignal | src/dbus_native.cpp:163-175 | marshalled and sent, nothing else changes |
| Natives.Native.OnReceiveMethodReturn | src/dbus_native.cpp:194-205 | the table takes one success reply; the entry is erased only if its callback returns |
| Natives.Native.OnReceiveError | src/dbus_native.cpp:207-218 | the table takes one failure reply; the entry is erased only if its callback returns |
| Natives.Native.OnReceiveMessageData | src/dbus_native.cpp:80-95 | bytes go to the protocol, an exception resets it but keeps its cache, replies reach the table in order |
| Natives.Native.OnReceiveAuthData | src/dbus_native.cpp:61-78 | bytes go to the handshake and, once it ends, the rest of the same buffer to the protocol |
| Natives.Native.HandleReadData | src/dbus_transport.cpp:50-56 | every read is one `Step` of the session |

## Left out

- RoundTripExactlyWhenLaidOut: asks that every double zero stands on an 8-byte boundary, because eight zero bytes read the same from any offset inside zero padding, and whether the reader's shorter extent then matters depends on what follows; `ZeroAfterByteSurvives` is such a value. The direction from layout to round trip, `ValueRoundTrip`, needs no such condition, and neither does `ShapeSurvivesExactlyWhenLaidOut`, which speaks of all values of a shape.
- StandardExactlyWhenConforming: asks that every empty array is as long as the standard's, because what an empty array of variants has too much can coincide with padding or zeros after it (`EmptyArrayHides`). That conforming values have the standard's bytes, `ConformingAgrees`, needs no such condition.
- EndToEnd: messages over the receiver's limits are excluded, because the receiver throws on them (`OversizePacketThrows`) and does not resynchronise afterwards.
- HandOver: claims equality with one call only up to the first refused header. What comes after depends on the chunks: `ThrowLeaves` says what each exception leaves cached and `RefusalRepeats` how the session goes on from there.
- CleanEnds: is a condition that suffices for given bytes; some malformed signatures, such as an unknown code, end as well. For types, `EndsExactlyWhenVariantFree` is exact.
- FieldsReadExactly: a double in a field with one of the codes counts as unreadable, because its text is not modelled; so it does in `DispatchedExactly`.
- CleanBodySettles: excludes doubles in header fields, because their text is not modelled.
- Unmarshall: ends as `Outside` where the code recurses into the same struct or turns in an array loop without reading; that the code then runs out of stack or memory is not part of this model.
- Extract: reads past the end of a signature give NUL once and again; the code does so for the first byte only, further ones are undefined behaviour (an empty array that was given no signature).
- HandleReadData: says nothing more of an object once it left what is modelled.
- Runs start when `BeginAuth` has been called, and it is called once: messages sent earlier are queued just as those sent between then and BEGIN, and bytes that arrive earlier meet a handshake type that was never set.
- Sockets, the input-output thread, mutexes, shutdown and overlapping writes: the transport is a sequential log of writes.
- Handlers for calls and signals looked up by name, match rules and the wrappers that build one standard call each: small comparisons without state of their own.
- Handlers that call back into the session, and exceptions of theirs that are not `std::exception`.
- Logging, `toString`, introspection, statistics text and the byte counts per phase, bus addresses, examples.
- Values are built and compared as values: the decoding methods change the stream in place but return the value instead of filling an object, and `set`, `add` and the wrapper types around numbers are constructors of the datatype.
- Type code `h` has no value in the code and none here: it decodes to nothing without taking a byte.
- UTF-8 and object-path validity and duplicate dict keys: the code checks neither.
- The liveness of file-descriptor negotiation: the code does not have it.
- Header structs of other than seven fields: the fixed signature rules them out (`HeaderStuckExactly`).
