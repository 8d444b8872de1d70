# Verification of sonic-gidevice's protocol core

This project models the parts of the library where a mistake would lose data, mix up messages or hang a
caller, and proves what they keep:

- the keyed-object-graph codec: `nskeyedarchiver.Marshal`, which flattens a Go value into a table of objects
  linked by UIDs, and the decoder and the second, interning encoder of `keyedarchiver.go`;
- the DTX connection: framing, fragments, identifiers, results, replies and channels, and the auxiliary
  argument buffer inside it, up to a whole method call from one client to another;
- chunking and reassembly of the web inspector client;
- AFC framing, its NUL-separated string lists, and the exact-length loops of the connection under everything;
- the crash-report mover, which deletes from the tree it is walking;
- the session machine of the lockdown client.

Code that updates fields or loops over a buffer is a class or a method here, with its loop, proved against a
specification function of the old state; the properties are lemmas about these functions, over all inputs, all
runs of steps, all enumeration orders of maps and all failures of the environment. What such a function computes is
said a second time by lemmas over the bytes on the wire, the object table or the files on the host. The network,
the clock, the property-list library and the device are parameters: a stream of bytes, how far each write gets, an
uninterpreted pair `Plist`, and an `Env` that decides what fails. Of the pair a theorem assumes only that it
`Keeps` the archives at hand: if they hold property-list values they survive and are not empty. Such a pair exists
for any list of archives. `stack` is the number of nested calls the decoder may spend.

Where the code does not do what one would expect of it, the model keeps the code and the lemma says exactly when
the expectation is met:

- `Unmarshal` gives back what `Marshal` was given if and only if the value is built of strings, booleans,
  integers, slices and string-keyed maps alone. Floats, errors and dates make `archive` return a nil table
  (`nskeyedarchiver.go:54-76`), nil panics, a byte slice comes back as a slice of integers, an NSURL, NSUUID or
  XCTestConfiguration as a raw map, and a UID of the caller's own is chased: decoding never ends if and only if the
  root stands in a loop, a set of values from each of which the decoder gets to another.
- The interning encoder writes a boolean or float root as `"$null"`, drops the NSData object it has just built
  for a byte slice (`keyedarchiver.go:164-172`), and panics on a container in a container.
- A call that expects a reply carries flag 0x1000, which the library's own receiver refuses as a compression
  type after consuming the packet. A refused header leaves its body on the stream.
- A send gets a fresh identifier if and only if the counter does not stand at its last value; a reply is accepted,
  and then gets to its caller, if and only if no larger identifier has been seen since its call.
- A web inspector packet of one chunk is reassembled to the empty string (`webinspector.go:132-138`).
- `Strings` undoes `toCString` if and only if no string holds a NUL.
- A write of `safeConn` that meets a turn of zero bytes without an error reports success without having written
  everything (`usbmux.go:344-346`). Go's `io.Writer` forbids such a turn, so a connection that keeps to it never
  brings this about; the branch is there for one that does not.
- The mover trims `.synced` from host names. Whatever fails, as long as the client notices, nothing is lost if and
  only if no two visited files share a host name, unless both are empty; otherwise the copy of the second, whole or
  broken off, may overwrite the only copy left of the first. A file called `.synced` has no name left and is never copied or removed.
- The AFC client takes a status it does not list for no error (`afcmessage.go:42-50`, `109`). A file read answered
  with one, or with success and no data, ends the copy as if the file were at its end, and the file is removed; a
  listing answered so passes for an empty directory. A copy is whole if and only if no such status comes early; where
  no names clash, a move loses nothing if and only if no copy was cut short; and a walk without an error has visited
  every entry that no such listing hides.
- The extraction writes the description of `x.plist` to `x.crash`, over the copy of a device file of that name
  (`crashreportmover.go:130-131`). A move in which nothing fails leaves every copied content on the host if and only
  if files that share a host file agree and each description saved over a copied file says what that file says.
- A lockdown session whose encryption cannot be enabled is forgotten without being stopped. A reply to StartSession
  that names no session, and carries no error either, is accepted: the service is asked for inside a session if and
  only if the reply names one.

## Model

| member | source | states |
|---|---|---|
| Archiver.Archive | pkg/nskeyedarchiver/nskeyedarchiver.go:24-77 | for every value, NSURL, NSUUID and XCTestConfiguration included: panics exactly if a nil stands where it is flattened; loses the table exactly if a part is of an unsupported kind; otherwise the old table is a prefix, the UID is its length, the table grows by exactly Size of the value, reads as the value, and leads the decoder forward only |
| Archiver.ArchiveDictionary | pkg/nskeyedarchiver/nsdictionary.go:17-44 | the same for a map taken in any enumeration order, the placeholder filled in last |
| Archiver.ArchiveArray | pkg/nskeyedarchiver/nsarray.go:15-37 | the same for a slice |
| Archiver.ArchiveURL | pkg/nskeyedarchiver/nsurl.go:18-37 | the same for an NSURL: base UID 0, the file URL and the class behind references |
| Archiver.ArchiveUUID | pkg/nskeyedarchiver/nsuuid.go:18-34 | the same for an NSUUID |
| Archiver.ArchiveConfiguration | pkg/nskeyedarchiver/xctestconfiguration.go:58-88 | the same for a test configuration: class first, nil fields UID 0, scalars other than formatVersion in place, everything else behind a reference |
| Archiver.Frame | pkg/nskeyedarchiver/nskeyedarchiver.go:24-77 | what a table says of a value at slot u depends on the slots from u on only, and appending changes nothing |
| Archiver.ClassRecord | pkg/nskeyedarchiver/nsarray.go:30-34 | behind a class reference stand the class name and the list of that name and NSObject, in this order |
| Archiver.BytesAsArray | pkg/nskeyedarchiver/nskeyedarchiver.go:46-53 | a byte slice is flattened like the array of its bytes |
| GoValues.EntriesSizePick | pkg/nskeyedarchiver/nsdictionary.go:24-31 | the size of a dictionary does not depend on the order in which its entries are taken |
| Unarchiver.ConvertValue | pkg/libimobiledevice/keyedarchiver.go:195-242 | delivers the specified conversion of any value over any table, panics and exhausted stack included |
| Unarchiver.ConvertDictionary | pkg/libimobiledevice/keyedarchiver.go:200-218 | the loop over keys and values builds the specified map or stops at the first entry that fails |
| Unarchiver.ConvertArray | pkg/libimobiledevice/keyedarchiver.go:219-225 | the loop over values builds the specified slice or stops at the first that fails |
| Unarchiver.ConvertStable | pkg/libimobiledevice/keyedarchiver.go:195-242 | appending objects to a table, and having more stack, changes no result already delivered |
| Unarchiver.ConvertNeverUid | pkg/libimobiledevice/keyedarchiver.go:238-240 | a UID is never delivered as the result itself |
| Delivery.DictionaryDelivers | pkg/libimobiledevice/keyedarchiver.go:200-218 | from any table an object map of class NSDictionary or NSMutableDictionary is decoded as w if and only if every key stands for a string, or an unsigned integer in decimal, has a value behind it that is decoded, and w maps the names to these, the last of equal names winning |
| Delivery.KeyStringReads | pkg/libimobiledevice/keyedarchiver.go:208-214 | the key a number stands for is its decimal numeral as a signed 64-bit integer |
| Delivery.ArrayDelivers | pkg/libimobiledevice/keyedarchiver.go:219-225 | one of class NSArray or NSMutableArray as the slice of what its items are decoded as, in order |
| Delivery.DataDelivers | pkg/libimobiledevice/keyedarchiver.go:226-227 | one of class NSData as its bytes |
| Delivery.DateDelivers | pkg/libimobiledevice/keyedarchiver.go:228-230 | one of class NSDate as its whole seconds, towards zero |
| Delivery.ErrorDelivers | pkg/libimobiledevice/keyedarchiver.go:231-236 | one of class NSError as its code on 64 bits, its domain and its decoded user info |
| Delivery.OtherDelivers | pkg/libimobiledevice/keyedarchiver.go:195-242 | one of any other class, or whose class record has no name, as the map it is; one without a class record not at all |
| Delivery.ScalarDelivers | pkg/libimobiledevice/keyedarchiver.go:238-241 | a UID as what it leads to, any other value as itself |
| Delivery.PanicsIff | pkg/libimobiledevice/keyedarchiver.go:195-242 | decoding panics if and only if it ends and delivers nothing, and it delivers one value at most |
| Divergence.Settled | pkg/libimobiledevice/keyedarchiver.go:195-242 | an outcome that is not for want of stack, a panic included, stays the same with more of it |
| Divergence.OverflowWhere | pkg/libimobiledevice/keyedarchiver.go:195-242 | a conversion runs out of stack exactly where the first of those it asks for does, all earlier ones having been converted |
| Divergence.DivergesIff | pkg/libimobiledevice/keyedarchiver.go:195-242 | on any table no stack is enough for a value if and only if it stands in a loop, where an element or entry is reached once all earlier ones have been converted |
| Divergence.ResolvedIff | pkg/libimobiledevice/keyedarchiver.go:195-242 | where all references resolve, if and only if an endless chain of references starts from it, whatever stands before them |
| KeyedArchive.ConvertBack | pkg/libimobiledevice/keyedarchiver.go:195-242 | what a table reads as a plain value, in whatever order and layout, the decoder rebuilds as that value |
| KeyedArchive.NeverBack | pkg/libimobiledevice/keyedarchiver.go:195-242 | a value with a part that is not plain is rebuilt as something else, however much stack there is |
| KeyedArchive.ConvertTame | pkg/libimobiledevice/keyedarchiver.go:195-242 | from a table an archiver may have built the decoder never delivers a float, nil, error or date |
| KeyedArchive.ConvertTerminates | pkg/libimobiledevice/keyedarchiver.go:195-242 | if every reference followed leads to a later slot there is no loop, and some number of nested calls is enough |
| KeyedArchive.MarshalledTerminates | pkg/nskeyedarchiver/nskeyedarchiver.go:8-22 | so decoding ends on every table Marshal makes of a value without UIDs of the caller's own, what is left of a table with an unsupported part included |
| KeyedArchive.MarshalledEndsIff | pkg/nskeyedarchiver/nskeyedarchiver.go:8-37 | and on the table of any value it ends if and only if the root stands in no loop, which takes a UID of the caller's own |
| KeyedArchive.OwnUidLoops | pkg/nskeyedarchiver/nskeyedarchiver.go:8-37 | such as the root UID 1 |
| KeyedArchive.LaterUidLoops | pkg/nskeyedarchiver/nskeyedarchiver.go:8-53 | or UID 1 behind other elements of an array |
| KeyedArchive.LaterUidTableOf | pkg/nskeyedarchiver/nskeyedarchiver.go:8-53 | whose table is one Marshal makes |
| KeyedArchive.Marshal | pkg/nskeyedarchiver/nskeyedarchiver.go:8-22 | panics exactly on nil; otherwise writes the archive of a table of the value, root UID 1 |
| KeyedArchive.RoundTrip | pkg/libimobiledevice/keyedarchiver.go:244-260 | for every value, enumeration order and sufficient stack, Unmarshal after Marshal gives the value back if and only if it is plain |
| KeyedArchive.SomePlistKeeps | pkg/nskeyedarchiver/nskeyedarchiver.go:21-21 | what is assumed of the property-list library can be met, for any list of archives at once |
| Delivery.UnarchiveIff | pkg/libimobiledevice/keyedarchiver.go:244-260 | Unmarshal reports an error exactly if the property list cannot be read, and panics on a root outside the table |
| InterningArchiver.NSKeyedArchiver.Id | pkg/libimobiledevice/keyedarchiver.go:111-121 | keeps objRef and objRefVal inverse to each other; an equal value shares its slot, a new one gets the next; an unhashable one panics |
| InterningArchiver.NSKeyedArchiver.FlushToStruct | pkg/libimobiledevice/keyedarchiver.go:123-132 | writes the slots in order, pointers replaced by what they point to |
| InterningArchiver.NSKeyedArchiver.MarshalMap | pkg/libimobiledevice/keyedarchiver.go:154-161 | every key and value of the map stands in a slot, in any enumeration order; panics exactly on a nested container |
| InterningArchiver.NSKeyedArchiver.MarshalSlice | pkg/libimobiledevice/keyedarchiver.go:163-177 | every item stands in a slot, in order; panics exactly on a nested container |
| InterningArchiver.NSKeyedArchiver.Encode | pkg/libimobiledevice/keyedarchiver.go:153-184 | the root of each kind; UID 0 for booleans and floats |
| InterningArchiver.NSKeyedArchiver.Marshal | pkg/libimobiledevice/keyedarchiver.go:143-193 | started on empty tables it leaves them empty; no two slots are equal and "$null" is UID 0 |
| InterningArchiver.NSKeyedArchiver.Unmarshal | pkg/libimobiledevice/keyedarchiver.go:244-260 | the specified conversion of the root, and the tables empty again unless it panicked |
| InterningArchiver.InterningRoundTrip | pkg/libimobiledevice/keyedarchiver.go:143-193 | despite shared slots the value comes back if and only if it is a string, an integer, or a flat slice or map of scalars other than UIDs; what booleans, floats and byte slices come back as |
| AuxBuffers.AuxBuffer.AppendObject | pkg/libimobiledevice/auxbuffer.go:20-31 | appends the item of an archive of the value, and nothing if Marshal panics |
| AuxBuffers.AuxBuffer.AppendInt32 | pkg/libimobiledevice/auxbuffer.go:39-43 | appends the item |
| AuxBuffers.AuxBuffer.AppendInt64 | pkg/libimobiledevice/auxbuffer.go:33-37 | appends the item |
| AuxBuffers.AuxBuffer.Bytes | pkg/libimobiledevice/auxbuffer.go:61-67 | the body framed by magic and length |
| AuxBuffers.UnmarshalAuxBuffer | pkg/libimobiledevice/auxbuffer.go:69-137 | ends on arbitrary bytes with the specified items or fault |
| AuxBuffers.AuxRoundTrip | pkg/libimobiledevice/auxbuffer.go:20-137 | any sequence of appended items, blobs neither empty nor too long, is read back in order and nothing else |
| AuxBuffers.ParseBody | pkg/libimobiledevice/auxbuffer.go:90-134 | the same in front of any further bytes |
| AuxBuffers.EmptyBlobLast | pkg/libimobiledevice/auxbuffer.go:104-107 | an empty blob at the end is an end-of-file error for the whole buffer |
| AuxBuffers.ParseBound | pkg/libimobiledevice/auxbuffer.go:90-134 | every value read took at least twelve bytes of the input |
| AuxBuffers.ItemOnWire | pkg/libimobiledevice/auxbuffer.go:20-43 | the bytes of an item: flag 10, its type, the length of its blob or the integer in two's complement |
| AuxBuffers.FrameOnWire | pkg/libimobiledevice/auxbuffer.go:61-67 | the bytes of the frame: 0x01f0, the length, the body |
| AuxBuffers.ParseEntries | pkg/libimobiledevice/auxbuffer.go:90-134 | whatever a peer writes, any flags, either type number of an integer, dictionary keys and unknown types between them: the values are read in order |
| AuxBuffers.ParseBlob | pkg/libimobiledevice/auxbuffer.go:99-114 | an object of any announced length: a short blob is filled up with zeros, an empty one is an end of file, and the decoder's failure is the buffer's |
| AuxBuffers.CutOff | pkg/libimobiledevice/auxbuffer.go:91-126 | an entry cut off anywhere before its blob is an end of file |
| AuxBuffers.ParseFrame | pkg/libimobiledevice/auxbuffer.go:69-88 | any magic number passes; a body shorter than announced is refused and a longer one is read to its end |
| DtxPackets.PackHeader | pkg/libimobiledevice/packet_dtxmessage.go:76-104 | the 32 bytes of the header |
| DtxPackets.PackPayload | pkg/libimobiledevice/packet_dtxmessage.go:20-34 | the 16 bytes of the payload header |
| DtxPackets.UnpackHeader | pkg/libimobiledevice/packet_dtxmessage.go:110-140 | consuming the buffer field by field reads the header, exactly if 32 bytes are there |
| DtxPackets.HeaderRoundTrip | pkg/libimobiledevice/packet_dtxmessage.go:76-140 | unpacking what was packed gives every field back |
| DtxPackets.HeaderInverse | pkg/libimobiledevice/packet_dtxmessage.go:76-140 | and packing what was unpacked gives the bytes back |
| DtxPackets.PayloadRoundTrip | pkg/libimobiledevice/packet_dtxmessage.go:20-52 | the same for the payload header |
| DtxPackets.HeaderLayout | pkg/libimobiledevice/packet_dtxmessage.go:76-104 | at which bytes of the header each field stands, least significant byte first |
| DtxPackets.PayloadLayout | pkg/libimobiledevice/packet_dtxmessage.go:20-34 | the same for the payload header |
| DtxMessages.PackCall | pkg/libimobiledevice/packet_dtxmessage.go:162-184 | header, payload header, auxiliary buffer and selector in this order |
| DtxMessages.AssembleFragments | pkg/libimobiledevice/client_dtxmessage.go:118-164 | accepted fragments 1 to k are consumed exactly and their bodies put together in order |
| DtxMessages.Synchronised | pkg/libimobiledevice/client_dtxmessage.go:118-164 | a message sent whole or in fragments whose headers are accepted is consumed to its last byte, whatever follows, and yields its payload |
| DtxMessages.SynchronisedRun | pkg/libimobiledevice/client_dtxmessage.go:118-164 | any number of such messages come out one by one, each with its own payload |
| DtxMessages.ConsumedIff | pkg/libimobiledevice/client_dtxmessage.go:135-158 | a whole message is consumed if and only if its header is accepted or it has no body; a refused one leaves the body on the stream |
| DtxReading.StreamRead | pkg/libimobiledevice/client_dtxmessage.go:118-164 | any stream of bytes is a number of turns of the loop and what stands behind them; the loop ends with the first turn that is the last of its message, or breaks off, with the error and the bytes left unread as specified, where a header is missing or refused or a body is short; counter, payload and the request to be answered are those of the turns |
| DtxReading.PayloadTaken | pkg/libimobiledevice/client_dtxmessage.go:166-201 | which bytes of a payload are the arguments and which the object, for any announced lengths, and when they are a panic |
| DtxReading.PartsDecoded | pkg/libimobiledevice/client_dtxmessage.go:208-224 | what a message of two parts says, or fails with: each part that is there is decoded on its own, one that is not gives an empty list or nil |
| DtxReading.MessageSays | pkg/libimobiledevice/client_dtxmessage.go:166-224 | so a payload of two parts whose lengths are right says what its parts say, either of them there or missing |
| DtxReading.ShortPayloadIff | pkg/libimobiledevice/client_dtxmessage.go:166-170 | only a payload without a whole header is refused as short |
| DtxClient.DtxMessageClient.SendDTXMessage | pkg/libimobiledevice/client_dtxmessage.go:60-110 | takes the next identifier and writes the call packet, or the part of it the connection took, and then reports an error |
| DtxClient.DtxMessageClient.ReceiveDTXMessage | pkg/libimobiledevice/client_dtxmessage.go:112-248 | one message read off the stream by the fragment loop: filed, queued for a reply, or the error it breaks off with |
| DtxClient.DtxMessageClient.Finish | pkg/libimobiledevice/client_dtxmessage.go:166-247 | where a decoded message goes: to its callback, and then to the queue of replies or under its key |
| DtxClient.DtxMessageClient.GetResult | pkg/libimobiledevice/client_dtxmessage.go:318-326 | takes a result out of the map at most once |
| DtxClient.DtxMessageClient.SendReply | pkg/libimobiledevice/client_dtxmessage.go:364-398 | answers one queued request |
| DtxClient.DtxMessageClient.MakeChannel | pkg/libimobiledevice/client_dtxmessage.go:281-308 | an open channel costs nothing; otherwise the request is sent, the result awaited unless the write broke off, and the next number recorded exactly if it came |
| DtxClient.ChannelsNumbered | pkg/libimobiledevice/client_dtxmessage.go:281-308 | over any sequence of succeeding and failing calls the names of those that succeeded, and no others, stand one-to-one for 1 to n, and no name changes its number |
| DtxClient.DtxMessageClient.Invoke | pkg/libimobiledevice/instruments.go:26-37 | sends and, if a reply is expected and the write did not break off, takes what is filed under the identifier sent |
| DtxClient.DtxMessageClient.StartReceive | pkg/libimobiledevice/client_dtxmessage.go:338-356 | the receive loop: one message after another until an error whose text has "EOF" in it, from the stream, a short payload or a short auxiliary buffer |
| DtxClient.LoopReceives | pkg/libimobiledevice/client_dtxmessage.go:338-356 | it makes all its receives in a row and stops exactly at the first such error |
| DtxClient.EndsIff | pkg/libimobiledevice/client_dtxmessage.go:343-352 | the errors it stops at are those whose text names EOF |
| DtxRuns.CounterBounds | pkg/libimobiledevice/client_dtxmessage.go:90-91 | until it wraps, the counter never decreases and bounds every identifier sent or accepted in any run |
| DtxRuns.FreshIdentifier | pkg/libimobiledevice/client_dtxmessage.go:90-91 | after any run without a wrap, the next identifier exceeds all seen if and only if the counter is not at its last value |
| DtxRuns.DeliveryConservation | pkg/libimobiledevice/client_dtxmessage.go:236-243 | in any interleaving, as multisets: results filed are still filed, handed to one waiter, or overwritten under the same key |
| DtxRuns.CallbacksRun | pkg/libimobiledevice/client_dtxmessage.go:226-231 | in any interleaving, registrations included, every message decoded goes to one callback, the one registered for its object by then or else the catch-all, in order, and nothing else does |
| DtxRuns.ReplyConservation | pkg/libimobiledevice/client_dtxmessage.go:233-234 | in any interleaving, as multisets: the messages decoded in some header of which a reply was asked for, each counted by the last such header, are taken up for an answer once or still queued |
| DtxRuns.AskedIff | pkg/libimobiledevice/client_dtxmessage.go:131-133 | a message that arrives whole or in fragments and is decoded is queued for a reply if and only if one of its headers asks for one, and the last such header is answered |
| DtxRuns.OutgoingRun | pkg/libimobiledevice/client_dtxmessage.go:60-110 | in any interleaving the stream holds the calls and answers of the run in order, each as far as its write got, and nothing else |
| DtxRuns.RepliesWritten | pkg/libimobiledevice/client_dtxmessage.go:364-398 | of the messages accepted that asked for a reply, those whose reply stands on the stream whole, those whose write broke off and those still queued are all; the middle part is empty if no write breaks off |
| DtxRuns.CallOnWire | pkg/libimobiledevice/client_dtxmessage.go:60-110 | the bytes of a call, read back: all nine fields of the header, lengths that add up, and the two parts in place |
| DtxRuns.AnswerEchoes | pkg/libimobiledevice/client_dtxmessage.go:365-398 | the bytes of an answer, read back: all nine fields, identifier and channel echoed, conversation index one further, no reply asked for |
| DtxRuns.ReplyReceived | pkg/libimobiledevice/client_dtxmessage.go:131-149 | a reply read by this library is filed without asking for a reply itself, exactly if it answers an opening message and the counter still stands at its identifier |
| DtxRuns.FiledInRun | pkg/libimobiledevice/client_dtxmessage.go:233-243 | a result under a key that was free was filed by some step of the run, out of a message of conversation 0 or 1 with that identifier |
| DtxRuns.KeysRun | pkg/libimobiledevice/client_dtxmessage.go:139-149 | no result is ever filed above the counter, over any run without a wrap |
| DtxRuns.InvokeOwnReply | pkg/libimobiledevice/instruments.go:26-37 | whatever is taken under a call's identifier was filed there after the call: an answer to it, or a message the peer opened under it |
| DtxRuns.ReplyFiled | pkg/libimobiledevice/client_dtxmessage.go:139-245 | a reply, whole or in fragments, is consumed and filed under its identifier if the counter stands there, and refused otherwise |
| DtxRuns.CallGetsReply | pkg/libimobiledevice/client_dtxmessage.go:139-331 | in any interleaving the reply to a call is filed for it if and only if no larger identifier has been seen since, and a later poll gets what it says unless something else was filed or polled there |
| DtxRuns.CallAnswered | pkg/libimobiledevice/instruments.go:26-37 | so a call that waits until its reply has been received, as Invoke and MakeChannel do, returns what it says if no larger identifier was accepted meanwhile; otherwise the reply is refused |
| DtxRuns.CallAnsweredWith | pkg/libimobiledevice/client_dtxmessage.go:166-331 | on the wire: if the reply is a header, a payload header and two parts, either of which may be missing, the caller gets the decoded arguments and object |
| DtxRuns.CallIsRun | pkg/libimobiledevice/instruments.go:26-37 | a call is a run of the steps send, receive and poll, or of the send alone if no reply is expected or the write broke off; what it returns is what its poll took out |
| DtxRuns.ReceiveFails | pkg/libimobiledevice/client_dtxmessage.go:112-247 | a receive that fails changes nothing but the counter and the stream, and fails as its stream or its payload does |
| DtxRuns.StoredLast | pkg/libimobiledevice/client_dtxmessage.go:236-243 | a result is filed under the identifier of the last header, unless its object is "_notifyOfPublishedCapabilities:" |
| DtxRuns.ReplyAcceptedIff | pkg/libimobiledevice/client_dtxmessage.go:139-142 | the answer to a call passes the checks after any run if and only if the run has seen no larger identifier |
| DtxRuns.StaysUntilPolled | pkg/libimobiledevice/client_dtxmessage.go:314-331 | a result once filed stays as it is until something is filed or polled under its key |
| EndToEnd.CallReceived | pkg/libimobiledevice/client_dtxmessage.go:60-224 | any call packet is consumed exactly, and its parts reach the decoder if and only if it expects no reply |
| EndToEnd.ArgumentsRead | pkg/libimobiledevice/auxbuffer.go:20-137 | every list of archived plain values and integers is read back as these values |
| EndToEnd.ChannelArgumentsRead | pkg/libimobiledevice/client_dtxmessage.go:287-291 | the arguments of a channel request are read as the number and the name |
| EndToEnd.ChannelRequestRead | pkg/libimobiledevice/client_dtxmessage.go:281-308 | what MakeChannel puts on the wire, read back: channel 0, a reply expected, the selector "_requestChannelWithCode:identifier:", and as arguments the number the channel is then recorded under and its name |
| EndToEnd.CallEndToEnd | pkg/libimobiledevice/client_dtxmessage.go:60-248 | for every selector and argument list the receiver files exactly the selector and the arguments under the call's key, and stands at the next byte of the stream |
| WebInspectors.WebInspectorClient.SendPacket | pkg/libimobiledevice/webinspector.go:61-96 | sends the chunks of the packet and succeeds, or sends those before the write that fails |
| WebInspectors.WebInspectorClient.ReceiveWebkitMsg | pkg/libimobiledevice/webinspector.go:114-149 | collects partial chunks until a final one and empties the buffer |
| WebInspectors.ChunksUnique | pkg/libimobiledevice/webinspector.go:74-93 | full partial chunks and one final chunk, together the packet, can be cut in one way only |
| WebInspectors.Completed | pkg/libimobiledevice/webinspector.go:129-148 | chunks arriving on any buffer complete it to buffer and packet and empty it |
| WebInspectors.ReassembleAny | pkg/libimobiledevice/webinspector.go:129-148 | any chunks on any buffer: the first final one with a text closes the message behind what was buffered; without one everything stays buffered |
| WebInspectors.ChunkRoundTrip | pkg/libimobiledevice/webinspector.go:66-148 | from an empty buffer the packet is rebuilt, and no chunk more is read, if and only if it is longer than one chunk |
| WebInspectors.ChunkRun | pkg/libimobiledevice/webinspector.go:66-148 | packets sent one after the other come out one by one, those of one chunk as the empty string, and the buffer is empty again |
| Afc.HeaderRoundTrip | pkg/libimobiledevice/packet_afc.go:21-65 | unpacking what was packed gives every field back |
| Afc.HeaderInverse | pkg/libimobiledevice/packet_afc.go:21-65 | and packing what was unpacked gives the bytes back |
| Afc.HeaderLayout | pkg/libimobiledevice/packet_afc.go:21-38 | at which bytes behind the magic each field stands, least significant byte first |
| Afc.AfcClient.Send | pkg/libimobiledevice/afc.go:41-68 | writes header, data and payload in two writes, or a prefix of them if one of the two fails |
| Afc.AfcClient.ReceiveMessage | pkg/libimobiledevice/afc.go:70-105 | reads one message or fails as specified, on any bytes |
| Afc.PacketRoundTrip | pkg/libimobiledevice/afc.go:41-105 | operation, data and payload of one packet come back, and nothing behind it is touched |
| Afc.MessageRead | pkg/libimobiledevice/afc.go:70-105 | a header of any lengths in front of any bytes: how many are taken, which are data and which payload, zeros for data that is missing, and when it is an error or a panic |
| Afc.HeaderMissing | pkg/libimobiledevice/packet_afc.go:42-49 | a stream without a whole header, or with a foreign one |
| Afc.PacketsRoundTrip | pkg/libimobiledevice/afc.go:41-105 | so do those of any sequence of sends |
| Afc.AnswerNumbers | pkg/libimobiledevice/afc.go:22-28 | the i-th of them carries the i-th number after the last one used |
| AfcStrings.ToCString | afc.go:307-314 | each string followed by a NUL |
| AfcStrings.Strings | pkg/libimobiledevice/afcmessage.go:26-36 | the pieces between NULs without the last, of a Data message |
| AfcStrings.StringsRoundTrip | afc.go:307-314 | Strings undoes toCString if and only if no string holds a NUL, in a message of operation 2 alone |
| AfcStrings.PayloadRoundTrip | pkg/libimobiledevice/afcmessage.go:26-36 | toCString undoes Strings if and only if the payload is empty or ends in a NUL |
| AfcStrings.MapOf | pkg/libimobiledevice/afcmessage.go:15-24 | the map of consecutive pairs; panics exactly on an odd number of strings |
| AfcStrings.MapKeys | pkg/libimobiledevice/afcmessage.go:18-22 | its keys are those of the pairs |
| AfcStrings.LastWins | pkg/libimobiledevice/afcmessage.go:18-22 | the value of a key is that of its last pair |
| SafeConns.SafeConn.Read | pkg/libimobiledevice/usbmux.go:363-373 | a read that succeeds takes exactly the next n bytes, and it does succeed on any schedule of positive short reads |
| SafeConns.SafeConn.Write | pkg/libimobiledevice/usbmux.go:339-349 | puts a prefix of its data on the stream, of the length and with the outcome specified |
| SafeConns.WriteTurns | pkg/libimobiledevice/usbmux.go:339-349 | a write moves what the turns it needs offer, up to its length, and ends as the last of them says |
| SafeConns.WriteComplete | pkg/libimobiledevice/usbmux.go:339-349 | a write that reports success wrote all its data if and only if it met no turn of zero bytes |
| CrashReportMovers.CrashReportMover.Callback | crashreportmover.go:47-105 | one visit: what it copies, notes for extraction and removes, for every way it may fail or be cut short |
| CrashReportMovers.CrashReportMover.WalkDir | crashreportmover.go:140-167 | ends on any finite tree; visits each entry below the directory at most once and a directory after its contents, although the visits remove files from the tree; reports no error exactly if the device answers about everything below that it shows, and then has visited every such entry |
| CrashReportMovers.AllSeenIff | crashreportmover.go:140-167 | a walk is shown everything if and only if no directory that passes for empty has entries |
| CrashReportMovers.ReplayDevice | crashreportmover.go:101-104 | visits take nothing off the device but files they visited |
| CrashReportMovers.VisitsStep | crashreportmover.go:148-164 | the visits of a directory's entries, put together in any listing order, are still each once and contents first |
| CrashReportMovers.CrashReportMover.Move | crashreportmover.go:106-138 | the walk from the root, which goes well exactly if the device answers about everything it shows, and then the extraction of descriptions if asked for |
| CrashReportMovers.CrashReportMover.ExtractName | crashreportmover.go:115-134 | one description read back and saved, for every way it may fail |
| CrashReportRuns.RemovedIff | crashreportmover.go:90-104 | a file is gone if and only if it was visited, could be copied, its copy was taken for finished, it could be removed, and was not to be kept |
| CrashReportRuns.HostHolds | crashreportmover.go:47-105 | whatever fails and whatever is kept, a host file holds as much as the copy of the last visit that created it got to, and is what it was if there was none |
| CrashReportRuns.HostNames | crashreportmover.go:55-62 | where a file is copied to, which copies are property lists, and where their descriptions go |
| CrashReportRuns.HarmlessLossless | crashreportmover.go:47-105 | whatever fails, every content is still on the device or complete on the host, if files that share a host name are empty and no copy is cut short unnoticed |
| CrashReportRuns.ClashLoses | crashreportmover.go:55-58 | and if not, a run that loses one |
| CrashReportRuns.LosslessIff | crashreportmover.go:47-105 | so nothing is lost in any run without such a copy if and only if no two visited files share a host name, unless both are empty |
| CrashReportRuns.CutShortIff | crashreportmover.go:90-104 | where no names clash, a run loses nothing if and only if no copy is cut short unnoticed |
| AfcFiles.Err | pkg/libimobiledevice/afcmessage.go:42-110 | a message is an error exactly if it carries one of the statuses listed |
| AfcFiles.ReadFile | afc.go:438-461 | one read: a piece, an error, or the end of the file for any answer without a payload |
| AfcFiles.CopyAll | crashreportmover.go:90-93 | the copy loop over these reads |
| AfcFiles.CopyPieces | afc.go:438-461 | whatever the answers, a copy has written the pieces before the first answer that brings none, and that answer decides whether it ends well |
| AfcFiles.CopyExact | afc.go:438-461 | a copy of what a device serves is a beginning of the file; one without an error is all of it if and only if no status without an error came early |
| AfcFiles.UnlistedCuts | pkg/libimobiledevice/afcmessage.go:52-110 | status 24 cuts a copy short without an error |
| CrashReportRuns.SyncedClashes | crashreportmover.go:58-58 | a name and the same name with ".synced" share one, unless it is empty |
| CrashReportRuns.UneventfulRun | crashreportmover.go:47-105 | when nothing fails the device is as it was if files are kept, and otherwise exactly the visited files that can be copied are gone; either way the host has gained nothing else, and it holds every content if and only if files that share a host file agree |
| CrashReportRuns.OnlyDirectoriesLeft | crashreportmover.go:101-104 | a whole such walk leaves all directories and nothing else if and only if every file can be copied |
| CrashReportRuns.SyncedAlone | crashreportmover.go:56-83 | which is every file not called ".synced" |
| CrashReportRuns.ExtractsPlists | crashreportmover.go:60-62 | the names extracted are the property lists visited, in order |
| CrashReportRuns.DescriptionsSaved | crashreportmover.go:114-135 | when nothing fails each list with a description has it saved beside it |
| CrashReportRuns.ExtractionLeaves | crashreportmover.go:114-135 | however far each extraction gets, a host file holds what the last one that wrote to it left there |
| CrashReportRuns.MoveCopiedIff | crashreportmover.go:39-138 | when nothing fails, extraction included, the move leaves every copied content on the host if and only if files that share a host name agree and each description saved over a copied file echoes it |
| CrashReportRuns.MoveWithoutLoss | crashreportmover.go:106-138 | if no description goes over a copied file it does not matter how far the extractions get |
| CrashReportRuns.MoveLosslessIff | crashreportmover.go:39-138 | so whatever the lists say, nothing copied is lost again if and only if files that share a host name agree and no description goes over a copied file |
| CrashReportRuns.CrashShadowed | crashreportmover.go:130-131 | the description of "x.plist" goes over the copy of "x.crash" |
| Lockdowns.Lockdown.Handshake | lockdown.go:140-167 | the exchanges of a handshake and when it succeeds |
| Lockdowns.Lockdown.StartSession | lockdown.go:229-266 | stops a running session first, records the session answered unless it cannot be secured |
| Lockdowns.Lockdown.StopSession | lockdown.go:268-296 | names the session on record and forgets it once confirmed |
| Lockdowns.Lockdown.StartService | lockdown.go:298-331 | the port and encryption answered, or failure |
| Lockdowns.Lockdown.OpenService | lockdown.go:530-560 | the whole service start, any exchange failing |
| Lockdowns.ServedStages | lockdown.go:530-560 | whatever fails, a service start sends the requests of its stages up to the first that fails, and succeeds if and only if none does: the device calls itself lockdown, a device not paired is paired and saved, a session left over stopped, one started and secured, the service answered, the session stopped, the connection made and secured |
| Lockdowns.SessionDiscipline | lockdown.go:229-296 | over any sequence of calls, whatever fails: no session is started while one is on record, a stop names the one on record, and a successful service start leaves none |
| Lockdowns.SuccessfulService | lockdown.go:530-560 | the exact requests of a service start that succeeds, whatever session was on record before |
| Lockdowns.ServiceInSession | lockdown.go:229-266 | and the service is asked for in the session just answered: inside one if and only if the reply names it |
| Lockdowns.NamelessOutside | lockdown.go:247-265 | a start that succeeds outside any session |
| Lockdowns.OpenSessions | lockdown.go:258-264 | of the sessions answered, the device has open exactly the one on record and every one that could not be secured |

## Left out

- Archiver.Archive: integer kinds are one atom, so a configuration field of a sized integer kind, which the code puts behind a reference, is kept in place; a configuration handed in by value and nil pointers, which panic, are not values here.
- Unarchiver.ConvertValue: the overflow of a date's duration and strings that are not valid UTF-8 are not modelled; floats are the finite ones, without a negative zero.
- InterningArchiver.NSKeyedArchiver.Id: integers of different Go kinds are different keys of objRef and take slots of their own; here they are one atom and share one.
- InterningArchiver.NSKeyedArchiver.Marshal: elements that are nil, dates, errors or pointers to library structs, and maps with keys other than strings, are not in its domain.
- DtxClient.DtxMessageClient.GetResult: waiting is the number of messages received before a poll; sleeps and the 30-second limit are not modelled.
- DtxClient.DtxMessageClient.ReceiveDTXMessage: what a callback does is not modelled, only which one is given what; nor is the last callback of the receive loop when it ends.
- DtxClient.DtxMessageClient.StartReceive: the reply loop ends with the receive loop and is not modelled; the error texts of the property-list library are taken not to contain "EOF".
- DtxClient.DtxMessageClient.SendReply: requests wait in a multiset instead of goroutines blocked on a channel, so any order of answers is possible.
- WebInspectors.WebInspectorClient.SendPacket: that the dictionary a chunk travels in survives the XML property list, its text being cut from bytes with a binary length in front, is assumed.
- WebInspectors.WebInspectorClient.ReceiveWebkitMsg: the type assertions on a chunk are lookups that find the empty string; a reply without partial support is handed through and not modelled.
- CrashReportMovers.CrashReportMover.Callback: the errors of closing either file are not looked at by the code and not modelled; a host path that is a directory is a failing create; whenDone is not called.
- Lockdowns.Lockdown.Handshake: the exchanges inside Pair are one request that may fail.
- The byte format of property lists: an uninterpreted pair of functions that is faithful on archives.
- Sockets, dialing, deadlines, TLS and certificates: a stream with short reads and writes and failures.
- The reflect dispatch: a datatype of the values it distinguishes.
- Aliasing of slices and maps: values are copied, and the info map lost with a nil table is marked by a flag.
- DTX publishedChannels and Connection, AppendBytes and the unread magic of the auxiliary buffer.
- AFC writes, locks and the remaining operations: one exchange each over what is modelled.
- The service wrappers, performance data, locations, packet capture, IPA files, provisioning profiles and images: request and response plumbing, or code outside the repository.
