# fCOPSS, modelled and proved in Dafny

fCOPSS is a content-oriented publish/subscribe system. Subscribers send content descriptors (CDs) such as
`/1(/2/3/0)/sports/tennis` to a router; publishers send publications, which the router forwards to a
rendezvous point (RP) and, when they come back, to every face with a matching subscription. This project
models the router, the RP, the message formats, the descriptor language and the TCP transports, and proves:

- **Streams.** However a TCP stream is cut into reads, the 8192-byte reassembly buffer delivers the one
  greedy parse of the bytes, never overfills, and shuts down exactly when a full buffer begins with no
  complete block. Packets sent over a link arrive decoded, complete and in order (`TcpLink`).
- **Descriptors.** Exactly which URIs are accepted is stated on their words; a parenthesis of the other kind
  inside a word that opens or closes is accepted as part of it, although the error texts suggest otherwise.
  Every accepted URI is `C*` or `C+ O+ A C+` (component, optional, asterisk). Printing is
  injective on all byte values. Printing and reading back is the identity exactly on safe values. Comparison
  is one total order, whichever elements carry cached wire bytes, exactly where differences of types and
  lengths keep their sign in an `int`. A parsed asterisk and a decoded element of type 2^31 + 83 come out the wrong way
  round.
- **Matching.** The walk ends with an answer on every input exactly for entries of known element types in which
  a component follows every optional; other decoded entries can hang it or send it past the end. On grammatical
  entries the greedy choice is characterised exactly, and it decides "some prefix of the optionals was
  taken" for every input exactly when no optional repeats the component behind the asterisk. The pattern
  `/1(/2)/2/x` with input `/1/2/x` is a concrete miss.
- **Tables.** The lists of entries refine a map from (descriptor, face) pairs; lookup in the FIB is longest
  prefix, least cost, smallest face id. Over whole timed histories every subscription present stands: its
  last add was not followed by a removal or its own expiry. The converse, that what stands is present, holds for a
  subscription throughout a history if and only if no expiry completion runs for it after it was renewed
  since that completion was queued. A concrete history shows such a completion removing a fresh subscription.
- **The system.** Over every run of clients, one router and one RP: tables never name a dead face, ids are
  never reused, and whatever publication reaches a face from the RP was published before and had a matching
  subscription, sent on that face, handled and not ended when the router sent it. No face gets more copies than
  there were publications. Whatever else goes on, a publication forwarded to the RP is delivered once to every
  face with such a subscription when its answer is handled, and on a drained link it always is.
- **Commands that end the router.** However the events of its one attempt to connect come, `fibAdd` ends the router
  exactly if its port or cost is no number in range, or it connects to a TCP endpoint without a face and either
  the completions of the connect and of its timer are queued at once, or the connection succeeds although the
  name is no descriptor. Every other attempt gets exactly one reply.

`dafny verify dfyconfig.toml` checks everything.

## Layout

| file | models |
|---|---|
| Bytes.dfy, Tlv.dfy | bytes, `memcmp`, TLV numbers and blocks, cutting a byte string into blocks |
| TcpStream.dfy, TcpTransport.dfy, ClientTransport.dfy | reassembly as a function of the stream, and the two in-place implementations; the send queue |
| Descriptors.dfy, CdPrint.dfy, CdParse.dfy, CdUri.dfy, CdCompare.dfy | descriptors: grammar, printing, parsing, comparing |
| Matcher.dfy | subscription matching |
| Wire.dfy, Packets.dfy, TcpLink.dfy | encoding and decoding, cached wires, packets over a stream |
| HopTable.dfy, StRuns.dfy, St.dfy, Fib.dfy | the two tables, timers |
| Lexical.dfy, FibDump.dfy | numbers as text, the dump format and its reader |
| RouterSpec.dfy, Router.dfy | faces and forwarding |
| ConnectRuns.dfy, CmdServer.dfy | control commands, attempts to connect |
| Network.dfy, Delivery.dfy, Counting.dfy | whole-system runs: what they keep, what they deliver, how often |
| Examples.dfy | packets byte by byte, texts, matches and lookups one by one |

## Assumptions

- One single-threaded event loop runs all handlers.
- TLV types and lengths are in the shortest form, as section "Variable Size Encoding for TLV-TYPE and
  TLV-LENGTH" of the NDN Packet Format Specification demands; the block reader rejects any other form.
- `Block::fromBuffer` returns the first complete TLV at the front of a buffer, or fails. Types have 32 bits,
  lengths 64.
- ndn-cxx prints a name component by the rule of `Optional::toUri`.
- Destroying a deadline timer aborts its wait only while the completion is not queued yet; a completion that
  is queued runs. This is what asio does, and it is the reason for the conditions in `StRuns.PresenceIff` and
  `ConnectRuns.AttemptEndsIff`. Closing a socket treats its connect in the same way.
- Using the empty `m_connection` ends the router; the language leaves it undefined.
- A write's successful completion does not arrive after the close that cancels it.
- A face delivers packets only while it is in the face table, which holds the only lasting reference to it.
- Decoding does not check the grammar (`Wire.DecodedCanBeUngrammatical`), so clients may subscribe to any
  descriptor. A run goes on only while matching ends: `Network.NeverHangs` says when it always does.
- Every link in `Network` is first in, first out and loses nothing, and every packet on it takes at most 8192
  bytes. For TCP this is `TcpLink.LinkDeliversInOrder`. An `Endpoint` can also be UDP, which promises neither
  order nor delivery: for such a face the runs are those in which no datagram was lost or overtaken.
- A face created for an endpoint reports that endpoint when it is looked up, and a socket just connected or
  accepted reports its endpoints.

## Model

| member | source | states |
|---|---|---|
| Tlv.ReadBlockExact | src/router/tcp-transport.cpp:160-164 | a block is found at the front of a buffer exactly when the buffer begins with that block's encoding, and its size is that encoding's length |
| Tlv.WrittenForms | src/lib/cd-optional.cpp:127-128 | byte by byte: numbers are written in one byte below 253, and in two, four or eight behind 253, 254 or 255, by size |
| Tlv.ReadForms | src/router/tcp-transport.cpp:160 | byte by byte: each form is read as its number, if no shorter form could hold it |
| Tlv.ReadLongForm | src/router/tcp-transport.cpp:160 | the same for the form of nine bytes |
| Tlv.BlockForms | src/lib/cd-optional.cpp:120-130 | a block on the wire is its type, its length in one byte or three, and its value |
| Tlv.CutBlocksExact | src/router/tcp-transport.cpp:159-169 | the frame loop finds the only way to split a byte string into whole blocks and a remainder that begins with none |
| Tlv.CutBlocksAppend | src/router/tcp-transport.cpp:159-187 | cutting more bytes resumes from the shifted remainder; frames already cut never change |
| Tlv.ParseElementsExact | src/lib/cd.cpp:218-219 | parsing a value into elements succeeds exactly on encodings of those elements |
| TcpStream.RunIsGreedyParse | src/router/tcp-transport.cpp:148-197 | for every sequence of reads, delivered blocks plus buffered bytes are the greedy parse of all bytes received, and the stream closed exactly when the buffer is full |
| TcpStream.ChunkingIndependence | src/router/tcp-transport.cpp:148-197 | two splits of one stream deliver the same blocks and end in the same state |
| TcpStream.BufferBound | src/router/tcp-transport.cpp:137-146 | every receive is posted with strictly positive free space and the buffer is never overfilled |
| TcpStream.ClosesAtTheSamePlace | src/router/tcp-transport.cpp:171-175 | the byte at which a stream closes does not depend on how it is split |
| TcpStream.NoFalseShutdown | src/router/tcp-transport.cpp:171-175 | bytes that begin a sequence of well-formed blocks of at most 8192 bytes never close the stream, and exactly the complete blocks are delivered |
| TcpStream.ClosedOnlyByOversizeOrGarbage | src/router/tcp-transport.cpp:171-175 | a stream is closed exactly when, behind its complete blocks, a full buffer begins with no block that fits it |
| TcpStream.ClosesAt8192 | src/router/tcp-transport.cpp:171-175 | a receiver closes on 8192 buffered bytes that begin with no complete block, and on no fewer |
| TcpTransport.TcpTransport.HandleReceive | src/router/tcp-transport.cpp:148-208 | in place, a completed receive extends the delivered blocks and the buffer as the stream function says, posts the next receive unless it closed, and runs the finite timeout while part of a block waits |
| TcpTransport.TcpTransport.CutFront | src/router/tcp-transport.cpp:155-169 | the loop over the buffer hands up exactly the blocks of the greedy parse and stops at the remainder |
| TcpTransport.TcpTransport.ShiftDown | src/router/tcp-transport.cpp:181-182 | the overlapping copy moves the remainder to the front unchanged |
| TcpTransport.TcpTransport.Send | src/router/tcp-transport.cpp:63-72 | a packet joins the queue and is written at once only when the queue was empty |
| TcpTransport.TcpTransport.HandleSend | src/router/tcp-transport.cpp:234-246 | a completed write pops its block and writes the next; written blocks followed by the queue stay the submitted blocks in order, with exactly one write in flight while the queue is not empty |
| TcpTransport.TcpTransport.HandleShutdown | src/router/tcp-transport.cpp:122-134 | closing drops what is queued and tells the face, if it still lives |
| TcpTransport.DeliveredIsGreedyParse | src/router/tcp-transport.cpp:148-197 | on every run of the transport object the blocks handed to the face are the greedy parse of the bytes received |
| ClientTransport.ClientTransport.HandleReceive | src/lib/tcp-transport.cpp:286-313 | the client keeps the same buffer bound and closes on the same condition, telling the callback; it throws exactly when a new block is a PubFromRp that does not decode, after the callbacks before it; errors are told to the callback |
| ClientTransport.ClientTransport.ProcessMessage | src/lib/tcp-transport.cpp:318-391 | callbacks get exactly the PubFromRp blocks of the greedy parse, up to the first that does not decode, which throws; otherwise the timer runs exactly when an incomplete message follows |
| ClientTransport.ClientTransport.HandleWait | src/lib/tcp-transport.cpp:338-359 | the callback is told of every wait that ends: timed out, cancelled or failed; only a cancelled one leaves the timer flag alone, and only a failed one closes |
| Descriptors.Equals | src/lib/cd.cpp:228-242 | equality of descriptors is equality of their elements |
| Descriptors.IsPrefixOf | src/lib/cd.cpp:244-258 | the prefix test is the prefix relation on elements |
| Descriptors.ShapeUnique | src/lib/cd.cpp:71-118 | the grammar fixes where the optionals and the asterisk of a descriptor are |
| CdParse.GetEvent | src/lib/cd.cpp:120-151 | the event of a word, by where its only parenthesis is, and the word without it |
| CdParse.ParseCdString | src/lib/cd.cpp:71-118 | the three-state walk accepts exactly the words with at most one well-placed group, and gives their descriptor |
| CdParse.MeaningIsGrammatical | src/lib/cd.cpp:71-118 | every accepted list of words gives `C*` or `C+ O+ A C+` |
| CdParse.MeaningIff | src/lib/cd.cpp:71-151 | words are accepted exactly if they are plain, or plain up to a last one that opens, or have one group that opens, closes and has a plain word behind it; a plain word is not empty and has no parenthesis |
| CdParse.AcceptedWordsNotEmpty | src/lib/cd.cpp:123-125 | a list with an empty word is rejected |
| CdUri.ParseUri | src/lib/cd.cpp:52-69 | trimming, splitting and walking give the descriptor of the URI, or the error |
| CdUri.UriMeaningIff | src/lib/cd.cpp:52-118 | a URI is accepted, as a descriptor, exactly if it is words joined by slashes, with any slashes around, that stand for that descriptor |
| CdUri.OuterSlashes | src/lib/cd.cpp:57 | any number of slashes before and behind makes no difference |
| CdUri.PlainUri | src/lib/cd.cpp:52-69 | words without slashes and parentheses, joined, with any slashes around, are exactly their components |
| Examples.StrayParentheses | src/lib/cd.cpp:127-141 | a parenthesis of the other kind inside a word that opens or closes is accepted as part of it |
| CdUri.AcceptedIsGrammatical | src/lib/cd.cpp:52-118 | every URI the constructor accepts gives a grammatical descriptor |
| CdUri.SplitSlashed | src/lib/cd.cpp:63-64 | splitting at slashes inverts joining words without slashes |
| CdPrint.PrintValue | src/lib/cd-optional.cpp:69-110 | the printing loops write the escaped value, or three dots more for a value of dots |
| CdPrint.DotsPrint | src/lib/cd-optional.cpp:82-87 | a value of dots, the empty one too, prints as three dots more |
| CdPrint.OthersPrint | src/lib/cd-optional.cpp:88-107 | of any other value each letter, digit, `+`, `-`, `.` and `_` prints as itself, and each other byte as `%` and two upper-case hexadecimal digits |
| CdPrint.ToUriInvertible | src/lib/cd-optional.cpp:69-110 | a value can be recovered from its printed form: all-dots values and percent escapes never collide |
| CdPrint.ToUriPrintable | src/lib/cd-optional.cpp:69-110 | a printed value is never empty, uses only unescaped bytes and percent signs, and equals the value exactly when the value is safe |
| CdPrint.PrintCd | src/lib/cd.cpp:386-416 | the printer opens the parenthesis before the first optional and closes it at the asterisk |
| CdUri.PrintShaped | src/lib/cd.cpp:386-416 | a descriptor with a group prints its components, `(`, its optionals, `)` and its components, each behind a slash |
| CdUri.PrintedMeaning | src/lib/cd.cpp:52-118 | reading a printed grammatical descriptor always succeeds and gives its values in printed form, since the parser undoes no escapes |
| CdUri.RoundTripIff | src/lib/cd.cpp:52-118 | printing and reading back is the identity exactly when every value is non-empty, not all dots and made of unescaped bytes |
| CdUri.PrintInjective | src/lib/cd.cpp:386-416 | different grammatical descriptors print differently, whatever bytes they hold |
| CdCompare.FastPathIsCanonical | src/lib/cd-optional.cpp:176-184 | comparing wire bytes gives the order by type, then length, then value |
| CdCompare.CompareIsCanonicalIff | src/lib/cd.cpp:329-348 | the sign of an element comparison is the canonical one exactly when both elements carry their wire, or the types differ by less than 2^31 and, for equal types, the difference of the lengths keeps its sign in an `int` |
| CdCompare.ToInt32Sign | src/lib/cd.cpp:336-342 | which differences keep their sign in an `int`; below 2^32 these are the ones that fit |
| CdCompare.AsteriskMisordered | src/lib/cd.cpp:336-338 | a parsed asterisk compares greater than a decoded element of type 2^31 + 83, though smaller than one of type 83 that is smaller than the other: comparison is not transitive there |
| CdCompare.Compare | src/lib/cd.cpp:306-327 | the sign of a descriptor comparison is the order of the descriptors when the first elements that differ compare right, and only then |
| CdCompare.CompareIsTotalOrder | src/lib/cd.cpp:350-384 | that order is total, transitive, and zero exactly on equal descriptors |
| CdCompare.OrderTransitive | src/lib/cd.cpp:306-327 | transitivity, strict when either comparison is strict |
| Matcher.IsEqualValue | src/router/st-impl.cpp:177-189 | values are compared by length and bytes, types are not |
| Matcher.MatchRegex | src/router/st-impl.cpp:135-175 | whenever the walk answers at all, on any entry, the loop stays in bounds, terminates and gives that answer |
| Matcher.SafeIff | src/router/st-impl.cpp:143-174 | the walk answers on every input exactly when all elements of the entry are components, optionals or asterisks and a component follows every optional |
| Matcher.UnsafeHangs | src/router/st-impl.cpp:143-174 | for every other entry an input on which it does not: it repeats one round for ever, or leaves the entry |
| Matcher.MatchesIff | src/router/st-impl.cpp:135-175 | on a grammatical entry the walk answers yes exactly when the leading components, the longest possible run of optionals and the trailing components are a prefix of the input by value |
| Matcher.StepSkip | src/router/st-impl.cpp:164-168 | the inner skip loop leads from a differing optional to the component behind the asterisk |
| Matcher.GreedyIs | src/router/st-impl.cpp:157-168 | the number of optionals taken is the longest common prefix of the optionals and the input behind the leading components |
| Matcher.MatchIsPossible | src/router/st-impl.cpp:135-175 | soundness: a match means some prefix of the optionals was taken |
| Matcher.GreedyCompleteIff | src/router/st-impl.cpp:157-173 | the walk is complete for all inputs exactly when no optional equals the component after the asterisk |
| Matcher.AmbiguousMisses | src/router/st-impl.cpp:157-173 | every other entry has an input that a choice of optionals fits and the walk rejects |
| Matcher.GreedyMissExample | src/router/st-impl.cpp:157-173 | `/1(/2)/2/x` rejects `/1/2/x` |
| Matcher.MatchExtends | src/router/st-impl.cpp:143-147 | appending components to a matching input keeps the match, for any entry |
| Examples.PatternIsRead | README.md:40 | `/1(/2/3/0)/sports/tennis` is read as seven elements and printed as it was written |
| Examples.PatternMatches | README.md:45-54 | it matches `/1/2/sports/tennis` and not `/1/3/sports/tennis` |
| Wire.Encoder.EncodeElement | src/lib/cd-optional.cpp:120-130 | estimator and encoder agree on the size of an element, and the encoder writes its TLV in front |
| Wire.Encoder.EncodeCd | src/lib/cd.cpp:161-185 | writing the elements back to front gives the descriptor's TLV, and the size returned is its length in both passes |
| Wire.Encoder.EncodeSub | src/lib/sub.cpp:46-57 | the same for a subscription |
| Wire.Encoder.EncodePub | src/lib/pub-to-rp.cpp:50-62 | the same for a publication with its content |
| Wire.WriteSub | src/lib/sub.cpp:72-76 | the estimated size is the size written, and the buffer holds the subscription's block |
| Wire.WritePub | src/lib/pub-from-rp.cpp:84-88 | the same for publications |
| Wire.CdRoundTrip | src/lib/cd.cpp:211-220 | decoding an encoded descriptor gives its elements |
| Wire.DecodedCanBeUngrammatical | src/lib/cd.cpp:211-220 | decoding does not check the grammar |
| Wire.SubRoundTrip | src/lib/sub.cpp:83-94 | decoding an encoded subscription gives its descriptor |
| Wire.DecodeSubIff | src/lib/sub.cpp:83-94 | exactly which blocks decode to a descriptor: elements whose first descriptor is that one |
| Wire.PubRoundTrip | src/lib/pub-to-rp.cpp:88-100 | decoding an encoded publication gives its descriptor and content, for both kinds |
| Wire.DecodePubIff | src/lib/pub-to-rp.cpp:88-100 | the same for publications, with the first content |
| Examples.PublicationBytes | src/lib/pub-to-rp.cpp:50-62 | a publication of each kind byte by byte |
| Examples.SubscriptionBytes | src/lib/sub.cpp:46-57 | a subscription byte by byte |
| Examples.LongContentBytes | src/lib/pub-to-rp.cpp:55 | the length of 2000 bytes of content takes three |
| Wire.PacketRoundTrip | src/router/face.cpp:69-88 | a face that receives an encoded packet dispatches that packet |
| Wire.PacketBlockInjective | src/router/face.cpp:69-88 | different packets have different wires |
| Packets.Sub.WireEncode | src/lib/sub.cpp:65-81 | encoding returns the cached wire or the fresh one, and leaves a wire that decodes to the unchanged descriptor |
| Packets.Sub.WireDecode | src/lib/sub.cpp:83-94 | decoding replaces the descriptor by the decoded one; a throw leaves the rejected wire, beside the old descriptor only if it came before the nested descriptor was reached, and otherwise the descriptor is lost |
| Packets.ThrowCanLoseDescriptor | src/lib/cd.cpp:218-219 | such a wire: a subscription whose nested descriptor ends after a type byte |
| Packets.Sub.SetCd | src/lib/sub.cpp:108-116 | setting the descriptor drops the cached wire |
| Packets.Sub.Equals | src/lib/sub.cpp:118-122 | equality is equality of descriptors together with: neither cached wire has anything beside the descriptor, or both wires are the same |
| Packets.ComparesByDescriptorIff | src/lib/sub.cpp:118-122 | a subscription compares by descriptor with every fresh one exactly if its wire is absent or has the descriptor as its only element |
| Packets.DecodedSubsCanDiffer | src/lib/sub.cpp:118-122 | two decoded subscriptions with one descriptor can compare unequal |
| Packets.Pub.FromPubToRp | src/lib/pub-from-rp.cpp:47-51 | the RP's publication carries the descriptor and content it received |
| Packets.Pub.SetContent | src/lib/pub.cpp:92-104 | a content block is kept, any other is nested, and the cached wire is dropped |
| Packets.Pub.WireEncode | src/lib/pub-to-rp.cpp:70-86 | encoding leaves a cached wire that decodes to the unchanged descriptor and content |
| Packets.Pub.WireDecode | src/lib/pub-to-rp.cpp:88-100 | decoding replaces descriptor and content; after a throw the cached wire does not decode, the content is the old one, and the descriptor is the old, a lost or the decoded one by how far decoding got |
| Packets.Pub.Equals | src/lib/pub.cpp:106-110 | equality of descriptor and content |
| Packets.FreshPubWires | src/lib/pub.cpp:106-110 | fresh wires are equal exactly when descriptor and content are |
| TcpLink.LinkDeliversInOrder | src/router/tcp-transport.cpp:148-246 | encoded packets that fit the buffer arrive decoded, in order and complete, however the stream is split |
| TcpLink.ClientDeliversInOrder | src/lib/tcp-transport.cpp:262-391 | however a stream of encoded packets is split, the client never throws or closes, and its callback has got exactly the PubFromRp packets that arrived whole, in order |
| HopTable.FindEntry | src/router/st-impl.cpp:47 | the search finds the entry of the descriptor |
| HopTable.InsertedRel | src/router/st-impl.cpp:47-58 | erase and insert, or append, is insertion into the relation |
| HopTable.ErasedRel | src/router/st-impl.cpp:66-75 | removing a hop, and its entry with the last one, is removal of the pair |
| HopTable.DeletedRel | src/router/st-impl.cpp:81-85 | removing an entry removes all pairs of its descriptor |
| HopTable.SweepStep | src/router/st-impl.cpp:93-103 | one round of the erase-while-iterating loop deals with exactly one original entry |
| HopTable.WithoutFaceRel | src/router/st-impl.cpp:88-104 | the whole loop removes exactly the pairs of the face |
| St.St.Add | src/router/st-impl.cpp:40-61 | the pair is inserted with a new timer due after the expiry time, and the timer it had is destroyed |
| St.St.RemovePair | src/router/st-impl.cpp:63-76 | exactly the pair and its timer go |
| St.St.RemoveCd | src/router/st-impl.cpp:78-86 | exactly the pairs of the descriptor and their timers go |
| St.St.RemoveFace | src/router/st-impl.cpp:88-104 | exactly the pairs of the face and their timers go |
| St.St.Clear | src/router/st-impl.cpp:106-111 | the table is empty and no timer is armed |
| St.St.Match | src/router/st-impl.cpp:113-133 | the answer is the image of the relation under the matcher |
| St.St.OnExpired | src/router/st-impl.cpp:230-238 | a completion removes the pair bound into it whichever timer that pair has now; an aborted one does nothing |
| StRuns.RunsKeepInv | src/router/st-entry.cpp:48-54 | after every history next hops and live timers correspond one to one, and completions are queued only after their deadline |
| StRuns.StepOnPairs | src/router/st-impl.cpp:40-111 | exactly which pairs each operation leaves |
| StRuns.PresenceIff | src/router/st-impl.cpp:40-111 | for each pair, presence equals "the last add was not followed by a removal, a clear or its own timer's expiry" throughout a history, exactly when no completion of an older timer of that pair runs while it is present |
| StRuns.PresentMeansStanding | src/router/st-impl.cpp:40-111 | in every history, whatever completions run, a present subscription's last add still stands and its timer is the one that add started |
| StRuns.StaleLosesSubscription | src/router/st-impl.cpp:230-238 | such a completion removes a subscription that still stands |
| StRuns.StaleExample | src/router/st-impl.cpp:230-238 | a history in which a subscription renewed after its timer fired is lost at once |
| StRuns.NeverExpiresEarly | src/router/st-entry.cpp:48-54 | a timer's completion runs no earlier than the expiry time after the add that started it, so a renewal starts a whole new period |
| StRuns.NothingOverdue | src/router/st-entry.cpp:48-54 | once due timers were handled, every subscription present was added less than the expiry time ago |
| Fib.Fib.Add | src/router/fib.cpp:33-49 | the hop's cost is set in the map; a name that is no descriptor changes nothing |
| Fib.Fib.RemovePair | src/router/fib.cpp:51-66 | exactly the pair goes |
| Fib.Fib.RemoveName | src/router/fib.cpp:68-78 | exactly the pairs of the descriptor go |
| Fib.Fib.RemoveFace | src/router/fib.cpp:80-96 | exactly the pairs of the face go, erasing while iterating |
| Fib.CheapestHop | src/router/fib.cpp:123-126 | the first cheapest hop by ascending face id |
| Fib.Fib.Match | src/router/fib.cpp:105-137 | the answer is a function of the abstract map alone: not of list order or history |
| Fib.BestIsUnique | src/router/fib.cpp:105-137 | the longest prefix and its cheapest face with the smallest id are unique |
| Fib.AnswerIsOneFace | src/router/fib.cpp:105-137 | the answer is that one face when some entry is a prefix, and empty otherwise |
| Examples.Lookups | src/router/fib.cpp:105-137 | the longest prefix wins over a lower cost, then the cost, then the smaller face id |
| FibDump.ToString | src/router/fib-entry.cpp:107-118 | an entry's text is its descriptor, an equals sign and its hops by ascending face id |
| FibDump.AscendingSorted | src/router/fib-entry.cpp:57-61 | the hops are in the order of their face ids |
| Examples.EntryText | src/router/fib-entry.cpp:107-118 | the text `/a=(101,5)` |
| FibDump.GetFaceId | src/rtctrl/cmd-fibdump.cpp:108-120 | the reader adds exactly the tokens that are 64-bit numbers |
| FibDump.ReaderInvertsWriter | src/rtctrl/cmd-fibdump.cpp:108-120 | from the text of any entry with a hop the reader extracts exactly its next-hop face ids, whatever its descriptor and costs |
| FibDump.Show | src/rtctrl/cmd-fibdump.cpp:81-97 | the ids of all FIB lines are gathered, counted, and the face lines with one of them shown |
| FibDump.DumpIdsAreHops | src/rtctrl/cmd-fibdump.cpp:88-91 | from the dump of a whole table exactly the ids of all its next hops are gathered |
| FibDump.ShownFacesAreHops | src/rtctrl/cmd-fibdump.cpp:93-97 | a face's line is shown exactly when the face is a next hop of some dumped entry |
| FibDump.CountIsShown | src/rtctrl/cmd-fibdump.cpp:92-97 | when the face dump has every next hop, the number reported is the number of faces shown |
| Lexical.DecimalParses | src/rtctrl/cmd-fibdump.cpp:114-118 | a printed number is read back, unless the type is too small |
| Lexical.SignedParses | src/router/cmd-server.cpp:257-258 | a sign is accepted; a minus wraps the number around |
| Lexical.OnlyNumbersParse | src/router/cmd-server.cpp:257-258 | what is read is digits behind at most one sign |
| Router.FaceManager.CreateFace | src/router/face-manager.cpp:53-78 | a new face gets the next 64-bit id and an empty outbox |
| Examples.FirstFace | src/router/face-manager.cpp:36 | the first face gets the id 101 |
| Router.FaceManager.FindEndpoint | src/router/face-manager.cpp:101-116 | the face with the endpoint and the smallest id, if any |
| Router.Forwarder.OnSubReceived | src/router/forwarder.cpp:47-72 | the subscription is recorded and one copy goes along the FIB's answer |
| Router.Forwarder.OnPubToRpReceived | src/router/forwarder.cpp:74-93 | one copy goes along the FIB's answer |
| Router.Forwarder.OnPubFromRpReceived | src/router/forwarder.cpp:95-114 | one copy goes to every face of the table with a matching subscription |
| Router.Forwarder.OnFaceShutdown | src/router/forwarder.cpp:116-124 | the face leaves both tables and the face table |
| Router.Forwarder.FibAdd | src/router/cmd-server.cpp:263-318 | the hop goes through the face of the endpoint; without one, a UDP face is created first, and stays on a bad name, while for TCP a connection is begun and nothing changes |
| Router.Forwarder.AddConnected | src/router/cmd-server.cpp:340-344 | a connection that was made gets a face, and the hop goes through the endpoint's face with the smallest id |
| CmdServer.CmdServer.FibAdd | src/router/cmd-server.cpp:232-318 | arguments are checked and read as the source does; then the route is added at once, or an attempt to connect begins |
| CmdServer.FibAddArguments | src/router/cmd-server.cpp:241-260 | the five arguments become the route's name, type, address, port and cost, if port and cost fit 16 and 32 bits |
| CmdServer.FibAddRefused | src/router/cmd-server.cpp:240-255 | it is refused exactly without one of the five or with another type |
| CmdServer.FibAddOutcomes | src/router/cmd-server.cpp:263-278 | a legal command is done, refused or begins to connect by whether the endpoint has a face, its type, its socket and its name |
| CmdServer.CmdServer.HandleConnect | src/router/cmd-server.cpp:330-363 | one step of the attempt; a connection made adds the route through the endpoint's face |
| CmdServer.CmdServer.HandleConnectTimeout | src/router/cmd-server.cpp:320-328 | one step of the attempt: the socket is closed and dropped |
| CmdServer.CmdServer.FibDel | src/router/cmd-server.cpp:365-418 | the pair or the entry goes, or the command is refused; a port that is no number ends the router |
| CmdServer.FibDelArguments | src/router/cmd-server.cpp:365-397 | a name alone, or with type, address and port, becomes just that |
| CmdServer.FibDelRefused | src/router/cmd-server.cpp:378-396 | it is refused exactly without a name, with part of an endpoint, or with another type |
| CmdServer.CmdServer.FaceDel | src/router/cmd-server.cpp:436-462 | the face of the id is asked to shut down, if there is one; an id that is no number ends the router |
| CmdServer.FaceDelArguments | src/router/cmd-server.cpp:436-451 | the argument becomes the face id, if it fits 64 bits |
| CmdServer.FibAddEndsRouterIff | src/router/cmd-server.cpp:124-363 | over all arguments and event sequences: the router ends exactly by a bad number, by both completions queued at once, or by a connection for a name that is no descriptor |
| CmdServer.BadPortExample | src/router/cmd-server.cpp:257-258 | the port `x` ends any router |
| CmdServer.BadNameExample | src/router/cmd-server.cpp:338-345 | a connection for the name `a)` ends a fresh router |
| ConnectRuns.AttemptEndsIff | src/router/cmd-server.cpp:303-363 | once an attempt is over, the router ended exactly if both completions were queued at once or the connection succeeded with a bad name; otherwise there was exactly one reply, OK exactly if the connection succeeded |
| ConnectRuns.AttemptsEnd | src/router/cmd-server.cpp:303-363 | an attempt that is not over can go on, and is over after four events at most |
| ConnectRuns.TogetherExample | src/router/cmd-server.cpp:320-345 | both completions queued at once end the router in either order, whatever the result and the name |
| Router.Forwarder.FibDel | src/router/cmd-server.cpp:406-418 | the pair of the name and the endpoint's face is removed, or the command fails |
| Router.Forwarder.StDel | src/router/cmd-server.cpp:428-434 | no subscription is left |
| Router.Forwarder.OnExpired | src/router/st-impl.cpp:230-238 | a completion takes its pair out of the router's subscriptions and nothing else |
| Router.RendezvousForwarder.OnPubToRpReceived | src/rendezvous/forwarder.cpp:52-70 | the publication goes back to the face it came from, if that face is known |
| RouterSpec.OneCopyPerSubscriber | src/router/forwarder.cpp:95-114 | a face gets one copy when it is in the table with a matching subscription, however many match, and none otherwise |
| RouterSpec.OneCopyAlongBestRoute | src/router/forwarder.cpp:47-93 | subscriptions and publications to the RP go to the best next hop only |
| RouterSpec.PacketHandled | src/router/forwarder.cpp:47-114 | what handling any packet sends to any face and records, for each kind of packet |
| RouterSpec.ShutdownKeeps | src/router/forwarder.cpp:116-124 | a shutdown removes exactly the face's entries and leaves no dangling id |
| RouterSpec.ShutdownOnce | src/router/forwarder.cpp:116-124 | a repeated shutdown changes nothing |
| RouterSpec.HandlingEndsIff | src/router/forwarder.cpp:95-101 | the router finishes matching every publication exactly when every subscription in its table is a safe entry |
| Network.NoDanglingFaces | src/router/forwarder.cpp:47-124 | in every reachable state both tables name only existing faces |
| Network.NeverReused | src/router/face-manager.cpp:127-132 | ids grow strictly and a face that is gone stays gone |
| Network.NeverHangs | src/router/forwarder.cpp:95-101 | in a run whose subscriptions are all safe entries the router can always handle the next packet |
| Delivery.StepOnLink | src/router/forwarder.cpp:74-114 | each step sends a face at most one packet, and only the packet being handled; what was posted stays |
| Delivery.SubsAreStanding | src/router/forwarder.cpp:47-124 | in every run the subscriptions the router holds are exactly those it handled and that no expiry, clear or shutdown of the face ended since |
| Delivery.SubIsForwarded | src/router/forwarder.cpp:53-65 | the step that handles a subscription records it and sends it on to the face the FIB answers |
| Delivery.WasSent | src/router/forwarder.cpp:74-114 | every packet a face was sent was put there when the router handled that very packet |
| Delivery.EndToEnd | src/router/forwarder.cpp:74-114 | whatever publication reaches a face from the RP was published before with that descriptor and content, and when it was sent the face was in the table with a matching subscription that a client had sent on that face, the router had handled and nothing had ended |
| Delivery.DeliveredInAnyRun | src/rendezvous/forwarder.cpp:52-70 | in any run, whatever other steps and packets come between: the steps that forward a publication to the RP, echo it and handle the answer come in this order, and the last sends one copy to each face with a matching subscription that was handled and not ended by then, and none to others |
| Delivery.DeliveredWhenDrained | src/rendezvous/forwarder.cpp:52-70 | in any run that ends with the RP's link drained and its end known throughout, every publication forwarded to it was so delivered |
| Counting.NoMoreCopiesThanPublications | src/router/forwarder.cpp:74-114 | in every run a face is sent at most as many copies of a publication as there were publications of it |

## Left out

- Sockets, acceptors, resolvers, signals and the event loop itself: only the completions they deliver are modelled.
- UDP transports: a datagram holds one frame.
- The client's connecting, resolving, connection timeout and sending, and its face: error paths that throw out of handlers.
- The rendezvous point's TCP transport and face manager, which are copies of the router's.
- Router.Forwarder.OnAccept: requires that the 64-bit serial is not at its last value, as do the commands that create a face; what the tables mean after 2^64 faces is not modelled.
- CmdServer.FibAddEndsRouterIff: one attempt at a time. A control connection whose read timeout fires just as its command arrives can be replaced by another, whose command then overlaps the attempt.
- CdCompare.Compare: element counts differ by less than 2^31, the largest an `int` difference holds. Where lengths are a multiple of 4 GiB apart, `memcmp` may read past the shorter value; the model compares the common part.
- Descriptor objects' own cached block, and the byte order of copies between buffers: encoding always goes through the elements.
- A content block without wire bytes nested by `setContent`: the nested block is taken with its encoding.
- The texts of parse errors, of which all are one failure here, and of log messages.
- The order in which one packet is sent to several faces: each face has its own queue.
- The subscription dump, whose lines print dates, and the splitting of a command's text into arguments.
- Several routers or rendezvous points, and clients that send PubFromRp.
- Matching that never ends: a run stops there, and what reading past an entry's end finds is not modelled.
- What ndn-cxx leaves of a block's elements when parsing it throws: a parameter of `Packets.Sub.WireDecode`.
