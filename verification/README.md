# Multicast DNS of wlr-remote: codec and responder

A Dafny model of the DNS message codec in `lib/mdns.h` and of the responder in
`src/advertise.c` that announces the service and answers questions about it, with proofs that
the messages mean what they are built to mean.

## How the model is laid out

Three forms of every writing operation stand on top of each other.

1. **Methods** follow the C code: they store bytes into an `array<byte>`, advance a position,
   back-patch lengths, and update a `StringTable` object (16 slots, `count`, `next`) in place.
   Each is proved equal to
2. a **specification function** on the buffer as it was before, stale bytes and all
   (`NameWriter.MakeName`, `Records.AddItems`, `Messages.MulticastMessage`, ...). Under the
   hypotheses below these are proved to refine
3. a **dictionary form** that never looks at a buffer: `NameCodec.EmitName` and
   `RecordCodec.EmitItems` keep the names written so far with their labels and give the bytes.

Readers are methods too, proved against `NameReader.ReadName`, `NameEnd`, `Parser.ParseRecords`
and so on. What a name *means* is `NameReader.NameAt`, which knows nothing of loops or limits on
the number of labels; `ReadNameExact` ties the two.

A buffer that a function only reads (`const void *` in the C code) is a `seq<byte>`; a buffer that
it writes is an `array<byte>`. A pointer into a string is the string and an index. A null data
pointer, which the writers pass on, is `None`. Bytes and the 16- and 32-bit numbers are bounded
subset types; where the C code cuts a length, count or offset to fewer bits, so does the model.
Message builders give the message they would send, parsers take the packet received, and the
callback is a list of what it is told.

| file | part |
|---|---|
| `Bytes` | big-endian numbers, storing at a position |
| `NameReader` | fetching labels, skipping, comparing and extracting names |
| `StringTables` | the ring of known offsets and the search in it |
| `NameWriter`, `NameCodec`, `NameTheorems` | writing names, the dictionary form, round trip |
| `NameExactness`, `FreshNames` | exactly when a written name reads back, against any table and first in a message |
| `Records`, `RecordWriter`, `RecordCodec` | records, gathered text records, length back-patching |
| `Messages`, `Parser` | whole messages built and read |
| `RoundTrip`, `MessageTheorems`, `Delivered`, `QueryTheorems` | what is read is what was built; the class and TTL of every record; the bytes of queries |
| `Listening` | what the listener hears of any packet |
| `Stability`, `StaleBytes`, `Goodbye` | what later writing, a reused buffer and a zero TTL change |
| `TxtParser`, `TextRecords` | text records |
| `Advertise`, `ReplyTheorems` | the responder, the size of its messages |
| `Replies`, `Discovery`, `WireForm` | which questions are answered and what is read in the messages, in plain names and numbers; end to end; the announcement byte for byte |
| `Hostnames` | under which hostnames the service can be asked for |

## Hypotheses, where they come from, and where they are needed

* **Capacity at most 0x4000.** A back-pointer has 14 bits and nothing checks the offset
  (lib/mdns.h:786). The callers use 1024 and 2048.
* **Labels of 1 to 63 bytes, at most 64 in a name** (`NameCodec.LabelShape`): section 2.3.4 of
  RFC 1035; the writer stores the length unchecked (lib/mdns.h:810), the readers stop after 65
  fetches (lib/mdns.h:612, 684). A name has at least one byte (lib/mdns.h:794).
* **No run of labels is repeated on the spot within a name, and all names of a message end in one
  last label that is nowhere else in them** (`NameCodec.GoodName`), for names written against a
  table. The search accepts a stored name that merely begins with the labels sought
  (lib/mdns.h:748-750), sees the entries of the name being written (lib/mdns.h:812), and reads on
  into whatever the buffer held. `FreshNameReadsExactly` shows that for the first name of a message
  this is no more than is needed: for up to 17 labels the name reads back over every buffer if and
  only if it meets the condition. `NameReadsBackExactly` is the exact condition for any name and
  table.
* **A proper hostname** (`ReplyTheorems.HostOk`), in the theorems about what the responder's messages
  mean: labels of 1 to 63 bytes, none of them `local`, and no run of labels repeated, not even
  together with the `_wlr-remote` and `_udp` that follow them in the instance name. The last label is
  `local` (src/advertise.h:10-12). `HostOkExactly` shows that these are exactly the hostnames whose
  names, written first in a reply, are read back whatever the buffer held, up to fourteen labels;
  `LocalHostIsLost` is what happens to hosts with a label `local`. Nothing is asked of the hostname's labels
  for a reply to be built and to fit.
* **Complete questions.** The listener reads a 12-byte header and each question's type and class
  without looking whether they were received (lib/mdns.h:1060-1065, 1083-1084):
  `Parser.Listenable`.

Nothing is asked of a packet's bytes in the theorems about reading: names with pointer cycles,
records cut short and reserved label bytes are all inputs.

## Where the code differs from what one would expect

* A host called `pc.local`, or any host with `local` among the last labels of its name, cannot be asked
  for: a reply about the host or its service instance is built, but the first name in it ends in a
  pointer into itself and cannot be read, in the question of a unicast reply and in the answer of a
  multicast one (lib/mdns.h:801-812; the hostname is taken as `gethostname` gives it,
  src/advertise.c:80): `LocalHostIsLost`, and `PcLocalIsLost` for that very name. A host such as `a.a`
  is lost or not as the reused buffer has it.
* A text record given as the *answer* is counted in the header and never written, in multicast and in
  unicast messages: `HeaderCountsExactly` and `UnicastCountsExactly` make this an if-and-only-if.
* Text records carry a NUL where `=` belongs, and the place of the value is passed over without
  being written, so it shows what the buffer held before (lib/mdns.h:1404-1414):
  `MessageIgnoresStaleBytesExactly`, `WrittenTextSays`.
* A text string may be up to 0x3FFF bytes long, and its length is cut to one byte (lib/mdns.h:1399-1404).
  From 256 bytes on the parser takes bytes of the string for lengths: `StringIsRead` says how any
  string is read, and `LongKeyIsMisread` has the key of 255 letters `A`, in which the parser
  finds a pair.
* A text record of a unicast reply keeps its cache-flush bit, though the builder clears that of every
  other record, as section 6.7 of RFC 6762 asks (lib/mdns.h:1449-1452, 1380-1382):
  `Delivered.SentToOne`.
* The listener's count leaves out the additional records (lib/mdns.h:1118-1123), unlike the
  receiver's (lib/mdns.h:1250-1254): the contract of `Parser.SocketListen`.
* The data of a service record needs 8 bytes to be parsed, so one whose target is the root name,
  which the writer makes in 7, reads as all zeros: `RoundTrip.DataReadsBack`.
* A goodbye differs from its announcement in more than the TTL when the class was left open in a
  record that is not a pointer record: `GoodbyeIsAnnouncementExactly`.
* A byte from 64 to 191 is taken as a label's length by the readers, though section 4.1.4 of RFC
  1035 reserves these.

## Model

| member | source | states |
|---|---|---|
| NameReader.FollowRefsExact | lib/mdns.h:580-592 | following pointers ends at `t` exactly when a chain of at most 16 pointers inside the buffer leads there; cycles never do |
| NameReader.FetchExact | lib/mdns.h:570-602 | a fetch gives a label exactly when such a chain lands on a length byte whose whole label is inside the buffer |
| NameReader.FetchRootExact | lib/mdns.h:570-602 | the terminator is fetched exactly when such a chain ends at a zero byte |
| NameReader.NextSubstring | lib/mdns.h:570-602 | the loop computes the fetch on any bytes, including cycles and pointers cut short, and follows at most 17 pointers |
| NameReader.NameUnique | lib/mdns.h:669-707 | an offset means at most one name |
| NameReader.ReadNameExact | lib/mdns.h:604-707 | reading within the limits gives `ls` exactly when the bytes mean `ls` with at most 16 jumps a label and the name has fewer labels than the limit |
| NameReader.LimitsExactly | lib/mdns.h:604-707 | with the code's limits: exactly names of up to 64 labels with at most 16 jumps a label are read |
| NameReader.NameStable | lib/mdns.h:570-602 | appending to a message, or allowing more jumps, never changes what an offset means |
| NameReader.NameEndStable | lib/mdns.h:604-623 | nor where a name is skipped to |
| NameReader.ReadImpliesSkip | lib/mdns.h:604-623 | whatever can be extracted can be skipped, on arbitrary bytes |
| NameReader.NameEndInside | lib/mdns.h:604-623 | skipping advances and stays inside the buffer |
| NameReader.NameEndExactly | lib/mdns.h:604-623 | a name is skipped to an offset exactly when up to 64 labels lie one after another and then a zero byte, or a pointer from where a label or zero byte is reached, ends it there |
| NameReader.Skip | lib/mdns.h:604-623 | succeeds exactly when the name has an end within the limits, gives that end, and otherwise leaves the offset alone; at most 66 labels are fetched |
| NameReader.StrNCaseEqualExact | lib/mdns.h:644-649 | the C comparison agrees with equality of the lower-case text up to a shared NUL |
| NameReader.StrNCaseEqualNoNul | lib/mdns.h:644-649 | without a NUL each byte must be the same, or the capital and small letter of one another between `A` and `Z` |
| NameReader.StrNCaseEqualPlainly | lib/mdns.h:644-649 | in general the texts up to a NUL must have one length and agree so; nothing after it counts |
| NameReader.SameNameExact | lib/mdns.h:625-667 | names are the same exactly when both can be read and agree label for label in length and text ignoring case |
| NameReader.SameNameStep | lib/mdns.h:636-657 | one round of the comparison decides equality up to what follows |
| NameReader.Equal | lib/mdns.h:625-667 | answers exactly whether two names are the same, an equivalence over any buffers and pointer layouts; on success both offsets are where skipping ends, on failure neither moves; at most 66 labels of each are fetched |
| NameReader.Extract | lib/mdns.h:669-707 | stores exactly the first `capacity` bytes of the dotted form of the decoded labels and nothing else, and ends where skipping ends; on failure the offset stays and the text is empty; at most 66 labels are fetched |
| StringTables.StringFind | lib/mdns.h:771-780 | the first occurrence at or after an offset, or none |
| StringTables.RingHoldsLast | lib/mdns.h:756-769 | after any n additions the ring holds exactly the last min(n, 16) and the next slot is n mod 16 |
| StringTables.TableAdd | lib/mdns.h:756-769 | the object's update is the ring's, and a missing table stays missing |
| StringTables.PrefixOfName | lib/mdns.h:719-750 | an entry that means a name matches the labels sought exactly when that name begins with them: prefix, not equality |
| StringTables.EntryMatches | lib/mdns.h:719-750 | the matching loop decides whether the labels at an entry begin with the labels sought |
| StringTables.LookupExact | lib/mdns.h:717-754 | a hit is the first live entry that matches, and not found means none does |
| StringTables.TableFind | lib/mdns.h:709-754 | the search loops over the whole buffer, stale bytes included, compute that lookup |
| NameWriter.MakeRef | lib/mdns.h:782-787 | two bytes if there is room, nothing otherwise |
| NameWriter.WriteLabel | lib/mdns.h:810-812 | stores a label and enters its offset |
| NameWriter.StringMake | lib/mdns.h:789-824 | from any buffer and table, writes the name and updates the table as specified, and fails exactly then |
| NameCodec.EntryDecides | lib/mdns.h:719-750 | under the hypotheses on names prefix is equality, and no entry of the unfinished name matches |
| NameCodec.LookupIsFind | lib/mdns.h:709-754 | the search over bytes is a search in a dictionary of names, whatever lies past the current position |
| NameCodec.MakeNameEmits | lib/mdns.h:789-824 | the writer refines the dictionary form: same bytes, same table, and failure exactly when they do not fit |
| NameCodec.EmitNameReads | lib/mdns.h:789-824 | what is written means the name with at most one jump a label, and every entry it leaves is a written label that begins a good name |
| NameTheorems.MakeNameFits | lib/mdns.h:789-824 | against any table whatever, writing succeeds when the plain form has room and never takes more |
| NameTheorems.NameFits | lib/mdns.h:789-824 | the length without the trailing dot and two more bytes are always enough |
| NameTheorems.EmitNameSize | lib/mdns.h:789-824 | the compressed form is never longer than the plain one, which is what is written without a table |
| NameTheorems.EmitNameEnds | lib/mdns.h:604-623 | skipping a written name ends where writing it ended |
| NameTheorems.LabelsOfDotted | lib/mdns.h:794-800 | splitting the dotted form of labels gives the labels back |
| NameTheorems.DottedLabels | lib/mdns.h:794-800 | the dotted form of a name's labels is the name with one trailing dot |
| NameTheorems.NameRoundTrip | lib/mdns.h:789-824 | for any sound table, after any evictions: the written name reads back as its labels and text, ends where writing ended, needs at most one jump a label, leaves the table sound, and changes nothing before or after itself |
| NameTheorems.EmitNameShape | lib/mdns.h:789-824 | a written name is labels in full, then its terminator or one pointer to a name that was known before it |
| NameTheorems.PointersGoBack | lib/mdns.h:782-824 | that pointer goes to an offset the table held before, to a label written out before the name starts, from where the rest reads with at most one jump a label |
| NameExactness.NameReadsBackExactly | lib/mdns.h:789-824 | for names of any labels: the written name reads back if and only if the first hit of the search, if there is one, is a name finished before it and is exactly the remaining labels |
| NameExactness.GoodNamesHitWell | lib/mdns.h:748-750 | the hypotheses on names imply that condition for every sound table |
| NameExactness.RepeatedLabelIsWritten | lib/mdns.h:801-812 | a doubled label is written as the label and a pointer to itself |
| NameExactness.RepeatedLabelIsLost | lib/mdns.h:801-812 | so for every label and position writing succeeds and reading finds no name |
| FreshNames.OwnHit | lib/mdns.h:717-750 | with only its own labels in the table, a hit is one of the name's last sixteen labels from where what is written, and then whatever the buffer holds, agrees with what is sought; no hit means there is none |
| FreshNames.FreshNameReadsExactly | lib/mdns.h:789-824 | the first name of a message reads back over every buffer of a size if and only if no place in it can be mistaken for another one at most sixteen labels on; for up to 17 labels, if and only if no run of labels is repeated on the spot and the last label is nowhere else |
| FreshNames.SuffixAgainIsLost | lib/mdns.h:801-812 | a name with a suffix that was written just before it cannot be read at all, over any buffer and whatever follows it |
| FreshNames.LastLabelAgainIsLost | lib/mdns.h:801-812 | nor can one whose last label is among the sixteen labels before it |
| Stability.NameExtends | lib/mdns.h:789-824 | a name is written only between where it begins and where it ends |
| Stability.LaterRecordsChangeNothing | lib/mdns.h:1296-1422 | whatever records are written, with text strings and lengths filled in later: no earlier byte changes, and every offset that meant a name still means it |
| Stability.RecordsKeepTable | lib/mdns.h:1296-1422 | a sound table is sound after any good records |
| Stability.PlainExactly | lib/mdns.h:801-823 | without a table writing succeeds if and only if the plain form fits, and takes exactly that |
| Stability.CompressionRefinesPlain | lib/mdns.h:789-824 | with a table writing succeeds wherever it does without, is never longer, and both forms read back as the same labels |
| RecordWriter.AnswerAddRecordHeader | lib/mdns.h:1277-1294 | writes name and ten bytes of header as specified, or fails exactly then |
| RecordWriter.AddRecordData | lib/mdns.h:1313-1346 | writes the data of each type as specified, names in it compressed |
| RecordWriter.FillLength | lib/mdns.h:1350-1352 | stores the length into the two bytes before the data, changing no other byte |
| RecordWriter.AnswerAddRecord | lib/mdns.h:1296-1353 | text records are left for later; others are written whole with their length; an earlier failure is passed on |
| RecordWriter.AddTxtString | lib/mdns.h:1393-1414 | length byte, key, NUL, and as many bytes passed over as the value has |
| RecordWriter.AnswerAddTxtRecord | lib/mdns.h:1368-1422 | all text records of a section become one record under the first one's name, class and TTL |
| RecordWriter.AnswerGetRecordCount | lib/mdns.h:1424-1437 | counts the records that will be written, with the 16-bit wrap-around |
| RecordCodec.ItemEmits | lib/mdns.h:1296-1422 | one record in the buffer is its wire form, whatever the buffer held; it fails exactly when that does not fit |
| RecordCodec.ItemsEmit | lib/mdns.h:1296-1422 | the same for any run of records |
| RecordCodec.ItemsCarried | lib/mdns.h:1296-1422 | every record of the run carries its name and data, and none is spoilt by those after it |
| Messages.AnswerMulticastRclassTtl | lib/mdns.h:1509-1562 | builds the multicast message for its arguments over whatever the buffer held, or nothing |
| Messages.QueryAnswerUnicast | lib/mdns.h:1439-1507 | the same for the unicast reply with its question |
| Messages.AnswerAddQuestionUnicast | lib/mdns.h:1260-1275 | writes the question of a unicast reply, which fills the table first |
| Messages.QueryAnswerMulticast | lib/mdns.h:1564-1571 | a multicast answer: class IN, TTL 60 where none is set |
| Messages.AnnounceMulticast | lib/mdns.h:1573-1582 | an announcement: class IN with cache flush, TTL 60 where these are not set |
| Messages.GoodbyeMulticast | lib/mdns.h:1584-1594 | a goodbye: TTL 0 for every record |
| Messages.MultiqueryBuild | lib/mdns.h:1136-1184 | builds the query message without compression, or nothing |
| Parser.RecordsParse | lib/mdns.h:826-860 | the loop delivers the records of the specification and ends where it ends |
| Parser.WalkIsSafe | lib/mdns.h:826-860 | on arbitrary bytes: at most `n` deliveries, each with name, header and data contiguous inside the message, in increasing disjoint ranges; all `n` only if the walk ends inside the message |
| Parser.WalkExactly | lib/mdns.h:826-860 | on arbitrary bytes the walk delivers exactly the records that lie one after another and whole in the message, up to the number asked for, with their type, class, TTL and places; a name that cannot be skipped is taken for none; it stops where there is no room for a fixed part or where data runs past the end |
| Parser.WrongDataReadsAsNothing | lib/mdns.h:1596-1653 | data cut short, or of the wrong length for an address, reads as nothing |
| Parser.RecordParsePtr | lib/mdns.h:1596-1604 | the target's text, or nothing for data cut short |
| Parser.RecordParseSrv | lib/mdns.h:1606-1628 | the three numbers and the target, or all zeros under 8 bytes |
| Parser.RecordParseAddress | lib/mdns.h:1630-1653 | reads the data as `AddressOf`, of which RoundTrip.DataReadsBack shows that it is the address written |
| Parser.QueryRecv | lib/mdns.h:1204-1257 | skips the questions and delivers the three sections, stopping at one that falls short, and counts all of them; nothing of a reply with another ID than the one waited for |
| Parser.OtherIdIsRefused | lib/mdns.h:1222-1223 | such a reply delivers nothing |
| Listening.ListenerHearsExactly | lib/mdns.h:1067-1123 | of any packet with complete questions, exactly the questions of class 1 or 255, with or without the top bit, up to the first that is of another class or cannot be skipped are heard, with types, classes and places; records are looked for right after the last one looked at |
| Listening.RunIsTold | lib/mdns.h:1067-1101 | any such run of questions in a packet is what is heard |
| Listening.QueriesAreTold | lib/mdns.h:1093-1094 | with flags 0 none of them is passed over |
| Listening.ServicesNameExactly | lib/mdns.h:1069-1079 | with flags those are passed over, and only those, whose name is `_services._dns-sd._udp.local.` in letters of either case |
| Parser.SocketListen | lib/mdns.h:1057-1123 | delivers questions of class IN or ANY until one is neither, passes over services discovery in responses, then the records; its count leaves out additional records |
| RoundTrip.DataReadsBack | lib/mdns.h:1596-1653 | parsed data is what was written, for every type; a root target of a service record reads as zeros |
| RoundTrip.CarriedIsDelivered | lib/mdns.h:826-860 | a record that is carried at an offset is delivered with its name, type, class, TTL and data, a text record with all its strings |
| RoundTrip.WalkRun | lib/mdns.h:826-860 | walking over a run of carried records delivers each of them in order |
| RoundTrip.MulticastBytes | lib/mdns.h:1509-1562 | a message is built if and only if the buffer has 48 bytes and room for header and wire forms, and then it is exactly these |
| MessageTheorems.MulticastRoundTrip | lib/mdns.h:1509-1562 | parsing from byte 12 with the header's counts delivers the answer, then each section's other records in order and its text records as one, with names, types, classes, TTLs and data, and ends at the message's length; bytes 2 and 3 are 84 00 |
| MessageTheorems.TextAnswerIsShort | lib/mdns.h:1299-1301 | with a text record as the answer one record fewer is delivered than the header counts |
| MessageTheorems.HeaderCountsExactly | lib/mdns.h:1518-1526 | the header's counts are what parsing delivers if and only if the answer is not a text record |
| MessageTheorems.UnicastCountsExactly | lib/mdns.h:1453-1463 | the same of a unicast reply and what its receiver counts |
| MessageTheorems.UnicastBytes | lib/mdns.h:1439-1507 | a unicast reply is built if and only if it fits, and is header, question and the wire forms against the table the question left |
| MessageTheorems.UnicastRoundTrip | lib/mdns.h:1204-1257 | received with its own ID or any, a unicast reply has its one question skipped and delivers the answer and both sections in full, to its end; it has the query's ID, bytes 84 00, and the question asked |
| Delivered.MulticastDelivers | lib/mdns.h:1355-1366 | each record given to a multicast builder is delivered with its own TTL unless that or the TTL asked for is 0, then with the latter; with the lowest bit of its class, or of the class asked for if it has none, and the cache-flush bit except for a pointer record; a section's text record holds all its strings |
| Delivered.HeadsAreRecords | lib/mdns.h:1368-1391 | the records delivered for a section are all its records but the text records, and last, if there is one, a text record |
| Delivered.UnicastDelivers | lib/mdns.h:1473-1501 | in a unicast reply the answer has class 1 and TTL 10, each other record its own TTL, or 10 if it has none, and class 1; a text record keeps its cache-flush bit |
| QueryTheorems.QueryRoundTrip | lib/mdns.h:1067-1123 | any list of up to 65535 queries of well-shaped names is heard by the listener as the same names and types in the same order, with class 1 or 0x8001 as the port has it and nothing after; bytes 2 and 3 are 0 |
| QueryTheorems.QueryExactly | lib/mdns.h:1136-1184 | queries of any names are built if and only if there is one, there are 12 + 6n bytes, and the questions in full have room; the message is then these bytes |
| StaleBytes.MessageIgnoresStaleBytesExactly | lib/mdns.h:1404-1414 | over all buffers of one size a multicast message is the same if and only if no text record has a value |
| StaleBytes.ReplyIgnoresStaleBytesExactly | lib/mdns.h:1404-1414 | the same of unicast replies |
| Goodbye.GoodbyeIsAnnouncementExactly | lib/mdns.h:1355-1366 | goodbye and announcement are both built or neither, equally long, and agree everywhere but in the TTL fields, which become 0, if and only if every record that heads one is a pointer record or has its class set; made over the same buffer contents, or over any when no text record has a value |
| TxtParser.RecordParseTxt | lib/mdns.h:1655-1708 | the loop stores the pairs of the recursive specification, up to capacity, and leaves the other slots alone |
| TxtParser.FindSeparator | lib/mdns.h:1674-1688 | finds the end of a nonempty printable key, or rejects the string |
| TxtParser.PairsInside | lib/mdns.h:1655-1708 | on arbitrary bytes every pair is a nonempty printable key without `=` and a value, both inside the record |
| TxtParser.PairsRoundTrip | lib/mdns.h:1655-1708 | pairs encoded as section 6 of RFC 6763 asks are parsed back in order, up to capacity |
| TextRecords.StringIsRead | lib/mdns.h:1404 | a written string of any length is read as one of its length modulo 256 bytes, and reading goes on from there |
| TextRecords.WrittenTextSays | lib/mdns.h:1407-1413 | of strings of at most 255 bytes as the writer makes them, the parser finds exactly those whose key had an `=` in it already, in order and up to capacity, with that key; their value is the rest of the key, a NUL and the place of the value |
| TextRecords.AllReadExactly | lib/mdns.h:1407-1413 | given room, the parser returns a pair for each of them if and only if every key has an `=` after a nonempty printable part; for keys of the standard it returns none |
| TextRecords.DeliveredTextSays | lib/mdns.h:826-860 | the same of a text record delivered from a whole message |
| TextRecords.LongKeyIsMisread | lib/mdns.h:1399-1404 | the bound of 255 is needed: a key of 255 letters is accepted, says no pair, and one is found |
| Advertise.StringEqualsIsEquality | src/advertise.c:182-185 | against a name without NUL the comparison is equality |
| Advertise.AdvertiseService.constructor | src/advertise.c:72-107 | the service's strings and records belong to its hostname, addresses and port |
| Advertise.AdvertiseService.CreateMdnsRecords | src/advertise.c:109-151 | makes the five records from the strings |
| Advertise.AdvertiseService.BuildAdditional | src/advertise.c:153-180 | the fall-through cases fill the array with the additional records of a type, in order |
| Advertise.ChooseAnswer | src/advertise.c:202-243 | sends exactly when there is an answer, with that answer and its additional records, and the answer's name is the name asked for |
| Advertise.ServiceCallback | src/advertise.c:187-258 | replies exactly to questions it has an answer for, by unicast exactly when asked to, with the message built over the reused buffer |
| Advertise.AdvertiseAnnounce | src/advertise.c:260-274 | one announcement or goodbye for each open socket, whatever the first left in the shared buffer |
| Advertise.AdvertiseRespondRequest | src/advertise.c:340-343 | every question heard in a packet is answered, in order |
| ReplyTheorems.SingleLabelHost | src/advertise.c:72-84 | what the theorems about the responder ask of a hostname without dots: at most 63 bytes, and not `local` or `_wlr-remote` |
| ReplyTheorems.ServiceNames | src/advertise.c:72-107 | for every proper hostname the service's names meet the hypotheses on names |
| ReplyTheorems.ItemsFit | lib/mdns.h:1296-1422 | over any buffer and against any table, records are written wherever they would have room without back-pointers |
| ReplyTheorems.RepliesFit | src/advertise.c:245-256 | for every hostname, h bytes long, both kinds of reply are built in every buffer of 6h + 241 bytes and take at most these |
| ReplyTheorems.AnnouncementFits | src/advertise.c:260-274 | so are the announcement and the goodbye |
| ReplyTheorems.BuffersSuffice | src/advertise.c:194 | so no reply fails for lack of room in 1024 bytes, nor an announcement or goodbye in 2048, for any hostname of at most 64 bytes |
| ReplyTheorems.ChoiceGood | src/advertise.c:202-243 | every choice meets the hypotheses of the round trips and is never a text record |
| Discovery.AnnouncementAndGoodbye | src/advertise.c:332-338 | the service's goodbye is its announcement with every TTL field, none of them 0 before, set to 0 |
| Discovery.AnswerFitsQuestion | src/advertise.c:202-243 | the answer has the name asked for, and its type unless any was asked for |
| Discovery.ReplyIsClosed | src/advertise.c:153-180 | for every hostname but `_wlr-remote._udp`, and except for services discovery: each record the service has for a name that a reply points at is in that reply (section 12 of RFC 6763) |
| Discovery.AnswersAreDetermined | src/advertise.c:187-258 | two replies to one question are the same, whatever earlier messages left in the static buffer |
| Replies.ChoiceExactly | src/advertise.c:202-243 | there is an answer if and only if the name and type ask for a kind of record the service has: the services' list, the pointer, the service, an address of a family it has; of two addresses the IPv4 one, if any type is asked for; and it is that record with its companions |
| Discovery.AnsweredExactly | src/advertise.c:202-243 | the same from the list of its records: some record other than the text record has that name and type |
| Replies.MulticastIsHeard | lib/mdns.h:1509-1562 | whoever hears a multicast message about the service reads class 1, the TTL, the names, the port and the addresses it was made with, in order, in an authoritative response |
| Replies.UnicastIsTold | lib/mdns.h:1439-1507 | the same of a unicast reply, with TTL 10 for the answer and 120 for the others |
| Discovery.AnnouncementIsHeard | src/advertise.c:109-151 | whoever hears the announcement reads TTL 4500 for the pointer and 120 for each other record, class 1 throughout, and both addresses; in the goodbye every TTL is 0 |
| WireForm.AnnouncementExactly | src/advertise.c:109-151 | for a hostname of one label, the announcement is given byte for byte: header, three labels, pointers to 12, 29 and 46, types, TTLs, lengths, port and addresses |
| Discovery.QuestionIsAnswered | src/advertise.c:187-258 | any question heard, of whatever class: for the kind of record it asks for a reply is sent, to its sender alone exactly if the class has the top bit, fits, and is read in full; for none there is no reply |
| Discovery.OthersGetNoReply | src/advertise.c:195-197 | a question whose name cannot be read gets no reply, nor does a record |
| Discovery.QuestionsAreAnswered | src/advertise.c:340-343 | end to end: for any list of questions sent by a client, from a port of its own or from 5353, each is replied to so, to it alone or to all |
| Hostnames.HostOkExactly | src/advertise.c:72-107 | for hostnames of up to fourteen labels of 1 to 63 bytes: the hypothesis of these theorems holds if and only if the names of the instance and of the host, written first in a reply, read back over every buffer |
| Hostnames.ReplyIsLost | lib/mdns.h:1439-1562 | a reply about a name whose last label is among the sixteen before it begins with a name that cannot be read, over any buffer |
| Hostnames.LocalHostIsLost | src/advertise.c:80-104 | so every reply about a host with `local` among the last fourteen labels of its name, or about its instance, is built and is lost |
| Hostnames.PcLocalIsLost | src/advertise.c:80-104 | the host `pc.local` asked for its address |
| Discovery.ServiceIsDiscovered | src/advertise.c:187-258 | asking for the service's name, a client learns the instance name, host, port and both addresses |

## Left out

- NameWriter.StringMake: when it fails nothing is stated about the buffer and the table, because every caller gives the message up; the same holds of the members built on it.
- RecordWriter.AddTxtString: the place of a value is skipped as in the code, so the bytes there are whatever the buffer held.
- Parser.SocketListen: a packet that ends inside a question's type or class, or before the header is complete, is not an input, because the code then reads past what was received.
- Parser.QueryRecv: a packet of fewer than 12 bytes is not an input, for the same reason.
- NameTheorems.NameRoundTrip: against a table it asks for a buffer of at most 0x4000 bytes; past that a pointer's offset is cut, which the bytes of `NameWriter.RefBytes` show but no theorem is about.
- NameExactness.NameReadsBackExactly: is for labels of 1 to 63 bytes; longer ones are written with a length byte that reads as something else.
- WireForm.AnnouncementExactly: is for a hostname of one label other than `_udp`, whose qualified name is compressed further; what is read of the other announcements is in Discovery.AnnouncementIsHeard.
- TxtParser.PairsRoundTrip: pairs in the standard's encoding; for the strings the repository writes itself see TextRecords.WrittenTextSays and TextRecords.StringIsRead.
- TextRecords.WrittenTextSays: is for strings of at most 255 bytes, because it is false of longer ones.
- ReplyTheorems.ServiceNames: is for the hostnames of `HostOk`; Hostnames.HostOkExactly shows that the names of other hosts do not read back over every buffer. A hostname with an empty label, as `a..b` or `a.`, is written with a terminator in its middle and is not covered.
- Hostnames.HostOkExactly: past fourteen labels the table evicts the oldest ones within a name, so that some more hostnames have names that read back; FreshNames.FreshNameReadsExactly is exact for these.
- Sockets, addresses of senders, binding, multicast groups and sending: operating system calls. Builders give the message, parsers take it, and whether the local port is 5353 is a parameter.
- `mdns_discovery_send` and `mdns_discovery_recv`: a fixed packet, and a receiver much like the two modelled.
- Callbacks that stop the parsing early: the repository's callback never does.
- A record whose union holds data of another type than its type field says: the model ties the two.
- One memory for the name in a reply and the buffer it was extracted into: a name is a value here; the code does not write the name buffer before the reply is built.
- Making the service's strings with `malloc`, `gethostname` and `snprintf`, and finding the interfaces: the strings are taken in the form they are built to have.
- Announcements setting the cache-flush bit: the service's records come with a class, so the bit asked for is never used (lib/mdns.h:1358).
- DTLS, epoll, Wayland, terminal and configuration code: plumbing around libraries that are not part of this model.
