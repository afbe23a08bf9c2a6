# Blue2thprinting in Dafny

Blue2thprinting captures what Bluetooth devices say about themselves, keeps it in a JSON structure (BTIDES), and
imports it into a database.  This project models the parts of it that keep state or promise an equivalence, and proves
what they promise, for all inputs, all runs and all interleavings.  Where the code does less than it promises, the
model follows the code: a lemma shows the inputs, and a theorem says exactly when the promise holds.

One module per component:

| files | component | main results |
|---|---|---|
| `GpsRows`, `GpsImport` | GPS import, one reading at a time and batched | the fast form refines the slow one exactly on *promotable* batches; closed form; idempotence |
| `BtidesModel`, `BtidesStore` | the BTIDES list and its address index | the index equals a scan after every operation; a run holds exactly the facts inserted |
| `Gatt`, `GattPlaces` | services, characteristics and values in that list | placement within handle ranges; every exported value recorded, and in how many places; everything exported is there and nothing else |
| `LmpName`, `LmpPieces` | reassembly of a name from stored fragments | closed form for every name, exact round-trip condition; the bytes for any fragments at all |
| `LmpWire`, `LmpDialogue` | the capture module that asks for the name, the feature pages and the version | invariant of every run, progress, completion; the pages asked for and the end, exactly |
| `LogText`, `BtcLog` | the log it writes and the parser of that log | exact condition for a name to come back; whole logs come back |
| `LauncherLocks`, `LauncherCompletion` | the capture launcher's threads | deadlock freedom; a finished address is deleted |
| `RateLimit` | the two request limiters | sliding-window limits and conservation over whole runs |
| `SdpTracker` | SDP channels over L2CAP | agreement with the open channels and classification of frames, exact conditions |
| `AttAttribution` | crediting read responses to handles | exact condition for the rows to be the true ones |
| `Uuid` | UUID canonical form and comparison | same form exactly for the same value |
| `WigleVote` | address type by vote of the tables, bulk and single | independence of chunks, exact condition for agreement |
| `Bytes`, `Text`, `Collections`, `Wrappers` | shared types and string helpers | |

Findings, each with a theorem below:

- The comment above the batched GPS import (`Analysis/BTIDES_to_SQL.py:1506-1509`) says it matches the slow form
  exactly.  It does not: UPDATEs run before INSERTs, so a key without rows whose first reading has rssi 0 and which gets
  a non-zero reading in the same batch ends with rssi 0.  `BatchRefinesSerial` shows this is the only difference.
  The connection raises on warnings (`Analysis/TME/TME_helpers.py:31-41`), so an UPDATE that would make two rows of a
  key equal ends the import; both forms do so on the same inputs.
- A device renamed between two captures may lose its name: when the fragment at offset 0 disagrees with the total length
  of the last fragment, the reassembly stops there and stores the empty name (`Analysis/BTIDES_to_SQL.py:1021-1023`).
- Offline name reassembly strips hexadecimal digits, not bytes.  A name whose length is 13 modulo 14 gains a zero byte;
  otherwise, when its last fragment is padded, a last byte with a zero low nibble ends the import with an exception, or,
  if that byte is zero, loses it.
- `BTIDES_export_GATT_Characteristic_Value` falls through after extending an `io_array`
  (`Analysis/TME/TME_BTIDES_GATT.py:216-225`): the reading is then kept twice, the second time in a new placeholder
  service.  If the value had no `io_array` yet, as the exporter of declarations leaves it, it takes over the new list
  itself, shares it with the placeholder, and later readings of the handle are kept three times.  In the same place a
  value without an `io_array` raises.
- A refused SDP connection request leaves its CID classified.  The CIDs are kept without the side they belong to, so
  a channel that uses the number of an SDP channel's other end is taken for SDP.
- A short UUID with upper-case digits, or a 32-bit one, stays as it is when converted, so equal UUIDs can be stored
  under two names.
- Requests to the BTIDALPOOL server that end as unmatched commands never give their place back
  (`Analysis/Server_BTIDALPOOL.py:476-481`): ten of them lock the client out for good.
- Reading a handle again gets its response credited to another handle, because the repeated request is dropped from the
  exported array.
- The single address-type lookup takes any one row of each table (`LIMIT 1`), the bulk one takes all rows.
- The launcher writes the time after the address in a log header (`Scripts/central_app_launcher.py:607`), and the log
  parser keeps it as part of the address.  Version 14 is in the parser's table but rejected as out of range.
- The log line of an encryption key size has no newline (`Braktooth_module/LMP2thprint.cpp:643`), so it swallows the
  next line, be it a response or the next header.

The source's loops and objects are classes and methods, each proved equal to a specification function; the theorems are
lemmas about those functions.  `dafny verify dfyconfig.toml` checks everything.

## Model

| member | source | states |
|---|---|---|
| GpsImport.Database.ParseGpsArray | Analysis/BTIDES_to_SQL.py:1450-1503 | one entry's readings change the table, or stop, exactly as its wanted readings, with the rows spelled out field by field, one after the other do |
| GpsImport.Database.ExecuteUpdate | Analysis/TME/TME_helpers.py:54-59 | an UPDATE by key sets every row of the key, and stops, changing nothing, when that would make two rows equal |
| GpsImport.Database.ExecuteBulkInsert | Analysis/BTIDES_to_SQL.py:1585-1592 | INSERT IGNORE adds every row, and reports success exactly when none of them was there |
| GpsImport.CollectOps | Analysis/BTIDES_to_SQL.py:1512-1533 | an op is collected exactly for each reading with all required fields of an entry of type 0 or 1, with that entry's address and type, its own time, place and rssi (0 if missing), in the order of the file |
| GpsImport.Database.Prefetch | Analysis/BTIDES_to_SQL.py:1537-1548 | whatever the chunk size, fetches all rows of the addresses that occur and no others |
| GpsImport.DecideAll | Analysis/BTIDES_to_SQL.py:1550-1572 | the in-memory decisions are those of the specification, update list and insert list alike |
| GpsImport.Database.ParseAllBatched | Analysis/BTIDES_to_SQL.py:1510-1592 | for every chunk size, ends in the state, and stops exactly where, fetching, deciding, updating, then inserting does |
| GpsRows.SerialClosedForm | Analysis/BTIDES_to_SQL.py:1483-1503 | slow form, per key: all non-zero readings of table and input, or just 0 if there are none and a zero was seen |
| GpsRows.SerialRaisesExactly | Analysis/BTIDES_to_SQL.py:1487-1490 | the slow form stops exactly when some key has both a zero and a non-zero row and gets a non-zero reading |
| GpsRows.SerialKeepsClean | Analysis/BTIDES_to_SQL.py:1483-1503 | from a table without coexisting zero and non-zero rows, the slow form never stops and none ever coexist |
| GpsRows.OrderDoesNotMatter | Analysis/BTIDES_to_SQL.py:1483-1503 | from any table, imports of the same readings in any order, with any repetition, stop alike and leave the same rows |
| GpsRows.ReimportChangesNothing | Analysis/BTIDES_to_SQL.py:1493-1500 | from any table, an import that came through comes through again and changes nothing |
| GpsRows.UpdateTouchesOneRow | Analysis/BTIDES_to_SQL.py:1487-1490 | from a table without coexisting rows every UPDATE succeeds and changes exactly one row, the one with rssi 0 |
| GpsRows.DecideKeyClosedForm | Analysis/BTIDES_to_SQL.py:1550-1572 | the batched decisions per key: at most one UPDATE, to the first non-zero reading; INSERTs of exactly the missing readings, each once |
| GpsRows.BulkInsertIsFresh | Analysis/BTIDES_to_SQL.py:1566-1572 | once the UPDATEs are done, no batched INSERT meets an existing or repeated row |
| GpsRows.BothStopAlike | Analysis/BTIDES_to_SQL.py:1579-1592 | the batched form stops on exactly the inputs the slow form stops on |
| GpsRows.BatchRefinesSerial | Analysis/BTIDES_to_SQL.py:1506-1592 | when they do not stop, both forms leave the same table exactly when no key without rows gets 0 first and a non-zero reading later |
| GpsRows.BatchDiffers | Analysis/BTIDES_to_SQL.py:1579-1592 | witness: readings 0 and r of a new key leave r in the slow form and 0 in the fast one |
| GpsImport.CompareImports | Analysis/BTIDES_to_SQL.py:1450-1592 | the refinement for the two imports as they run, from JSON entries to tables, for every chunk size; both act on the same wanted readings in the order of the file |
| BtidesModel.HeaderDecides | Analysis/TME/TME_BTIDES_base.py:225-244 | the shallow comparison holds between objects with fields of the same kinds exactly when their keys and primitive values are equal |
| BtidesModel.NotTransitive | Analysis/TME/TME_BTIDES_base.py:236-242 | witness: without fixed kinds the shallow comparison is not transitive |
| BtidesModel.ComparisonExactly | Analysis/TME/TME_BTIDES_base.py:225-244 | only unequal numbers or strings under one key tell objects with the same keys apart |
| BtidesModel.NewDeviceExactly | Analysis/TME/TME_BTIDES_base.py:148-155 | a device without an entry gets one at the end of the list, with its address as given and the one object |
| BtidesModel.MergeExactly | Analysis/TME/TME_BTIDES_base.py:276-295 | merging changes one field of the first matching object, where the item is found or added at the end |
| BtidesModel.UnmatchedIsAppended | Analysis/TME/TME_BTIDES_base.py:293-295 | without a match the whole object goes to the end of the array |
| BtidesStore.Store.LookupSingle | Analysis/TME/TME_BTIDES_base.py:81-82 | returns the last list entry with the lower-cased address and flag, and nothing exactly when there is none |
| BtidesStore.Store.LookupDual | Analysis/TME/TME_BTIDES_base.py:107-111 | returns the first entry with the CONNECT_IND, and nothing exactly when there is none |
| BtidesStore.RegisteringIndexes | Analysis/TME/TME_BTIDES_base.py:88-92 | registering an appended entry keeps the index equal to a scan for the last entry of every key |
| BtidesStore.Store.Rebuild | Analysis/TME/TME_BTIDES_base.py:99-103 | from any index, makes it agree with the list |
| BtidesStore.Store.Load | Analysis/TME/TME_BTIDES_base.py:95-103 | a loaded file is the new list, duplicate keys included, and the index agrees with it |
| BtidesStore.Store.Reset | Analysis/Import_All_HCI_and_PCAP.py:155-156 | leaves an empty list and an index that agrees |
| BtidesStore.Store.FilterByNotArgs | Analysis/TME/TME_BTIDES_filter.py:121-169 | an entry is dropped exactly if some criterion is given, it has a non-empty address and the criterion accepts it; the others stay the same objects in the same order, the dropped ones are counted, and the index stays right although it is rebuilt only when something went |
| BtidesStore.Store.InsertSingleFirstLevel | Analysis/TME/TME_BTIDES_base.py:138-170 | the list after the insertion, duplicates dropped, and a right index; nothing changes without flag or data |
| BtidesStore.Store.InsertDualZerothLevel | Analysis/TME/TME_BTIDES_base.py:176-194 | adds the pair's entry exactly if it is missing, and keeps the index right |
| BtidesStore.Store.InsertDualFirstLevel | Analysis/TME/TME_BTIDES_base.py:196-221 | the same for a CONNECT_IND |
| BtidesStore.Store.InsertSingleSecondLevel | Analysis/TME/TME_BTIDES_base.py:251-297 | merges the item under the first matching tier-1 object, or appends it, and keeps the index right; only the object it merges with has to hold a list |
| BtidesStore.Store.InsertDualSecondLevel | Analysis/TME/TME_BTIDES_base.py:303-342 | the same for a CONNECT_IND |
| BtidesModel.ApplyAddsItsFacts | Analysis/TME/TME_BTIDES_base.py:138-342 | every insertion, at either level and into arrays used at both, keeps one entry per device, no duplicate items and one second-level object per header, and adds exactly the facts it was asked to |
| BtidesModel.ItemIsKeptExactly | Analysis/TME/TME_BTIDES_base.py:276-295 | after a second-level insertion the item is there exactly if the object matched or tier-1 data brought it |
| BtidesModel.OthersUntouched | Analysis/TME/TME_BTIDES_base.py:138-342 | in any list, loaded ones included, an insertion leaves every other device's entry as it was, in its place |
| BtidesModel.RunSaysWhatWasAsked | Analysis/TME/TME_BTIDES_base.py:138-342 | from the empty store, any run of insertions holds exactly the (device, array, object) and (device, array, header, item) facts inserted, one array taking objects of both kinds as `ATTArray` does |
| BtidesModel.WholeObjectsCollide | Analysis/TME/TME_BTIDES_base.py:213-219 | why an object with a second-level array must come by the second-level insertion: inserted whole, it merges in one order and not in the other |
| BtidesModel.OrderAndRepetitionDoNotMatter | Analysis/TME/TME_BTIDES_base.py:138-342 | runs with the same insertions, in any order and repeated at will, hold the same facts |
| BtidesModel.SameFactsSameData | Analysis/TME/TME_BTIDES_base.py:214-219 | the facts determine the data: two tidy stores with the same facts have the same devices, the same flat objects, and the same items under the same headers |
| BtidesStore.RunInsertions | Analysis/TME/TME_BTIDES_base.py:138-342 | running the insertions on the real store, index and all, gives the run those theorems are about |
| Gatt.GattEntry.ExportGattService | Analysis/TME/TME_BTIDES_GATT.py:99-107 | appends the service unless one with the same contents is there |
| Gatt.GattEntry.ExportGattCharacteristic | Analysis/TME/TME_BTIDES_GATT.py:123-138 | puts the characteristic under the first service around its handle, or under a placeholder service |
| Gatt.GattEntry.ExportGattCharacteristicValue | Analysis/TME/TME_BTIDES_GATT.py:165-228 | all the ways a value is stored, with lists that are objects of their own: the fall-through, the list taken over and shared, the list extended in place, and exactly when it raises |
| GattPlaces.AroundIsFound | Analysis/TME/TME_BTIDES_GATT.py:109-121 | the service found is the first whose range, without its own handle, contains the handle |
| GattPlaces.CharacteristicJoins | Analysis/TME/TME_BTIDES_GATT.py:123-138 | a characteristic is added at the end of that service exactly if none with the same fields and readings is there; nothing else changes |
| GattPlaces.CharacteristicMakesService | Analysis/TME/TME_BTIDES_GATT.py:135-138 | without such a service it makes one for handles 1 to 0xFFFF |
| GattPlaces.ValueMakesService | Analysis/TME/TME_BTIDES_GATT.py:177-225 | a value outside all services makes a placeholder service with a placeholder characteristic 0xFFFE |
| GattPlaces.ValueMakesCharacteristic | Analysis/TME/TME_BTIDES_GATT.py:199-209 | inside a service without a characteristic for it, a placeholder characteristic in that service |
| GattPlaces.ValueIsTheFirst | Analysis/TME/TME_BTIDES_GATT.py:212-219 | a characteristic without a value gets it; with one, a new value without an `io_array` changes nothing (the export raises) |
| GattPlaces.ValueIsAdopted | Analysis/TME/TME_BTIDES_GATT.py:217-225 | a value without a list takes over the new one, which also goes to a placeholder service |
| GattPlaces.ValueExtends | Analysis/TME/TME_BTIDES_GATT.py:220-225 | a list that is there grows by the new readings at its end, and the value goes to a placeholder service as well |
| GattPlaces.EqualServiceIsDropped | Analysis/TME/TME_BTIDES_base.py:213-219 | a service with the same fields and alike characteristics changes no service |
| GattPlaces.RunDeclaresWhatWasExported | Analysis/TME/TME_BTIDES_GATT.py:99-228 | after any run every exported characteristic is there with its fields, and every other one there is the placeholder of an exported value |
| GattPlaces.RunHasExportedServices | Analysis/TME/TME_BTIDES_GATT.py:99-228 | after any run exactly the exported services are there, and the placeholder service besides |
| Gatt.FoundAgain | Analysis/TME/TME_BTIDES_GATT.py:109-121 | the service found by handle is the one the merge by header then finds, so a characteristic never lands elsewhere |
| Gatt.RunKeepsPlaced | Analysis/TME/TME_BTIDES_GATT.py:99-228 | after any run of exports on handles 1 to 0xFFFF every characteristic sits under a service whose range contains it |
| Gatt.RunRecordsWhatWasExported | Analysis/TME/TME_BTIDES_GATT.py:99-228 | after any run, shared lists included, a reading is recorded under a value handle exactly if some export brought it |
| Gatt.RunIsCoherent | Analysis/TME/TME_BTIDES_GATT.py:211-225 | after any run, characteristics that share a list have one value handle |
| Gatt.SharedExactly | Analysis/TME/TME_BTIDES_GATT.py:216-225 | after any run a list sits in at most two characteristics, and in two exactly if a value without one took it over |
| Gatt.ValueIsKeptExactly | Analysis/TME/TME_BTIDES_GATT.py:197-228 | an exported value adds its readings once per copy: one, two when a list is taken over, one more than the holders of the list that is extended |
| Gatt.CopiesExactly | Analysis/TME/TME_BTIDES_GATT.py:197-228 | after any run that is once if the characteristic had no value, three times if the list it has was taken over before, and twice otherwise |
| Gatt.SecondValueIsKeptTwice | Analysis/TME/TME_BTIDES_GATT.py:220-225 | witness: two values of one handle under one service leave three readings |
| Gatt.SharedListIsKeptThrice | Analysis/scapy_to_BTIDES_common.py:714-719 | witness: a declared characteristic and then two values of its handle leave five readings |
| LmpName.SortedKeys | Analysis/BTIDES_to_SQL.py:1019 | the offsets are gone through in ascending order, every one of them once |
| LmpName.Defragment | Analysis/BTIDES_to_SQL.py:1007-1037 | the loops, dictionary, sort and early exits compute the reassembly function |
| LmpName.CollectDelivered | Analysis/BTIDES_to_SQL.py:1009-1016 | fragments in any order and repeated fill the dictionary with exactly the delivered pieces |
| LmpName.StripTail | Analysis/BTIDES_to_SQL.py:1024-1035 | stripping zero digits then decoding: the bytes without trailing zeros, or an exception when the last one left has a zero low nibble |
| LmpName.Reassembly | Analysis/BTIDES_to_SQL.py:1005-1037 | what comes out for every name of 1 to 255 bytes: the name, the name and a zero, a cut name, or an exception |
| LmpName.RoundTripExactly | Analysis/BTIDES_to_SQL.py:1024-1035 | the name itself comes out exactly if its length is 0 mod 14, or is not 13 mod 14 and its last byte has a non-zero low nibble |
| LmpPieces.CollectExactly | Analysis/BTIDES_to_SQL.py:1009-1016 | for any fragments: the dictionary is there exactly if no header has a single digit where it needs two, each entry is the last fragment at its offset, and the length that counts is the last fragment's |
| LmpPieces.AssembleExactly | Analysis/BTIDES_to_SQL.py:1018-1035 | the loop decodes the pieces before the first that disagrees with that length or still runs over it once its zeros are stripped, and none from there on |
| LmpPieces.DefragmentedExactly | Analysis/BTIDES_to_SQL.py:1005-1037 | for any fragments, of any number of names and with any missing: the bytes are those spelled by exactly these pieces in ascending order, and it raises exactly if a header is cut or one of them has an odd number of digits |
| LmpPieces.RenamedDeviceIsNameless | Analysis/BTIDES_to_SQL.py:1021-1023 | witness: the first fragment of an old name and the second of a new one give the empty name |
| LmpWire.Module.RxPreDissection | Braktooth_module/LMP2thprint.cpp:273-324 | which request goes out next, and which counters change, in every state |
| LmpWire.Module.RxPostDissection | Braktooth_module/LMP2thprint.cpp:391-699 | what every response does to mask, page counter, name buffer and log |
| LmpWire.Module.NameArrives | Braktooth_module/LMP2thprint.cpp:521-600 | the buffer is overwritten at the offset, and the name logged and the buffer cleared exactly when it is complete |
| LmpWire.NameAnswerAdvances | Braktooth_module/LMP2thprint.cpp:521-600 | an answer keeps the invariant, counts, and completes the name exactly if it was the last one |
| LmpWire.NameIsReassembled | Braktooth_module/LMP2thprint.cpp:305-315 | in every run against a device with a name of 1 to 127 bytes: the buffer holds a correct prefix, at most one request is out, and the name is logged, once and right, exactly after ceil(n/14) answers |
| LmpWire.DueMakesProgress | Braktooth_module/LMP2thprint.cpp:273-315 | with a name request due, every other packet brings it nearer or sends it |
| LmpWire.NextFragmentIsAsked | Braktooth_module/LMP2thprint.cpp:305-315 | so it is sent after a bounded number of packets, for the offset reached |
| LmpWire.CanComplete | Braktooth_module/LMP2thprint.cpp:305-315 | from every state with an incomplete name, answers lead to the complete one; the bytes left are the measure |
| LmpDialogue.PagesAskedExactly | Braktooth_module/LMP2thprint.cpp:273-300 | in every conversation with a device that answers with the page asked for and its highest page m: the features are asked for once, the pages asked for are 1, 2, 3, ..., page 1 with the second packet, and n packets from the first answer on min(n, max(1, m)) of them |
| LmpDialogue.ExitsExactly | Braktooth_module/LMP2thprint.cpp:684-695 | the module ends exactly at a version response that finds the features, a page and all fragments of the name received, and then the name is logged |
| LmpDialogue.VersionIsAskedAgain | Braktooth_module/LMP2thprint.cpp:317-324 | at most one version request is open, and when none is, another one follows within 2 + max(1, m) + ceil(n/14) packets |
| LogText.Utf8RoundTrip | Analysis/parse_BTC_2THPRINT_2db.py:47-59 | decoding the UTF-8 bytes of any text gives the text |
| LogText.DecodeIsExact | Analysis/parse_BTC_2THPRINT_2db.py:47-59 | bytes are decoded to a text exactly if they are its UTF-8 encoding, so ill-formed and overlong bytes never are |
| LogText.TokenExactly | Analysis/parse_BTC_2THPRINT_2db.py:145-149 | the parser's argument check accepts a word exactly if it is what is printed for some byte |
| LogText.StripExactly | Analysis/parse_BTC_2THPRINT_2db.py:166 | stripping takes white space off both ends and nothing else |
| LogText.TokenRoundTrip | Analysis/parse_BTC_2THPRINT_2db.py:145-149 | what `%02X` prints passes the parser's argument check and reads back as the byte |
| LogText.OrIsSum | Analysis/parse_BTC_2THPRINT_2db.py:103-105 | shifting and or-ing numbers whose bits do not meet adds them |
| BtcLog.PrintTokens | Braktooth_module/LMP2thprint.cpp:538-556 | the printing loop writes one word per byte, sign-extended for signed `char` |
| BtcLog.Parser.CheckArgs | Analysis/parse_BTC_2THPRINT_2db.py:145-149 | accepts exactly the lists of `0xHH` words |
| BtcLog.Parser.FuncName | Analysis/parse_BTC_2THPRINT_2db.py:63-80 | inserts the decoded name, and only if the words are bytes, well-formed and not blank |
| BtcLog.Parser.FuncVersion | Analysis/parse_BTC_2THPRINT_2db.py:92-115 | goes on after rejected words; inserts, ignores or raises as the words demand |
| BtcLog.Parser.FuncFeatures | Analysis/parse_BTC_2THPRINT_2db.py:118-142 | the fold over the reversed words |
| BtcLog.Parser.ParseFile | Analysis/parse_BTC_2THPRINT_2db.py:151-195 | the line loop: address, inserts and the exception that ends it |
| BtcLog.VersionExactly | Analysis/parse_BTC_2THPRINT_2db.py:92-115 | for any words: raises exactly on a missing, unreadable or negative version, or on one up to 13 with another word missing; ignores those above 13; else inserts the two 16-bit fields |
| BtcLog.NameIsWritten | Braktooth_module/LMP2thprint.cpp:538-588 | the bytes logged for a name: its hexadecimal words on one line, and the name as it is, newlines and all, each after `BTC_2THPRINT: LMP_OP_0x02 ` |
| BtcLog.OthersAreWritten | Braktooth_module/LMP2thprint.cpp:448-459 | the lines logged for the version and the features, with their own opcodes |
| BtcLog.TokensAreWritten | Braktooth_module/LMP2thprint.cpp:538-556 | each byte is written as `0x`, two upper-case digits and a space |
| BtcLog.AddressExactly | Analysis/parse_BTC_2THPRINT_2db.py:165-166 | a header line, whatever it holds, leaves what follows its last colon and space, stripped |
| BtcLog.EndStep | Analysis/parse_BTC_2THPRINT_2db.py:167-170 | a line that starts with the words for all responses received, or with those for an address and has the timeout text anywhere, ends the session |
| BtcLog.NameComesBackExactly | Braktooth_module/LMP2thprint.cpp:538-588 | a logged name whose further lines, if it holds newlines, are of kinds the parser passes over gives exactly its own row if and only if it is legible (valid UTF-8, not blank, ASCII when printed as signed `char`) and its first line does not itself spell another name in `0xHH` words |
| BtcLog.TextNameComesBack | Analysis/parse_BTC_2THPRINT_2db.py:63-80 | the same for a name given as text: the database gets that text |
| BtcLog.FoldIsLittleEndian | Analysis/parse_BTC_2THPRINT_2db.py:126-133 | the features are stored as the little-endian number of their bytes |
| BtcLog.FeaturesAreDetermined | Analysis/parse_BTC_2THPRINT_2db.py:126-133 | the stored number determines the bytes |
| BtcLog.ResponseComesBack | Braktooth_module/LMP2thprint.cpp:448-459 | any logged response gives exactly its rows: features little-endian, versions up to 13 with their 16-bit fields, names as above; lines of other kinds give none |
| BtcLog.NoteIsIgnorable | Scripts/central_app_launcher.py:221-258 | the other lines of the module and the launcher (NEW RUN, SUCCESS, FAILURE, COMMENT, CLASS_OF_DEVICE, REMOTE_BDADDR, extended features, ping) are passed over, whatever they go on with |
| BtcLog.KeySizeSwallowsNextLine | Braktooth_module/LMP2thprint.cpp:642-643 | the key-size line joined with whatever line comes next is passed over as a whole |
| BtcLog.LogComesBack | Analysis/parse_BTC_2THPRINT_2db.py:151-195 | a log of any number of sessions, ended by either end line or cut off, with other lines before, inside and between them, gives exactly the rows of the responses, each under its own header, and never raises |
| BtcLog.NameEndsSession | Analysis/parse_BTC_2THPRINT_2db.py:167-168 | witness: a name whose second line reads like an end line ends its session |
| BtcLog.HeaderKeepsTime | Scripts/central_app_launcher.py:607 | under the launcher's header the address column holds address, space and time, so never the address |
| LauncherLocks.PathsAscend | Scripts/central_app_launcher.py:201-235 | every path of the launcher's threads acquires nested locks only up the order success maps, address maps, deprioritized maps |
| LauncherLocks.NoDeadlock | Scripts/central_app_launcher.py:346-503 | for any number of threads, no reachable state has a cycle of waiting threads, and locks are exclusive |
| LauncherLocks.WaitingClimbs | Scripts/central_app_launcher.py:201-235 | a thread that waits for a waiting thread waits for a lower lock, and there are three levels |
| LauncherLocks.SomeoneCanStep | Scripts/central_app_launcher.py:540-541 | following who waits for whom from any unfinished thread ends at one that can go on or has yet to begin |
| LauncherCompletion.FinishedAddressIsDeleted | Scripts/central_app_launcher.py:220-235 | in every interleaving, once the LMP and SDP threads of an address have finished, one of them has deleted it, or found it deleted, after both flags were set; if it is there it was added again later |
| LauncherCompletion.DeletedOnlyAfterBoth | Scripts/central_app_launcher.py:222-235 | in every interleaving, a thread deletes an address only after threads of both kinds have marked it |
| LauncherCompletion.DeletionNeverRaises | Scripts/central_app_launcher.py:173-176 | in every interleaving, an address found in the map is still there when it is deleted |
| LauncherCompletion.SectionsAreExclusive | Scripts/central_app_launcher.py:222-235 | no two threads are inside sections of the same lock |
| RateLimit.PopIsFilter | Analysis/Server_BTIDALPOOL.py:165-167 | popping expired times from the front of a sorted queue is filtering by age |
| RateLimit.PoolLimiter.RateLimitChecks | Analysis/Server_BTIDALPOOL.py:160-180 | accepts exactly below both limits, and changes only this client's queue and counter |
| RateLimit.PoolLimiter.Finish | Analysis/Server_BTIDALPOOL.py:480-481 | gives one place back |
| RateLimit.PoolLimits | Analysis/Server_BTIDALPOOL.py:165-180 | in every run every interval a to a + 86400.0 holds at most 100 accepted requests, the counter is the requests in flight plus those that ended unmatched, and at most 10 are in flight |
| RateLimit.PoolDecidesExactly | Analysis/Server_BTIDALPOOL.py:160-180 | a request is accepted exactly if fewer than 100 accepted ones are at most 86400.0 s old and fewer than 10 places are taken |
| RateLimit.UnmatchedLocksOut | Analysis/Server_BTIDALPOOL.py:476-481 | after ten unmatched commands the client is refused in every later state |
| RateLimit.LockOutIsReached | Analysis/Server_BTIDALPOOL.py:173-180 | witness: a run of ten such requests exists for every client, and nothing after it lets the client in again |
| RateLimit.OtherClientsUntouched | Analysis/Server_BTIDALPOOL.py:160-180 | no event changes another client's data |
| RateLimit.TokenLimiter.HandleOneRequest | Scripts/google-SSO-redirect-and-token-print-server.py:189-202 | accepts exactly if fewer than 10 times in the client's list are less than 60.0 s old, and changes only this client's list |
| RateLimit.TokenServerLimits | Scripts/google-SSO-redirect-and-token-print-server.py:189-202 | for any clients in any order over a non-decreasing clock, every interval from a up to but not a + 60.0 holds at most 10 requests let in for one of them |
| RateLimit.ClientsAreApart | Scripts/google-SSO-redirect-and-token-print-server.py:194-201 | in any such sequence each client is served as if it were alone |
| RateLimit.Serve | Scripts/google-SSO-redirect-and-token-print-server.py:184-202 | the limiter object, fed any sequence of arrivals, ends with the lists those theorems are about |
| RateLimit.TokenDecidesExactly | Scripts/google-SSO-redirect-and-token-print-server.py:193-201 | the next request of a client is let in exactly if fewer than 10 of its were let in less than 60.0 s before, whatever other clients do |
| SdpTracker.Tracker.Export | Analysis/scapy_to_BTIDES_common.py:1264-1422 | how each L2CAP packet changes the set of classified CIDs |
| SdpTracker.TraceIsSeparate | Analysis/scapy_to_BTIDES_common.py:1293-1422 | along every legal trace no device's CID belongs to two channels |
| SdpTracker.OtherConnectionsUntouched | Analysis/scapy_to_BTIDES_common.py:1264-1290 | packets of one connection never change another's CIDs |
| SdpTracker.StepAgreesExactly | Analysis/scapy_to_BTIDES_common.py:1305-1306 | with CIDs local to each side, a packet keeps the set equal to the CIDs of the SDP channels exactly under a condition on the open channels: an accepted response is not for another kind of channel with an SDP number, unless its new end has one too; a refusal leaves no SDP channel's number behind and adds none; an ended channel's numbers belong to no SDP channel that stays |
| SdpTracker.TrackerIsRightExactly | Analysis/scapy_to_BTIDES_common.py:1293-1422 | along every legal trace the set is right throughout exactly if no packet is one of those |
| SdpTracker.ClassificationExactly | Analysis/HCI_to_BTIDES.py:105-106 | a set that is right takes every frame for what it is exactly if no SDP channel shares a number with another channel across the sides |
| SdpTracker.FramesAreRightExactly | Analysis/HCI_to_BTIDES.py:105-106 | the same along whole traces |
| SdpTracker.ApartTracesExactly | Analysis/scapy_to_BTIDES_common.py:1293-1422 | on traces whose channels never share a number, the set is right throughout exactly if no SDP request is refused, and then every frame is taken for what it is |
| SdpTracker.TraceKnown | Analysis/scapy_to_BTIDES_common.py:1293-1422 | on such traces, refusals or not, the set is the CIDs of the SDP channels and those that refused requests left behind |
| SdpTracker.ApartFramesExactly | Analysis/HCI_to_BTIDES.py:105-106 | on such traces every frame is taken for what it is exactly if no channel of another kind uses a CID left behind |
| SdpTracker.RefusedRequestStays | Analysis/scapy_to_BTIDES_common.py:1333-1335 | witness: after a refused SDP request its CID is in the set and there is no channel |
| SdpTracker.SharedNumberIsMisclassified | Analysis/scapy_to_BTIDES_common.py:1264-1269 | witness: a second channel with the number of the first one's other end is taken for SDP |
| AttAttribution.Session.ExportPacket | Analysis/TME/TME_BTIDES_ATT.py:154-161 | the array drops an object equal to an earlier one |
| AttAttribution.Session.ImportAll | Analysis/BTIDES_to_SQL.py:1185-1246 | each response is credited to the last request before it in the array |
| AttAttribution.RoundTrip | Analysis/BTIDES_to_SQL.py:1224-1246 | exporting a trace to the array and importing the array, as loops, gives the rows the theorems below are about |
| AttAttribution.ImportOfExported | Analysis/TME/TME_BTIDES_base.py:213-219 | through the array, a value is credited once, to the handle that was newest when the value first came |
| AttAttribution.AttributionExactly | Analysis/BTIDES_to_SQL.py:1185-1246 | the rows are the true ones exactly if every new value answers the newest handle and every repeated one the handle it first came from |
| AttAttribution.DifferentReadsComeBack | Analysis/scapy_to_BTIDES_common.py:737-754 | alternating requests and responses with distinct handles and values come back as exactly the pairs read |
| AttAttribution.RereadIsMisattributed | Analysis/scapy_to_BTIDES_common.py:851-863 | witness: reading a handle again credits the new value to another handle |
| Uuid.ConvertByFullDigits | Analysis/TME/TME_BTIDES_base.py:345-355 | what a UUID converts to: itself if it is a 32-bit one or has upper-case digits in short form, else its four digits if it is on the base UUID, else all 32 in lower case |
| Uuid.CanonicalExactly | Analysis/TME/TME_BTIDES_base.py:345-355 | two UUIDs of 16, 32 or 128 bits, in any case, dashed or not, convert to the same string exactly when they are the same string, or denote the same value and neither is a 32-bit one or a 16-bit one with upper-case digits |
| Uuid.ShortFormsStay | Analysis/TME/TME_BTIDES_base.py:346-347 | witness: `180F`, `180f` and `0000180f` denote one value and convert to different strings |
| Uuid.ConvertIdempotent | Analysis/TME/TME_BTIDES_base.py:345-355 | converting twice is converting once, for every string of hexadecimal digits and dashes |
| Uuid.DashingIsUndone | Analysis/TME/TME_UUID128.py:41-45 | conversion undoes dashing |
| Uuid.ExpansionIsUndone | Analysis/TME/TME_UUID128.py:33-39 | expansion keeps the value of 16- and 32-bit UUIDs, and conversion undoes it for 16-bit ones |
| Uuid.MatchExactly | Analysis/TME/TME_UUID128.py:49-64 | two UUIDs match exactly when they denote the same value and are in forms the comparison brings together |
| WigleVote.BatchFindBdaddrRand | Analysis/WIGLE_to_BTIDES.py:111-152 | for every chunk size, answers for exactly the non-empty addresses, with 0 if more rows of all tables say 0 than 1, and 1 otherwise |
| WigleVote.VotesAreCounts | Analysis/WIGLE_to_BTIDES.py:139-142 | the counters are the numbers of rows with 0 and with 1, repeated rows as often as they occur |
| WigleVote.FindBdaddrRand | Analysis/WIGLE_to_BTIDES.py:89-108 | the answer is 0 if more of the returned rows, one per table, say 0 than 1, and 1 otherwise |
| WigleVote.ScoreBounds | Analysis/WIGLE_to_BTIDES.py:80-83 | whatever rows the database returns, the single vote lies between the tables' least and most |
| WigleVote.BoundsAreReached | Analysis/WIGLE_to_BTIDES.py:80-83 | and both bounds are reached by some choice |
| WigleVote.LookupsAgreeExactly | Analysis/WIGLE_to_BTIDES.py:89-152 | the single lookup agrees with the bulk one for every choice of rows exactly when even the worst choice does |
| WigleVote.OneRowLookupsAgree | Analysis/WIGLE_to_BTIDES.py:89-152 | with at most one row per table they always agree |
| WigleVote.LookupsDiffer | Analysis/WIGLE_to_BTIDES.py:89-152 | witness: a table with two rows outvotes another in the bulk lookup only |

## Left out

- Databases, JSON schema validation, files, sockets, OAuth and subprocesses: only the table operations the algorithms use are modelled, on unbounded integers and opaque strings; collation, column widths and a JSON `null` rssi are not.
- BtcLog.LogComesBack: names with a further line that reads like a header, an end line or a response are not covered; the database's unique keys are not modelled, so an insert repeated is a row repeated.
- GattPlaces.CharacteristicMakesService: handles 0 and 1 and those above 0xFFFF, where an earlier placeholder service takes the characteristic.
- LogText.IntBase16: Python also accepts non-ASCII decimal digits; only ASCII words are modelled.
- LmpName.Defragment: decoding the reassembled bytes as UTF-8 with errors ignored, and the error messages.
- LmpWire.Module.RxPostDissection: name responses with an offset or length of 128 or more, where the code depends on the sign of `char`.
- LmpWire.Module.NameArrives: the same.
- LmpWire.NameIsReassembled: names over 127 bytes, where the code depends on the sign of `char`, and the experimental and malformed-packet modes; packets that repeat or invent name responses are only covered by the contract of a single step.
- AttAttribution.Session.ImportAll: the branch for characteristic declarations (UUID 2803), directions, placeholder addresses and the optional time and RSSI fields.
- BtidesStore.Store.InsertSingleSecondLevel: entries are shared objects, but the objects inside their arrays are values; aliasing of one dictionary between two arrays is not captured.
- Gatt.GattEntry.ExportGattCharacteristicValue: the CONNECT_IND variant, whose service lookup passes no address; callers that pass one dictionary to two exports, so that objects other than the lists above are shared.
- BtidesStore.Store.FilterByNotArgs: the regular expressions; any predicate on entries may be the criterion.
- LauncherCompletion.FinishedAddressIsDeleted: worker lists, attempt counters and RSSI values; `reprioritize_btc_bdaddr` writes `btc_bdaddrs` under another lock, so mutual exclusion on that map is not claimed.
- LauncherLocks.NoDeadlock: threads that raise inside a section release it as any `with` does and are not modelled separately.
- RateLimit.PoolLimits: each limiter call is one step; handlers that raise before the counter is decremented are not modelled.
- SdpTracker.TrackerIsRightExactly: configuration requests and the packet contents other than the identifiers; disconnection responses, which the exporter ignores, so a channel ends with its request.
- RateLimit.UnmatchedLocksOut: a restart of the server, which clears the counters.
- Uuid.CanonicalExactly: strings that are no UUIDs.
- WigleVote.FindBdaddrRand: the memoising cache.
- Dissection of packets, the opcode dispatch chains, the record factories and all printing of results: one-branch code with no state.
