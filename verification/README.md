# A verified model of the MTP responder and initiator

This project models the two ends of a USB connection that speaks the Media Transfer Protocol
(MTP 1.1, USB-IF), and proves what they promise each other.

- **The wire** (`Wire`, `Growth`, `Packet`, `Strings`, `Datasets`, `Properties`, `PropList`). The
  growable little-endian packet is a class over a real byte array with a cursor. A ghost log ties
  the bytes behind the header to the integers put so far. On top of it stand the string codec
  (UTF-8 in memory, counted 16-bit units on the wire), the three dataset writers of the device with
  the host's readers, property descriptions, and the property list.
- **The pipe** (`Bus`, `Transfers`, `Pipeline`). The bus holds whole containers and hands them out in
  pieces that an arbitrary plan chooses: reads can fail, return nothing, or return part of what is
  there. The host's reassembly loop and its double-buffered object reader run over it.
- **The device** (`Tables`, `Scans`, `Database`, `Edits`, `Requests`, `Intake`, `Sends`, `Turns`, `Runs`,
  `Laws`, `Queries`, `Layouts`, `Server`). The object table, the recursive scan, the two-phase send, the
  open edits, and the loop that answers one command after the other. `Server.MtpServer` is a class whose
  handlers change its fields. `Laws` and `Queries` say of every operation what it does and answers, in
  terms of the request, its data, the world and the device before and after alone.
- **The host** (`Host`). `Host.MtpDevice` holds a device as its peer, so that a call of the host runs
  the device's handler, puts its containers on the pipe, and reads them back.

The outside world is a record of parameters, `Requests.Env`: what a read of the data phase brings,
whether a file opens, how the kernel's transfer ends, how a write to the link ends. Nothing is said
of how they are chosen, so every statement holds for all of them. `Requests.View` is what an answer
can depend on. The answers themselves are functions of a view, a request and an environment.
`Turns.Device` is the whole device as a value: the view, the announced object, the edits' books and
histories. For every operation `Turns` gives the device after it, and every handler is proved to give
exactly that answer and that device. A run leaves a log that chains one device to the next
(`Runs.Logged`), and the statements about whole runs are lemmas about every such log. The functions
are the device's own steps; that they are the right ones is what `Laws` and `Queries` are for, which
hold of every step of every log and name none of them. `Layouts` gives the bytes of the datasets.

Integer widths are explicit: `uint8` to `uint64` and `int32` are subset types, and conversions,
wrap-arounds and truncations are written out; the exception is named under "Left out"
(`Packets.MtpPacket.Grow`).

`dafny verify dfyconfig.toml` checks the whole project.

## Model

| member | source | states |
|---|---|---|
| `Growth.SizeBounds` | src/MtpPacket.cpp:55-64 | Under any sequence of requested lengths the buffer covers the longest one, and is its initial size or at most one increment more than the longest length. |
| `Growth.ReallocationsAreRare` | src/MtpPacket.cpp:55-64 | With an initial size equal to the increment, replacements times the increment stay below the longest length asked for. |
| `Packets.MtpPacket.Allocate` | src/MtpPacket.cpp:55-64 | For every signed 32-bit length: the process lives on if and only if the buffer is long enough or the new size is below 2^31; then the buffer covers the length, every byte written before survives, and a negative length changes nothing. |
| `Packets.MtpPacket.Grow` | src/MtpPacket.cpp:55-64 | The same for the lengths that puts ask for: every byte written before survives growth; the buffer is replaced exactly when the length exceeds it. |
| `Packets.MtpPacket.BufferBounds` | src/MtpPacket.cpp:32-64 | In every valid packet at any time: contents fit the buffer, the buffer exceeds the longest length ever asked for by at most one increment, and replacements are as rare as above. |
| `Packets.MtpPacket.RoomAfterPuts` | src/MtpDataPacket.cpp:157-233 | After any run of puts the cursor stands behind all integers put so far, and the buffer is within one increment of that or of the longest length before. |
| `Packets.MtpPacket.Reset` | src/MtpDataPacket.cpp:43-46 | The packet is empty, its cursor at the payload's start, and every byte of the buffer zero. |
| `Packets.MtpPacket.CopyFrom` | src/MtpPacket.cpp:85-90 | The contents become those of the other packet, and the cursor stays. |
| `Packets.MtpPacket.SetParameter` | src/MtpPacket.cpp:133-151 | Exactly the addressed parameter changes and the contents reach behind it; an index outside 1 to 5 changes nothing. |
| `Packets.MtpPacket.Transmit` | src/MtpDataPacket.cpp:453-467 | The container handed over is a header with its own length, kind, code and transaction, and the payload as put. |
| `Packets.MtpPacket.PutFields` | src/MtpDataPacket.cpp:157-233 | Any mix of integers is appended at the cursor in little-endian form, and the bytes before stay. |
| `Packets.MtpPacket.GetFields` | src/MtpDataPacket.cpp:56-79 | Any mix of integers that lies at the cursor is read back as sent, and the cursor moves behind it. |
| `Packets.MtpPacket.PutAUInt16` | src/MtpDataPacket.cpp:277-288 | A 32-bit count and the elements are appended. |
| `Packets.MtpPacket.GetAUInt16` | src/MtpDataPacket.cpp:117-123 | An array that lies at the cursor is read back as sent, with the cursor behind it. |
| `Packets.MtpPacket.PutAUInt32` | src/MtpDataPacket.cpp:296-311 | A 32-bit count and the elements are appended. |
| `Packets.MtpPacket.GetAUInt32` | src/MtpDataPacket.cpp:133-139 | An array that lies at the cursor is read back as sent, with the cursor behind it. |
| `Strings.MtpStringBuffer.SetUtf8` | src/MtpStringBuffer.cpp:58-96 | The buffer takes over a C string cut to its size, counts the characters over the whole string, and drops the bytes of an incomplete last one. |
| `Strings.ScanKeepsCompleteCharacters` | src/MtpStringBuffer.cpp:64-91 | For complete characters of one to three bytes followed by the start of another, exactly the complete ones are counted and exactly the rest is dropped. |
| `Strings.MtpStringBuffer.SetUnits` | src/MtpStringBuffer.cpp:98-119 | The first 255 of the units are taken over in UTF-8, ended by a zero, in at most 766 bytes. |
| `Strings.MtpStringBuffer.ReadFromPacket` | src/MtpStringBuffer.cpp:121-140 | Whatever counted string lies at the cursor fits the buffer in at most 766 bytes, and the C string is the UTF-8 form of the units before the first zero. |
| `Strings.MtpStringBuffer.WriteToPacket` | src/MtpStringBuffer.cpp:142-169 | If as many characters as are counted lie in the buffer, the packet gets the count byte, these units and a zero. |
| `Strings.PutCString` | src/MtpDataPacket.cpp:329-332 | Any C string whose counted characters lie in the bytes that the buffer keeps is put as these characters. |
| `Strings.CompleteCharactersCount` | src/MtpStringBuffer.cpp:58-96 | A C string that ends in an incomplete character is put as its complete ones, as long as it fits the buffer. |
| `Strings.WellFormedCountsExactly` | src/MtpStringBuffer.cpp:58-169 | For well-formed text, all counted characters lie in the bytes kept if and only if it has at most 765 bytes; then they are its characters. |
| `Strings.PutString` | src/MtpDataPacket.cpp:329-332 | A name is put as its count plus one, its units and a zero. |
| `Strings.PutString16` | src/MtpDataPacket.cpp:334-349 | At most 256 units of a zero-terminated string are put, with the count byte that they wrap to. |
| `Strings.PutBuffered` | src/MtpDataPacket.cpp:325-327 | Units put by way of a string buffer: at most 255 of them. |
| `Strings.PutsAgreeExactly` | src/MtpDataPacket.cpp:325-349 | The two ways to put 16-bit units give the same bytes if and only if there are at most 255. |
| `Strings.StringRoundTripExactly` | src/MtpStringBuffer.cpp:121-169 | For nonzero units: what is sent is a counted string that reads back as the same units if and only if there are at most 254. |
| `Strings.UnitsTravel` | src/MtpStringBuffer.cpp:98-169 | At most 254 nonzero units, put into one packet either way, handed over and got from another, arrive as the same C string with the cursor at the end. |
| `Datasets.WriteObjectInfo` | src/MtpServer.cpp:714-752 | The device's description of an object on the wire, with an empty creation date and no keywords. |
| `Datasets.MtpObjectInfo.Read` | src/MtpObjectInfo.cpp:63-96 | A description at the cursor is read field for field, and the cursor ends behind it. |
| `Datasets.WriteStorageInfo` | src/MtpServer.cpp:545-566 | The device's description of a storage on the wire. |
| `Datasets.MtpStorageInfo.Read` | src/MtpStorageInfo.cpp:51-66 | A storage description at the cursor is read field for field, and the cursor ends behind it. |
| `Datasets.WriteDeviceInfo` | src/MtpServer.cpp:455-509 | The device's description of itself on the wire: strings mixed with five arrays. |
| `Datasets.MtpDeviceInfo.Read` | src/MtpDeviceInfo.cpp:66-92 | That description at the cursor is read field for field, and the cursor ends behind it. |
| `Datasets.WriteSendObjectInfo` | src/MtpDevice.cpp:424-450 | The host's announcement on the wire, behind whatever the packet held. |
| `Properties.MtpProperty.Write` | src/MtpProperty.cpp:173-212 | A well-formed description of any type and form is appended in the writer's layout. |
| `Properties.MtpProperty.Read` | src/MtpProperty.cpp:132-171 | A description in the reader's layout is read back in every field that travels, to its end; a null string as an empty one. |
| `Properties.DescriptionTravels` | src/MtpProperty.cpp:132-212 | Every well-formed description of an object property, written, handed over and read, comes back in every field that travels, with the cursor at the end. |
| `Properties.WriterAndReaderAgreeExactly` | src/MtpProperty.cpp:148-209 | Writer and reader agree on the bytes if and only if the code is not that of a device property; for those the writer's are three more. |
| `Tables.ListingsPartition` | server/UbuntuMtpDatabase.h:447-475 | The listings of a storage over all parents are disjoint, and together show exactly its entries, except those whose own parent is the reserved root value. |
| `Tables.DeleteCutsSubtree` | server/UbuntuMtpDatabase.h:1017-1051 | In any table that has lost exactly an entry and its direct children, an entry is reachable from the root if and only if it was and the deleted one is not on its way. |
| `Tables.MoveDetachesExactly` | server/UbuntuMtpDatabase.h:1053-1071 | A moved entry is reachable afterwards if and only if the new parent is the top, or is reachable by a way that does not lead through the entry. |
| `Tables.MoveKeepsOrderExactly` | server/UbuntuMtpDatabase.h:1053-1071 | A move keeps every parent reserved or smaller than its child if and only if the new parent is. |
| `Tables.WalkEnds` | server/UbuntuMtpDatabase.h:1017-1051 | In a table whose parents are smaller, following parent links from an entry ends, and gives its chain to the root if and only if it has one. |
| `Scans.ScanTreeNumbers` | server/UbuntuMtpDatabase.h:121-186 | The scan's rows carry ascending handles, all from the counter on and below its next value, and each parent is the scan's own or an earlier row. |
| `Scans.CleanScanCounts` | server/UbuntuMtpDatabase.h:121-186 | A scan without errors takes one handle per node, and adds one row per folder and per readable file. |
| `Scans.ScanUpToError` | server/UbuntuMtpDatabase.h:121-186 | A scan is broken off if and only if some folder cannot be listed, and gives what the scan of the tree up to that folder gives. |
| `Scans.ScannedTreeCanBeRebuilt` | server/UbuntuMtpDatabase.h:121-186 | From the table after a scan of any tree, following parent links through the new rows gives back exactly the folders and readable files that the scan came to, nested as they were, each with its name, path, format, size, watch and date. |
| `Database.UbuntuMtpDatabase.AddFileEntry` | server/UbuntuMtpDatabase.h:121-165 | A readable file gets an entry with its storage, format, parent, size, name, path and date under the next handle, a folder one with its watch; below a folder the rows are those of its scan, in order; one event per row when a session is open, up to an error. |
| `Database.UbuntuMtpDatabase.ParseDirectory` | server/UbuntuMtpDatabase.h:167-186 | The same for all nodes of a folder; nothing when it cannot be listed. |
| `Database.UbuntuMtpDatabase.ReadFiles` | server/UbuntuMtpDatabase.h:188-234 | Adds a storage's top entry without an event, at the top or, if hidden, outside the tree, and the scan of what is in it below the entry or at the top; only new handles appear. |
| `Database.UbuntuMtpDatabase.OnCreate` | server/UbuntuMtpDatabase.h:245-335 | What appears in a watched folder is scanned into the table unless its path is known: on the folder's storage, below the folder, or at the top if the folder stands outside the tree; only new handles appear. |
| `Database.UbuntuMtpDatabase.OnDelete` | server/UbuntuMtpDatabase.h:245-335 | What vanishes from a watched folder is deleted by its path, with its direct children and one event in an open session; every other entry stays. |
| `Database.UbuntuMtpDatabase.OnModify` | server/UbuntuMtpDatabase.h:271-284 | Every entry with the path of what was written to in a watched folder takes the file's size, if that can be told, and nothing else changes. |
| `Database.UbuntuMtpDatabase.BeginSendObject` | server/UbuntuMtpDatabase.h:385-418 | Inserts the entry under the next handle, which is not in use before the counter wraps; refused at the top of the fixed storage. |
| `Database.UbuntuMtpDatabase.EndSendObject` | server/UbuntuMtpDatabase.h:420-445 | A failure takes the entry back; a success of a file takes over the size on disk. |
| `Database.UbuntuMtpDatabase.DeleteFile` | server/UbuntuMtpDatabase.h:1017-1051 | The loop over the table leaves exactly the entries that are neither the object nor its direct children, unchanged, and exactly what could be reached without the object reachable; the response is an error also when it was the only entry. |
| `Database.UbuntuMtpDatabase.SetFileName` | server/UbuntuMtpDatabase.h:654-693 | Exactly name and path of the entry change, when the file could be renamed. |
| `Database.UbuntuMtpDatabase.MoveFile` | server/UbuntuMtpDatabase.h:1053-1071 | Exactly the parent of the entry changes. |
| `Database.UbuntuMtpDatabase.RemoveStorage` | server/UbuntuMtpDatabase.h:375-382 | Exactly the storage's entries go. |
| `Database.UbuntuMtpDatabase.GetObjectList` | server/UbuntuMtpDatabase.h:447-475 | The loop gives the ascending list of exactly the handles that storage, format and effective parent select. |
| `Database.Perform` | server/UbuntuMtpDatabase.h:121-1071 | Any action, file-system events included, keeps the table consistent with the counter, a handle new in the table was not taken before, and all but a move keep parents smaller. |
| `Database.PerformAll` | server/UbuntuMtpDatabase.h:121-1071 | Over any run in which the counter does not wrap: every handle was taken from the counter, none is reserved, and one that is gone never returns; in a run without a move every walk towards the root ends. |
| `Database.GoneForGood` | server/UbuntuMtpDatabase.h:393-414 | In any history whose moments add only new handles, a handle that was taken and is absent at one moment is absent at every later one. |
| `Database.NextHandleIsNewExactly` | server/UbuntuMtpDatabase.h:121-126 | The counter's next handle is one not given before if and only if fewer than 2^32 were, and no reserved one was given if and only if fewer than 2^32 - 1 were. |
| `PropList.GetObjectPropertyList` | server/UbuntuMtpDatabase.h:749-935 | The request is refused in the order of the checks, with the packet untouched, or answered with the dataset for the selected handles. |
| `PropList.SelectChildren` | server/UbuntuMtpDatabase.h:783-789 | The loop selects exactly the handles with that parent, ascending. |
| `PropList.DeclaredExactly` | server/UbuntuMtpDatabase.h:800-931 | As many quadruples are sent as are declared if and only if no handle is selected, or the property is a single supported one, other than the non-consumable one for several handles. |
| `PropList.OneItemPerHandle` | server/UbuntuMtpDatabase.h:803-918 | A single supported property other than the non-consumable one is sent once for each selected handle, in order. |
| `PropList.PropListParsesExactly` | server/UbuntuMtpDatabase.h:800-931 | A reader that goes by the declared count and the type codes ends exactly at the dataset's end with the quadruples sent, if and only if the count is the right one. |
| `PropList.CodeIsOwnExactly` | server/UbuntuMtpDatabase.h:903-909 | A reader finds a property of an object under the property's own code, whatever follows, if and only if it is not the date of the last change. |
| `PropList.TwoCreationDates` | server/UbuntuMtpDatabase.h:897-909 | Of an object last changed at another time than the fixed date of all creations, a reader finds two dates of creation with different values. |
| `Edits.OffsetRoundTrip` | src/MtpServer.cpp:1157-1159 | A 64-bit offset is rebuilt from its two halves, and from no others. |
| `Edits.PartialLengthExactly` | src/MtpServer.cpp:804-851 | The length reported for a partial read is that of the file's bytes in the range if and only if the range starts within the file, or the wrapped sum exceeds the file's length and the distance behind its end is a multiple of 2^32. |
| `Edits.ResizedExactly` | src/MtpServer.cpp:1181-1214 | For an accepted write, the new size is the larger of the old one and its end if and only if the initial bytes are no more than announced and the end fits 64 bits, or the size already reaches past the end as computed. |
| `Edits.SizeIsFold` | src/MtpServer.cpp:1153-1236 | Over any accepted operations that are regular in that sense, the size is the fold that truncations set and writes extend. |
| `Edits.HonestIsRegular` | src/MtpServer.cpp:1153-1217 | Operations whose writes bring no more bytes than announced and end below 2^64 are regular. |
| `Edits.CommitAllSettles` | src/MtpServer.cpp:243-250 | Committing every open edit of balanced books leaves everything begun committed once and every opened file closed once. |
| `Intake.EveryBufferIsIncoming` | src/MtpServer.cpp:875-894 | Whatever bytes lie in the data packet can be read as an announcement. |
| `Intake.IncomingUnique` | src/MtpServer.cpp:875-894 | In one way only: all integers and strings are determined by the bytes. |
| `Intake.HostInfoIsRead` | src/MtpServer.cpp:875-894 | Bytes that start with what the host writes are read as the host's integers, name and dates. |
| `Requests.ReferencesExactly` | server/UbuntuMtpDatabase.h:1084-1094 | The references served are the object's children if and only if: its handle is its format code and every child has that format; or it has no children and no entry is selected by its storage, its handle cut to 16 bits as format and its format as parent. |
| `Requests.ReferencesMissChild` | server/UbuntuMtpDatabase.h:1084-1094 | A folder under handle 1 with one object in it: the object is its child, and no references are served. |
| `Sends.CancelledOnlyByTransfer` | src/MtpServer.cpp:951-1217 | Of the operations that may change the state, only the two that receive a file can end cancelled, and only if the transfer was. |
| `Sends.DeleteReportedExactly` | server/UbuntuMtpDatabase.h:1023-1038 | An existing entry is always gone after its deletion, which is reported as an error if and only if it was the only one. |
| `Sends.OnlyObjectDeleted` | server/UbuntuMtpDatabase.h:1023-1038 | A table whose only entry has handle 1: deleting it empties the table, and the answer is an error. |
| `Sends.EditedSizeServed` | src/MtpServer.cpp:727-732 | The description of an object that is open for editing shows the size that its recorded operations lead to, cut at 2^32 - 1, and the fold if they were regular. |
| `Server.MtpServer.DoSendObjectInfo` | src/MtpServer.cpp:853-949 | For the size, format and name that lie in the data: accepted if and only if there is a storage with room, the parent is a folder of the table or the top of another than the fixed storage, a handle is left and the folder can be made. Then the entry is on the announced storage, below that parent, with that format and size, under the path of the parent's folder, one slash and the name; a file is pending; and the answer carries storage, parent and handle. Every refusal has the source's code and changes nothing. |
| `Server.MtpServer.DoSendObject` | src/MtpServer.cpp:951-1020 | For a pending announcement the answer is OK if and only if the header arrives, the file opens, and the object comes whole; anything else erases the announced entry, a success takes the size on disk, and nothing is pending afterwards. Without a storage nothing changes. |
| `Server.MtpServer.Fetch` | src/MtpServer.cpp:754-851 | Object, thumbnail and partial reads: the code, the parameters, and the one container that is written directly, if any. |
| `Server.MtpServer.DoSendPartialObject` | src/MtpServer.cpp:1153-1217 | The code, the response's parameter and what stays in the data packet are those the edit, the offset, the data and the transfer demand; exactly a write that succeeds changes the edit's size, and nothing else of the device. |
| `Server.MtpServer.DoTruncateObject` | src/MtpServer.cpp:1219-1236 | An open edit that can be truncated takes the size rebuilt from both halves; nothing else of the device changes. |
| `Server.MtpServer.DoBeginEditObject` | src/MtpServer.cpp:1238-1260 | An edit is added exactly if the object has none, exists and opens; it starts with the table's size, path and format, and is entered in the books; nothing else of the device changes. |
| `Server.MtpServer.DoEndEditObject` | src/MtpServer.cpp:1262-1273 | The edit is committed to the table, taken off the list, and its file closed once; nothing else of the device changes. |
| `Server.MtpServer.CommitOpenEdits` | src/MtpServer.cpp:243-250 | The shutdown loop leaves no open edit; table and books are those after committing every edit that was open, one after the other. |
| `Server.MtpServer.DoDeleteObject` | src/MtpServer.cpp:1082-1103 | The table loses exactly the entry and its direct children and keeps the others as they are, with the code the device's state demands; nothing else of the device changes. |
| `Server.MtpServer.RemoveStorage` | src/MtpServer.cpp:132-142 | Exactly the first occurrence of the storage goes. |
| `Server.MtpServer.Transact` | src/MtpServer.cpp:187-241 | One turn of the loop: the request is read from whatever lies in the buffer; the containers written, the whole device afterwards (session, edits, books, counter, announcement, table) and the way the loop goes on are those of a lawful step that starts at the device as it was. |
| `Server.MtpServer.Run` | src/MtpServer.cpp:165-256 | Over all inputs: the log covers each, its steps chain the whole device from the start to the end, and what was written is what they wrote. Unless an exception escaped, no edit is open, and everything that the log's requests began was committed once and every file they opened closed once. |
| `Turns.SilentOnlyWhenCancelled` | src/MtpServer.cpp:208-241 | A handled request goes without a response only if its transfer was cancelled, and only for an operation that moves a file. |
| `Turns.OneResponse` | src/MtpServer.cpp:208-241 | If nothing goes wrong on the link, no transfer is cancelled and no exception escapes: exactly one response, last, and at most one data container before it, both of the request's own transaction. |
| `Runs.EachAnsweredOnce` | src/MtpServer.cpp:165-256 | Over every log in which nothing goes wrong with any request: each request's own response is among what was written, and there are at least one container and at most two for each request. |
| `Runs.SessionAsLeft` | src/MtpServer.cpp:511-531 | Over every log the session is open exactly as the last session operation left it. |
| `Runs.SessionOpenedBy` | src/MtpServer.cpp:511-531 | A session opened during a run was opened by an OpenSession that was answered OK, carries its identifier, and was not closed since. |
| `Runs.SendEnds` | src/MtpServer.cpp:853-1020 | Over every log, a SendObject that ends an announcement ends one that an accepted SendObjectInfo made, with only deferred sends since; a success keeps the object under the handle that was answered, as the only change, and anything else leaves the table as it was before the announcement. |
| `Runs.SentWasAnnounced` | src/MtpServer.cpp:951-967 | A SendObject is answered OK only for a pending announcement. |
| `Runs.LedgerHolds` | src/MtpServer.cpp:304-335 | Over every log the books change by exactly what its requests enter: a BeginEditObject answered OK enters its handle and file, an EndEditObject answered OK commits and closes them, and no other request enters anything. |
| `Runs.EveryEditAccounted` | src/MtpServer.cpp:304-335 | Over every log: the edits open at the start and those begun since are those ended since and those still open, each once; likewise the files. |
| `Runs.SettledInTheEnd` | src/MtpServer.cpp:243-250 | After the shutdown every edit that was open or was begun is committed once, and its file closed once, by its EndEditObject or by the shutdown. |
| `Runs.HandlesOverRun` | src/MtpServer.cpp:165-256 | Over every log in which the counter does not wrap: handles in the table were taken from the counter, none is reserved, and one that is gone never returns; in a run without a move every walk towards the root ends. |
| `Runs.EditedSizeOverRun` | src/MtpServer.cpp:727-732 | At every point of every log, the description of an object open for editing shows the size that its accepted requests lead to, as far as 32 bits can say it. |
| `Turns.OwnDataExactly` | src/MtpServer.cpp:208-226 | The loop's own data container goes out if and only if the request is a query whose answer has data, which is then an OK one, or a partial write whose data is echoed as below; its payload is that data. |
| `Turns.EchoExactly` | src/MtpServer.cpp:1201-1207 | A partial write sends received data back if and only if it failed after reading it and there was data behind the header. |
| `Turns.OneByteEchoed` | src/MtpServer.cpp:1201-1207 | One byte for an open edit, which cannot be written: an error, and before it a data container with the byte. |
| `Runs.PendingSince` | src/MtpServer.cpp:853-1020 | Over every log that starts without an announcement: a pending one was made by an accepted SendObjectInfo, under the handle that was answered, and every request since was a SendObject that found no storage. |
| `Turns.FailedInfoLeavesEntryExactly` | src/MtpServer.cpp:896-949 | A failed SendObjectInfo leaves an entry behind if and only if the checks admitted it and it was not for the top of the fixed storage. |
| `Turns.FolderNotMadeStays` | src/MtpServer.cpp:924-935 | A folder announced for the top of an empty storage that cannot be made: an error, and its entry stays. |
| `Laws.SendLaw` | src/MtpServer.cpp:951-1020 | Over every step of every log: a SendObject for a pending announcement succeeds if and only if its header arrives, the file opens and the object comes whole, that is all with the header, and written, or by the kernel's transfer; a success leaves the object with the size on disk, anything else the table as it was before the announcement; only a cancelled transfer leaves the device silent. |
| `Laws.SendRefused` | src/MtpServer.cpp:951-961 | Without a storage, or without an announcement, a SendObject is refused and the table stays. |
| `Laws.AnnouncementLaw` | src/MtpServer.cpp:853-949 | Over every step of every log: an announcement goes by what can be read from its data, succeeds exactly under the stated conditions, and puts the object where and as it was announced; each refusal has its code, in the order of the checks. |
| `Laws.TwoPhases` | src/MtpServer.cpp:853-1020 | Over every log: an object whose SendObject succeeds was announced before, by a SendObjectInfo that was answered with its handle, and is in the table in that place and form as the only change since, with the size on disk. |
| `Laws.DeletionLaw` | server/UbuntuMtpDatabase.h:1017-1051 | Over every step of every log: a deletion takes exactly the object and its direct children, keeps every other entry, and leaves reachable exactly what could be reached without the object; all response codes. |
| `Laws.MoveLaw` | src/MtpServer.cpp:1105-1127 | A move gives the object its third parameter as parent and changes nothing else; all response codes. |
| `Laws.RenameLaw` | src/MtpServer.cpp:657-672 | A rename gives the object the name that can be read from the data, and the file's new path, and changes nothing else; all response codes. |
| `Laws.BeginEditLaw` | src/MtpServer.cpp:1238-1260 | An edit opens if and only if the object is known, has none and its file opens, and starts with the table's size, path and format, the opened file, and no operations. |
| `Laws.TruncateLaw` | src/MtpServer.cpp:1219-1236 | An open edit that can be truncated takes the second parameter as size, with the third as its high half. |
| `Laws.PartialWriteLaw` | src/MtpServer.cpp:1153-1217 | A partial write succeeds if and only if the object is open for editing, the write starts within it and goes through; then its size reaches to the write's end, and the answer is what was left for the kernel. |
| `Laws.PartialWriteFails` | src/MtpServer.cpp:1153-1217 | The code, or silence, and the parameters of every partial write that fails. |
| `Laws.EndEditLaw` | src/MtpServer.cpp:1262-1273 | The end of an edit takes it off the list and gives a file's entry the size on disk; nothing else changes in the table. |
| `Laws.EditedSizeLaw` | src/MtpServer.cpp:1153-1260 | Over every log: the size of an object that was opened for editing is the fold, from the table's size at its last accepted BeginEditObject, of the accepted truncations and writes that the log's requests made since. |
| `Laws.StoragesLaw` | src/MtpServer.cpp:125-142 | A storage that is added comes last, and of one that is removed exactly the first occurrence goes. |
| `Laws.SessionLaw` | src/MtpServer.cpp:511-531 | What opening and closing a session answers, and that it changes the session and an announcement alone. |
| `Laws.NothingElseChanges` | src/MtpServer.cpp:337-453 | Every operation that is not there to change something leaves the device as it was, but for an announcement. |
| `Laws.RefusalLaw` | src/MtpServer.cpp:337-453 | What is neither a query, a fetch nor a change is refused with its code, except that references can be set in a session, to no effect. |
| `Laws.LoopLaw` | src/MtpServer.cpp:187-241 | The loop is left by an exception exactly for the references of an unknown handle, and stops exactly when a write of data or, after it, of the response fails. |
| `Laws.WrittenLaw` | src/MtpServer.cpp:187-241 | What is written for a request, in order: what its handler sent, its data, its response; nothing follows a write that failed. |
| `Laws.ShutDownLaw` | src/MtpServer.cpp:243-250 | After the shutdown every file that was open for editing has the size on disk in the table, and all else is as it was. |
| `Queries.StorageIDsLaw` | src/MtpServer.cpp:533-543 | The identifiers of the storages, in order, in a session. |
| `Queries.StorageInfoLaw` | src/MtpServer.cpp:545-566 | The first storage with the identifier is described by what is fixed of it and its present capacity and free space. |
| `Queries.HandlesLaw` | src/MtpServer.cpp:578-593 | The ascending handles of exactly the entries on the storage with the format and the parent of the request. |
| `Queries.NumObjectsLaw` | src/MtpServer.cpp:595-613 | The number of the same handles, as a signed 32-bit number. |
| `Queries.ObjectInfoLaw` | src/MtpServer.cpp:714-752 | An object is described field by field as the table has it, with the size of its open edit if it has one, as far as 32 bits can say it. |
| `Queries.PropValueLaw` | src/MtpServer.cpp:646-655 | Each property is answered with its own value; the constant ones also for unknown handles, and the non-consumable one with no data. |
| `Queries.ValuesLaw` | server/UbuntuMtpDatabase.h:800-931 | Which value belongs to which of the fourteen properties. |
| `Queries.KindsLaw` | server/UbuntuMtpDatabase.h:800-931 | The data type sent with a property is that of its value. |
| `Queries.SupportedExactly` | server/UbuntuMtpDatabase.h:551-580 | The properties that are announced are those that can be asked for. |
| `Queries.PropsSupportedLaw` | src/MtpServer.cpp:568-576 | The announced properties, in a session. |
| `Queries.PropListLaw` | server/UbuntuMtpDatabase.h:749-800 | The order of the checks with their codes, and the object itself or its children, ascending, by the depth. |
| `Queries.PropDescLaw` | server/UbuntuMtpDatabase.h:1107-1137 | A property is described by its code, the type of its value, whether it can be set, and an empty default. |
| `Queries.DevicePropertiesLaw` | src/MtpServer.cpp:674-693 | The two properties of the device have the value 0 and a description as read-only strings; every other, and every reset, is refused. |
| `Queries.OperationsLaw` | src/MtpServer.cpp:337-453 | The device announces exactly the operations that it handles. |
| `Queries.DeviceInfoLaw` | src/MtpServer.cpp:455-509 | The device's description of itself, field by field. |
| `Queries.ReferencesLaw` | server/UbuntuMtpDatabase.h:1084-1094 | What is served as an object's references: the entries on its storage below its format code, with its handle, cut to 16 bits, as format; an unknown handle ends the loop. |
| `Queries.GetObjectLaw` | src/MtpServer.cpp:754-786 | An object is sent as the first bytes of its file, as many as the table says; all codes. |
| `Queries.ThumbLaw` | src/MtpServer.cpp:788-802 | A thumbnail is sent whole, if there is one. |
| `Queries.PartialReadLaw` | src/MtpServer.cpp:804-851 | Which parameters are offset and length, which bytes are sent, and the length that is reported; all codes. |
| `Layouts.ObjectInfoLayout` | src/MtpObjectInfo.cpp:63-96 | The place of every integer of an object's description among its bytes, and the order of the strings behind them. |
| `Layouts.StorageInfoLayout` | src/MtpStorageInfo.cpp:51-66 | The same for a storage's description. |
| `Layouts.DeviceInfoLayout` | src/MtpDeviceInfo.cpp:66-92 | The same for the device's description of itself, with its arrays. |
| `Layouts.StringLayout` | src/MtpStringBuffer.cpp:142-169 | The count byte, every unit and the terminator of a string among its bytes. |
| `Layouts.ArrayLayout` | src/MtpDataPacket.cpp:277-288 | The count and every element of an array among its bytes. |
| `Layouts.CharacterBytes` | src/MtpStringBuffer.cpp:98-119 | The bytes of three characters, of one, two and three bytes. |
| `Layouts.PropertyLayout` | src/MtpProperty.cpp:173-212 | The place of a property's code, type and access. |
| `Pipeline.SequentialLength` | src/MtpDevice.cpp:671-769 | A plain copy that ends passes on as many bytes as were asked for, in nonempty pieces of at most 16384. |
| `Pipeline.SequentialDelivers` | src/MtpDevice.cpp:671-769 | The plain copy passes on exactly the front container's bytes, however they are split, leaves the next container at the front, and ends on a link without failures. |
| `Pipeline.Pump` | src/MtpDevice.cpp:611-664 | The double-buffered loop makes exactly the calls of the plain copy, in order, each with the number of bytes before it as a signed 32-bit integer; when it stops early it made a prefix of them, for a refused call, a refused queueing or a failed read; only a failed wait leaves a read in flight. |
| `Pipeline.OffsetsExactly` | src/MtpDevice.cpp:597-640 | For one split of an object, the offsets are the numbers of bytes before the pieces if and only if every piece starts below 2^31. |
| `Pipeline.AllOffsetsExactly` | src/MtpDevice.cpp:597-640 | The offsets are right for every split if and only if the object has at most 2^31 bytes. |
| `Pipeline.OffsetsFail` | src/MtpDevice.cpp:597-640 | An object of 2^31 bytes and one more, in full pieces and a last one of one byte: the last offset is -2^31. |
| `Transfers.ReadData` | src/MtpDataPacket.cpp:380-404 | On a reliable link, however it splits a container: the container arrives whole, with the next one at the front, if and only if the buffer holds it or its length and the increment are below 2^31; from 2^31 on the read runs over the buffer's end, and in between the process ends. |
| `Transfers.LongContainerOverruns` | src/MtpDataPacket.cpp:386-391 | A container of 2^31 bytes is announced like any other and runs over the end of a new packet's buffer. |
| `Host.MtpDevice.SendRequest` | src/MtpDevice.cpp:771-780 | The device finds exactly this operation, transaction and parameters, whatever its buffer held, and its containers are what goes on the link. |
| `Host.MtpDevice.ReadDataPhase` | src/MtpDevice.cpp:791-811 | One container that there is room for is taken off the link; a response in the place of the data is kept for later. |
| `Host.MtpDevice.ReadResponse` | src/MtpDevice.cpp:819-837 | The kept response, or the next container, also behind a packet of length zero, and then the link is empty. |
| `Host.MtpDevice.OpenSession` | src/MtpDevice.cpp:283-302 | The host's session is the one it asked for, or the one that was open already. |
| `Host.MtpDevice.DeleteObject` | src/MtpDevice.cpp:490-501 | The device's table loses exactly the object and its direct children, if it has a storage and the object is there, and keeps the others as they are; the result says whether the device reported success. |
| `Host.MtpDevice.SendObjectInfo` | src/MtpDevice.cpp:413-462 | From a reset data packet, end to end: the device accepts the announcement exactly if it is admissible, and then has an entry on the announced storage, below the announced parent, with the announced format and size, under the path of the parent's folder, one slash and the announced name; its response carries storage, parent and the new handle. The host reads the response only if the data counts as sent, which it never does: it returns the invalid handle, leaves the caller's description alone, and leaves the response on the link. |
| `Host.DataNeverCountsAsSent` | src/MtpDevice.cpp:782-789 | Whatever the transfer returns, writing a data packet never counts as sent. |
| `Host.TopIsAlwaysRefused` | src/MtpDevice.cpp:417-422 | An announcement that carries parent 0 is refused and leaves the whole device as it was. |
| `Host.MtpDevice.GetDeviceInfo` | src/MtpDevice.cpp:309-324 | End to end: what the device serves about itself is read back field for field, with the cursor at the end and the link empty. |
| `Host.MtpDevice.GetStorageIDs` | src/MtpDevice.cpp:326-339 | End to end: the device's storages in order, or nothing without a session. |
| `Host.MtpDevice.GetStorageInfo` | src/MtpDevice.cpp:341-357 | End to end: the storage's description field for field, with the cursor at the end, or nothing if the device refuses. |
| `Host.MtpDevice.GetObjectHandles` | src/MtpDevice.cpp:359-376 | End to end: the device's listing, or nothing if it refuses. |
| `Host.MtpDevice.GetObjectInfo` | src/MtpDevice.cpp:378-396 | End to end: the object's description field for field, with the cursor at the end, or nothing if the device refuses. |
| `Host.MtpDevice.GetObjectPropDesc` | src/MtpDevice.cpp:560-577 | End to end: the property's description in every field that travels, or nothing if there is none. |
| `Host.MtpDevice.ReadObject` | src/MtpDevice.cpp:579-669 | End to end: the callback gets exactly the object's bytes in order up to a refusal, and all of them if nothing refuses; its offsets are right for up to 2^31 bytes, and beyond that if and only if no piece starts there; nothing if the size, read as unsigned, is not the announced one or the device has no such object. |
| `Host.MtpDevice.ReadObjectToFile` | src/MtpDevice.cpp:671-769 | End to end: the file gets the object's bytes from the first on, up to a refusal, and all of them if nothing refuses. |
| `Host.MakeAll` | src/MtpDevice.cpp:771-837 | After any sequence of session, delete and query calls the link is empty: each call takes exactly the containers of its own transaction, and the device handles one request for each, finding itself as the one before left it. |

## Findings

Where the code does not do what its callers may expect, the model keeps the code as it is. Each of
these has a concrete input and an exact condition, or fails for every input.

- **String length byte.** 255 units send the count byte 0 (`Strings.LongStringFails`). The round trip
  holds if and only if there are at most 254 (`Strings.StringRoundTripExactly`); the two ways to put
  16-bit units differ from 256 on (`Strings.PutsAgreeExactly`).
- **Device property descriptions.** The writer always sends the group code and guards the form flag,
  the reader does the opposite: `Properties.DeviceDescriptionFails` for code 0xD401, and
  `Properties.WriterAndReaderAgreeExactly` for all codes.
- **Property list count.** All properties of one object: 6 declared and 14 sent; the non-consumable
  property of two objects: 2 and 1; an unsupported one: 1 and none (`PropList.DeclaredFails`,
  `PropList.DeclaredExactly`).
- **Date of the last change.** It is sent under the code of the creation date, so that a reader finds
  two different creation dates (`PropList.TwoCreationDates`, `PropList.CodeIsOwnExactly`).
- **Partial reads.** One byte behind the start of an empty file reports 2^32 - 1 bytes
  (`Edits.PartialLengthFails`, `Edits.PartialLengthExactly`).
- **Partial writes.** One byte that comes with the header of a write of length 0 makes an empty object
  2^32 bytes long (`Edits.ResizedFails`, `Edits.ResizedExactly`). A failed write sends its data back
  (`Turns.OneByteEchoed`, `Turns.EchoExactly`).
- **Deleting the only entry.** It goes, but the response is an error (`Sends.OnlyObjectDeleted`,
  `Sends.DeleteReportedExactly`).
- **Moving a folder into itself.** It is accepted and the folder is lost
  (`Tables.MoveIntoItselfFails`, `Tables.MoveDetachesExactly`).
- **References.** Handle and format change places in the query: a folder with one object in it has no
  references (`Requests.ReferencesMissChild`, `Requests.ReferencesExactly`). A handle that is not in the
  table ends the loop by an exception (`Requests.ReferencesThrow` is the exact condition); only then do
  edits stay open (`Server.MtpServer.Run`).
- **Failed announcements.** One that fails because its folder cannot be made keeps its entry
  (`Turns.FolderNotMadeStays`, `Turns.FailedInfoLeavesEntryExactly`).
- **Offsets of long objects.** The callback's offset is a signed integer: behind 2^31 bytes it is -2^31
  (`Pipeline.OffsetsFail`). It is right for every split if and only if the object has at most 2^31 bytes
  (`Pipeline.AllOffsetsExactly`), and for one split if and only if no piece starts from there on
  (`Pipeline.OffsetsExactly`).
- **Long containers.** The announced length is asked for as a signed integer. From 2^31 on no room is made
  and the read runs over the end of the buffer (`Transfers.LongContainerOverruns`); within one increment
  below that the new size overflows. A container arrives whole if and only if the buffer holds it already
  or neither happens (`Transfers.FateOf`, `Transfers.ReadData`).
- **Announcing from the host.** Writing a data packet gives 0 when it succeeds, and only more than 0
  counts as sent (`Host.DataNeverCountsAsSent`), so the call never reads its response, which the next
  call then finds on the link (`Host.MtpDevice.SendObjectInfo`).
- **Announcing at the top.** The host works out the reserved root value for parent 0 and then sends the
  0, which the device always refuses (`Host.TopIsAlwaysRefused`). The host does not reset the data
  packet first; `Host.MtpDevice.SendObjectInfo` says what arrives from the start of the payload only.
- **Reused handles.** After 2^32 - 2 handles the next is a reserved one, and after 2^32 an old one
  (`Database.NextHandleIsNewExactly`).

## Left out

- Packets.MtpPacket.Grow: takes any length, where the source's cursor and sizes are signed 32-bit integers; a packet that outgrows 2^31 bytes by puts or by taking over another one's contents is not covered.
- Transfers.ReadData: says nothing of the packet after a read over the buffer's end; the host's methods then report failure and promise nothing.
- Host.MtpDevice.ReadObject: says nothing of objects whose container does not fit a 32-bit length.
- Host.MtpDevice.SendObjectInfo: says what the device went by only if the cursor was at the payload's start and the strings have at most 254 characters.
- Requests.FindStorage: for identifier 0 on a device without storages the source reads the first element of an empty list (src/MtpServer.cpp:145); here there is no such storage.
- Host.MtpDevice.GetObjectInfo: asks for names of at most 254 characters in the table; so do the other typed calls for their strings, and the two list calls for fewer than 2^28 elements.
- Host.MakeAll: leaves the link of a call open whose dataset comes within one packet buffer of 2^31 bytes, and assumes that nothing goes wrong on the way.
- Server.MtpServer.Run: takes no file-system event between two requests, so each step starts with the table the one before left; `Database.Perform` covers these events on their own.
- Runs.SendEnds: assumes, like everything said of the table over a run, that the counter has not wrapped.
- Strings.MtpStringBuffer.WriteToPacket: asks that as many characters as are counted lie in the buffer; otherwise the source reads behind the buffer's end.
- Strings.PutCString: asks that they lie in the bytes kept of the string; otherwise the source goes on into bytes that are left from before, which `Strings.WellFormedCountsExactly` gives the exact condition for in well-formed text.
- Database.Perform: an announcement names a parent that exists, as the server checks before.
- Names are those of at most 255 one- to three-byte characters without a zero (`Strings.Name`); 4-byte UTF-8 and longer names are not modelled.
- The watch of an entry that is not a folder is never set by the code and is -1 here.
- A folder whose time cannot be read is not told apart from one that can.
- The guess of a file's format from its extension is a parameter of the scan, and is never that of a folder.
- File contents on the device: an object's file is a parameter; what a partial write puts where is not modelled, nor are the kernel's partial transfers when they fail.
- Dates are opaque texts; no time-zone calls.
- Bit masks and shifts are written as division and remainder.
- The base packet, the data packet and the command and response packets are one class; the cursor is put back to the payload's start where the code leaves it but does not look at it.
- Objects with many fields that are assigned one by one hold one record here.
- A read that times out is a failed read; a failed read keeps nothing of what it might have received.
- Events are entered in a list; their packets and the interrupt pipe are not modelled.
- Thumbnails are a parameter; `sendObject`, `writeData`, and the host's reading of device property descriptions are not modelled.
- setObjectReferences: the array it is given is read by nobody, and is not modelled.
- Access control, the daemon around the server, debugging output, and the USB host library.
