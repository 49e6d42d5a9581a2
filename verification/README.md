# KasmVNC server core in Dafny

This project models the decision logic at the core of the KasmVNC server.
It states properties of that model and proves them. Each piece below
corresponds to one module, and each module is one file.

- **MsgWriter** (`msg_writer.dfy`) models the RFB message writer, `SMsgWriter`.
  - It frames a FramebufferUpdate as in section 7.6.1 of RFC 6143: a U16 count followed by 12-byte rectangle headers.
  - It keeps the count invariant through `nRectsInHeader`, `nRectsInUpdate` and `dataRectsInUpdate`. Either the declared count matches the rectangles written, or the 0xFFFF sentinel is closed by exactly one LastRect marker.
  - It models the pending pseudo-rectangle flags, the ExtendedDesktopSize reply queue, the no-data update, the UDP stream and ServerFence validation.
  - Its output is a sequence of tokens, one per field write. A rectangle header is one token.
- **Connection** (`connection.dfy`) models the per-client decisions of `VNCSConnectionST` that touch rights and timing:
  - permissions at connection time;
  - `close`;
  - the gate at the head of `writeFramebufferUpdate`, and `isCongested`;
  - idle-timeout arithmetic;
  - accumulation of update requests;
  - continuous updates;
  - the `setStatus`/`getStatus` shortcut.
- **FenceSync** (`fence_sync.dfy`) models fence handling in the `processMessages` loop. A SyncNext request is answered after the next message.
- **Input** (`input.dfy`) models key and pointer events:
  - pressed-key tracking, including the lock-key heuristics;
  - decoding of relative pointer moves, and clamping them to the framebuffer.
- **UpdateRegions** (`update_regions.dfy`) models the region logic of `writeDataUpdate`. Regions are sets of integer points.
  - The copied-cursor rule marks a copied destination changed when a copy would move old cursor pixels onto it.
  - The cursor rule moves copied pixels under the rendered cursor into `changed`.
  - It also models pending server updates and the final subtraction.
- **ScreenSets** (`screen_sets.dfy`) models the `ScreenSet` value type: insertion sorted by id, removal, validation and equality.
- **KasmVideo** (`kasm_video.dfy`) models the codec selection tables of `KasmVideoEncoders` and `SupportedVideoEncoders`:
  - encoder names and encodings, message ids and streaming modes;
  - codec names, parsing of the comma-separated setting, `map_encoders` with its "auto" expansion and de-duplication;
  - `filter_available_encoders`.
- **EncoderConfig** (`encoder_config.dfy`) models the quality-preset table.
- **EncoderFactory** (`encoder_factory.dfy`) models the builder and the dispatch of `create_encoder`.
- **ScreenEncoders** (`screen_encoders.dfy`) models the per-screen encoder table of `ScreenEncoderManager`:
  - `add_screen` with its single software fallback;
  - `sync_layout`.
  - Encoder creation is an oracle that may fail.
- **Compact** (`compact.dfy`) models `write_compact`, a base-128 length prefix of one to three bytes, together with a matching reader.
- **VideoFraming** (`video_framing.dfy`) models the video encoders `SoftwareEncoder`, `FFMPEGVAAPIEncoder` and `H264SoftwareEncoder`:
  - frame and skip framing, with readers for both;
  - rounding dimensions down to even;
  - re-initialisation only when the parameters change;
  - the presentation counter;
  - the receive retry.
  - The libav calls are an oracle.
- **TcpFilter** (`tcp_filter.dfy`) models the TCP access filter:
  - parsing of a filter specification;
  - prefix masks, as in section 3.1 of RFC 4632 for IPv4 and section 2.3 of RFC 4291 for IPv6;
  - the match;
  - the first-match verdict;
  - printing a pattern back.
  - Name resolution and printing of addresses are parameters.
- Helper modules:
  - **Outcome** holds the error enumeration, `Option` and `Result`.
  - **Text** holds string search, splitting, joining, `atoi` and decimal printing.
  - **Wire** holds the output tokens.
  - **Region** holds rectangles and their point sets.

Behaviours the model takes from the code as written:
- A SyncNext fence request is stored with its flags masked to BlockBefore, BlockAfter and SyncNext. It is echoed after the next message the client sends.
- A plain fence request is echoed at once, with its flags masked to BlockBefore and BlockAfter.
- A write* setter for a capability the client lacks returns false and sets nothing.
- A pending flag that cannot be written makes `writeFramebufferUpdateStart` fail.
- `VideoFraming.H264WriteRect` writes the H.264 header byte as the code computes it, truncated to 0x00. `VideoFraming.H264WriteRectCorrected` is the writer with the intended 0x10 header byte (see "## Findings").

## Model

| member | source | states |
|---|---|---|
| MsgWriter.NewWriter | common/rfb/SMsgWriter.cxx:40-50 | A new writer has all three counters at zero, no pending pseudo-rectangle, an empty reply queue, and needs no fake update |
| MsgWriter.WriteFence | common/rfb/SMsgWriter.cxx:125-145 | Fails, with the matching error, exactly when the client lacks fences, the payload exceeds 64 bytes, or the flags fall outside the supported set. Otherwise it only appends a ServerFence message, which reads back as the same flags and payload |
| MsgWriter.WriteEndOfContinuousUpdates | common/rfb/SMsgWriter.cxx:147-154 | Fails without continuous-updates support; otherwise appends the one-byte message and changes nothing else |
| MsgWriter.Request | common/rfb/SMsgWriter.cxx:156-240 | A boolean setter succeeds exactly when the client can take that pseudo-rectangle (for LED state, also when the state is known). It then sets only that flag; on refusal nothing changes |
| MsgWriter.RequestCursorPos | common/rfb/SMsgWriter.cxx:242-248 | Fails without cursor-position support instead of returning false; otherwise sets only the cursor-position flag |
| MsgWriter.QueueExtendedDesktopSize | common/rfb/SMsgWriter.cxx:174-191 | Without ExtendedDesktopSize support, refuses and changes nothing; otherwise queues exactly one reply with reason and result reduced to 16 bits |
| MsgWriter.NeedFakeUpdateIffPending | common/rfb/SMsgWriter.cxx:272-288 | A fake update is needed exactly when some pseudo-rectangle flag is set or a reply is queued |
| MsgWriter.Premultiply | common/rfb/SMsgWriter.cxx:668-674 | Premultiplied alpha keeps alpha bytes. Each colour channel becomes at most both the original channel and alpha, and stays unchanged under full alpha. Only whole pixels are produced |
| MsgWriter.Scale | common/rfb/SMsgWriter.cxx:671-673 | One channel times alpha over 255 stays within both channel and alpha, and is the channel itself when alpha is 255 |
| MsgWriter.CountRect | common/rfb/SMsgWriter.cxx:394-397 | Counting one more rectangle fails exactly when it would pass a non-zero header count; otherwise only the count grows by one |
| MsgWriter.WritePseudoRect | common/rfb/SMsgWriter.cxx:544-742 | A pseudo-rectangle writer fails exactly when the client cannot take it or the count would pass a non-zero header count. Otherwise it appends one rectangle with that pseudo-encoding to the main stream and changes no flag, queue or data count |
| MsgWriter.WriteEdsRect | common/rfb/SMsgWriter.cxx:558-588 | The ExtendedDesktopSize writer fails exactly without client support or on a count overflow; otherwise it extends the main stream by one rectangle |
| MsgWriter.PseudoRectsErr | common/rfb/SMsgWriter.cxx:433-513 | writePseudoRects fails exactly when a pending rectangle is not writable or their number passes a non-zero header count |
| MsgWriter.PseudoRectsOk | common/rfb/SMsgWriter.cxx:433-513 | A successful writePseudoRects writes exactly one rectangle per pending flag, in the fixed order, to the main stream only. It leaves the data count and the queue alone |
| MsgWriter.PseudoRectsClear | common/rfb/SMsgWriter.cxx:433-513 | After writePseudoRects exactly the flags it handles are cleared and every other flag is kept |
| MsgWriter.StartUpdate | common/rfb/SMsgWriter.cxx:318-351 | writeFramebufferUpdateStart resets the counters and writes the pending pseudo-rectangles. It fails exactly when one is not writable or they exceed the recorded count. Afterwards no header flag is set, and the two size flags are untouched |
| MsgWriter.EndUpdate | common/rfb/SMsgWriter.cxx:353-379 | writeFramebufferUpdateEnd fails exactly when a non-zero header count differs from the rectangles counted. With the sentinel, it appends one LastRect marker, plus a flip marker carrying the data-rectangle count on UDP; otherwise it writes nothing |
| MsgWriter.StartRect | common/rfb/SMsgWriter.cxx:394-413 | startRect counts one rectangle and one data rectangle, failing exactly on a count overflow. It writes the header to the UDP stream when negotiated, else to the main stream, and touches nothing else |
| MsgWriter.WriteDataRect | common/rfb/SMsgWriter.cxx:381-392 | writeCopyRect, and an encoded rectangle, put header and payload on the same stream (UDP when negotiated). Each counts as one data rectangle |
| MsgWriter.DataRectsSpec | common/rfb/SMsgWriter.cxx:394-413 | A run of data rectangles fails exactly when it would pass a non-zero header count; otherwise it adds exactly one rectangle per element |
| MsgWriter.UpdateBody | common/rfb/SMsgWriter.cxx:318-413 | Between the count and the end of an update, the rectangles written are the pending pseudo-rectangles plus the data rectangles |
| MsgWriter.UpdateFraming | common/rfb/SMsgWriter.cxx:318-379 | A whole update starts with type, padding and the declared count. With a real count, the rectangles on both streams number exactly that count, with no LastRect among them. With the sentinel, the main stream carries exactly one LastRect marker, last, and the UDP stream ends with a flip marker counting the data rectangles |
| MsgWriter.UpdateCountMismatch | common/rfb/SMsgWriter.cxx:353-366 | An update with a real count whose data rectangles differ from the caller's count is refused |
| MsgWriter.SentinelUpdateSucceeds | common/rfb/SMsgWriter.cxx:318-366 | A sentinel update fails only if a pending pseudo-rectangle cannot be written |
| MsgWriter.EdsQueueSpec | common/rfb/SMsgWriter.cxx:515-530 | The queued ExtendedDesktopSize replies are written as exactly one rectangle each, in queue order |
| MsgWriter.WriteQueuedReplies | common/rfb/SMsgWriter.cxx:515-530 | Writing the queue adds one rectangle per queued reply to the count |
| MsgWriter.WriteFlagged | common/rfb/SMsgWriter.cxx:531-541 | The generic ExtendedDesktopSize or SetDesktopSize rectangle extends the update within its count |
| MsgWriter.NoDataRectsSpec | common/rfb/SMsgWriter.cxx:515-542 | writeNoDataRects emits exactly the declared number of rectangles: queued replies first, then the generic ExtendedDesktopSize, then SetDesktopSize. It leaves the queue and both size flags empty |
| MsgWriter.NoDataUpdateConsistent | common/rfb/SMsgWriter.cxx:300-316 | A no-data update declares exactly what it emits, so its end never fails on counts, and nothing is left pending |
| MsgWriter.NoDataCountsMatch | common/rfb/SMsgWriter.cxx:300-316 | At the end of a no-data update the counted rectangles equal the header count and the queue and flags are empty |
| MsgWriter.NoDataUpdateDrains | common/rfb/SMsgWriter.cxx:272-298 | A writer with no pending flag and an empty reply queue, as a no-data update leaves it, needs neither a fake update nor a no-data update |
| Connection.FindUser | common/rfb/VNCSConnectionST.cxx:1229-1260 | The search finds the first password entry for the user at or after the start, or the end of the list |
| Connection.GetPerms | common/rfb/VNCSConnectionST.cxx:1229-1260 | With basic authentication disabled everyone reads and writes. An empty user has no permissions. Otherwise a user has permissions exactly when listed, taken from the first entry for them, and a writer may also read |
| Connection.ApplyPerms | common/rfb/VNCSConnectionST.cxx:97-106 | The view right follows the read permission, and every writer right follows the write permission. No other right changes |
| Connection.InitialRights | common/rfb/VNCSConnectionST.cxx:97-106 | A new connection can view only with read permission and write only with write permission. Without permissions it gets neither, whatever the unset flags hold |
| Connection.Close | common/rfb/VNCSConnectionST.cxx:170-211 | close puts the connection in the closing state and keeps the first reason given. Nothing else changes |
| Connection.CloseKeepsFirstReason | common/rfb/VNCSConnectionST.cxx:170-211 | Closing twice keeps the first reason and is the same as closing once |
| Connection.IsCongested | common/rfb/VNCSConnectionST.cxx:1282-1316 | Buffered output always means congestion. Without it, a client without fences or with UDP is never congested. A client with fences and without UDP is congested exactly when the controller says so |
| Connection.UpdateGate | common/rfb/VNCSConnectionST.cxx:1317-1375 | An update is sent exactly when no sync fence or message handling is in progress, the state is normal, something is requested or continuous mode is on, there is no congestion, and the client may view (re-checked when due). A failed re-check closes the connection |
| Connection.GateHoldsDuringSync | common/rfb/VNCSConnectionST.cxx:1319-1326 | While a synchronised fence or message handling is in progress nothing is sent and nothing changes |
| Connection.SecsToMillis | common/rfb/VNCSConnectionST.cxx:560-563 | Seconds convert to milliseconds, saturating at INT_MAX for negative or oversized input |
| Connection.EffectiveTimeout | common/rfb/VNCSConnectionST.cxx:541-548 | Outside the normal state the idle timeout is at least 15 seconds; in it, the configured value |
| Connection.CheckIdleTimeout | common/rfb/VNCSConnectionST.cxx:537-564 | A disabled timeout returns 0. A clock that went backwards first resets the last event time to now. With a positive timeout that reset prevents a close. A close keeps the reset time, uses the reason "Idle timeout" and returns 0 |
| Connection.IdleDeadline | common/rfb/VNCSConnectionST.cxx:537-564 | The connection closes exactly when the deadline passed by at most a minute. A check more than a minute late restarts the count. Otherwise the returned wait ends exactly at the deadline |
| Connection.FramebufferUpdateRequest | common/rfb/VNCSConnectionST.cxx:998-1034 | Without view rights nothing changes. Otherwise the area clipped to the framebuffer joins the requested region unless the request is incremental in continuous mode. A non-incremental request also marks it changed and asks for ExtendedDesktopSize |
| Connection.ClipPoints | common/rfb/VNCSConnectionST.cxx:1007-1012 | Clipping only when the rectangle is not enclosed covers the same pixels as always clipping |
| Connection.RequestStaysInside | common/rfb/VNCSConnectionST.cxx:1007-1023 | Requests never reach outside the framebuffer |
| Connection.EnableContinuousUpdates | common/rfb/VNCSConnectionST.cxx:1121-1139 | Fails exactly without fence or continuous-updates support. Enabling clears the requested region and sets the continuous region. Disabling keeps the requests and writes EndOfContinuousUpdates |
| Connection.StatusRights | common/rfb/VNCSConnectionST.cxx:1787-1800 | Status 0 grants pointer, keyboard and view; 1 leaves view only; 2 removes all three; other values change nothing. Other rights are untouched |
| Connection.SetStatus | common/rfb/VNCSConnectionST.cxx:1787-1801 | setStatus installs the status rights. When the new rights include view, the given area, clipped to the framebuffer, is then requested and marked changed. The area `fb` is the server framebuffer rectangle (`server->pb->getRect()`), which the caller passes in. Without view nothing but the rights changes |
| Connection.GetStatus | common/rfb/VNCSConnectionST.cxx:1802-1811 | getStatus is 0, 1 or 2 exactly when the three rights are all, view only or none; otherwise 4 |
| Connection.StatusRoundTrip | common/rfb/VNCSConnectionST.cxx:1787-1811 | For a status of 0, 1 or 2, setting it and reading it back gives the same status |
| FenceSync.HandleFence | common/rfb/VNCSConnectionST.cxx:1077-1101 | A SyncNext request is stored with masked flags and answered later. Any other request is answered at once with the same payload and its flags masked to the block bits. Responses and other messages change nothing |
| FenceSync.AnswersShift | common/rfb/VNCSConnectionST.cxx:228-240 | The answers due for a batch are those of its first message followed by those of the rest, carrying the first message's deferred answer |
| FenceSync.RunAnswers | common/rfb/VNCSConnectionST.cxx:228-240 | The corrected loop answers plain requests at once and each SyncNext request right after the following message. A SyncNext request at the end of a batch is carried into the next batch |
| FenceSync.AnswerFlagsKnown | common/rfb/VNCSConnectionST.cxx:1085-1096 | Every answer carries only flags the fence writer accepts |
| FenceSync.StepFlagsKnown | common/rfb/VNCSConnectionST.cxx:1085-1096 | One iteration keeps the stored request's flags inside BlockBefore, BlockAfter and SyncNext, leaves no fence armed, and answers only with flags the fence writer accepts |
| FenceSync.BackToBackSyncNext | common/rfb/VNCSConnectionST.cxx:228-240 | As written, two SyncNext requests in a row lose the first answer and send the second twice; the corrected loop sends each once |
| FenceSync.AsWrittenAgrees | common/rfb/VNCSConnectionST.cxx:228-240 | Without back-to-back SyncNext requests, the loop as written answers exactly like the corrected one |
| FenceSync.ArmedIrrelevant | common/rfb/VNCSConnectionST.cxx:228-240 | The loop as written never reads the copy the corrected loop keeps |
| Input.KeyLookup | common/rfb/VNCSConnectionST.cxx:978-981 | A key is tracked under its keycode. Without a keycode it is tracked under the keysym with the top bit set |
| Input.KeyEvent | common/rfb/VNCSConnectionST.cxx:861-995 | An event the access, setting, rate or lock-key checks drop changes nothing. Otherwise the desktop events only grow |
| Input.PressedTable | common/rfb/VNCSConnectionST.cxx:978-995 | A press records the keysym unless the key is already down, in which case the first keysym stays. A release forgets the key |
| Input.UnpressedReleaseDropped | common/rfb/VNCSConnectionST.cxx:985-995 | Releasing a key that is not down sends no event for it; only the Shift tap around ISO_Left_Tab may appear |
| Input.PressThenRelease | common/rfb/VNCSConnectionST.cxx:978-995 | A press and its release reach the desktop with the same keysym, and the table is back where it started |
| Input.PressSends | common/rfb/VNCSConnectionST.cxx:985-995 | An admitted event reaches the desktop with the keysym recorded at press time, else its own |
| Input.DecodeDelta | common/rfb/VNCSConnectionST.cxx:777-792 | A relative coordinate decodes to a magnitude below 2^14, negative only when the sign bit is set |
| Input.DeltaRoundTrip | common/rfb/VNCSConnectionST.cxx:777-792 | Every move a client can encode decodes back to itself |
| Input.ClampAxis | common/rfb/VNCSConnectionST.cxx:793-810 | A move left or up stops at 0; a move right or down stops at the framebuffer size |
| Input.ClampStaysInside | common/rfb/VNCSConnectionST.cxx:793-810 | From inside the range, a relative move ends inside it, at the requested position clipped to the range |
| Input.PointerEvent | common/rfb/VNCSConnectionST.cxx:763-836 | Without the pointer right only a re-check is scheduled. When events are refused or another client holds the pointer nothing changes. Otherwise exactly one event is appended to what the desktop received, and earlier events stay as they were. That event carries the decoded coordinates, the new absolute or clamped position, the button mask and the scroll amounts. Its click and release filters are set exactly when the sent point lies outside an enabled DLP region and that action is not allowed. The holder follows the button mask and the re-check flag is kept |
| Input.PointerStaysOnScreen | common/rfb/VNCSConnectionST.cxx:785-806 | A relative move from a point on the framebuffer stays on it, at the requested point clipped to each axis. An absolute event lands where it says |
| UpdateRegions.GetUpdateInfo | common/rfb/VNCSConnectionST.cxx:1439 | The update info, restricted to the request, has disjoint changed and copied parts covering exactly the tracked area inside it |
| UpdateRegions.Subtract | common/rfb/VNCSConnectionST.cxx:1592 | After an update the tracker forgets exactly the requested area |
| UpdateRegions.CopiedCursorRule | common/rfb/VNCSConnectionST.cxx:1446-1456 | When a copy would move old cursor pixels onto a copied destination, that area is marked changed. Otherwise no copied pixel lies there |
| UpdateRegions.MoveCursorCopies | common/rfb/VNCSConnectionST.cxx:1518-1521 | Moving copied pixels under the cursor into changed leaves no copy under the cursor. The union is unchanged and the two parts stay disjoint |
| UpdateRegions.CursorFlags | common/rfb/VNCSConnectionST.cxx:1461-1475 | Removing the rendered cursor marks its old area changed and clears it. Updating it marks the cursor changed. Both flags end cleared and copies are untouched |
| UpdateRegions.CursorSafeInfo | common/rfb/VNCSConnectionST.cxx:1439-1480 | After the cursor rules no copy carries old cursor pixels. Copies come only from the tracker, and both parts stay disjoint inside the request. Everything the tracker held inside the request is still covered |
| UpdateRegions.DataUpdate | common/rfb/VNCSConnectionST.cxx:1414-1598 | Nothing requested means nothing happens. A sent update clears the request and, without pending server updates, drops the requested area from the tracker. Without pending server updates, an update covers everything the tracker held inside the request. A lossless refresh happens then only for the whole request, when the tracker held nothing inside it. Pending server updates turn copies off. Copies sent are always tracked copies inside the request. Sent copies never carry old cursor pixels nor lie under a rendered cursor. The old cursor is clipped to the server framebuffer (`fb`, line 1451). A due UDP full frame sends the client's framebuffer size (`clientFb`, line 1535), the two rectangles differing while a resize is pending, and leaves the frame counter at 1 |
| ScreenSets.MakeScreen | common/rfb/ScreenSet.h:42-43 | A screen built from position and size spans exactly that width and height from that corner, with its id and flags |
| ScreenSets.Insert | common/rfb/ScreenSet.h:89-92 | Inserting adds exactly one screen and keeps all others |
| ScreenSets.InsertElems | common/rfb/ScreenSet.h:89-92 | After insertion the list holds exactly the old screens and the new one |
| ScreenSets.InsertSorted | common/rfb/ScreenSet.h:89-92 | Insertion into a list sorted by id keeps it sorted |
| ScreenSets.SortById | common/rfb/ScreenSet.h:89-92 | Sorting by id gives a permutation of the screens in id order |
| ScreenSets.AddScreen | common/rfb/ScreenSet.h:89-92 | add_screen leaves the screens sorted by id, with exactly one more screen |
| ScreenSets.RemoveScreen | common/rfb/ScreenSet.h:93-96 | remove_screen removes every screen with the id and nothing else: each other screen keeps its number of occurrences. The order of the remaining screens is kept, and a sorted list stays sorted |
| ScreenSets.Without | common/rfb/ScreenSet.h:93-96 | No screen with the id remains. Every other screen keeps its exact number of occurrences |
| ScreenSets.WithoutKeeps | common/rfb/ScreenSet.h:93-96 | Every screen with another id survives with its count, in its place: the result splits at that screen into what was removed before and after it |
| ScreenSets.WithoutAppend | common/rfb/ScreenSet.h:93-96 | Removing from a concatenation is removing from each part and concatenating |
| ScreenSets.RemoveKeepsOrder | common/rfb/ScreenSet.h:93-96 | remove_screen commutes with splitting the list, so the survivors keep their relative order |
| ScreenSets.RemoveAbsent | common/rfb/ScreenSet.h:93-96 | Removing an id no screen has leaves the layout unchanged |
| ScreenSets.WithoutSorted | common/rfb/ScreenSet.h:93-96 | Removal keeps a sorted list sorted |
| ScreenSets.RemoveAfterAdd | common/rfb/ScreenSet.h:89-96 | Removing an id just inserted gives what removing it from the original gives |
| ScreenSets.SortedSortIsIdentity | common/rfb/ScreenSet.h:89-92 | Sorting an already sorted list changes nothing |
| ScreenSets.InsertLast | common/rfb/ScreenSet.h:89-92 | A screen whose id is not below any other goes at the end |
| ScreenSets.AddThenRemove | common/rfb/ScreenSet.h:89-96 | On a sorted layout, adding a screen and removing its id is the same as removing the id |
| ScreenSets.Validate | common/rfb/ScreenSet.h:98-120 | validate holds exactly when there are 1 to 255 screens, each non-empty and inside the framebuffer, with distinct ids. Overlap is allowed |
| ScreenSets.EqualityIsOrderSensitive | common/rfb/ScreenSet.h:142-152 | Any two distinct screens listed in the other order give a layout with the same screens that is unequal |
| KasmVideo.Ordinal | common/rfb/encoders/KasmVideoConstants.h:94-112 | Every encoder has its place in the enumeration |
| KasmVideo.AcceleratedIffNotLibrary | common/rfb/encoders/KasmVideoConstants.h:116-151 | An encoder is unaccelerated exactly when its implementation is a "lib" library |
| KasmVideo.Canonical | common/rfb/encoders/KasmVideoConstants.h:132-146 | A direct VA-API encoder stands for its libav VA-API counterpart, which announces the same encoding |
| KasmVideo.EncodingScan | common/rfb/encoders/KasmVideoConstants.h:161-178 | The search of from_encoding never returns a direct VA-API encoder, and what it returns announces the encoding searched for |
| KasmVideo.FromEncoding | common/rfb/encoders/KasmVideoConstants.h:161-178 | from_encoding never returns a direct VA-API encoder. For a listed encoding it returns an encoder announcing it, and for an unknown one it returns unavailable |
| KasmVideo.EncodingListed | common/rfb/encoders/KasmVideoConstants.h:132-146 | Every encoding some encoder announces appears in the table |
| KasmVideo.ScanFindsFirst | common/rfb/encoders/KasmVideoConstants.h:161-178 | The search stops at the first enumerator announcing the encoding |
| KasmVideo.FromToEncoding | common/rfb/encoders/KasmVideoConstants.h:157-178 | Looking an encoder's encoding up gives the encoder back, a direct VA-API one as its libav counterpart |
| KasmVideo.ToMsgId | common/rfb/encoders/KasmVideoConstants.h:180-200 | A message id is a non-zero high nibble, distinct from the skip id |
| KasmVideo.SameFamilySameIds | common/rfb/encoders/KasmVideoConstants.h:180-222 | Message ids and streaming modes are equal exactly within a codec family, and a real encoder never falls back to JPEG/WebP |
| KasmVideo.CodecOrdinal | common/rfb/encoders/KasmVideoConstants.h:226-247 | Every codec has its place in the enumeration |
| KasmVideo.NameScan | common/rfb/encoders/KasmVideoConstants.h:292-301 | The scan holds exactly when the text is one of the names scanned |
| KasmVideo.IsSupported | common/rfb/encoders/KasmVideoConstants.h:292-301 | is_supported holds exactly for a non-empty text equal to a codec name |
| KasmVideo.CodecScan | common/rfb/encoders/KasmVideoConstants.h:303-310 | The search of get_codec finds the codec with that name, and gives unavailable exactly when no remaining name matches |
| KasmVideo.GetCodec | common/rfb/encoders/KasmVideoConstants.h:303-310 | get_codec gives unavailable exactly for an unknown name, and otherwise the codec of that name |
| KasmVideo.GetCodecOfName | common/rfb/encoders/KasmVideoConstants.h:288-310 | Naming a codec and looking the name up gives the codec back |
| KasmVideo.NamesDistinct | common/rfb/encoders/KasmVideoConstants.h:269-286 | No two codecs share a name |
| KasmVideo.SupportedIffKnown | common/rfb/encoders/KasmVideoConstants.h:292-310 | The names is_supported accepts are exactly the ones get_codec resolves |
| KasmVideo.MapEncoderFamily | common/rfb/encoders/KasmVideoConstants.h:249-267 | A codec name selects an encoder of its own family, never a direct VA-API one. The encoder is accelerated exactly when the name carries a "_vaapi" or "_nvenc" suffix |
| KasmVideo.Parse | common/rfb/encoders/KasmVideoConstants.h:316-336 | An empty setting has no entries, and no entry contains a separator |
| KasmVideo.LoopEntriesRemaining | common/rfb/encoders/KasmVideoConstants.h:316-336 | The entries the parser's loop produces are the reference entries |
| KasmVideo.ParseCodecs | common/rfb/encoders/KasmVideoConstants.h:316-336 | The parser's loop computes the reference list of entries |
| KasmVideo.ParseJoin | common/rfb/encoders/KasmVideoConstants.h:316-336 | Joining the entries with ',' gives back the setting, minus a trailing separator |
| KasmVideo.TrailingSeparator | common/rfb/encoders/KasmVideoConstants.h:316-336 | A trailing separator adds no empty entry |
| KasmVideo.AutoEncodersMapped | common/rfb/encoders/KasmVideoConstants.h:348-362 | The "auto" list is the encoders of the auto codecs, without repetition |
| KasmVideo.CodecsOf | common/rfb/encoders/KasmVideoConstants.h:303-310 | Each name becomes the codec get_codec gives it |
| KasmVideo.DedupFirstOccurrences | common/rfb/encoders/KasmVideoConstants.h:363-372 | De-duplication keeps exactly the first occurrences, in order |
| KasmVideo.AutoFlags | common/rfb/encoders/KasmVideoConstants.h:348-350 | Some entry is flagged exactly when "auto" was requested |
| KasmVideo.DedupUntil | common/rfb/encoders/KasmVideoConstants.h:348-372 | An "auto" entry anywhere gives the fallback list; otherwise the result is the de-duplicated list |
| KasmVideo.MapEncoders | common/rfb/encoders/KasmVideoConstants.h:338-373 | An "auto" entry gives exactly the fixed preference list. Otherwise every name's encoder appears once, in first-occurrence order |
| KasmVideo.AutoByName | common/rfb/encoders/KasmVideoConstants.h:303-310 | Only the name "auto" denotes the auto-detect codec |
| KasmVideo.FilterAvailable | common/rfb/encoders/KasmVideoConstants.h:375-385 | The result keeps, in available order, exactly the available encoders that were asked for, each as often as it is available |
| EncoderConfig.GetConfiguration | common/rfb/encoders/EncoderConfiguration.cpp:4-45 | The AV1 and unavailable entries are all zero. H.264/H.265 entries have quality 0 to 51 and presets that rise strictly within that range |
| EncoderConfig.TableShape | common/rfb/encoders/EncoderConfiguration.cpp:4-41 | The table has one entry per enumerator, the placeholder included, each with the full number of presets |
| EncoderConfig.OnlyH264VaapiDiffers | common/rfb/encoders/EncoderConfiguration.cpp:18-34 | Only the direct VA-API H.264 entry differs from the standard presets, and only in its fourth preset, which is 33 |
| EncoderFactory.Create | common/rfb/encoders/VideoEncoderFactory.cxx:35-41 | A new builder has no id, no connection, zero rates, and the implementation and loader given |
| EncoderFactory.WithFrameRate | common/rfb/encoders/VideoEncoderFactory.cxx:43-47 | The setter changes the frame rate and nothing else |
| EncoderFactory.WithBitRate | common/rfb/encoders/VideoEncoderFactory.cxx:49-53 | The setter changes the bit rate and nothing else |
| EncoderFactory.WithConnection | common/rfb/encoders/VideoEncoderFactory.cxx:55-59 | The setter changes the connection and nothing else |
| EncoderFactory.WithId | common/rfb/encoders/VideoEncoderFactory.cxx:61-65 | The setter changes the id and nothing else |
| EncoderFactory.Build | common/rfb/encoders/VideoEncoderFactory.cxx:67-82 | build fails exactly without an id, without a connection, or for a libav-based implementation without a loader, with the id error first. A built encoder keeps the implementation and connection |
| EncoderFactory.SetterOrderIrrelevant | common/rfb/encoders/VideoEncoderFactory.cxx:43-82 | The order of the setters does not matter for the build |
| EncoderFactory.ImplementationFor | common/rfb/encoders/VideoEncoderFactory.cxx:89-110 | Both VA-API H.264 choices go to the libav VA-API builder, and the direct VA-API builder is never chosen |
| EncoderFactory.CreateEncoder | common/rfb/encoders/VideoEncoderFactory.cxx:89-110 | create_encoder fails exactly without an id, a connection or a loader, and otherwise builds the chosen implementation with all four settings |
| EncoderFactory.OthersGetSoftware | common/rfb/encoders/VideoEncoderFactory.cxx:102-108 | Every other choice, AV1 and H.265 included, is built by the software H.264 encoder |
| ScreenEncoders.AddScreen | common/rfb/encoders/ScreenEncoderManager.cxx:17-34 | add_screen tries the base encoder, then once the software H.264 encoder only if the base failed and is not that one. It returns no encoder exactly when every attempt failed, and never fails itself |
| ScreenEncoders.Live | common/rfb/encoders/ScreenEncoderManager.cxx:53-75 | The live encoders of a table are no more than its slots |
| ScreenEncoders.LiveAppend | common/rfb/encoders/ScreenEncoderManager.cxx:53-75 | The live encoders of two tables in a row are those of each in turn |
| ScreenEncoders.Replaced | common/rfb/encoders/ScreenEncoderManager.cxx:58-64 | At each shared position the slot is deleted exactly when it does not serve the screen there |
| ScreenEncoders.Refilled | common/rfb/encoders/ScreenEncoderManager.cxx:58-64 | At each shared position add_screen runs exactly when the slot does not serve the screen there |
| ScreenEncoders.SyncShared | common/rfb/encoders/ScreenEncoderManager.cxx:58-64 | The loop over shared positions keeps a serving slot and refills every other one |
| ScreenEncoders.LiveBalance | common/rfb/encoders/ScreenEncoderManager.cxx:58-64 | If each position balances, the whole tables balance |
| ScreenEncoders.PositionBalances | common/rfb/encoders/ScreenEncoderManager.cxx:58-64 | At one position, the old slot plus what is created equals the new slot plus what is deleted |
| ScreenEncoders.SharedAccounts | common/rfb/encoders/ScreenEncoderManager.cxx:58-64 | The shared loop accounts for every encoder it touches |
| ScreenEncoders.Fresh | common/rfb/encoders/ScreenEncoderManager.cxx:68-74 | Growing the table runs add_screen for each new screen in order |
| ScreenEncoders.SyncLayoutAsWritten | common/rfb/encoders/ScreenEncoderManager.cxx:53-75 | As written, the table ends with one slot per screen, and a shrinking layout drops the live tail encoders without deleting them |
| ScreenEncoders.SyncLayout | common/rfb/encoders/ScreenEncoderManager.cxx:53-75 | The table ends with one slot per screen. A slot serving its screen is kept, and every other position is filled by add_screen |
| ScreenEncoders.AsWrittenAgrees | common/rfb/encoders/ScreenEncoderManager.cxx:53-75 | Both versions build the same table, and agree entirely when the layout does not shrink |
| ScreenEncoders.NoLeak | common/rfb/encoders/ScreenEncoderManager.cxx:53-75 | The live encoders before plus those created are the live encoders after plus those deleted |
| ScreenEncoders.AsWrittenLeaks | common/rfb/encoders/ScreenEncoderManager.cxx:66-67 | As written, shrinking from two screens to one loses the second encoder: it is neither kept nor deleted |
| ScreenEncoders.SlotsServeTheirScreens | common/rfb/encoders/ScreenEncoderManager.cxx:53-75 | After a sync every live slot serves the screen at its position |
| ScreenEncoders.SecondSyncKeepsAll | common/rfb/encoders/ScreenEncoderManager.cxx:58-64 | A second sync with the same layout replaces nothing, provided every slot got an encoder the first time |
| Compact.Low7 | common/rfb/encoders/H264SoftwareEncoder.cxx:131-137 | The low seven bits are below 0x80 and equal a small value itself |
| Compact.WriteCompact | common/rfb/encoders/H264SoftwareEncoder.cxx:129-143 | One byte equal to the value up to 0x7F, and two bytes up to 0x3FFF. Otherwise three bytes, the last being bits 14 to 21. Every byte but the last has the continuation bit |
| Compact.ReadCompact | common/rfb/encoders/H264SoftwareEncoder.cxx:129-143 | The reader takes one to three bytes, ending at a byte without the continuation bit or at the third byte, and yields a value below 2^22 |
| Compact.RoundTrip | common/rfb/encoders/H264SoftwareEncoder.cxx:129-143 | Every length below 2^22 reads back, with its byte count, whatever follows |
| Compact.Truncates | common/rfb/encoders/H264SoftwareEncoder.cxx:139-141 | Longer lengths read back modulo 2^22 |
| Compact.ReadThenWrite | common/rfb/encoders/H264SoftwareEncoder.cxx:129-143 | A shortest encoding the reader accepts is exactly what write_compact writes for the value read |
| VideoFraming.EvenDown | common/rfb/encoders/SoftwareEncoder.cxx:75-79 | A dimension rounded down to even is no larger and at most one smaller, and unchanged when already even |
| VideoFraming.FrameParams | common/rfb/encoders/SoftwareEncoder.cxx:72-85 | Encoded dimensions are even, no larger than the screen and at most one smaller. Rate, group and quality are their 8-bit truncations |
| VideoFraming.Received | common/rfb/encoders/SoftwareEncoder.cxx:117-122 | A receive that asks to try again or hits end of stream is retried exactly once; a packet on the first try is kept |
| VideoFraming.NewEncoder | common/rfb/encoders/SoftwareEncoder.cxx:35-38 | The codec message id is fixed at construction from the encoder's family, is never the skip id, and the counter starts at zero |
| VideoFraming.U8 | common/rfb/encoders/H264SoftwareEncoder.cxx:114 | writeU8 keeps a value below 256 as it is |
| VideoFraming.FrameBytes | common/rfb/encoders/SoftwareEncoder.cxx:136-148 | A frame is screen id, codec id, key flag, the compact length, then exactly the payload |
| VideoFraming.SkipBytes | common/rfb/encoders/SoftwareEncoder.cxx:152-156 | A skip marker is exactly the screen id and the skip id |
| VideoFraming.ReadVideoRect | common/rfb/encoders/SoftwareEncoder.cxx:136-156 | The client reader takes the screen id first and treats the skip id as a two-byte skip |
| VideoFraming.FrameRoundTrip | common/rfb/encoders/SoftwareEncoder.cxx:136-148 | A frame reads back as the same screen, codec, key flag and payload, consuming exactly its bytes |
| VideoFraming.SkipRoundTrip | common/rfb/encoders/SoftwareEncoder.cxx:152-156 | A skip marker reads back as a skip of the same screen |
| VideoFraming.H264HeaderAsWritten | common/rfb/encoders/H264SoftwareEncoder.cxx:113-117 | The header byte as written, kasmVideoH264 shifted again and truncated to 8 bits, is the skip byte |
| VideoFraming.H264Header | common/rfb/encoders/H264SoftwareEncoder.cxx:113-117 | The unshifted message id is the H.264 id and differs from the skip byte |
| VideoFraming.H264Frame | common/rfb/encoders/H264SoftwareEncoder.cxx:113-117 | The H.264 frame is header, key flag, compact length and payload, with no screen id |
| VideoFraming.H264SkipBytes | common/rfb/encoders/H264SoftwareEncoder.cxx:124-127 | The H.264 skip marker is exactly the skip byte |
| VideoFraming.ReadH264Rect | common/rfb/encoders/H264SoftwareEncoder.cxx:113-127 | The reader treats a leading skip byte as a one-byte skip, and anything else as a frame |
| VideoFraming.H264FrameReadsAsSkip | common/rfb/encoders/H264SoftwareEncoder.cxx:113-127 | As written, every H.264 frame starts with the skip byte and reads as a one-byte skip |
| VideoFraming.H264FrameRoundTrip | common/rfb/encoders/H264SoftwareEncoder.cxx:113-117 | With the unshifted id, a frame reads back whole |
| VideoFraming.ReceiveFailure | common/rfb/encoders/FFMPEGVAAPIEncoder.cxx:183-260 | A failed receive writes a skip marker for the software encoders and nothing for the VA-API encoder |
| VideoFraming.Render | common/rfb/encoders/SoftwareEncoder.cxx:61-134 | init runs exactly when the parameters differ, and the new parameters are stored even if it fails. The counter advances once per frame past scaling. A packet results exactly when every step succeeds. Only a software encoder writes a skip marker, and only when receiving fails |
| VideoFraming.FailedInitNotRetried | common/rfb/encoders/SoftwareEncoder.cxx:87-97 | A failed init yields no packet, yet the next frame of the same screen does not initialise again |
| VideoFraming.H264WriteRect | common/rfb/encoders/H264SoftwareEncoder.cxx:41-120 | writeRect as written renders first. When a packet comes out it writes the frame with the truncated header byte, so whatever follows, a reader takes it for a one-byte skip. Otherwise it writes nothing or a skip marker |
| VideoFraming.H264WriteRectCorrected | common/rfb/encoders/H264SoftwareEncoder.cxx:41-120 | writeRect with the intended 0x10 header byte. A packet is written as a frame with that header. When its data fits the compact length (under 0x400000 bytes), the frame reads back, whatever follows, as the same key flag and data over its exact length. Otherwise it writes nothing or a skip marker that reads as a one-byte skip |
| VideoFraming.WrittenReads | common/rfb/encoders/H264SoftwareEncoder.cxx:98-127 | What the client reads from writeRect's output: with the truncated header a frame is a one-byte skip, with the intended header it is the frame itself, and without a packet it is nothing or a one-byte skip |
| VideoFraming.RunFrames | common/rfb/encoders/SoftwareEncoder.cxx:61-134 | Over a run of frames the counter grows by at most one per frame, and there are no more packets than frames |
| VideoFraming.InitAtMostOnce | common/rfb/encoders/SoftwareEncoder.cxx:87-97 | With screen and settings fixed, init runs at most once in a run, and only when the parameters first differ |
| VideoFraming.PacketsNeedPts | common/rfb/encoders/SoftwareEncoder.cxx:107 | Every packet comes from a frame that advanced the presentation counter |
| TcpFilter.LeadingOnes | common/network/TcpSocket.cxx:1186-1191 | The IPv4 mask has exactly the prefix length of leading one bits and nothing below them |
| TcpFilter.ComputeMask4 | common/network/TcpSocket.cxx:1184-1191 | The bit-by-bit loop computes the IPv4 prefix mask: the top `prefix` bits of 32 are set and the rest are clear |
| TcpFilter.MaskByteShape | common/network/TcpSocket.cxx:1193-1205 | The IPv6 mask is 0xff bytes before the prefix boundary, one partial byte carrying the rest of the prefix, then zero bytes |
| TcpFilter.ComputeMask6 | common/network/TcpSocket.cxx:1193-1205 | The IPv6 loop computes the mask byte for every position |
| TcpFilter.MatchIP | common/network/TcpSocket.cxx:1028-1077 | The match loop agrees with the declarative match. It fails on a family mismatch or an IPv4 INADDR_NONE peer, compares masked bytes otherwise, and an unspecified address matches everything |
| TcpFilter.V4Match | common/network/TcpSocket.cxx:1033-1041 | With the stored mask, an IPv4 pattern matches exactly the valid peers that agree with it in the top prefix bits |
| TcpFilter.V6Match | common/network/TcpSocket.cxx:1043-1066 | An IPv6 pattern matches exactly the peers that agree with it in every bit the prefix covers |
| TcpFilter.Decide | common/network/TcpSocket.cxx:1093-1105 | A matching pattern accepts unless it rejects, and a query also asks the user |
| TcpFilter.FirstMatch | common/network/TcpSocket.cxx:1089-1108 | The walk over the patterns only asks the user when it also accepts |
| TcpFilter.VerifyConnection | common/network/TcpSocket.cxx:1079-1109 | A peer without an address is rejected, and a verdict that asks the user always also accepts |
| TcpFilter.VerifyFirstMatch | common/network/TcpSocket.cxx:1089-1105 | The first matching pattern decides |
| TcpFilter.VerifyNoMatch | common/network/TcpSocket.cxx:1106-1108 | A peer no pattern matches is rejected |
| TcpFilter.AcceptedHasWitness | common/network/TcpSocket.cxx:1089-1108 | An accepted peer has a first matching pattern whose action is not reject |
| TcpFilter.StripBrackets | common/network/TcpSocket.cxx:1137-1143 | A leading '[' is dropped and then one trailing ']' if present; other text is unchanged |
| TcpFilter.PrefixValue | common/network/TcpSocket.cxx:1161 | The prefix read is reduced to 32 bits |
| TcpFilter.ParseTarget | common/network/TcpSocket.cxx:1121-1180 | An empty address gives an unspecified pattern with prefix 0. An unresolvable address fails. Any accepted prefix is within its family's bound |
| TcpFilter.PrefixRules | common/network/TcpSocket.cxx:1154-1180 | The default prefix is 32 for IPv4 and 128 for IPv6. A dotted mask is refused for IPv4, and a prefix beyond the family's width is refused |
| TcpFilter.ParsePatternAsWritten | common/network/TcpSocket.cxx:1112-1220 | As written, parsing succeeds exactly when the address part does, and the action is whatever the first character names, possibly none |
| TcpFilter.AsWrittenLeavesActionUnset | common/network/TcpSocket.cxx:1213-1217 | As written, an entry whose first character names no action is accepted with its action unset; the corrected parser refuses it |
| TcpFilter.ParsePattern | common/network/TcpSocket.cxx:1112-1220 | Parsing succeeds exactly when the address part does and the first character names an action. The pattern has that action and is well formed |
| TcpFilter.ParseAgrees | common/network/TcpSocket.cxx:1112-1220 | The corrected parser agrees with the one as written whenever the action character is valid, and fails with the same error where it fails |
| TcpFilter.NonEmpty | common/network/TcpSocket.cxx:1018-1019 | Only non-empty entries are kept |
| TcpFilter.NonEmptyKeeps | common/network/TcpSocket.cxx:1013-1022 | The constructor drops exactly the empty entries |
| TcpFilter.Entries | common/network/TcpSocket.cxx:1013-1022 | The entries of a specification, split at ',', are never empty |
| TcpFilter.ParseAll | common/network/TcpSocket.cxx:1016-1020 | Parsing the entries succeeds exactly when every entry parses, giving one pattern each |
| TcpFilter.ConsParsed | common/network/TcpSocket.cxx:1016-1020 | For any parser, a list parses exactly when its first entry and the rest do, and the first pattern followed by the rest's patterns are the patterns of the whole list |
| TcpFilter.NewFilter | common/network/TcpSocket.cxx:1013-1022 | A filter is built exactly when every non-empty entry parses, and holds each entry's pattern in order |
| TcpFilter.FilterWellFormed | common/network/TcpSocket.cxx:1013-1022 | Every pattern of a built filter is one the parser can produce |
| TcpFilter.SingleEntry | common/network/TcpSocket.cxx:1013-1022 | A specification without ',' is one pattern, or no pattern when empty |
| TcpFilter.ActionChar | common/network/TcpSocket.cxx:1239-1245 | The character printed for an action is read back as that action |
| TcpFilter.ActionCharOnly | common/network/TcpSocket.cxx:1213-1245 | Reading and printing action characters agree in both directions |
| TcpFilter.AddressText | common/network/TcpSocket.cxx:1226-1237 | An IPv4 address prints bare, an IPv6 address in brackets, and an unspecified one as nothing |
| TcpFilter.PatternToStr | common/network/TcpSocket.cxx:1222-1258 | The text starts with the action character, and is that character alone for an unspecified address |
| TcpFilter.PrintedPrefix | common/network/TcpSocket.cxx:1246-1257 | A printed prefix length reads back as itself |
| TcpFilter.PrintedTarget | common/network/TcpSocket.cxx:1222-1258 | The address and prefix printed read back as the same address and prefix |
| TcpFilter.PrintThenParse | common/network/TcpSocket.cxx:1112-1258 | A printed pattern parses back to itself |

## Left out

- Bytes written before a throw are not modelled. An `Err` result from a writer or connection step stands for the exception, and it drops whatever the step had already written to the stream. For example, `writeFramebufferUpdateStart` writes the header and the pseudo-rectangles before `writePseudoRects` can throw (common/rfb/SMsgWriter.cxx:318-351).
- The libav, swscale and VA-API calls inside the encoders' render and init are not modelled. Their outcomes (init, scaling, send and the two receives) are a `Libav` record given to `VideoFraming.Render`. Encoder creation in `ScreenEncoders` is an `Oracle` function.
- Name resolution and address printing (getaddrinfo and getnameinfo) are the `Resolver` and `Namer` parameters of `TcpFilter`. Addresses are already-parsed 4- or 16-byte values.
- The getnameinfo buffer limit in patternToStr is not modelled; the whole name is printed.
- `TcpFilter.PatternToStr` excludes addresses of any other family, because the source would print a buffer it never filled.
- The following headers are not part of this model. Where the model needs their values, it uses the standard RFB and TigerVNC values:
  - `encodings.h`, `fenceTypes.h`, `msgTypes.h`, `ledStates.h` and `keysymdef.h`.
  - The streaming-mode pseudo-encodings of `encodings.h` are symbolic values.
- `SConnection.h` is not part of this model. The writer rights are taken to be keyboard, pointer, clipboard and desktop-size changes.
- `rfb/util` is not part of this model:
  - `secsToMillis` is the saturating conversion;
  - `strSplit` splits at the first separator;
  - `atoi` is read as an unbounded decimal number and then reduced to 32 bits, since overflow is undefined in C.
- `Rect.h`, `Region.h`, `UpdateTracker` and `CongestionControl` are not part of this model:
  - regions are point sets;
  - `getUpdateInfo` returns disjoint changed and copied parts;
  - the congestion controller's verdict is a parameter.
- `utils.h` is not part of this model. Its `write_compact` is assumed to be the one in `H264SoftwareEncoder.cxx`.
- The following are not modelled:
  - `H264VAAPIEncoder`, whose init always fails;
  - the legacy `KasmVideoEncoder`;
  - `EncoderProbe`, `ffmpeg.h`/`ffmpeg.cxx` and `FfmpegFrameFeeder`, which are hardware probing, dynamic loading and a benchmark.
- `create_encoder` follows the signature in `VideoEncoderFactory.cxx`, where it differs from the header.
- `ScreenEncoderManager` isSupported, writeRect and writeSolidRect are not modelled. Each asserts the base encoder is null and then dereferences it.
- The following parts of `VNCSConnectionST` are not modelled:
  - socket I/O, timers and clocks (the current time is a parameter);
  - statistics, DLP and clipboard logging;
  - unix relays and the API messager;
  - reading the password file (its entries are a parameter);
  - the processing of fence responses (RTT pongs feed the congestion controller).
- Desktop callbacks are recorded as an event log.
- `writeDataUpdate`'s lossless-refresh timing and bandwidth estimate are not modelled. After the region decisions, the choice between sending and waiting is a parameter.
- Nothing runs concurrently in the modelled code, so everything is sequential.
- `ScreenSets.AddScreen`: std::sort does not fix the order among screens with equal ids. The model keeps insertion order, which is one admissible outcome.
- `KasmVideo.CodecName` has no value for the unavailable codec, because the source would read past the end of the name table. `get_codec` still returns unavailable for an unknown name.
- `Input.ClampAxis` clamps to the framebuffer width and height themselves, one past the last pixel, as the source does.
- `VideoFraming.Render` stores the new parameters even when init fails, as the source does. `VideoFraming.FailedInitNotRetried` states the consequence.
- `Connection.CheckIdleTimeout` states the disabled, close and clock-reset cases. `Connection.IdleDeadline` states the deadline arithmetic.
- `Input.KeyEvent` states only that dropped events change nothing and that desktop events only grow. The table and the keysym sent are stated by `Input.PressedTable`, `Input.PressSends` and `Input.PressThenRelease`. The lock-key heuristics are modelled but no property is stated about them.
- `TcpFilter.PatternToStr` states the action character and the bare case. Its full content is stated through `TcpFilter.PrintThenParse`.

## Findings

| source | as written | input that shows it | evidently intended | confidence | as-written member | corrected member |
|---|---|---|---|---|---|---|
| common/rfb/VNCSConnectionST.cxx:228-240 | Arming a pending SyncNext and then handling a new SyncNext in the same iteration overwrites the stored fence before it is echoed | Two SyncNext requests in a row followed by another message: the first request's data is never echoed and the second is echoed twice | Each SyncNext request is echoed once, after the message that follows it | not executed | FenceSync.BackToBackSyncNext | FenceSync.RunAnswers |
| common/rfb/encoders/ScreenEncoderManager.cxx:66-67 | A shrinking layout erases the tail slots without deleting their encoders, while replaced slots are deleted | An encoder table for screens 1 and 2, synced to a layout with screen 1 only: the encoder of screen 2 is neither kept nor deleted | Tail encoders are deleted like replaced ones | not executed | ScreenEncoders.AsWrittenLeaks | ScreenEncoders.NoLeak |
| common/rfb/encoders/H264SoftwareEncoder.cxx:113-117 | The header byte is kasmVideoH264 << 4, but kasmVideoH264 is already 0x10, so writeU8 truncates 0x100 to 0x00 | Any frame: its first byte is 0x00, the skip byte written at line 126, so the reader takes it for a skip | The header byte is kasmVideoH264 itself (0x10) | not executed | VideoFraming.H264WriteRect | VideoFraming.H264WriteRectCorrected |
| common/network/TcpSocket.cxx:1213-1217 | The switch on the first character has no default, so an entry starting with anything but '+', '-' or '?' keeps an uninitialised action | The filter entry "*" | An entry without a valid action character is rejected like any malformed entry | not executed | TcpFilter.AsWrittenLeavesActionUnset | TcpFilter.ParseAgrees |
