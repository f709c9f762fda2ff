# Verified models of ser2net, mxml, the VF48 unpacker and the Phidget packet protocol

This project models the parts of the repository that hold real state, and proves what they keep and what they are
for:

- the timer heap of ser2net's selector, a priority queue kept as a linked complete binary tree without an array,
  and the pass of the select loop that fires its timers (`TimeVals`, `TimerHeap`, `TimerPass`);
- the telnet parser that removes commands from the data in place (`Telnet` says what it does to values,
  `TelnetNegotiation` how it answers, `TelnetConnection` does it in the source's buffers), the port state machine that
  moves data between a device and a TCP connection with partial writes (`PortTransfer`, with what it makes of the blocks
  it reads in `PortBlocks`), the list of ports with deferred reconfiguration (`PortList`, with what its events do in
  `PortViews`), and the control connection with its line editor and output queue (`Controllers`);
- the XML entities, printer, parser and path query of mxml (`XmlText`, `XmlTree`, `XmlWriter`, `XmlParser`,
  `XmlReader`, `XmlRoundTrip`, `XmlSpelling`, `XmlGrammar`, `XmlDocument`, `XmlPath`, `XmlSelect`);
- the VF48 stream demultiplexer and its coincidence-window event queue (`Vf48Stream`, `Vf48Events`);
- the packet splitters of the Phidget firmware and table transfers (`PhidgetPackets`).

Code that changes things in place is modelled as classes, arrays and loops, each proved against a function of the
values before; the lemmas then say what those functions mean. The results to look at first:

- **Timers.** After any adds and removals, the tree from `timerTop` is a complete binary tree filled from the left,
  `up` inverts the child links, no timer is earlier than its parent, and the members are exactly those put in and not
  taken out (`TimerHeap.Selector.AddToHeap`, `RemoveFromHeap`, `ReachableIffMember`). A pass fires every due timer once,
  in timeout order, leaves running what its handlers have started, and leaves the right wait
  (`TimerPass.RunDueTimers`).
- **XML.** Printing an ordinary forest and parsing the text gives back every element, and the whole forest exactly when
  no blank value stands in front of children (`XmlRoundTrip.DocumentRoundTrip`); the writer and the parser as loops over
  buffers do what those texts and trees say (`XmlWriter.WriteTree`, `XmlReader.ParseBuffer`), so that one behind the
  other they make that round trip (`XmlDocument.WriteAndParse`). The parser makes a tree of a text if and only if it is
  spelled by a grammar of marks, with any quotes, spaces, comments, instructions and document types, whose end tags
  match (`XmlGrammar.TakenIff`), and nested elements are read as the trees they are (`XmlGrammar.NestedRead`). A path
  query finds exactly the nodes that its steps select, in document order, each once (`XmlSelect.SearchSelects`).
- **Telnet.** Read boundaries do not matter (`Telnet.FeedAppend`); the parser inverts the encoding of every well-formed
  stream (`Telnet.StreamParsed`), so escaping and option encoding round-trip (`Telnet.EscapeRoundTrip`,
  `Telnet.OptionRoundTrip`, the latter an if and only if). A negotiation is answered as the table says, and a request of
  one's own is settled by one answer (`TelnetNegotiation.Replied`, `TelnetNegotiation.Settled`).
- **Ports.** Over any run, also one in which the port is switched while it is connected, each direction is a queue:
  what was written and what waits is the translation of the blocks read, each in the state it was read in, and the
  telnet replies are a queue as well (`PortTransfer.Port.Run`). Over any run of connections, state changes and
  reconfigurations the list is what the events make of it, with distinct names and exclusive devices
  (`PortList.Registry.Run`), and a configuration that was deferred is one that comes later
  (`PortViews.DeferredIsLater`).
- **Control connections.** However the input is cut into reads, and whatever writes stand between them, the lines passed
  on are those of one parser and one editor over all of it (`Controllers.Controller.Run`, `Controllers.FollowIsOne`).
- **VF48.** However the words of a stream are cut and interleaved, each group's frames are those of its own words, cut
  where these alone tell (`Vf48Stream.SameWordsSameFrames`, `Vf48Stream.FramesCut`), and over any run every frame's
  groups are in exactly one event of its time (`Vf48Events.EventQueue.Run`).

Found not to hold, each with its input and its exact condition:

- Queued telnet replies can be left with nothing to send them. Over any run that happens exactly when the TCP side is
  writable, the write of the replies is refused for now, and the data write that follows leaves no data
  (`PortTransfer.Port.Run`, `PortTransfer.StrandedIff`); a new telnet port gets there in two events
  (`PortTransfer.RefuseFirstReplies`).
- The doubling of 255s writes behind `dev_to_tcp_buf` (ser2net/dataxfer.c:637-638). For the 512 bytes at most that are
  read for telnet this happens exactly when all 512 are 255 (`PortTransfer.ShiftLeavesArrayIff`). The byte behind the
  block then lands in the first byte of `dev_to_tcp_buf_start`, which ser2net/dataxfer.c:176-179 declares next, and a
  block whose first write is refused or partial may go on from a wrong place.
- A suboption of a known option without a handler calls a null pointer (ser2net/telnet.c:65). Some input does so
  exactly when the option table has such an option (`Telnet.NullCallIff`), as both tables of the program have
  (ser2net/dataxfer.c:243-245, ser2net/controller.c:108-110).
- A port that is not telnet can write bytes to the TCP side that come from no device. Its telnet record is not set up
  for the connection (ser2net/dataxfer.c:1669-1673), and handle_tcp_fd_write sends what an earlier telnet connection has
  left in its reply queue (ser2net/dataxfer.c:853-861). While no block is read as telnet no reply joins that queue
  (`PortTransfer.Port.Run`), and all of it goes out once a first write is refused (`PortTransfer.SendLeftovers`): some
  run sends such bytes exactly when the queue was not empty.
- A port that is switched while it is connected (ser2net/dataxfer.c:1794-1819) is not transparent as a whole. What it
  writes is the wire form of a telnet port, or of one that is not, exactly when no block read in the other way holds a
  255 (`PortBlocks.MixedWireIff`). A port that was not set up as telnet parses with a record of an earlier connection
  once it is switched to telnet, and that record matters for the data exactly when some byte is read as telnet
  (`PortBlocks.StartMattersIff`), so never exactly when such a port is never switched (`PortTransfer.BlocksOfOneKind`).
  With a record left inside a suboption nothing reaches the device (`PortTransfer.SwallowAfterSwitch`).
- Firmware of 64 kilobytes or more is not transferred whole (`PhidgetPackets.FirmwareReceived` is an if and only if).
- An upgrade in which a packet fails is called a success exactly when the stored response of the device is one to a
  sector and tells of no failure (`PhidgetPackets.FailedUpgrade`), since the answer of the device replaces the error of
  the send (phidget/libphidget-2.1.8.20130320/cphidget.c:1796-1804).
- A writer into memory grows it by 10000 bytes at most for a line (mxml/mxml.c:161-164). A line never overruns the
  memory, however full it is, exactly when it has at most 10000 characters (`XmlWriter.SafeLineIff`); only the line of a
  value can be longer. mxml_write_tree writes to a file instead.
- An element whose name has 64 characters or more is not closed by its own name, since node names are cut and end tags
  are not (mxml/mxml.c:691, mxml/mxml.c:1453): `<n></n>` is taken exactly when the name is shorter
  (`XmlGrammar.OwnNameClosesIff`).
- An entity can be cut by `mxml_encode` exactly for buffer sizes from 2 to 9 (`XmlText.NeverCutIff`), where the unsigned
  comparison in its loop does not stop it. The function is static (mxml/mxml.c:100) and all its callers pass at least
  1000, so that no input of the program gets there.

## Model

| member | source | states |
|---|---|---|
| TimeVals.CompareIsNumeric | ser2net/selector.c:198-214 | on normal time values the comparison is the order of the microseconds they stand for |
| TimeVals.Difference | ser2net/selector.c:216-238 | the difference of two time values, with its borrow, is normal and is the difference in microseconds |
| TimerHeap.Selector.FindNextPos | ser2net/selector.c:363-392 | walking up and down from the last node finds the parent and side of exactly the next empty level-order place |
| TimerHeap.Selector.FindPrevElem | ser2net/selector.c:394-423 | for more than one node the walk finds exactly the node before the last in level order |
| TimerHeap.Selector.RelinkUp | ser2net/selector.c:425-470 | relinking a node with its parent exchanges the two places of a well-linked tree and touches nothing else |
| TimerHeap.Selector.SendUp | ser2net/selector.c:425-470 | from a heap ordered but for one node that is too early, the order is restored and no timer is lost |
| TimerHeap.Selector.RelinkDown | ser2net/selector.c:472-552 | relinking a node below its left or right child exchanges the two places of a well-linked tree |
| TimerHeap.Selector.SendDown | ser2net/selector.c:472-552 | from a heap ordered but for one node that is too late, the order is restored and no timer is lost |
| TimerHeap.Selector.AddToHeap | ser2net/selector.c:554-591 | the tree stays complete, linked and ordered, and gains exactly the new timer |
| TimerHeap.Selector.DetachLast | ser2net/selector.c:593-627 | the last leaf is cut off and the tree without it is well linked with the right last node |
| TimerHeap.Selector.ReplaceNode | ser2net/selector.c:629-651 | a free leaf takes over the links of a node, whose place in the tree it then has |
| TimerHeap.Selector.RemoveFromHeap | ser2net/selector.c:593-668 | removing a node wherever it sits keeps the tree complete, linked and ordered, and takes out exactly that timer |
| TimerHeap.Selector.WalkIsSlot | ser2net/selector.c:267-329 | turns from the top lead to a node exactly when their level-order number is below the number of nodes: the shape the debug checker asks for |
| TimerHeap.Selector.ReachableIffMember | ser2net/selector.c:331-360 | a timer is a member exactly when links from the top lead to it |
| TimerHeap.Selector.TopIsEarliest | ser2net/selector.c:742-747 | no timer in the heap is earlier than the top one |
| TimerHeap.Selector.constructor | ser2net/selector.c:834-858 | a new selector has an empty, well-formed heap |
| TimerHeap.Selector.AllocTimer | ser2net/selector.c:670-689 | a new timer is known to the selector and not in its heap |
| TimerHeap.Selector.StartTimer | ser2net/selector.c:702-713 | refuses a running timer and else adds exactly it with its timeout; in_heap stays the same as membership |
| TimerHeap.Selector.StopTimer | ser2net/selector.c:715-726 | refuses a stopped timer and else removes exactly it; in_heap stays the same as membership |
| TimerHeap.ExchangeUpOrder | ser2net/selector.c:425-470 | exchanging a too early node with its parent leaves order broken at most one place higher |
| TimerHeap.ExchangeDownOrder | ser2net/selector.c:472-552 | exchanging a too late node with its earlier child leaves order broken at most one place lower |
| TimerHeap.ReplaceOrder | ser2net/selector.c:652-659 | after a replacement order is broken in one direction only, decided by comparing with the parent |
| TimerHeap.NumberOfTurns | ser2net/selector.c:267-329 | every level-order number is reached by one string of turns |
| TimerHeap.NextLeftmost | ser2net/selector.c:363-392 | the place after the rightmost one of a level in a subtree is the leftmost one of its neighbour |
| TimerPass.ServeOne | ser2net/selector.c:702-726 | of all running timers and their timeouts a request changes one: a start adds its timer unless that runs, a stop takes it out |
| TimerPass.LastDecides | ser2net/selector.c:702-726 | after the requests of a handler a timer runs exactly if the last one about it is a start, with that timeout unless it was running |
| TimerPass.StartedRuns | ser2net/selector.c:742-769 | a timer whose last request in a pass is a start that takes effect runs at its end with that timeout |
| TimerPass.OthersKept | ser2net/selector.c:742-769 | a timer that does not fire and that no handler asks about stays as it is |
| TimerPass.FireTop | ser2net/selector.c:749-757 | firing takes out the earliest of the running timers, then the requests of its handler are served in order |
| TimerPass.ProgressStep | ser2net/selector.c:742-769 | firing the earliest due timer keeps: each fired once, when due, in order, and nothing lost but what was stopped |
| TimerPass.FireAllDue | ser2net/selector.c:742-757 | the loop ends, with no timers or the earliest one in the future |
| TimerPass.RunDueTimers | ser2net/selector.c:742-769 | every due timer fires once in timeout order unless stopped; the timers running at the end are those at the start, less the fired, with all requests served in order, a last effective start among them; the wait is the earliest remaining timeout minus the last clock reading |
| Telnet.FeedAppend | ser2net/telnet.c:168-250 | feeding two blocks is feeding them joined: same parser state, data, commands and replies |
| Telnet.FeedSameParser | ser2net/telnet.c:168-250 | what data is delivered depends on the parser position alone, not on the reply queue or option table |
| Telnet.FeedAnnounces | ser2net/telnet.c:19-36 | replies only join the end of their queue, and never without output_ready being called |
| Telnet.ItemParsed | ser2net/telnet.c:48-117 | one well-formed unit read from the idle state has its effect, delivers its data and leaves the parser idle |
| Telnet.StreamParsed | ser2net/telnet.c:168-250 | the parser inverts the encoding of every sequence of data, escapes, commands, negotiations and suboptions |
| Telnet.BrokenParsed | ser2net/telnet.c:207-238 | a 255 and a byte that means nothing behind it leave a suboption as if they were not there |
| Telnet.FeedEvents | ser2net/telnet.c:48-65 | only suboptions that the option table has a handler for reach one, a null handler is called only for a known option that has none, and callbacks made are never undone |
| Telnet.NullCallIff | ser2net/telnet.c:60-65 | some input makes the parser call through a null handler if and only if the option table knows an option without one |
| Telnet.OptionRoundTrip | ser2net/telnet.c:119-155 | the bytes of a sent option call the handler once with its first 29 bytes and leave the parser idle, if and only if the option's code is known and has a handler |
| Telnet.EscapeRoundTrip | ser2net/telnet.c:207-238 | a block with its 255s doubled is delivered as it was, with no command handled and the parser idle |
| TelnetNegotiation.RowFound | ser2net/telnet.c:7-17 | the search finds exactly the first row of the option in front of the end of the table |
| TelnetNegotiation.SuboptionReplied | ser2net/telnet.c:60-65 | what the handler of a suboption answers joins the queue, every option between its markers |
| TelnetNegotiation.UnknownRefused | ser2net/telnet.c:66-117 | an option that the table does not have is refused and nothing else changes, or the error is set when there is no room |
| TelnetNegotiation.Replied | ser2net/telnet.c:66-117 | a request that answers one's own is not answered; any other is, with agreement exactly when the row allows the option and its will handler, if asked, agrees |
| TelnetNegotiation.NoRoomNoReply | ser2net/telnet.c:19-36 | without room for three bytes no reply joins the queue and the error is set |
| TelnetNegotiation.FlagsChanged | ser2net/telnet.c:66-117 | of the whole table only the flags of that row change which tell of the side the request is about |
| TelnetNegotiation.Settled | ser2net/telnet.c:66-117 | a DO that was sent is settled by one answer of the other side, which is not answered, and both note the same |
| TelnetNegotiation.OfferSettled | ser2net/telnet.c:66-117 | so is a WILL that was sent |
| TelnetConnection.TelnetData.constructor | ser2net/telnet.c:252-272 | an idle parser with the initial negotiation queued |
| TelnetConnection.TelnetData.FindCmd | ser2net/telnet.c:7-17 | the first row of the terminated table for an option, or none |
| TelnetConnection.TelnetData.TelnetCmdSend | ser2net/telnet.c:19-36 | a command joins the reply queue, or sets the error when it does not fit |
| TelnetConnection.TelnetData.OptionLength | ser2net/telnet.c:119-134 | the room an option needs with its 255s doubled and its markers |
| TelnetConnection.TelnetData.TelnetSendOption | ser2net/telnet.c:119-155 | the queue gains the option between its markers with every 255 doubled, or the error is set |
| TelnetConnection.TelnetData.HandleTelnetCmd | ser2net/telnet.c:48-117 | replies, option table and callbacks are those of the command, in place; a known option without a handler is noted as a call through null |
| TelnetConnection.TelnetData.DeleteChar | ser2net/telnet.c:157-166 | the bytes behind one move down over it and no other byte changes |
| TelnetConnection.TelnetData.ProcessByte | ser2net/telnet.c:168-250 | one byte either stays in the data or leaves it, and every store is inside the command array |
| TelnetConnection.TelnetData.ProcessTelnetData | ser2net/telnet.c:168-250 | the data left in the buffer and the new parser state are those of feeding the block byte by byte |
| TelnetConnection.FeedingMoves | ser2net/telnet.c:168-250 | a byte moved from the unread to the read part keeps the result of the whole block |
| PortBlocks.OneMore | ser2net/dataxfer.c:585-847 | one more block adds its wire form, and its data as the parser in its state after the blocks before finds them |
| PortBlocks.AllTelnet | ser2net/dataxfer.c:585-847 | blocks that are all read as telnet are one stream: its doubled form, and its data through one parser |
| PortBlocks.NoneTelnet | ser2net/dataxfer.c:585-847 | blocks of which no byte is read as telnet pass through as they are and leave the parser alone |
| PortBlocks.MixedWireIff | ser2net/dataxfer.c:590-644 | after any switching, what goes out is the raw form of the blocks, or the telnet form, exactly when no block read in the other way holds a 255 |
| PortBlocks.StartMattersIff | ser2net/dataxfer.c:1669-1673 | the record a connection finds, if it is not set up, can matter for the data if and only if some byte is read as telnet |
| PortTransfer.DoubleIacs | ser2net/dataxfer.c:630-644 | the buffer in place becomes the block with every 255 doubled, and the byte behind the block moves along behind it |
| PortTransfer.ShiftLeavesArrayIff | ser2net/dataxfer.c:590-644 | of the blocks read for telnet, exactly the 512 bytes of 255 are shifted out of the 1024-byte buffer |
| PortTransfer.Direction.FirstWrite | ser2net/dataxfer.c:646-690 | after a first write what was written and what waits is what was accepted, and the reader is off exactly while something waits |
| PortTransfer.Direction.NextWrite | ser2net/dataxfer.c:696-737 | a later write moves the head of the waiting bytes to the output, and the reader is on again exactly when none are left |
| PortTransfer.StrandedIff | ser2net/dataxfer.c:849-930 | over any run, replies that are stranded became so by a refused write of replies before a data write that left no data, and every such pair of writes strands them |
| PortTransfer.RefuseFirstReplies | ser2net/dataxfer.c:849-930 | a new telnet port whose initial negotiation is refused while no data waits is left with it and with nothing watching for room |
| PortTransfer.BlocksOfOneKind | ser2net/dataxfer.c:1794-1819 | over any run in which the port is not switched to or from telnet, all its blocks are read in the one way |
| PortTransfer.SendLeftovers | ser2net/dataxfer.c:849-930 | a raw port whose first write is refused sends the whole reply queue that an earlier connection left, which is no byte exactly when it was empty |
| PortTransfer.SwallowAfterSwitch | ser2net/dataxfer.c:1794-1819 | a port switched to telnet with a record left inside a suboption delivers none of the bytes it then reads |
| PortTransfer.Port.constructor | ser2net/dataxfer.c:1518-1690 | a new connection has both directions empty; a telnet one has its initial negotiation queued, its TCP writer watched and its device reader off; any other has its readers on and its telnet record as it was left, replies included |
| PortTransfer.Port.Transparent | ser2net/dataxfer.c:585-847 | while all blocks are telnet, a peer with the same parser gets the device's bytes back from their wire form, and bytes with their 255s doubled reach the device unchanged |
| PortTransfer.Port.ShutdownPort | ser2net/dataxfer.c:1838-1881 | both directions are dropped and what had been written stays a prefix of what was read |
| PortTransfer.Port.HandleDevFdRead | ser2net/dataxfer.c:585-694 | a block read is accepted whole in its wire form and never over unsent bytes, exactly as much as the write takes counts as written, and only end of file or a failed write closes |
| PortTransfer.Port.HandleDevFdWrite | ser2net/dataxfer.c:696-737 | unsent bytes go on in order, as many as the write takes, and only a failed write closes |
| PortTransfer.Port.HandleTcpFdRead | ser2net/dataxfer.c:751-847 | a block read is accepted without its telnet commands and never over unsent bytes, the parser and its replies are where the block leaves them, the connection closes exactly on end of file, a telnet error or a failed write of data, and no new replies are left unwatched |
| PortTransfer.Port.FlushReplies | ser2net/dataxfer.c:858-897 | data is written only when the replies are out or were refused for now, and replies leave from the head of their queue |
| PortTransfer.Port.HandleTcpFdWrite | ser2net/dataxfer.c:849-930 | for every outcome of the two writes: the replies and data that are left and those written, in order, whether the writer is watched, and that replies are stranded exactly when they were refused and no data was left |
| PortTransfer.Port.NotifyOption | ser2net/dataxfer.c:1946-1989 | a modem-state notification joins the reply queue and the writer is watched, or the queue is full; both directions stay as they are |
| PortTransfer.Port.Handle | ser2net/dataxfer.c:585-960 | every event, if it was awaited, does what its handler promises of bytes, replies and masks, and else nothing; a block comes in the state it is read in, and only a block read as telnet or a notification adds replies |
| PortTransfer.Port.Run | ser2net/dataxfer.c:585-960 | over any run, with changes of the port's state, written plus waiting bytes are the translation of all blocks read, in each direction; sent plus queued replies are all that were accepted, and without a block read as telnet none joins; each step writes as much as its writes take; replies are stranded at some time exactly when an event of the run strands them |
| PortViews.ClearedAre | ser2net/dataxfer.c:2143-2173 | after a clean-up exactly the ports of the configuration and the connected ones are left, these marked |
| PortViews.SoundKept | ser2net/dataxfer.c:1692-2550 | what any event does keeps names distinct, devices exclusive, and marks and waiting configurations to connected ports |
| PortViews.DeferredIsLater | ser2net/dataxfer.c:1912-1943 | a configuration that waits for the end of a connection leaves the list that it would leave had it come after that |
| PortViews.AllSound | ser2net/dataxfer.c:1692-2550 | so every list of a run is sound |
| PortList.Registry.IsDeviceAlreadyInUse | ser2net/dataxfer.c:962-980 | tells exactly whether another port of the list is connected to the device |
| PortList.Registry.HandleAccept | ser2net/dataxfer.c:1692-1728 | refuses exactly when the port or its device is in use, so that devices stay exclusive |
| PortList.Registry.StartupPort | ser2net/dataxfer.c:1730-1791 | a port on standard input is connected at once if its device is free, and ends the process if not |
| PortList.Registry.ChangePortState | ser2net/dataxfer.c:1794-1819 | also on a connected port, a change of state keeps names distinct and devices exclusive; only a zero port that is enabled again is connected by it, or ends the process |
| PortList.Registry.ShutdownPort | ser2net/dataxfer.c:1838-1944 | a marked port leaves the list, one with a waiting configuration is replaced at its place, others stay |
| PortList.Registry.PortConfig | ser2net/dataxfer.c:1991-2141 | an idle port is replaced at its place, a connected one notes the configuration, a new name goes last; a bad line changes nothing; the outcome is that of setting up a port that starts |
| PortList.Registry.ClearOldPortConfig | ser2net/dataxfer.c:2143-2173 | what is left, in order, are the ports of the new configuration and the connected ones, which are marked |
| PortList.SurvivorsAre | ser2net/dataxfer.c:2143-2173 | the survivors are exactly the kept ports of the list, names still distinct |
| PortList.ProgressStep | ser2net/dataxfer.c:2143-2173 | keeping or unlinking one port keeps the survivors so far in front of the rest of the list |
| PortList.WithAnother | ser2net/dataxfer.c:1912-1943 | an idle port of the same name put in a port's place keeps names distinct and devices exclusive |
| PortList.Registry.Handle | ser2net/dataxfer.c:1692-2550 | every event has its effect on the port of its name, with its outcome, and nothing else changes; without such a port only a configuration line does anything |
| PortList.Registry.Run | ser2net/dataxfer.c:1692-2550 | over any run each list follows from the one before by its event; names are distinct, devices exclusive, and only connected ports marked or with a configuration waiting |
| Controllers.ByteDecides | ser2net/controller.c:493-535 | exactly a carriage return ends a line, a backspace or delete takes from it, a NUL or newline does nothing and any other byte joins it |
| Controllers.LineEntered | ser2net/controller.c:493-535 | a line that is typed and ended is passed on, with its echo, the answer and a prompt, or the session ends |
| Controllers.TakenBack | ser2net/controller.c:499-510 | a byte and a backspace leave the line as it was |
| Controllers.EditAppend | ser2net/controller.c:493-535 | editing two blocks is editing them joined |
| Controllers.Controller.Output | ser2net/controller.c:155-225 | the shifting and growing buffer refines a queue: written plus waiting bytes are all that was put out |
| Controllers.Controller.RemoveChars | ser2net/controller.c:428-443 | the characters before and behind the removed ones stay, in place |
| Controllers.Controller.ProcessLine | ser2net/controller.c:294-426 | a line is passed on; the session ends, or the answer and a prompt are put out |
| Controllers.Controller.EndLine | ser2net/controller.c:510-529 | the line is passed on and the rest of the buffer moves to its start |
| Controllers.Controller.TakeChar | ser2net/controller.c:493-535 | the index that moves while the buffer is edited stands for a simple editor taking one character |
| Controllers.Controller.TakeAll | ser2net/controller.c:493-535 | the loop is the fold of the simple editor over the characters read |
| Controllers.Controller.HandleRead | ser2net/controller.c:445-536 | input goes through the telnet parser and the editor; a full line is dropped with a message |
| Controllers.FollowIsOne | ser2net/controller.c:445-536 | while the session is open and has room, the state after any reads with writes between them is that of one parser and one editor over the input joined |
| Controllers.Controller.HandleWrite | ser2net/controller.c:538-612 | replies go first, data leave from the head of the queue, and the session ends exactly on a failed write |
| Controllers.Controller.Run | ser2net/controller.c:445-612 | over any run of reads and writes: an open session has the parser, the lines passed on and the line being typed that its reads make, dropped lines included; every write takes from the queues what it says, and written plus waiting bytes are all that was put out |
| XmlText.Encode | mxml/mxml.c:268-329 | what the buffer holds is the encoding of the longest prefix its guard lets in |
| XmlText.EncodedWithinSize | mxml/mxml.c:268-329 | from size 10 the result is the full encoding of a prefix, fits, and is the whole encoding exactly when that fits |
| XmlText.NeverCutIff | mxml/mxml.c:286-286 | no input ever has an entity cut if and only if the size is 1 or at least 10 |
| XmlText.CutExampleIsCut | mxml/mxml.c:286-286 | for every size from 2 to 9 a text whose encoding is cut inside an entity |
| XmlText.Decode | mxml/mxml.c:338-372 | splicing entities in place from the left is decoding the text once |
| XmlText.EncodeRoundTrip | mxml/mxml.c:268-372 | decoding undoes encoding in both modes, also for text that looks like entities |
| XmlText.BufferRoundTrip | mxml/mxml.c:268-372 | decoding the buffer gives a prefix of the text, and all of it exactly when it fits |
| XmlText.PredefinedEntities | mxml/mxml.c:268-372 | the five entities are those of XML 1.0, and what each stands for |
| XmlTree.StorableIff | mxml/mxml.c:508-531 | of all values only the first one ever written has to be shorter than 1000 characters, and every attribute than 4096 |
| XmlWriter.SafeLineIff | mxml/mxml.c:154-173 | a line fits the memory of a writer, however full it is, if and only if it has at most 10000 characters |
| XmlWriter.SafeLines | mxml/mxml.c:154-173 | any number of such lines stay inside the memory |
| XmlWriter.Writer.StartElement | mxml/mxml.c:392-423 | a held-back bracket is written, then the cut start line; the encoded name is stacked |
| XmlWriter.Writer.EndElement | mxml/mxml.c:445-481 | an empty element is closed short, another by its stacked name, indented unless a value was written |
| XmlWriter.Writer.WriteAttribute | mxml/mxml.c:486-501 | only an open element takes an attribute, encoded within its buffers |
| XmlWriter.Writer.WriteValue | mxml/mxml.c:508-531 | only an open element takes a value, encoded in a buffer that grows with it from the second on |
| XmlWriter.Writer.WriteSubtree | mxml/mxml.c:2071-2089 | where no buffer is too small, the data buffer having grown with the values before, the text is what the tree prints as; the writer is back at its level and the buffer has the size of all values so far |
| XmlWriter.WriteTree | mxml/mxml.c:2096-2120 | a document is its header and its elements, without instructions and comments, in the first document of a process and in later ones |
| XmlWriter.OpenedThenClosed | mxml/mxml.c:2071-2089 | start tag, attributes, value, children and end put together are the printed element |
| XmlReader.CommentAt | mxml/mxml.c:1342-1369 | a comment becomes a node with its text, or an error when unterminated |
| XmlReader.InstructionAt | mxml/mxml.c:1371-1395 | an instruction becomes a node with its text, or an error when unterminated |
| XmlReader.DoctypeAt | mxml/mxml.c:1397-1417 | a document type is skipped up to the bracket that matches |
| XmlReader.CloseAt | mxml/mxml.c:1422-1460 | an end tag closes the innermost open node of its name or is an error |
| XmlReader.OneAttributeAt | mxml/mxml.c:1478-1546 | one attribute is read, cut to its buffers, with every error on the way |
| XmlReader.OpenAt | mxml/mxml.c:1421-1548 | a start tag adds its node with its attributes in order |
| XmlReader.TailAt | mxml/mxml.c:1548-1567 | the end of a start tag, also the second bracket that is accepted after an empty element |
| XmlReader.ContentAt | mxml/mxml.c:1565-1606 | another tag after space opens a subtree and drops that space, anything else is the value |
| XmlReader.ParseBuffer | mxml/mxml.c:1310-1620 | the walk over the buffer gives the tree or the error of reading the text |
| XmlRoundTrip.TagRead | mxml/mxml.c:392-501 | a printed start tag is read as its name and attributes, in order |
| XmlRoundTrip.TextRead | mxml/mxml.c:508-531 | a printed value is read back whole, blank or empty ones only before an end tag |
| XmlRoundTrip.CloseRead | mxml/mxml.c:445-481 | a printed end tag closes the node of that name |
| XmlRoundTrip.ElementRead | mxml/mxml.c:2071-2089 | reading a printed element anywhere adds it, less blank values before children, to the innermost open node |
| XmlRoundTrip.NormalIff | mxml/mxml.c:1579-1583 | an element loses nothing exactly when no blank value stands before children in it |
| XmlRoundTrip.DocumentRead | mxml/mxml.c:1310-1620 | a written document parses into its header nodes and its elements, less blank values before children |
| XmlRoundTrip.DocumentRoundTrip | mxml/mxml.c:2071-2120 | the parsed document has the same elements if and only if none has a blank value before children |
| XmlSpelling.WrittenReads | mxml/mxml.c:1478-1546 | attributes in any quotes, with space around their parts, are read in order, cut to the buffers |
| XmlSpelling.MarkReads | mxml/mxml.c:1310-1620 | a comment, instruction, document type or tag in any spelling has its effect, or is an error where it may not stand |
| XmlSpelling.SpelledReads | mxml/mxml.c:1310-1620 | a spelled text is read as its marks say, and is an error exactly when one of them may not stand where it does |
| XmlGrammar.PiecesFound | mxml/mxml.c:1310-1620 | a text from which the parser makes a tree is spelled by the grammar |
| XmlGrammar.RunIffMatched | mxml/mxml.c:1440-1455 | the marks build a tree exactly when every end tag names the innermost open element |
| XmlGrammar.SpelledTextRead | mxml/mxml.c:1310-1620 | a spelled text, behind other text, is taken exactly when its end tags match, and gives the tree that its marks build |
| XmlGrammar.TakenIff | mxml/mxml.c:1310-1620 | the parser makes a tree of a text if and only if it is spelled by marks whose end tags match |
| XmlGrammar.WrongEndFails | mxml/mxml.c:1448-1454 | an end tag with another name than the innermost open element makes the whole text an error |
| XmlGrammar.OwnNameClosesIff | mxml/mxml.c:1448-1454 | an element is closed by its own name if and only if that is shorter than 64 characters |
| XmlGrammar.NestedRead | mxml/mxml.c:1310-1620 | nested elements in any spelling, with comments, instructions and document types between, are read as the tree they are |
| XmlDocument.SmallPrintableAll | mxml/mxml.c:392-531 | for ordinary elements up to 300 levels deep with values of up to 989 encoded characters no buffer is too small |
| XmlDocument.WriteAndParse | mxml/mxml.c:2096-2120 | where no buffer is too small, the ordinary elements that the printer writes are parsed back as they were if and only if none has a blank value before children |
| XmlPath.CountMet | mxml/mxml.c:976-993 | the loop over the conditions counts how often a child meets them |
| XmlPath.FindNodes1 | mxml/mxml.c:887-1020 | the accumulated list grows by exactly the addresses of the search below this node |
| XmlPath.FindNodes | mxml/mxml.c:1024-1034 | the number of nodes found and the nodes, or -1 for a malformed path |
| XmlSelect.StepRead | mxml/mxml.c:903-972 | a well-formed step is read as its name, its last rank and all its attribute conditions, whatever spaces and quotes they are written with |
| XmlSelect.SatisfiesIff | mxml/mxml.c:973-1007 | the counting of met conditions decides exactly name and all attributes |
| XmlSelect.PickedIff | mxml/mxml.c:973-1007 | a child is picked exactly when it meets the step and has the rank among those that do |
| XmlSelect.SearchSelects | mxml/mxml.c:855-1034 | a well-formed path, with no more conditions than the source has room for, finds exactly the selected nodes, in document order and each once, with or without a leading slash |
| Vf48Stream.RunAppend | vme/UnpackVF48A.cxx:962-1041 | how a stream is cut over calls does not matter |
| Vf48Stream.CallsJoin | vme/UnpackVF48A.cxx:962-1041 | any number of calls do what one call with all the words does |
| Vf48Stream.OnlyOwnWordsMatter | vme/UnpackVF48A.cxx:962-1041 | the frames and buffer of a group are those of its own words run alone |
| Vf48Stream.FitsByGroup | vme/UnpackVF48A.cxx:946-960 | whether buffers suffice depends on each group's own words alone |
| Vf48Stream.SameWordsSameFrames | vme/UnpackVF48A.cxx:962-1041 | two interleavings of the same words per group hand on the same frames per group |
| Vf48Stream.FramesPartition | vme/UnpackVF48A.cxx:979-1039 | every kept word is in exactly one frame or the buffer, in order, and frames longer than one word start with a header |
| Vf48Stream.FramesCut | vme/UnpackVF48A.cxx:996-1026 | frames end exactly behind each trailer and in front of each header that finds more than one word since the last cut |
| Vf48Stream.FrameEnds | vme/UnpackVF48A.cxx:996-1026 | a frame has a trailer only at its end or is followed by a header, and is a lone trailer only when no word was waiting |
| Vf48Stream.GroupBuffer.Accept | vme/UnpackVF48A.cxx:996-1039 | one word changes the buffer and hands on frames as the group automaton says |
| Vf48Stream.UnitStream.UnpackStream | vme/UnpackVF48A.cxx:962-1041 | the buffers and frames after a call are those of the automaton over its words |
| Vf48Events.EventQueue.FindEvent | vme/UnpackVF48A.cxx:246-259 | the first event near enough, or a new one; events stay apart except when duplicates are refused near one |
| Vf48Events.EventQueue.FindModule | vme/UnpackVF48A.cxx:558-577 | the module's record in the event of this time is found or made, and nothing else changes |
| Vf48Events.EventQueue.ReceiveFrame | vme/UnpackVF48A.cxx:718-937 | the groups of all channel headers of a frame join the module's record in the first event near enough, no other record changes, and the module is complete once a trailer finds every enabled group there |
| Vf48Events.FrameReceived | vme/UnpackVF48A.cxx:558-577 | a frame put into one record keeps every earlier frame in its own, and adds nothing but its groups |
| Vf48Events.FrameFinishes | vme/UnpackVF48A.cxx:890-937 | after one more frame every module has the groups of its frames, and is complete exactly if it was or if one of them finished it |
| Vf48Events.EventQueue.CompleteEvent | vme/UnpackVF48A.cxx:423-440 | an event becomes complete exactly when the finished modules are the expected ones |
| Vf48Events.EventQueue.AnyComplete | vme/UnpackVF48A.cxx:287-299 | finds whether any buffered event is ready, and else leaves all incomplete |
| Vf48Events.EventQueue.GetEvent | vme/UnpackVF48A.cxx:261-319 | delivers the front event exactly on a flush, when some event is ready, or above the threshold; nothing else ever leaves |
| Vf48Events.EventQueue.Run | vme/UnpackVF48A.cxx:246-937 | over any run the delivered events are numbered without gap or repeat and a complete one has all expected modules; every frame's groups are in exactly one event, delivered or waiting, of its time, and nothing else is; a module is complete exactly when a frame with a trailer found its enabled groups there; each operation changes the buffer as it says |
| PhidgetPackets.Fill | phidget/libphidget-2.1.8.20130320/cphidget.c:1776-1777 | bytes are stored while both the buffer and the data last |
| PhidgetPackets.SendContinued | phidget/libphidget-2.1.8.20130320/cphidget.c:1782-1790 | the rest goes out in continuation packets, up to the one that fails |
| PhidgetPackets.SendFirmware | phidget/libphidget-2.1.8.20130320/cphidget.c:1758-1794 | the packets sent are those of all sectors, or those before the one that fails |
| PhidgetPackets.GetResponse | phidget/libphidget-2.1.8.20130320/cphidget.c:1726-1744 | looks every 20 milliseconds until an answer of the kind has come or the time is up, and then judges the stored response as it is at that moment |
| PhidgetPackets.LooksBounded | phidget/libphidget-2.1.8.20130320/cphidget.c:1726-1744 | the wait ends less than one look after its time is up |
| PhidgetPackets.StoredDecides | phidget/libphidget-2.1.8.20130320/cphidget.c:1726-1744 | while the stored response stays the same, the result is that response judged, and no other |
| PhidgetPackets.FailedUpgrade | phidget/libphidget-2.1.8.20130320/cphidget.c:1796-1804 | when a packet fails only the packets before it have gone out, and the upgrade still counts as a success if and only if the stored response is one to a sector without its failure bit |
| PhidgetPackets.UpgradeFirmware | phidget/libphidget-2.1.8.20130320/cphidget.c:1746-1805 | sends the firmware, or what of it goes out before a packet fails, and gives the judged response of the device in either case |
| PhidgetPackets.SetConfigTable | phidget/libphidget-2.1.8.20130320/cphidget.c:1988-2027 | the packets sent are those of the table, or those before the one that fails |
| PhidgetPackets.CollectContinued | phidget/libphidget-2.1.8.20130320/cphidget.c:1782-1790 | a receiver collects exactly the bytes sent in continuation packets, in spite of stale bytes in the reused buffer |
| PhidgetPackets.SectorReceived | phidget/libphidget-2.1.8.20130320/cphidget.c:1766-1790 | a sector comes in whole when its length is announced right |
| PhidgetPackets.SectorsReceived | phidget/libphidget-2.1.8.20130320/cphidget.c:1764-1793 | sector numbers count down to 1, and the payloads are the data when the sectors cover them |
| PhidgetPackets.FirmwareReceived | phidget/libphidget-2.1.8.20130320/cphidget.c:1760-1793 | the receiver gets the firmware back if and only if it is shorter than 0x10000 bytes |
| PhidgetPackets.TableReceived | phidget/libphidget-2.1.8.20130320/cphidget.c:1999-2019 | a table of any length comes in whole |

## Left out

- System calls, sockets, terminal control, logging, tracing files, locks and printing: their results are parameters,
  chosen freely by the environment.
- The selector's file descriptor sets, `maxfd` and the freeing of timers and selectors.
- TimerPass.RunDueTimers: requires that handlers restart timers only later than every clock reading of the pass, since
  the loop need not end otherwise.
- Telnet option negotiation between two parties that ask unprompted: replies are sent even for options already agreed,
  so no termination is claimed beyond `TelnetNegotiation.Settled` and `OfferSettled`, where one side asks. The handler of
  the serial port control option is a parameter.
- TelnetConnection.TelnetData.HandleTelnetCmd: after a call through a null option handler the process does not go on;
  the model notes the call and does.
- PortTransfer.Port.Run: does not model the overwritten `dev_to_tcp_buf_start` after a telnet block of 512 255s
  (`PortTransfer.ShiftLeavesArrayIff`); the model's buffer has one slot more than `PORT_BUFSIZE` for that byte.
- PortTransfer.Port.HandleDevFdRead: an interrupted first write is retried by the source until it is not; the result
  given is that of the last try.
- The connection banner, monitors, byte counters and timeouts of a port.
- PortTransfer.Port.constructor: the telnet record of a port that has never been set up as telnet is memory that the
  source has not written; the model takes any record whose positions are inside its buffers.
- PortTransfer.Port.Run: does not model that a zero port which is switched off and on again while it is connected is set
  up anew.
- PortList.Registry.PortConfig: parsing of the configuration words is one parameter, absent when a word is invalid; the
  listening socket of a port and its handlers are not modelled, nor is memory running out.
- Controllers.Controller.EndLine: after an exit or quit line the source goes on using the freed record; the model stops
  there. What the commands print is a parameter.
- Controllers.Controller.TakeInput: memory does not run out while input is processed (`Output` itself models it); the
  enabling of the read and write handlers and the list of control connections are not modelled. `Run` allows every order
  of reads and writes, and so also those that the enabling brings about.
- C strings are sequences that end before the NUL, so that moving a tail is a splice.
- XmlWriter.Writer.WriteLine: does not model the memory of a writer that has no file; `XmlWriter.SafeLines` says for
  which lines it is enough.
- XmlWriter.Writer.WriteValue: requires the first value of all to be shorter than 1000 characters, and attributes
  shorter than 4096, since the source copies them into buffers of those sizes unchecked; `XmlTree.StorableIff` says
  what that leaves to the caller of `XmlWriter.WriteTree`.
- XmlReader.NameAt: an element name of more than 255 characters overruns its buffer in the source; the model keeps it.
- XML nodes are values: parent pointers, line numbers and the storage of child arrays are not modelled, nor are entity
  declarations, cloning, deletion and closing a writer with open levels.
- XmlSelect.SearchSelects: says nothing of conditions on a subnode's value, which the source compares even when there is
  none; `XmlPath` counts an absent value as different. An eleventh bracket behind ten conditions in a step overruns the
  source's tables; `XmlPath` reads it, and a well-formed step has none. Nor has it a rank that does not fit the source's
  integer, or a closing bracket in a value, where the source ends the condition also inside quotes.
- Vf48Stream.UnitStream.UnpackStream: requires valid group markers and frames that fit, since the source asserts the
  first and overruns its buffer without the second; one unit is modelled, with buffers allocated at the start.
- Vf48Events: time is real numbers; the contents of ADC frames and their diagnostics are left out but for what
  completes a module, whose record is a value held by its event. `AddToEvent` is never reached in the source and left
  out.
- Vf48Events.EventQueue.ReceiveFrame: a frame's first channel header comes behind its timestamps, since the source
  follows a null pointer otherwise; words behind a trailer are not modelled.
- PhidgetPackets.UpgradeFirmware: the checks that a device is attached and knows the protocol, and the locking.
- The other programs of the repository: hardware access, analysis and display, and the drivers.
