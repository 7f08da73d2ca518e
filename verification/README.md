# The user-space binder stack and its service registry

`Demos/BinderCDemo` is a complete, small binder system in C: a library that marshals messages into
one buffer and drives `/dev/binder` (`binder4Server.c`, and again in `binder4Client.c`), a service
manager that keeps the registry of names (`service_manager.c`), a server that publishes a service
(`binder_server.c`) and a client that looks one up (`binder_client.c`). This project models that
system in Dafny and proves what it guarantees, layer by layer and across the layers, down to the
bytes. Nothing was executed.

`dafny verify dfyconfig.toml` checks everything.

## How it is built

* **Marshalling.** `Writer` and `Reader` give the meaning of every `bio_put_*` and `bio_get_*` on
  values (bytes written, room left with its garbage, offset table, flags). `BinderIo.Bio` is
  `struct binder_io` as an object over an array; each method is proved to compute those functions in
  place. `Delivery` adds what the driver does to a message on the way and proves the round trip.
* **Rules and formats in numbers.** What the theorems promise is said apart from the code they are
  about: permission rules, name lengths, request codes, flag bits and masks stand in the contracts as
  numbers, and `Layout` says what the bytes of words, structures, command words and names are.
* **Commands.** `Commands` holds the `BR_*` and `BC_*` commands as bytes, `Parser` the fold that
  `binder_parse` amounts to, `Rounds` the runs of `binder_call` and `binder_loop` over any script of
  driver rounds, and `BinderLib.Binder` the C functions themselves as methods with loops.
* **Registry.** `Registry` and `RegistryLaws` are `svclist` on values with its laws over every run;
  `Manager` is `svcmgr_handler` on values; `ServiceManagerHeap.ServiceManager` is the linked list,
  updated in place, proved to compute both.
* **The system.** `Clients` has `svcmgr_publish` and `svcmgr_lookup`, `WireProtocol` what each side
  decodes of what the other encoded, `Driver` handles, reference counts and death requests as the
  driver keeps them, `System` all runs of the manager with any number of delivered requests waiting,
  `ServerRuns` that `binder_loop` with the manager's handler makes just such runs, `Deaths` what the
  death of an object does to the registry, `EndToEnd` the theorems from a client's arguments to a
  client's result, `Sessions` the client methods against the manager and a client's enumeration, and
  `Progress` that these requests do get through, so that no hypothesis of the theorems is idle.

The library's commands, the transaction it offers and the reply it sends are decoded by the driver
from the bytes of the buffers the code fills. The reply a client decodes is the
one reply command its service wrote, which exists because `binder_call` sends every request two-way.

A reader in a hurry should start with `EndToEnd.PublishThenLookup`, `EndToEnd.LookupEndToEnd`,
`EndToEnd.PublishEndToEnd`, `System.EveryRunIsSafe`, `Deaths.ClearedByHistory`,
`ServerRuns.LoopIsRun`, `Sessions.EverythingIsListed`, `RegistryLaws.Conservation`,
`Registry.RecordHistory`, `Rounds.LoopLedger`, `Rounds.CallSettles`, `Delivery.RoundTrip` and
`Writer.OverflowExactly`.

## What turned out otherwise than one would expect

* **A stale death clears a live name.** An override links the record to the new handle and never
  unlinks the old one. `Deaths.ClearedByHistory` says when, for every run and for a driver that
  keeps all death requests of a handle as well as for one that keeps a single request per handle:
  a live name is cleared by the death of an object exactly when its record was registered for that
  object at some step and the manager has had a handle for the object ever since (and, with single
  requests, no other registration for the object came first). `RegistryLaws.StaleDeathClears` is a
  run in which it happens to a name held by another live handle. With single requests the same
  theorem says that of two names of one object only the first registered is cleared by its death.
* **Over-long names are sent as no name.** A null pointer, and a string of 2^29 characters or more,
  is written as the null marker, a single word. The message then fits, is sent and served; the
  manager reads no name in it and answers with an error (`EndToEnd.NamelessPublish`,
  `EndToEnd.NamelessLookup`). So a publish overflows its message exactly from 188 to 2^29 - 1
  characters, a lookup from 204 to 2^29 - 1 (`Clients.RequestFits`); names are accepted from 1 to 127
  units (`EndToEnd.PublishEndToEnd`).
* **Long names cannot be listed.** A reply has 224 bytes of data. A name of 110 to 127 units is
  accepted by `do_add_service`, but its list reply overflows after the length word, the overflow is
  not looked at, and the client decodes no string from a reply that claims success. Names are also
  cut at an embedded NUL, which registration accepts (`WireProtocol.ListDecoded`,
  `Manager.ListReply`).
* **A call drops transactions.** `binder_call` parses without a handler, so a transaction that
  arrives while it waits is neither freed nor answered. `Parser.SettledExactly` is the condition,
  `Parser.TransactionDropped` an input.
* **A failed call can lose a reply's buffer.** When the first round that ends the call meets a
  `BR_REPLY` but does not end in one, for a failure or an unreadable command follows it, the reply
  that held its buffer is zeroed and the buffer is never freed. This is the only way a call loses
  one (`Rounds.CallSettles`); `Rounds.ReplyLost` is a single round of 72 bytes that does it.
* **Looking up one's own service yields 0**, because the object comes home as a local object and
  `bio_get_ref` only accepts handles (`EndToEnd.LookupEndToEnd`).
* **The server loop ends** at the first `BR_REPLY`, `BR_FAILED_REPLY`, `BR_DEAD_REPLY`, unknown
  command or cut-off payload; a failing handler never ends it (`Rounds.LoopStops`).

## Model

| member | source | states |
|---|---|---|
| Words.Align4Exact | Demos/BinderCDemo/binder4Server.c:516 | below the 64-bit wrap-around the rounding gives the next multiple of four and leaves multiples alone |
| Layout.LittleEndian | Demos/BinderCDemo/binder4Server.c:561-598 | 16, 32 and 64-bit words are stored lowest byte first |
| Layout.ReadsLittleEndian | Demos/BinderCDemo/binder4Server.c:671-716 | and read so, wherever they stand |
| Layout.ObjectLayout | Demos/BinderCDemo/binder4Server.c:574-597 | the bytes of a flat_binder_object: its type characters, flags 0x7f and accept-fds, pointer or handle, cookie 0; a handle leaves the upper half of the union alone |
| Layout.TransactionLayout | Demos/BinderCDemo/binder4Server.c:394-402 | where the fields of a transaction stand among its 64 bytes |
| Layout.CommandWords | Demos/BinderCDemo/binder4Server.c:244-345 | every command word, read or written, is direction, payload size, group and number as the kernel header codes them |
| Layout.ManagerNames | Demos/BinderCDemo/service_manager.c:176-179 | the interface name is that string, character for character, and the ping is _PNG |
| Writer.EncodersAgree | Demos/BinderCDemo/binder4Server.c:600-653 | for every 8-bit C string, bio_put_string16_x and bio_put_string16 of its widening leave the same buffer, padding, table, counters and flags, also when only the body or even the length fails |
| Writer.PutEffect | Demos/BinderCDemo/binder4Server.c:514-526 | one allocation takes the rounded size exactly when it is left, otherwise nothing but the overflow flag changes; earlier bytes stay |
| Writer.ApplyEffect | Demos/BinderCDemo/binder4Server.c:545-653 | each kind of put raises the overflow flag exactly when its need or its table entry is not there, consumes exactly its need when it fits, and lists only fitting objects, at the old cursor |
| Writer.FailedPut | Demos/BinderCDemo/binder4Server.c:514-653 | what a put that does not fit leaves behind, in full: nothing but the flag; or the length word of a string without room for its body; or 24 unlisted bytes of an object without a table entry |
| Writer.UnlistedPut | Demos/BinderCDemo/binder4Server.c:582-624 | a null or over-long string leaves a word of ones, a zero handle an object that is not listed |
| Writer.PutAllExtends | Demos/BinderCDemo/binder4Server.c:495-653 | over every sequence of puts space and table entries are conserved, written bytes and recorded offsets never change, the cursor keeps its alignment, overflow is sticky, and new offsets point past the old data |
| Writer.PutAllWellPut | Demos/BinderCDemo/binder4Server.c:545-559 | over every sequence of puts recorded offsets are aligned and increasing and the listed 24-byte objects lie in the written region, pairwise disjoint |
| Writer.OverflowExactly | Demos/BinderCDemo/binder4Server.c:514-653 | closed form of the sticky flag: up exactly when the needs of the whole sequence exceed the room or its objects outnumber the table, and otherwise the bytes written are exactly the needs |
| Writer.OverflowIffSomeFailed | Demos/BinderCDemo/binder4Server.c:514-559 | the flag is up at the end exactly when some put did not fit the state it met, even if later ones succeeded |
| Writer.BufferHolds | Demos/BinderCDemo/binder4Server.c:495-559 | what a buffer of any size with a table of any length holds: a sequence of puts overflows exactly when it needs more than is left beside the table or lists more objects than the table has entries |
| Reader.GetEffect | Demos/BinderCDemo/binder4Server.c:655-669 | a get hands out exactly the rounded number of bytes when they are there, and otherwise empties the reader and raises the overflow flag alone |
| Reader.FetchEffect | Demos/BinderCDemo/binder4Server.c:671-716 | any get on any bytes keeps base, table and end of data, and on an exhausted reader yields zero or null without moving the cursor |
| Reader.ReaderSafe | Demos/BinderCDemo/binder4Server.c:655-716 | over every sequence of gets on any received bytes the cursor stays within the data, base and table never change, and a failure leaves nothing to read |
| Reader.StaysFailed | Demos/BinderCDemo/binder4Server.c:655-716 | after the first failure every later get yields zero or null and the reader stands still |
| Reader.NonzeroRefIsListed | Demos/BinderCDemo/binder4Server.c:688-716 | a nonzero reference is read only from an object of handle type at a listed offset |
| Delivery.RewriteKeeps | Demos/BinderCDemo/binder4Server.c:568-598 | the driver's rewriting of listed objects leaves all other bytes of a message alone |
| Delivery.RewriteAt | Demos/BinderCDemo/binder4Server.c:568-598 | each listed object is delivered as its own replacement, undisturbed by the others |
| Delivery.ReadBackOne | Demos/BinderCDemo/binder4Server.c:561-716 | the get for one put returns its value and stops exactly where the put stopped, wherever in the message it stands |
| Delivery.ReadBackAll | Demos/BinderCDemo/binder4Server.c:561-716 | the same for any remaining sequence of puts, from any point of a message |
| Delivery.RoundTrip | Demos/BinderCDemo/binder4Server.c:486-716 | for every sequence of readable puts that does not overflow, any initial garbage and any rewriting of the objects, the matching gets return the values put, every offset search succeeds, and the reader ends empty with no flag raised |
| Delivery.WiresFound | Demos/BinderCDemo/binder4Server.c:568-598 | the listed offsets of a finished message lead to exactly the objects put, in order |
| BinderIo.Bio.Init | Demos/BinderCDemo/binder4Server.c:495-512 | bio_init makes a clean writer over the buffer, also when the table size wraps around 64 bits to something that fits, or, when it does not fit, only sets the flag and zeroes the counters |
| BinderIo.Bio.Alloc | Demos/BinderCDemo/binder4Server.c:514-526 | bio_alloc on the cursors themselves, with its failure leaving them alone |
| BinderIo.Bio.AllocObj | Demos/BinderCDemo/binder4Server.c:545-559 | bio_alloc_obj takes 24 bytes and records their offset, takes them without recording when the table is full, and takes nothing when they are not there |
| BinderIo.Bio.StoreObject | Demos/BinderCDemo/binder4Server.c:576-597 | the separate field stores add up to one flat_binder_object and touch nothing else |
| BinderIo.Bio.PutUint32 | Demos/BinderCDemo/binder4Server.c:561-566 | in place, the value function of the put that the round trip is proved about |
| BinderIo.Bio.PutObj | Demos/BinderCDemo/binder4Server.c:568-580 | likewise for a local object |
| BinderIo.Bio.PutRef | Demos/BinderCDemo/binder4Server.c:582-598 | likewise for a handle, listed unless it is 0 |
| BinderIo.Bio.Scan | Demos/BinderCDemo/binder4Server.c:610-611 | the loop finds the first terminator |
| BinderIo.Bio.PutString16 | Demos/BinderCDemo/binder4Server.c:600-624 | likewise for a 16-bit string, null and over-long strings included |
| BinderIo.Bio.StoreWidened | Demos/BinderCDemo/binder4Server.c:650-652 | the copying loop stores the widened characters and the terminator, and nothing else |
| BinderIo.Bio.PutString16X | Demos/BinderCDemo/binder4Server.c:626-653 | likewise for an 8-bit string |
| BinderIo.Bio.InitFromTxn | Demos/BinderCDemo/binder4Server.c:486-493 | makes a shared reader of exactly the data and table the transaction names |
| BinderIo.Bio.Zero | Demos/BinderCDemo/binder4Server.c:437-438 | the failed reply: everything zero but the io-error flag |
| BinderIo.Bio.GetBytes | Demos/BinderCDemo/binder4Server.c:655-669 | bio_get in place: a pointer to exactly the bytes of the value function |
| BinderIo.Bio.GetUint32 | Demos/BinderCDemo/binder4Server.c:671-675 | in place, the value function that the round trip and reader safety are proved about |
| BinderIo.Bio.GetString16 | Demos/BinderCDemo/binder4Server.c:677-686 | likewise, a pointer to the units with their terminator's place |
| BinderIo.Bio.FindOffset | Demos/BinderCDemo/binder4Server.c:694-697 | the search finds the distance exactly when the table holds it |
| BinderIo.Bio.GetObj | Demos/BinderCDemo/binder4Server.c:688-702 | likewise for the object at the cursor, failing when it is not listed |
| BinderIo.Bio.GetRef | Demos/BinderCDemo/binder4Server.c:704-716 | likewise for a reference |
| Commands.AtMostOneDelivery | Demos/BinderCDemo/binder4Server.c:387-433 | a stream that fits the 128-byte read buffer holds at most one transaction or reply |
| Commands.ReadHead | Demos/BinderCDemo/binder4Server.c:237-329 | the reads of the parser at a command give back the command's word and fields, and its length leads to the next one |
| Parser.ResultByLastTerminal | Demos/BinderCDemo/binder4Server.c:231-346 | the result is 1, 0 or -1 by the last terminal command alone, whatever the handlers did, and -1 with an unknown command or a payload cut short |
| Parser.FirstReplyFills | Demos/BinderCDemo/binder4Server.c:305-322 | the binder_io is initialised from the first reply and from no other |
| Parser.FoldPerforms | Demos/BinderCDemo/binder4Server.c:264-342 | a parse performs all transactions and death notices before the first unknown command, in order, each in the state the one before left, and writes nothing else |
| Parser.LedgerBalanced | Demos/BinderCDemo/binder4Server.c:264-304 | with a handler, exactly the buffers of the transactions visited are freed, once and in order, each followed by one reply exactly when bit 0 of its flags is clear, whatever the other bits: what the handler put, or its status flagged 8 |
| Parser.NoHandlerNoLedger | Demos/BinderCDemo/binder4Server.c:288-303 | without a handler no buffer is freed and nothing is answered |
| Parser.SettledExactly | Demos/BinderCDemo/binder4Server.c:287-303 | the buffers visited are all freed exactly when a handler is installed or no transaction was visited |
| Parser.TransactionDropped | Demos/BinderCDemo/binder4Server.c:287-303 | without a handler one transaction in range changes nothing at all, though its buffer was visited |
| Parser.ZeroHasReply | Demos/BinderCDemo/binder4Server.c:305-346 | a parse that returns 0 has filled the binder_io from the first reply of a whole, known stream |
| Rounds.CallStops | Demos/BinderCDemo/binder4Server.c:409-439 | binder_call ends with the first round that fails or holds a terminal or unreadable command, and with 0 exactly when that round's last terminal command is a reply |
| Rounds.CallReply | Demos/BinderCDemo/binder4Server.c:305-321 | a call that returns 0 holds a shared view of the only buffer its last round delivered, so the branch that frees no second reply is not reached |
| Rounds.CallPerforms | Demos/BinderCDemo/binder4Server.c:409-439 | over every run binder_call performs every task of every round it goes through, in order and nothing else, whether it ends well or not |
| Rounds.CallSettles | Demos/BinderCDemo/binder4Server.c:377-440 | over every run of binder_call the call frees no buffer itself, and the reply buffers it met are exactly those given back afterwards if and only if there is no first round ending the call that meets a reply without ending in one |
| Rounds.ReplyLost | Demos/BinderCDemo/binder4Server.c:426-439 | the script of one round, a reply and then a failed reply, makes the call fail and leaves the reply's buffer to nobody |
| Rounds.LoopStops | Demos/BinderCDemo/binder4Server.c:459-483 | binder_loop ends exactly at the first round that fails or holds a terminal or unreadable command, whatever its handler returns |
| Rounds.LoopPerforms | Demos/BinderCDemo/binder4Server.c:459-483 | likewise binder_loop, the round that stops it included |
| Rounds.LoopLedger | Demos/BinderCDemo/binder4Server.c:447-484 | over every run of binder_loop each transaction reached has its buffer freed exactly once, in arrival order, and is answered exactly when bit 0 of its flags is clear |
| BinderLib.Binder.FreeBuffer | Demos/BinderCDemo/binder4Server.c:185-195 | the bytes written are read by the driver as one release of that buffer |
| BinderLib.Binder.SendReply | Demos/BinderCDemo/binder4Server.c:197-229 | the bytes written are read as the release and then the reply: the data and table the binder_io's cursors point at, or the status word, whatever the uninitialised fields hold |
| BinderLib.Binder.Serve | Demos/BinderCDemo/binder4Server.c:288-302 | for a handler given as a function: it meets the delivered message and a clean 256-byte reply, and its commands, the release and the reply are written in that order |
| BinderLib.Binder.Dispatch | Demos/BinderCDemo/binder4Server.c:244-342 | the switch, on the bytes of the read buffer, is one step of the fold, and stops at a payload cut short with nothing changed |
| BinderLib.Binder.Parse | Demos/BinderCDemo/binder4Server.c:231-346 | binder_parse over the bytes of any well-formed stream computes the fold: result, state, commands written and binder_io |
| BinderLib.Binder.Acquire | Demos/BinderCDemo/binder4Server.c:348-354 | the bytes written are read by the driver as one acquire of that handle |
| BinderLib.Binder.Release | Demos/BinderCDemo/binder4Server.c:356-362 | the bytes written are read by the driver as one release of that handle |
| BinderLib.Binder.LinkToDeath | Demos/BinderCDemo/binder4Server.c:364-375 | the bytes written are read by the driver as one death request for that handle with that cookie |
| BinderLib.Binder.Done | Demos/BinderCDemo/binder4Server.c:528-543 | frees data0 once when the reply is shared and clears the flag, so a repeat, or a failed reply, frees nothing |
| BinderLib.Binder.CallRound | Demos/BinderCDemo/binder4Server.c:409-433 | one round offers the driver only the bytes it has not taken yet, and parses what was read |
| BinderLib.Binder.Transact | Demos/BinderCDemo/binder4Server.c:404-439 | over all rounds the driver takes a prefix of the one transaction, no byte twice, and the loop computes the run that Rounds describes |
| Commands.OfferRead | Demos/BinderCDemo/binder4Server.c:394-406 | the driver reads out of the bytes of any transaction command its target modulo 2^32, code, flags, and the data and table its pointers lead to |
| BinderLib.Binder.Offering | Demos/BinderCDemo/binder4Server.c:394-402 | the write buffer of binder_call is read as one two-way transaction with the target, the code and the message's own bytes and table, whatever the uninitialised fields hold |
| BinderLib.Binder.Call | Demos/BinderCDemo/binder4Server.c:377-440 | an overflowed message touches no driver; otherwise one transaction is written, read by the driver as the message's bytes and table, and taken over the rounds byte by byte at most once; 0 leaves the delivered reply and -1 the io-error flag alone |
| BinderLib.Binder.LoopRound | Demos/BinderCDemo/binder4Server.c:459-482 | one turn of the server loop, offering nothing to the driver |
| BinderLib.Binder.Loop | Demos/BinderCDemo/binder4Server.c:447-484 | binder_loop announces itself once and then computes the run that Rounds describes |
| Registry.OverriddenIs | Demos/BinderCDemo/service_manager.c:222-250 | an override nets to the new handle in the same record, with the old one released exactly when it was live, before the new one is acquired |
| Registry.FoundExactly | Demos/BinderCDemo/service_manager.c:182-204 | do_find_service on every registry, name and caller: the handle of the name's record, unless the policy forbids this caller or the record does not allow isolated callers and the uid modulo 100000 is from 99000 to 99999 |
| Registry.AddedExactly | Demos/BinderCDemo/service_manager.c:206-252 | do_add_service returns 0 exactly for a nonzero handle, 1 to 127 units, a uid below 10000 modulo 100000 whom the policy lets add the name, with a record or memory for it; otherwise -1 and nothing happens |
| Registry.EventWrites | Demos/BinderCDemo/service_manager.c:165-252 | the commands of every add and death: release of the live handle given up, then acquire of the new one, then the request for its death with the record's address |
| Registry.EventIsEffect | Demos/BinderCDemo/service_manager.c:165-252 | what an add or a death does to the list, said without the code; do_add_service returns 0 exactly when it is to accept, and a refused add writes nothing |
| Registry.EventKeeps | Demos/BinderCDemo/service_manager.c:165-252 | names stay unique and 1 to 127 units long, old records stay as a suffix with flag and priority unchanged, and an accepted name is found with its handle |
| Registry.FindUnique | Demos/BinderCDemo/service_manager.c:152-163 | find_svc returns the one record with the name |
| Registry.FindIsLookup | Demos/BinderCDemo/service_manager.c:152-163 | find_svc equals lookup in the map from names to records |
| Registry.RunKeeps | Demos/BinderCDemo/service_manager.c:206-252 | over every run the representation invariant holds and every earlier list is a suffix but for handles |
| Registry.SurvivesEvent | Demos/BinderCDemo/service_manager.c:165-252 | an event that does not register a name changes its record only if it is a death with that record's cookie, and then only the handle |
| Registry.RecordHistory | Demos/BinderCDemo/service_manager.c:165-247 | over every run a record's flag and priority are those of its first accepted registration and its handle that of the last, or 0 exactly when a death with its cookie came later |
| Registry.NeverRegistered | Demos/BinderCDemo/service_manager.c:206-252 | a name no accepted registration named has no record |
| RegistryLaws.EventConserves | Demos/BinderCDemo/service_manager.c:165-252 | acquires less releases written by one event equal the change in the records holding the handle |
| RegistryLaws.Conservation | Demos/BinderCDemo/service_manager.c:165-252 | over every run, for every nonzero handle, acquires less releases equal the number of records holding it |
| RegistryLaws.HoldersAreLinked | Demos/BinderCDemo/service_manager.c:249-250 | every live record's cookie was linked to the handle it holds |
| RegistryLaws.StaleDeathClears | Demos/BinderCDemo/service_manager.c:222-250 | a run after which the death of an overridden handle, still referenced, clears a name that a live handle holds, by its first request alone as well as by all |
| RegistryLaws.SharesBitMeaning | Demos/BinderCDemo/service_manager.c:348 | the arithmetic form of the mask test is true exactly when some bit is set in both |
| RegistryLaws.MatchIdsExactly | Demos/BinderCDemo/service_manager.c:348 | the records listed are exactly those with a priority bit set that is set in the mask of the request |
| RegistryLaws.WalkIsNth | Demos/BinderCDemo/service_manager.c:344-353 | the walk, which tests masks arithmetically, stops at the n-th record that shares a set bit with the mask, newest first, or runs out |
| RegistryLaws.MatchIdsSound | Demos/BinderCDemo/service_manager.c:344-353 | the matching records are listed in reverse order of first registration, none twice |
| RegistryLaws.MatchIdsComplete | Demos/BinderCDemo/service_manager.c:344-353 | every record that shares a set bit with the mask is listed |
| RegistryLaws.GrownMatches | Demos/BinderCDemo/service_manager.c:344-353 | after any growth of the list the old matches are the tail of the new ones |
| RegistryLaws.EnumerationComplete | Demos/BinderCDemo/service_manager.c:335-359 | a client counting up while others register is told the end only after every record present at the start that shares a set bit with the mask was returned to it |
| RegistryLaws.EnumerationExact | Demos/BinderCDemo/service_manager.c:335-359 | with no registration in between it gets exactly the records that share a set bit with the mask, each once, newest first |
| Manager.SenderAsks | Demos/BinderCDemo/service_manager.c:309-340 | codes 1 and 2 look up, 3 adds, 4 lists, always for the caller made of sender_euid, sender_pid and the security context of the transaction |
| Manager.OnlySenderCounts | Demos/BinderCDemo/service_manager.c:254-367 | only the permission decisions about that caller count: two policies that agree on it give every message the same service |
| Manager.ManagerIsQuiet | Demos/BinderCDemo/service_manager.c:254-367 | neither the handler nor the death callback frees buffers or sends replies, which is what the ledger theorems ask of them |
| Manager.ListReply | Demos/BinderCDemo/binder4Server.c:289-294 | a list reply overflows exactly from 110 units on, and then carries the length word alone |
| ServiceManagerHeap.ServiceManager.FindSvc | Demos/BinderCDemo/service_manager.c:152-163 | the walk over the linked list computes lookup by name and returns the object of that record |
| ServiceManagerHeap.ServiceManager.SvcInfoDeath | Demos/BinderCDemo/service_manager.c:165-174 | in place, a live record is zeroed and its handle released, a dead one left alone |
| ServiceManagerHeap.ServiceManager.DoFindService | Demos/BinderCDemo/service_manager.c:182-204 | computes the lookup that FoundHandle characterises, isolation test included |
| ServiceManagerHeap.ServiceManager.Override | Demos/BinderCDemo/service_manager.c:222-229 | an existing record gives up its live handle and takes the new one; list and other records are untouched |
| ServiceManagerHeap.ServiceManager.NewSvc | Demos/BinderCDemo/service_manager.c:231-246 | a fresh record with a terminated copy of the name goes to the head, the old list behind it object for object |
| ServiceManagerHeap.ServiceManager.DoAddService | Demos/BinderCDemo/service_manager.c:206-252 | on the heap: status, records and commands are those of the registry's add, the list stays finite, acyclic and an extension of the old one |
| ServiceManagerHeap.ServiceManager.WalkList | Demos/BinderCDemo/service_manager.c:344-353 | the loop with its counter stops at the record of the walk that the enumeration theorems are about |
| ServiceManagerHeap.ServiceManager.CheckHeader | Demos/BinderCDemo/service_manager.c:282-293 | reads two words and a name from the message and accepts as the value function does |
| ServiceManagerHeap.ServiceManager.Handler | Demos/BinderCDemo/service_manager.c:254-367 | svcmgr_handler over heap, message and reply buffers computes status, records, commands and reply of the handler on values |
| ServiceManagerHeap.ServiceManager.ServeTransaction | Demos/BinderCDemo/binder4Server.c:288-302 | what the parser does with a transaction, on objects: both binder_io are made, the handler runs on them, and the commands it and the parser write are those of the fold |
| Clients.PutsInOrder | Demos/BinderCDemo/binder_server.c:24-31 | the puts of a client, one after the other, are the list of puts that the round trip and the overflow law are applied to |
| Clients.HeaderWords | Demos/BinderCDemo/binder_server.c:24-27 | every request starts with two words of 0 |
| Clients.Publish | Demos/BinderCDemo/binder_server.c:18-42 | an overflowed message returns -1 with no driver involved; otherwise exactly the published request is offered once, and the result is the status in the reply, whose buffer is then freed, or -1 |
| Clients.Lookup | Demos/BinderCDemo/binder_client.c:21-47 | likewise for a lookup: the handle in the reply is acquired before the reply's buffer is freed, and a failed call returns 0 |
| Clients.RequestNeeds | Demos/BinderCDemo/binder_server.c:24-31 | the exact space and objects a publish and a lookup ask for, for every name argument, null and over-long ones included |
| Clients.RequestFits | Demos/BinderCDemo/binder4Server.c:626-653 | for every name argument and any stack garbage a publish overflows exactly from 188 to 2^29 - 1 characters, a lookup from 204; a null pointer and longer strings fit as a marker |
| WireProtocol.HeaderExact | Demos/BinderCDemo/service_manager.c:282-293 | for any received bytes the header check passes exactly when the third word is 26, the characters android.os.IServiceManager follow unit for unit, and the bytes of the terminator and padding are there |
| WireProtocol.InterfaceChecked | Demos/BinderCDemo/service_manager.c:282-293 | a request put with any interface passes the check exactly when it names the manager's, and with any other has no effect and an error status |
| WireProtocol.AddDecoded | Demos/BinderCDemo/service_manager.c:322-329 | name, handle, isolation flag and priority of any add request that fits are decoded as encoded, the handle as the driver delivered it; no request is decoded when the name is too long to be stored |
| WireProtocol.PublishDecoded | Demos/BinderCDemo/binder_server.c:24-31 | every publish that is sent is decoded as the exact name, the object's handle, no isolated callers, priority 0, or as no request when the name is too long to be stored |
| WireProtocol.LookupDecoded | Demos/BinderCDemo/binder_client.c:27-31 | every lookup that is sent is decoded as the exact name, or as none when it is too long to be stored |
| WireProtocol.NoTableNoHandle | Demos/BinderCDemo/binder4Server.c:688-716 | a reply with an empty table is never decoded as a handle, whatever its bytes |
| WireProtocol.ZeroReply | Demos/BinderCDemo/service_manager.c:365-366 | the plain reply is status 0 to a publisher and no handle to a client |
| WireProtocol.StatusReply | Demos/BinderCDemo/binder4Server.c:215-220 | a status reply is -1 to a publisher and no handle to a client |
| WireProtocol.RefReply | Demos/BinderCDemo/service_manager.c:315-320 | the reply to a successful lookup lists one reference to the handle found, and the client reads it as the driver delivered it |
| WireProtocol.ListRead | Demos/BinderCDemo/service_manager.c:336-337 | position and mask of a list request are decoded as encoded |
| WireProtocol.ListServed | Demos/BinderCDemo/service_manager.c:335-359 | a delivered list request is answered with the name where its walk stops, or with an error when the caller may not list or the walk runs out |
| WireProtocol.ListDecoded | Demos/BinderCDemo/service_manager.c:354-357 | the client decodes the name up to its first NUL exactly when that has at most 109 units, and no string otherwise |
| Driver.HandleIsDelivered | Demos/BinderCDemo/binder4Server.c:688-716 | a nonzero reference read anywhere in a delivered message is one of the objects the driver put there |
| System.OverrideRuns | Demos/BinderCDemo/service_manager.c:222-250 | the commands of an override all find their handles and never drop the new one, even when old and new are the same handle |
| System.RegistrationRuns | Demos/BinderCDemo/service_manager.c:222-250 | handle pinning: during any registration every command succeeds and the handle registered keeps its meaning and a reference at every point; the counts balance again afterwards |
| System.ServiceRuns | Demos/BinderCDemo/binder4Server.c:293-301 | handler, release of the buffer and reply all succeed on the driver, whatever other buffers are outstanding, and leave references equal to records and waiting messages |
| System.RequestedIsPinned | Demos/BinderCDemo/service_manager.c:322-331 | a decoded registration names 0 or a handle that its own message pins and that still means an object of another process |
| System.ServeWrites | Demos/BinderCDemo/binder4Server.c:293-301 | a service writes the handler's commands, which only take and give references and ask for deaths, then the release of the request's buffer, and last, exactly when bit 0 of the transaction's flags is clear, one reply |
| System.ParserServes | Demos/BinderCDemo/binder4Server.c:264-304 | the parser, meeting the transaction, makes exactly the step the system theorems are about |
| System.ParserNotifies | Demos/BinderCDemo/binder4Server.c:323-329 | likewise for a death notification |
| System.RequestSafe | Demos/BinderCDemo/service_manager.c:254-367 | in every reachable state, with any number of delivered requests waiting, any bytes with any objects are served without a command that names a reference or buffer the manager has not got, and the system invariant holds again |
| System.ReceiveSafe | Demos/BinderCDemo/service_manager.c:322-327 | a further delivery keeps the invariant: waiting messages keep the meaning of their handles, for they pin them |
| System.DeathSafe | Demos/BinderCDemo/service_manager.c:165-174 | likewise for a death notification with the cookie of any record |
| System.EveryRunIsSafe | Demos/BinderCDemo/service_manager.c:165-367 | over every run of deliveries, services and deaths from the start, under either kind of driver, the manager's references are exactly its records and waiting messages, its outstanding buffers exactly those that wait, and every live record denotes the object it was last registered for |
| System.LiveIsLastRegistered | Demos/BinderCDemo/service_manager.c:165-252 | in every reachable state a name stands for the object of its last accepted registration, or for none exactly when a death with its record's cookie came later |
| System.NeverLive | Demos/BinderCDemo/service_manager.c:152-163 | a name never accepted stands for nothing |
| ServerRuns.TasksRun | Demos/BinderCDemo/binder4Server.c:264-329 | the transactions and notices of one round, performed by the parser with the manager's handler, are the run of their steps, with its registry and its commands |
| ServerRuns.LoopIsRun | Demos/BinderCDemo/binder4Server.c:447-484 | binder_loop over any script whose transactions are waiting requests and whose notices are deaths, requests arriving between the rounds, whatever the policy and the allocator answer each time, ends with the registry of the system's run and has written exactly the commands the driver executed in it |
| Deaths.CallbacksStep | Demos/BinderCDemo/service_manager.c:249-250 | one step of the system: an object the manager still has a handle for keeps the death requests held and gains the one of the step's registration; an object it has lost the handle of has none |
| Deaths.CallbacksArePending | Demos/BinderCDemo/service_manager.c:222-250 | over every run the requests held for an object are those of the registrations for it since the manager last had no handle for it, all or the first |
| Deaths.PendingMeans | Demos/BinderCDemo/service_manager.c:222-250 | these are exactly the records registered for the object at a step after which the manager always had a handle for it |
| Deaths.AlwaysCovered | Demos/BinderCDemo/service_manager.c:249-250 | in every reachable state every live record's object has a request held for it, the record's own if the driver holds all |
| Deaths.ObjectDeath | Demos/BinderCDemo/service_manager.c:165-174 | the death of an object clears exactly the names whose records a request is held for; all its names if the driver holds all requests, one at most if it holds one; and just its names if and only if the live records with a request held are just its own |
| Deaths.ClearedByHistory | Demos/BinderCDemo/service_manager.c:165-174 | over every run a live name is cleared by the death of an object exactly when its record was registered for the object and the manager has had a handle for it ever since, and first if the driver holds one request |
| EndToEnd.DriverTakesPublish | Demos/BinderCDemo/binder_server.c:29-33 | the driver takes a publish that was sent exactly when its buffer is free and the object is the manager's own, has a handle there, or a free handle is picked |
| EndToEnd.PublishArrives | Demos/BinderCDemo/binder_server.c:24-33 | a publish becomes the registration, for its sender as the driver stamped it, of exactly its name for a handle that denotes exactly its object, 0 only for the manager's own |
| EndToEnd.PublishEndToEnd | Demos/BinderCDemo/binder_server.c:18-42 | for every name whose message is sent the one reply the service writes is decoded as 0 exactly when the manager is to accept, and -1 otherwise, always so for a sender with an euid of 10000 or more modulo 100000; then the name stands for the object published, and no other name changes |
| EndToEnd.NamelessPublish | Demos/BinderCDemo/binder4Server.c:632-642 | a publish of a null pointer or of 2^29 characters and more fits, is served without any effect, and the client decodes -1 from the reply written |
| EndToEnd.FoundHandle | Demos/BinderCDemo/service_manager.c:182-204 | do_find_service returns a handle exactly for a live name the sender may find (policy, and isolation rule on its euid), and it denotes the object registered |
| EndToEnd.LookupServed | Demos/BinderCDemo/service_manager.c:309-320 | a lookup leaves the registry alone, and the reply command written is a reference to the handle found, or the plain reply |
| EndToEnd.NamelessLookup | Demos/BinderCDemo/binder4Server.c:632-642 | a lookup of a null pointer or of 2^29 characters and more fits, the reply written is an error status, and it yields no handle |
| EndToEnd.ClientTakes | Demos/BinderCDemo/binder_client.c:38-44 | handle pinning in the client: acquiring before freeing, the handle is never without a reference and ends with exactly one more, every other count as before |
| EndToEnd.LookupReturns | Demos/BinderCDemo/binder_client.c:38-46 | what the client returns for the handle the manager found, over any reply delivery |
| EndToEnd.LookupEndToEnd | Demos/BinderCDemo/binder_client.c:21-47 | a lookup returns nonzero exactly for a live name that its sender may find, by policy and by the isolation rule on its euid, and does not own; the result denotes, in the client's own table, the object last published, held by one reference of its own |
| EndToEnd.HistoryGrows | Demos/BinderCDemo/service_manager.c:254-367 | over every run the history of registrations is only added to |
| EndToEnd.PublishHolds | Demos/BinderCDemo/binder_server.c:18-42 | an accepted publish holds through any later run that neither registers the name again nor announces its record's death |
| EndToEnd.PublishThenLookup | Demos/BinderCDemo/binder_client.c:21-47 | publish, any such run, lookup: every other client that may find the name gets, in the reply the service writes, a handle of the very object published |
| EndToEnd.LaidOut | Demos/BinderCDemo/binder4Server.c:486-493 | data and table laid out in the mapped area where the transaction says make exactly the delivered message of the end-to-end theorems |
| Sessions.BroughtReply | Demos/BinderCDemo/binder4Server.c:305-321 | a call whose last round brings a reply returns the delivered form of that reply |
| Sessions.PublishAgainst | Demos/BinderCDemo/binder_server.c:18-42 | svcmgr_publish over its driver and against the manager: -1 by itself for a message that is not sent; otherwise, when the manager serves the very transaction offered and its reply ends the call, 0 exactly when the manager accepts and -1 if not |
| Sessions.LookupAgainst | Demos/BinderCDemo/binder_client.c:21-47 | svcmgr_lookup likewise: it returns a handle exactly for a live name it may find and does not own, denoting the object published, and its commands leave it exactly one reference more |
| Sessions.EverythingIsListed | Demos/BinderCDemo/service_manager.c:335-359 | whatever happens to the manager between the queries, a client that counts up is told the end only after it has read the name of every record present at its first query that shares a set bit with its mask, for every NUL-free name of at most 109 units |
| Sessions.ListedExactly | Demos/BinderCDemo/service_manager.c:335-359 | with no new record between the queries, whatever deaths and overrides happen, such a client gets exactly the records that share a set bit with its mask, each once, newest first, and reads each name that can be read |
| Progress.PublishServed | Demos/BinderCDemo/binder_server.c:24-36 | in every reachable state a publish whose message is sent is delivered, with a free buffer and handle to give, and can be served whatever else waits |
| Progress.LookupTaken | Demos/BinderCDemo/binder_client.c:27-36 | likewise for a lookup |
| Progress.ReplyTaken | Demos/BinderCDemo/service_manager.c:319-320 | the reference in a lookup's reply reaches every client with a free buffer and a free handle |
| Progress.PublishedIsFound | Demos/BinderCDemo/binder_client.c:21-47 | in every reachable state with room for a record, a permitted publish of any name of 1 to 127 characters and a permitted lookup after it, from another process, do get through, and the lookup returns a handle of the object published |

## Left out

- System.EveryRunIsSafe: runs are finite lists of steps and each service is one step, as the single-threaded loop does; the service manager starts from an empty registry.
- Deaths.ObjectDeath: the callbacks of one object's death are delivered one after the other, all those held when it dies; notifications in any other order or number are covered by the run theorems, which take any death notification at any time.
- Sessions.EverythingIsListed: names of 110 units and more, and names with a NUL, are not read by any client, as reported above.
- BinderLib.Binder.Loop: an endless run is every finite script of rounds it may have gone through, and a call the driver never answers is a run whose script ends first.
- BinderLib.Binder.Serve: commands of a handler given as a function are recorded as values; `ServiceManagerHeap.ServiceManager.ServeTransaction` is the same step with the service manager's handler on objects and bytes. The parser's loop itself runs with handlers given as functions.
- BinderIo.Bio.Init: a writer whose bio_init failed, or whose table size wrapped around, is not used further; no caller in the repository makes one.
- The driver: modelled by what it delivers (whole well-formed commands, objects rewritten at listed offsets, aligned offsets in order, one handle per object and process, freely picked free handles), by its reference counts and by the death requests it holds, all of a handle's or one per handle; scheduling, threads and memory limits are not modelled. The results of binder_write are ignored, as the code ignores them.
- The mapped area: one array per process, refreshed by each round; addresses are indices into it.
- Memory layout: the 64-bit one; where size_t and binder_size_t differ, the code's own table arithmetic differs.
- Constants of linux/android/binder.h, android_filesystem_config.h and the multiuser helpers: not part of the repository; the values used are those of these headers. The "binder.h" that service_manager.c includes is not in the repository either; binder4Server.h is taken for it.
- SELinux, allocation and logging: every permission decision is an arbitrary function of name and caller (the uid tests are modelled), malloc may fail at any call; audit, label refresh, hexdump and dumps are left out.
- Death callbacks: called with a cookie, as the code stores the same record behind function and pointer; a record's address is its number in order of creation. A notice with a cookie of no record, a wild pointer in the code, does nothing in the model; no driver sends one, for it returns cookies it was given (`Deaths.CallbacksArePending`).
- Null strings and zero handles in a round trip: the writer's side is modelled, but a reader stops at them by design, so they are outside the readable sequences; what null names do to the registry protocol is modelled.
- Weak references, file descriptors and cookies of objects: the code never writes them.
- Ping, foreign targets and unknown codes: modelled (`Manager.PingAnswered`), but too direct to be listed as results.
- binder4Client.c: the same library as binder4Server.c but for logging and a stray word at line 125 that does not compile; modelled once.
- binder_open, binder_close, mmap, becoming the context manager, thread limits and main functions: operating-system set-up.
- hello_service_handler, test_server_handler, sayhello, str8 and str16eq: counters, casts and log helpers.
- BinderCppDemo, HelloDriver, HelloModule, AndroidRunCpp, notes and build files: other programs and text.
