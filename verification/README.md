# Verified models of the core of Icinga 2

These Dafny modules model the self-contained state machines, buffers and codecs of `lib/base`
(and one stream filter of a check plugin) and prove what they are for. Every module stands for
one source file. Where the source updates objects step by step, a class or a method with loops
does the same and is proved against a specification function; theorems about that function, or
about all runs of a state machine, follow.

| module | what it models |
|---|---|
| `CpuSlots` | the slots for CPU-bound work: a lock-free semaphore, a mutex-protected list of subscribers and posted wake-ups, as interleaved steps of any number of coroutines |
| `NamespaceFreeze` | a namespace with an object lock, a shared data lock and a one-way frozen flag that lets readers skip the locks, as interleaved steps of any number of threads |
| `Timer` | the timer scheduler: an index ordered by a mutable field, the dispatcher, callbacks in a thread pool, and the lifetime of timers |
| `JsonGrammar`, `JsonEncoder`, `JsonSax`, `JsonDecoder` | the token grammar of sections 2 to 5 of RFC 8259, the recursive printer, the SAX stack machine on values, and the same machine building an aliased tree on the heap |
| `Serializer`, `Deserializer` | the depth-first serializer over an arbitrary object graph with its path stack, and the deserializer |
| `ObjectPacker` | the binary format for consistent hashing, with an exact unpacker as its inverse |
| `ConfigObject`, `AttributeTree` | modifying an attribute by its dotted name and undoing that; the clone and the in-place write of a modification on heap dictionaries |
| `RingBuffer` | the ring of per-tick counters against the history of events |
| `StreamBuffer`, `NetString` | the read buffer of streams, the buffered and the strict netstring reader, and the writer |
| `ReasonInjector` | the filter that inserts a reason phrase into an HTTP status line, in place |
| `Fifo` | the byte queue over one reallocated buffer |
| `LoadOrder` | the depth-first search that orders types by their load dependencies |
| `Keys`, `Values`, `Decimals`, `Sequences`, `Wrappers` | the order of dictionary keys, the values all components exchange, decimal numerals, facts about sequences, optional values |

Characters stand for bytes. A number is known by its 64 bits. Dictionaries are maps; wherever the
source iterates one, the model goes through the keys in the order of `std::map`.

Assumptions that are part of the models: every step of the concurrent models is atomic and
sequentially consistent; a wake-up posted to a strand runs only after the coroutine on that strand
has suspended; the compare-and-swap may fail for no reason; the clock of the timers does not show
negative times; no timer is started while stopping the last one waits for the dispatcher thread; a
read that fails has delivered nothing.

## What turned out not to hold

* With an empty mask everything is serialized but nothing is restored (`EmptyMaskRestoresNothing`).
* Plain data with a "type" key does not come back from deserializing outside safe mode
  (`DataIdentity`, `InstanceRoundTrip`).
* An empty dictionary replaced by a scalar leaves no undo entry and is not restored, keys that a
  dictionary adds stay as empty entries, and entries whose keys contain dots do not come back
  (`UndoOfDictionary`, `UndoOfDictionaryIsExact`, `RewrittenDottedKey`); an attribute that did not
  exist holds an empty value after the restore and can no longer be written below
  (`UndoLeavesEmptyEntry`).
* A dictionary written to a place that held none, and replaced there, leaves undo entries below the
  place, so that restoring the place gives it the dictionary (`UndoOfPlace`,
  `PlaceBecomesDictionary`).
* Restoring a field that was never modified empties it once another field has been modified
  (`RestoredField`, `RestoreEmptiesField`).
* Restoring a field leaves the undo entries below it behind, and restoring one of those later puts
  a value of the replaced dictionary into the original one (`UndoOfField`,
  `RestoredFieldKeepsEntries`).
* What has been replaced by a value that holds an object that cannot be cloned cannot be restored by
  a dotted name (`UndoOfScalar`, `UndoOfDictionaryIsExact`, `UndoLeavesEmptyEntry`).
* Once stopping the last timer has ended the dispatcher, `Stop(true)` returns at once even while the
  callback of its timer is in flight (`StopReturnsIdle`, `StopDoesNotWait`).
* A one-shot timer that is rescheduled from its own callback is not queued when the callback
  completes (`RescheduleInCallback`).
* A ring buffer asked, or inserted into, a whole round or more after the last event counts old
  slots again (`QueryIsExact`, `LateEventKeepsSlots`).
* The limit of the buffered netstring reader counts the comma, that of the strict one does not, and
  the buffered reader accepts other characters after the digits (`ReadersAgree`).

## Model

| member | source | states |
|---|---|---|
| CpuSlots.InvStep | lib/base/io-engine.cpp:30-131 | every step of every coroutine keeps the invariants: one holder of the mutex, conservation of slots, one wake-up token per subscriber, no waiter while a slot is free and no wake-up pending |
| CpuSlots.SlotConservation | lib/base/io-engine.cpp:76-110 | in every reachable state the free slots and the slots held add up to the capacity |
| CpuSlots.ReleasedOnce | lib/base/io-engine.cpp:100-110 | however often Done and the destructor run, a slot taken is given back at most once, and a coroutine keeps at most one |
| CpuSlots.UniqueToken | lib/base/io-engine.cpp:59-62 | a subscribed coroutine has exactly one wake-up token among the waiting list, the subscribers some Done has taken, and the posted notifications; any other has none |
| CpuSlots.WaitersMeanBusy | lib/base/io-engine.cpp:46-59 | while somebody is on the waiting list or about to get on it, no slot is free or a Done that turned 0 into 1 has not taken the list yet |
| CpuSlots.NoLostWakeup | lib/base/io-engine.cpp:107-128 | a suspended coroutine has its wake-up on the way, or a Done is about to take the list, or no slot is free |
| CpuSlots.DeadlockFree | lib/base/io-engine.cpp:30-64 | as long as any coroutine has work, some coroutine can take a step that gets on with it |
| CpuSlots.StepLeavesLess | lib/base/io-engine.cpp:38-131 | every step that gets on with work at hand lowers a lexicographic measure, retries and re-subscriptions included |
| CpuSlots.NoInfiniteRun | lib/base/io-engine.cpp:38-131 | there is no infinite run of steps that only get on with work at hand |
| CpuSlots.EveryoneServed | lib/base/io-engine.cpp:30-131 | whatever the schedule, when no such step is left every coroutine that wanted a slot has had exactly one more and has given it back, and all slots are free |
| CpuSlots.FinishingRun | lib/base/io-engine.cpp:30-131 | from every state some run ends with nothing left to do |
| NamespaceFreeze.InvStep | lib/base/namespace.cpp:34-151 | every interleaved step keeps the invariant that ties the locks, the frozen flag and what each thread is doing together |
| NamespaceFreeze.RaceFree | lib/base/namespace.cpp:36-68 | while a thread writes the data, no other thread reads them (locked or not), iterates over them or writes them |
| NamespaceFreeze.DataStep | lib/base/namespace.cpp:48-111 | a step changes the data only by a write that no other thread can observe half done, never after the freeze, and exactly as Set or Remove prescribes |
| NamespaceFreeze.WriteStep | lib/base/namespace.cpp:48-111 | at the step at which a write is in the data, a constant is left alone and the write refused; any other key gets the value, and is a constant from then on exactly if it was not there and either flag asks for it, or it is removed; no other key is affected |
| NamespaceFreeze.ReadStep | lib/base/namespace.cpp:34-46 | a Get answers the value that is in the data at its step, or that there is none |
| NamespaceFreeze.LastWriteHolds | lib/base/namespace.cpp:48-111 | over any run a key holds what the last completed write put there, or what it held before |
| NamespaceFreeze.GetAnswers | lib/base/namespace.cpp:34-68 | however the threads are scheduled, a Get finds the value of the last completed write to its key, and nothing exactly if there was none or it removed the key |
| NamespaceFreeze.FrozenRefuses | lib/base/namespace.cpp:52-54 | a write that begins once the namespace is frozen is refused as read-only |
| NamespaceFreeze.FrozenExactly | lib/base/namespace.cpp:119-123 | over any run from the beginning the namespace is frozen exactly if some thread has carried out a Freeze |
| NamespaceFreeze.OperationEnds | lib/base/namespace.cpp:34-151 | however the threads are scheduled, an operation that has ended took effect at one step of its own: a Get answers what was in the data then, a write was completed then, or is refused because the namespace is frozen or the key a constant, a Freeze has frozen the namespace, and an iteration has begun, without the lock only if it is frozen |
| NamespaceFreeze.Snapshot | lib/base/namespace.cpp:136-151 | over any run, what a thread reads or iterates over stays as it is until it has finished, unless it writes itself |
| NamespaceFreeze.FrozenForever | lib/base/namespace.cpp:119-123 | over any run, a frozen namespace stays frozen and keeps its contents |
| NamespaceFreeze.ConstantForever | lib/base/namespace.cpp:60-68 | over any run, a constant entry keeps its value |
| NamespaceFreeze.ConstNamespaceOnlyGrows | lib/base/namespace.cpp:22-24 | in a namespace created for constants, nothing once inserted ever changes or disappears |
| NamespaceFreeze.DeadlockFree | lib/base/namespace.cpp:48-151 | the two locks cannot deadlock: while an operation is in progress, some thread can go on |
| NamespaceFreeze.BoundedRun | lib/base/namespace.cpp:34-151 | what has begun is over after boundedly many steps, however the threads are scheduled |
| NamespaceFreeze.EveryOperationEnds | lib/base/namespace.cpp:34-151 | a run that cannot be prolonged without new work has ended every operation |
| Timer.UpperBoundSplits | lib/base/timer.cpp:49-55 | the insertion point of the index has all due times not greater before it and all greater ones after it |
| Timer.InsertKeepsOrder | lib/base/timer.cpp:237 | inserting keeps the index ordered, free of repetitions, and adds exactly the timer |
| Timer.RemoveKeepsOrder | lib/base/timer.cpp:236 | erasing keeps the index ordered and takes out exactly the timer |
| Timer.RescheduledKeeps | lib/base/timer.cpp:219-242 | rescheduling keeps the index ordered by the current due times although it changes the key before taking the timer out; the due time becomes the one asked for, or for a periodic timer its interval from now, and stays otherwise; the timer is queued exactly if it is started, not running and has a due time |
| Timer.StartedKeeps | lib/base/timer.cpp:163-174 | a started timer is queued exactly if it is not running, due after its interval or, without one, when it was before; the count of started timers stays right |
| Timer.StoppedKeeps | lib/base/timer.cpp:179-194 | a stopped timer is out of the index, no other timer changes, and the count of started timers stays right |
| Timer.DispatchedKeeps | lib/base/timer.cpp:318-346 | dispatching takes the front timer out and marks it running unless nobody owns it any more |
| Timer.InvStep | lib/base/timer.cpp:125-355 | every interleaved step, the end of the dispatcher with the last started timer included, keeps the queue in order, the single flight of every timer and the count of started timers |
| Timer.SingleFlight | lib/base/timer.cpp:335-346 | in every reachable state a timer has one callback queued or executing if it is running and none otherwise; a timer in the index is started, not running and not destroyed |
| Timer.DispatchTakesEarliest | lib/base/timer.cpp:318-337 | the dispatcher takes a timer exactly if it has not been told to stop and some queued timer is due, and takes one of least due time, at most 0.01 s early |
| Timer.StopReturnsIdle | lib/base/timer.cpp:196-198 | when Stop(true) returns, at once or after waiting, no callback of the timer is queued or executing, except exactly if it was called after the dispatcher had been told to stop while a callback was in flight |
| Timer.StopDoesNotWait | lib/base/timer.cpp:181-182 | two timers are enough for Stop(true) to return while a callback executes: every reachable step of the history is given |
| Timer.NoneStarted | lib/base/timer.cpp:107-119 | once the dispatcher has been told to stop, no timer is started but the one whose Stop waits for it to end |
| Timer.DestructorNeverWaits | lib/base/timer.cpp:78-81 | once the last shared pointer is gone the destructor never waits for a callback, only, for the last started timer, for the dispatcher to hand over what it holds |
| Timer.StopStops | lib/base/timer.cpp:179-198 | Stop does nothing once the dispatcher has been told to stop; if no other timer is started it tells the dispatcher to stop and waits for that; otherwise the timer is no longer started or queued, and the caller waits exactly if it asked to while the callback runs |
| Timer.JoinedStops | lib/base/timer.cpp:107-120 | when the dispatcher has ended, the Stop that waited for that goes on: the timer is no longer started or queued, destroyed if its destructor stopped it, and the caller waits exactly if it asked to while the callback runs |
| Timer.StoppingExactly | lib/base/timer.cpp:101-110 | over any run, the dispatcher has been told to stop exactly if the only started timer was stopped and none has been started since |
| Timer.EveryoneGetsOn | lib/base/timer.cpp:125-136 | in every reachable state, what the dispatcher holds can be queued, a queued callback can begin and one that executes can complete, and whoever waits in Stop for something that is over can go on |
| Timer.CallbacksConserved | lib/base/timer.cpp:125-136 | over any run, every dispatched callback completes exactly once or is still in flight |
| Timer.QuietAfterStop | lib/base/timer.cpp:190-191 | over any run, a stopped timer is not dispatched before the next Start, and what is in flight can only complete |
| Timer.OneShotFiresOncePerRequest | lib/base/timer.cpp:224-227 | over any run, a timer without an interval is dispatched at most once per Start or Reschedule |
| Timer.PeriodicNeverLost | lib/base/timer.cpp:229-237 | over any run, a started timer that keeps a positive interval is always queued or running |
| Timer.NotBeforeDue | lib/base/timer.cpp:318-337 | over any run, until its due time is set again a timer is not dispatched more than 0.01 s before it |
| Timer.PeriodicNotEarly | lib/base/timer.cpp:163-234 | over any run, a periodic timer is not dispatched more than 0.01 s before its interval has passed since it was last started or its callback last completed, unless it was rescheduled |
| Timer.RescheduledNotEarly | lib/base/timer.cpp:203-234 | over any run, a timer rescheduled to a given time is not dispatched more than 0.01 s before it, unless it was started or rescheduled again or its callback completed |
| Timer.RescheduleInCallback | lib/base/timer.cpp:224-234 | after a reschedule during the callback and its completion, the timer is queued exactly if it is started and periodic, and for a periodic one the due time asked for is lost |
| Timer.DestroyedForever | lib/base/timer.cpp:339-344 | over any run, a destroyed timer is never in the index, in flight or waited for |
| Timer.Scheduler.InternalRescheduleUnlocked | lib/base/timer.cpp:219-242 | on the timer objects: clears the running flag only on completion, sets the due time to the one asked for or, for a periodic timer, to its interval from now, leaves it alone if there is neither, and otherwise moves the timer in the index exactly if it is started and not running |
| Timer.Scheduler.Start | lib/base/timer.cpp:163-174 | marks the timer started, counts it once, starts the dispatcher with the first, and makes the timer due after its interval or, without one, when it was before; no other timer is touched |
| Timer.Scheduler.Stop | lib/base/timer.cpp:179-196 | returns at once when the dispatcher has been told to stop; uncounts the timer once, and for the last one tells the dispatcher to stop and has the caller wait for it; otherwise finishes at once |
| Timer.Scheduler.FinishStop | lib/base/timer.cpp:190-197 | marks the timer stopped, takes it out of the index, and has the caller wait exactly if asked to while a callback runs |
| Timer.Scheduler.TakeDue | lib/base/timer.cpp:318-346 | one pass of the dispatcher takes the front timer exactly if it is due and the dispatcher has not been told to stop |
| Timer.Scheduler.SetInterval | lib/base/timer.cpp:143-147 | changes the interval of one timer and nothing else |
| Keys.LeAt | lib/base/string.cpp:121-124 | the order of keys is decided at the first position at which they differ; a key that ends there comes first |
| JsonGrammar.Unambiguous | lib/base/json.cpp:51-178 | no text is the beginning of two different documents: token lists of documents followed by anything are equal only if documents and rests are |
| JsonEncoder.EncodedTokens | lib/base/json.cpp:103-178 | in either layout the encoder writes, white space aside, exactly the tokens of the document of its value |
| JsonEncoder.CompactTokens | lib/base/json.cpp:103-178 | compact output is exactly the tokens of the document, without any white space |
| JsonEncoder.PrettyLayout | lib/base/json.cpp:245-292 | pretty output puts every element and member on a line of its own, indented by four spaces per level, writes a space only after a colon, keeps empty containers on one line, and ends with a line break |
| JsonEncoder.Encoder.constructor | lib/base/json.hpp:101 | the buffer of spaces starts with exactly two spaces, since the braces list its characters; the comment above the line says eight levels |
| JsonEncoder.GrowEnough | lib/base/json.cpp:245-252 | two spaces are the least to start with: doubling the buffer once per level keeps up with the indentation at every depth exactly from two on |
| JsonEncoder.Encoder.BeginContainer | lib/base/json.cpp:245-254 | doubles the buffer of spaces exactly if it is shorter than the new indentation, and it is then at least as long |
| JsonEncoder.Encoder.EndContainer | lib/base/json.cpp:263-274 | returns to the outer indentation and writes the line break exactly if the container is not empty |
| JsonEncoder.Encoder.WriteSeparatorAndIndentStrIfNeeded | lib/base/json.cpp:283-292 | writes the comma and the indentation the layout asks for |
| JsonEncoder.Encoder.EncodeArray | lib/base/json.cpp:103-119 | appends the encoding of the array, comma by comma, and restores the indentation |
| JsonEncoder.Encoder.EncodeObject | lib/base/json.cpp:155-178 | appends the encoding of the dictionary in key order and restores the indentation |
| JsonEncoder.Encoder.Encode | lib/base/json.cpp:51-94 | appends the encoding of any value, which is never written with a buffer of spaces that is too short |
| JsonEncoder.JsonEncode | lib/base/json.cpp:379-383 | writes one document, the one of the value |
| JsonSax.ReportedDocument | lib/base/json.cpp:409-520 | the events reported for the tokens of a text, one by one and with names told from strings by the colon, are those of its document |
| JsonSax.RunDocument | lib/base/json.cpp:464-536 | wherever the machine stands, a document adds its value there, or is refused exactly if it nests deeper than the levels that are left |
| JsonSax.LastMemberCounts | lib/base/json.cpp:523-536 | of several members of an object with the same name the last one counts |
| JsonSax.DecodeDocument | lib/base/json.cpp:397-406 | for every document the machine ends with its value and an empty stack exactly if the nesting does not exceed the limit |
| JsonSax.DecodeEncode | lib/base/json.cpp:397-536 | fed with the events reported for the encoder's output, in either layout, the machine ends with the value, other objects as their texts, and an empty stack exactly if it nests within the limit, and is refused for its depth otherwise; the value is represented by itself exactly if all objects inside are arrays and dictionaries |
| JsonSax.RepresentedSame | lib/base/json.cpp:79-82 | a value is represented by itself exactly if it holds no objects but arrays and dictionaries |
| JsonDecoder.Decoder.FillCurrentTarget | lib/base/json.cpp:523-536 | stores as the root, under the current key or at the end of the current array, and touches nothing else |
| JsonDecoder.Decoder.OnScalar | lib/base/json.cpp:409-462 | keeps the heap in step with the machine: every stack node is the current child of the node below it |
| JsonDecoder.Decoder.OnKey | lib/base/json.cpp:476-481 | only the current key of the top node changes, and the heap stays in step with the machine |
| JsonDecoder.Decoder.OnStart | lib/base/json.cpp:465-500 | attaches the new container before checking the depth, and refuses it exactly at the limit |
| JsonDecoder.Decoder.OnEnd | lib/base/json.cpp:484-508 | keeps the heap in step with the machine when a container is complete |
| JsonDecoder.FinishedDenotes | lib/base/json.cpp:517-520 | with an empty stack the containers on the heap spell out the machine's value |
| JsonDecoder.JsonDecode | lib/base/json.cpp:397-406 | succeeds exactly if the document does not nest deeper than the limit, and then the tree on the heap is its value |
| Serializer.CycleDetection | lib/base/serializer.cpp:41-66 | an error is raised if and only if a cycle can be reached along the selected attributes, with or without a dry run, and its path leads around a cycle |
| Serializer.ChildrenAre | lib/base/serializer.cpp:71-191 | the names in the path of an error are the positions of elements, the keys of entries and the names of selected fields |
| Serializer.DryRunItem | lib/base/serializer.cpp:270-299 | the dry run fails exactly when the real run does, with the same path |
| Serializer.PushLeavesLess | lib/base/serializer.cpp:41-61 | pushing an object leaves fewer objects that are not on the stack, which is why serializing any finite graph ends |
| Serializer.DoneMeansUnfolds | lib/base/serializer.cpp:71-191 | what is returned is the unfolding of the graph |
| Serializer.UnfoldsUnique | lib/base/serializer.cpp:71-191 | a graph unfolds to at most one tree |
| Serializer.UnfoldsMeansAcyclic | lib/base/serializer.cpp:71-191 | a graph that unfolds to a finite tree has no reachable cycle, however much it shares |
| Serializer.SerializeExact | lib/base/serializer.cpp:301-305 | serializing succeeds with a tree exactly if the graph unfolds to that tree |
| Serializer.SerializeStack.Push | lib/base/serializer.cpp:41-61 | refuses an object that is on the stack, with the path to it, and otherwise pushes |
| Serializer.SerializeArray | lib/base/serializer.cpp:71-97 | serializes the elements in order and leaves the stack as it was |
| Serializer.SerializeEntries | lib/base/serializer.cpp:99-148 | serializes the entries of a dictionary or namespace in key order and leaves the stack as it was |
| Serializer.SerializeObject | lib/base/serializer.cpp:150-191 | serializes the selected fields and the name of the type, and leaves the stack as it was |
| Serializer.SerializeInternal | lib/base/serializer.cpp:270-293 | serializes any value, real or dry |
| Serializer.AssertNoCircularReferences | lib/base/serializer.cpp:295-299 | fails exactly if a cycle can be reached along configuration attributes |
| Serializer.Serialize | lib/base/serializer.cpp:301-305 | returns the unfolding of the graph, or an attribute path around a cycle exactly if there is one |
| Deserializer.DataIdentity | lib/base/serializer.cpp:307-332 | deserializing data is the identity exactly in safe mode or if no dictionary in it has a "type" key |
| Deserializer.BuildsInstance | lib/base/serializer.cpp:312-332 | outside safe mode a dictionary with a "type" key becomes an instance of the type it names, and nothing if that is not registered |
| Deserializer.SetFieldsEffect | lib/base/serializer.cpp:245-265 | exactly the fields of the input whose attributes meet the mask change, each to its own value or, if that is refused, to nothing |
| Deserializer.EmptyMaskRestoresNothing | lib/base/serializer.cpp:257-258 | an empty mask selects every field when serializing and none when deserializing |
| Deserializer.RestoreSerialized | lib/base/serializer.cpp:223-268 | in either mode, restoring a serialized object assigns to every selected field the deserialized unfolding of its value, or empties it if its setter refuses that, and leaves every other one alone; what is assigned is the plain unfolding exactly in safe mode or without "type" keys in it |
| Deserializer.RoundTrip | lib/base/serializer.cpp:307-332 | deserializing what serializing returned gives the unfolding of the graph, in safe mode always and otherwise exactly if there is no "type" key in it |
| Deserializer.InstanceRoundTrip | lib/base/serializer.cpp:223-332 | outside safe mode, with a mask that is not empty, and if the types of the instances that are reached are registered and their setters accept everything, deserializing what serializing returned gives a new instance for every instance, its selected fields rebuilt likewise all the way down and the others as initialized, exactly if no dictionary or namespace that is reached has a "type" key |
| Deserializer.RebuiltMirrors | lib/base/serializer.cpp:223-332 | under the same premises and without such keys, the unfolding of every subgraph is rebuilt to what mirrors it |
| Deserializer.Deserialize | lib/base/serializer.cpp:307-332 | without an existing object, rebuilds any value: scalars as they are, containers element by element, and a dictionary with a "type" key as an instance outside safe mode |
| Deserializer.Instance.DeserializeInto | lib/base/serializer.cpp:312-332 | with an existing object, assigns a dictionary with a "type" key to it in either mode; anything else is rebuilt and the object is left alone |
| Deserializer.DeserializeArray | lib/base/serializer.cpp:193-206 | rebuilds the elements in order |
| Deserializer.DeserializeDictionary | lib/base/serializer.cpp:208-221 | rebuilds every entry under its key |
| Deserializer.Instance.DeserializeObject | lib/base/serializer.cpp:223-268 | assigns exactly the fields that occur, exist and meet the mask, and leaves all others unchanged |
| ObjectPacker.UnpackPack | lib/base/object-packer.cpp:172-216 | unpacking a packed value, whatever follows, gives the value back (objects that cannot be packed as null) and leaves what follows |
| ObjectPacker.PackStartsWith | lib/base/object-packer.cpp:172-216 | the first byte tells the kind of value: 0 for null and what cannot be packed, 1 and 2 for false and true, 3 for numbers, 4 for strings, 5 for arrays, 6 for dictionaries |
| ObjectPacker.UnpackSound | lib/base/object-packer.cpp:172-216 | whatever unpacks is the packed form of its value |
| ObjectPacker.UnpackExact | lib/base/object-packer.cpp:221-230 | exactly the packed values unpack, and each to the value it came from |
| ObjectPacker.PrefixFree | lib/base/object-packer.cpp:221-230 | packed values followed by anything are equal exactly if the values and what follows are; no packed value is a prefix of another |
| ObjectPacker.PackInjective | lib/base/object-packer.cpp:221-230 | on JSON-encodable values packing is injective |
| ObjectPacker.PackCanonical | lib/base/object-packer.cpp:210 | an object that cannot be packed packs like null |
| ObjectPacker.CanonicalData | lib/base/object-packer.cpp:193-208 | a value is packed without loss exactly if all objects inside are arrays and dictionaries |
| ObjectPacker.BigEndianEight | lib/base/object-packer.cpp:76-90 | the eight bytes written for a length are its big-endian digits |
| ObjectPacker.Packer.PackUInt64BE | lib/base/object-packer.cpp:76-90 | appends the eight big-endian bytes of a number |
| ObjectPacker.Packer.PackFloat64BE | lib/base/object-packer.cpp:113-127 | appends the same bytes on little-endian and big-endian machines |
| ObjectPacker.Packer.PackString | lib/base/object-packer.cpp:132-136 | appends the length and the bytes |
| ObjectPacker.Packer.PackArray | lib/base/object-packer.cpp:141-151 | appends the packed array |
| ObjectPacker.Packer.PackDictionary | lib/base/object-packer.cpp:156-167 | appends the packed dictionary in key order, however it was built |
| ObjectPacker.Packer.PackAny | lib/base/object-packer.cpp:172-216 | appends the packed form of any value |
| ObjectPacker.PackObject | lib/base/object-packer.cpp:218-247 | returns the packed form of any value |
| ConfigObject.JoinSplit | lib/base/string.cpp:213-218 | joining the tokens of a dotted name gives the name back |
| ConfigObject.SplitAppend | lib/base/configobject.cpp:146 | the tokens of a name extended by a dot and a key are the tokens of both |
| ConfigObject.ReadWritten | lib/base/configobject.cpp:137-189 | after a write the place and everything below it reads as the new value |
| ConfigObject.ReadElsewhere | lib/base/configobject.cpp:137-189 | a write leaves every diverging place as it is |
| ConfigObject.WriteTwice | lib/base/configobject.cpp:189 | of two writes to the same place the second decides |
| ConfigObject.WriteSucceeds | lib/base/configobject.cpp:137-153 | a write below a dictionary succeeds exactly if no place above the one written holds anything but a dictionary; what is missing is created |
| ConfigObject.ModifiedSucceeds | lib/base/configobject.cpp:92-204 | a modification succeeds exactly if the name has at most 16 tokens, the field exists and may be modified and, for a place inside it, the field can be cloned and the way is clear; a failing one changes no field and no undo entry, a successful one no other field, and undo entries are made only for a configuration field |
| ConfigObject.ModifiedFails | lib/base/configobject.cpp:102-153 | which of the checks a modification that fails has failed |
| ConfigObject.UndoEntriesAdded | lib/base/configobject.cpp:163-198 | the undo entries a modification adds are at or below its attribute |
| ConfigObject.ModifiedReads | lib/base/configobject.cpp:92-204 | after a modification the attribute and everything below it reads as the new value |
| ConfigObject.ModifiedElsewhere | lib/base/configobject.cpp:92-204 | a modification, successful or not, leaves every diverging attribute as it is |
| ConfigObject.UndoEntriesKept | lib/base/configobject.cpp:171-196 | an undo entry is never overwritten |
| ConfigObject.WalkSucceeds | lib/base/configobject.cpp:233-261 | the walk down to restore a place succeeds exactly if all places above it hold dictionaries, and says that there is no such attribute exactly if one is missing in a dictionary |
| ConfigObject.RestoredSucceeds | lib/base/configobject.cpp:213-324 | a restore succeeds exactly if the field exists and, once there are undo entries and for a place inside it, the field can be cloned and all places above hold dictionaries; a failing one changes nothing, and no other field is ever changed |
| ConfigObject.RestoredNothing | lib/base/configobject.cpp:233-320 | restoring a place without undo entries at or below it leaves all fields and undo entries alone |
| ConfigObject.RestoredField | lib/base/configobject.cpp:315-320 | restoring a field writes its undo entry back and drops it, or empties the field if there is none while there are others |
| ConfigObject.RestoreEmptiesField | lib/base/configobject.cpp:226-320 | a field that was never modified is left alone by modifying another one, and emptied by a restore after that |
| ConfigObject.RestoredAlone | lib/base/configobject.cpp:233-320 | restoring an attribute that has no undo entry below it writes its own entry back and drops it |
| ConfigObject.RestoredPlace | lib/base/configobject.cpp:233-320 | restoring an attribute whose own undo entry is no dictionary succeeds exactly if the field can be cloned and walked down; it touches nothing that diverges, leaves no undo entry at or below the attribute, and the attribute is what the entry says exactly if there was no entry below it |
| ConfigObject.UndoOfPlace | lib/base/configobject.cpp:92-324 | after an attribute without undo entries that held no dictionary has been modified, any writes whatsoever and a restore that succeeds: the attribute is what it was, with all below it, exactly if by then there was no undo entry below it |
| ConfigObject.UndoSucceeds | lib/base/configobject.cpp:242-258 | that restore succeeds exactly if the field can be cloned, as long as none of the writes replaced something the attribute is in |
| ConfigObject.PlaceBecomesDictionary | lib/base/configobject.cpp:166-186 | a dictionary written to a place that held none and replaced by a scalar: restoring the place gives it the dictionary instead of what it was |
| ConfigObject.UndoOfScalar | lib/base/configobject.cpp:92-324 | any number of writes of values that are no dictionaries to an attribute that held none and had no undo entries, mixed with any writes to diverging attributes, and one restore, which succeeds exactly if the field can be cloned: the attribute and all below it reads as before, what diverges is untouched, no undo entry at or below is left |
| ConfigObject.UndoOfScalarIsExact | lib/base/configobject.cpp:92-324 | if all writes are to an attribute that held no dictionary and had no undo entries, of any values, the restore succeeds exactly if the field can be cloned; the fields are then the original ones exactly if there was no undo entry below the attribute and the attribute existed, and without such an entry at least as if the first value had been written back |
| ConfigObject.RestoredDictionary | lib/base/configobject.cpp:269-312 | restoring a dictionary after the first write over it succeeds exactly if the new value can be cloned; keys with dots then stay as the new value left them, and without any the old entries are back and those the new value had added are empty |
| ConfigObject.UndoOfDictionary | lib/base/configobject.cpp:166-186 | after one write over a dictionary without undo entries and a restore that succeeds every place shows what it showed, exactly if the dictionary had an entry or the new value is a dictionary or empty |
| ConfigObject.UndoOfDictionaryIsExact | lib/base/configobject.cpp:166-312 | after such a write the fields are the original ones, for a new value without dotted keys, exactly if the old dictionary had no dotted keys and the new one added no key, or, for a value that is no dictionary, the old one was not empty; in any case only if both agree on all dotted keys and what stands before the first dot of a key was a key itself |
| ConfigObject.RewrittenDottedKey | lib/base/configobject.cpp:286-306 | a dictionary with one dotted key, replaced by itself, which changes nothing, and restored has got another entry |
| ConfigObject.UndoOfField | lib/base/configobject.cpp:190-198 | after a field has been replaced, any writes whatsoever and a restore give it back its value and touch no other field; undo entries below it stay behind, so there are none exactly if none had been made |
| ConfigObject.RestoredFieldKeepsEntries | lib/base/configobject.cpp:315-320 | a field replaced by a dictionary, one entry of that modified, the field restored: the fields are the original ones, but restoring the entry then writes the replaced dictionary's value |
| ConfigObject.UndoLeavesEmptyEntry | lib/base/configobject.cpp:306 | an attribute that did not exist holds an empty value after a write and a restore, and writing below it fails; if what was written cannot be cloned, restoring and writing below fail for that reason |
| ConfigObject.ConfigObject.ModifyAttribute | lib/base/configobject.cpp:92-211 | the method does what the specification says to the fields and the undo entries, also when it fails, be it at a value that cannot be cloned |
| ConfigObject.ConfigObject.RestoreAttribute | lib/base/configobject.cpp:213-324 | the method does what the specification says to the fields and the undo entries, also when it fails, be it at a value that cannot be cloned |
| ConfigObject.SetAt | lib/base/configobject.cpp:137-150 | the walk down the dictionaries and the write at its end set the value at the place |
| ConfigObject.Record | lib/base/configobject.cpp:169-183 | the loop records exactly the entries that are not recorded yet |
| ConfigObject.RestoreEntries | lib/base/configobject.cpp:269-308 | the loop puts back exactly the undo entries at or below the attribute, in key order |
| ConfigObject.Matches | lib/base/configobject.cpp:272-284 | tells whether an undo entry is at or below the attribute |
| ConfigObject.WalkTo | lib/base/configobject.cpp:242-258 | walks to the dictionary that holds the attribute, or says why there is none |
| AttributeTree.Clone | lib/base/dictionary.cpp:233-248 | a deep copy spells out the same value and shares no dictionary with anything; it fails exactly if an object inside cannot be cloned |
| AttributeTree.Descend | lib/base/configobject.cpp:141-149 | goes on to the next dictionary, a new one exactly if there is nothing, and fails exactly at a value that is no dictionary |
| AttributeTree.WriteInPlace | lib/base/configobject.cpp:137-189 | the loop over references into the tree, with its creation of missing dictionaries, succeeds exactly if no place above the one written holds anything but a dictionary, and then makes the tree spell out the value with the place set |
| AttributeTree.ModifiedClone | lib/base/configobject.cpp:126-189 | there is a new value for the field exactly if, for a place inside it, the old one can be cloned and the way is clear; it is right, and nothing that existed before is modified: the old tree still spells out the old value, and the new one shares only the dictionaries of the value stored |
| RingBuffer.RingBuffer.InsertValue | lib/base/ringbuffer.cpp:28-55 | clears exactly the slots between the old and the new time modulo the number of slots, counts the ticks up to that number, and adds to the slot of the time |
| RingBuffer.RingBuffer.UpdateAndGetValues | lib/base/ringbuffer.cpp:64-84 | the backwards loop adds up the last slots |
| RingBuffer.RingBuffer.CalculateRate | lib/base/ringbuffer.cpp:86-92 | divides by the smaller of the span and the number of ticks seen |
| RingBuffer.RunAgrees | lib/base/ringbuffer.cpp:28-55 | after any events with positive times the slots hold the sums of the last ticks of a clock that moves on by the distance modulo the number of slots, and the ring knows how many ticks it has seen |
| RingBuffer.CloseIsExact | lib/base/ringbuffer.cpp:30-51 | if no event is a round or more away from the latest one, that clock shows the real time |
| RingBuffer.QueryOnClock | lib/base/ringbuffer.cpp:64-84 | after any events with positive times a query answers the sum over the last ticks of that clock, at most as many as there are slots |
| RingBuffer.RateOnClock | lib/base/ringbuffer.cpp:86-92 | after any events with positive times the rate is that sum divided by the number of those ticks the ring has seen, which is positive for every positive span |
| RingBuffer.QueryIsExact | lib/base/ringbuffer.cpp:64-84 | if no event was a round or more away from the latest one, a query answers the exact sum over the last ticks, except when asked a round or more later, where it is right exactly if the slots left uncleared sum up to zero |
| RingBuffer.LateEventKeepsSlots | lib/base/ringbuffer.cpp:34-51 | an event exactly a round after the one before clears nothing: a query at its time answers what was inserted a round earlier, although the exact sum is zero |
| RingBuffer.RateIsExact | lib/base/ringbuffer.cpp:86-92 | if neither an event nor the query is a round or more away from the latest time, the rate is the exact sum divided by the number of ticks seen within the span, which is positive for every positive span |
| NetString.BufferedUndoesEncode | lib/base/netstring.cpp:27-102 | the buffered reader gives back an encoded string, whatever follows, exactly if it has at most 999999999 bytes and is within the limit |
| NetString.PrefixNeedsData | lib/base/netstring.cpp:57-92 | while a message within the limits is incomplete, the reader asks for more |
| NetString.ParseStable | lib/base/netstring.cpp:42-102 | a message or an error found in the buffer does not depend on what comes later |
| NetString.ReadersAgree | lib/base/netstring.cpp:130-199 | the strict reader accepts an input exactly if the buffered one does with a limit one higher and every byte before the colon is a digit; message and bytes consumed are the same |
| NetString.StrictUndoesEncode | lib/base/netstring.cpp:332-335 | the strict reader gives back an encoded string exactly if it has at most 999999999 bytes and is within the limit |
| NetString.StrictAcceptsEncoded | lib/base/netstring.cpp:130-199 | the strict reader accepts exactly the encoded strings of at most 999999999 bytes within its limit, whatever follows, and consumes exactly them |
| NetString.BufferedAccepts | lib/base/netstring.cpp:42-101 | the buffered reader accepts exactly a header, as many bytes as its digits say, and a comma; it reports a missing comma exactly if another byte stands there, and asks for more exactly within a header of at most 17 bytes or within what follows one |
| NetString.BufferedRefuses | lib/base/netstring.cpp:44-64 | a length is missing, a colon is missing or a zero is needless exactly if the first 18 bytes say so |
| NetString.BufferedLimits | lib/base/netstring.cpp:66-86 | a length is too long exactly if there are more than nine digits before the colon, and a message too large exactly if its header would do without the limit |
| NetString.StrictRefuses | lib/base/netstring.cpp:137-195 | for each error of the strict reader, exactly which inputs it is reported for |
| NetString.MessagesOfEncodeAll | lib/base/netstring.cpp:332-335 | a list of messages within the limits comes back from the concatenation of their encodings |
| NetString.ParseBuffer | lib/base/netstring.cpp:42-101 | the loops find the colon within 18 bytes, refuse a leading zero and more than nine digits, and take as many bytes as the length says, up to the comma |
| NetString.ReadStringFromStream | lib/base/netstring.cpp:27-102 | one buffered read: no byte is lost or repeated between stream, buffer and message; it asks for data only while the buffer holds an incomplete message, and reports the end only at the end |
| NetString.ReadStringStrictly | lib/base/netstring.cpp:130-199 | the byte-wise loop accepts and refuses exactly as the parsing function does, with the same error, and consumes exactly the message |
| NetString.ReadAll | lib/base/netstring.cpp:27-102 | repeated buffered reads give the messages of the whole stream in order, then its end or the first error, however the stream is cut into chunks |
| StreamBuffer.StreamReadContext.FillFromStream | lib/base/stream.cpp:112-138 | appends what the stream delivers until it has nothing more at once or 64 KB have come, loses and repeats nothing, and reports the end exactly if nothing came and nothing is left |
| StreamBuffer.StreamReadContext.DropData | lib/base/stream.cpp:140-145 | drops exactly the bytes asked for and keeps the others in order |
| ReasonInjector.InjectAt | plugins/check_nscp_api.cpp:293-304 | the reason goes right before the first carriage return and nowhere else |
| ReasonInjector.InjectMonotone | plugins/check_nscp_api.cpp:264-316 | what has been delivered stays the beginning of the injected response, whatever follows |
| ReasonInjector.HttpResponseReasonInjector.DeliverStash | plugins/check_nscp_api.cpp:269-286 | hands out stashed bytes in order until there are none or the buffer is full |
| ReasonInjector.HttpResponseReasonInjector.PushOne | plugins/check_nscp_api.cpp:298-304 | moves the bytes after the position to the right by one and stashes the last |
| ReasonInjector.HttpResponseReasonInjector.InjectInPlace | plugins/check_nscp_api.cpp:293-311 | the buffer followed by the stash is the data with the reason inserted, also if the carriage return is the last byte |
| ReasonInjector.HttpResponseReasonInjector.ReadSome | plugins/check_nscp_api.cpp:264-316 | hands out stashed bytes without reading; otherwise reads the stream once and passes on its error and the amount it gives; bytes delivered, followed by the stash, are always the bytes read with the reason inserted, and every read into a buffer that is not empty gets on |
| ReasonInjector.ReadAll | plugins/check_nscp_api.cpp:264-316 | for every chunking of the source and all buffer sizes the reads together give the beginning of the injected response, and all of it once the source is at its end and the stash is empty, which it is after as many reads into non-empty buffers as there are chunks, bytes and reason bytes |
| Fifo.SizeMinusMeans | lib/base/fifo.cpp:47 | the wrapping subtraction exceeds 1024 exactly if the offset is smaller than the number of unread bytes or larger by more than 1024 |
| Fifo.FIFO.ResizeBuffer | lib/base/fifo.cpp:21-39 | reallocating, up or down, to the next multiple of 512 bytes keeps the unread bytes; without leave to shrink, a buffer that is large enough stays |
| Fifo.FIFO.Optimize | lib/base/fifo.cpp:45-56 | exactly if the gap in front exceeds a tenth of the unread bytes and is smaller than them or larger by more than 1024, they are moved to the front over themselves and the buffer shrunk around them; they stay what they are |
| Fifo.FIFO.Read | lib/base/fifo.cpp:61-75 | takes the first bytes off the queue; the offset stays within 1024 of the number of unread bytes and the buffer within twice the largest such number and 1536 |
| Fifo.FIFO.Write | lib/base/fifo.cpp:80-87 | appends to the queue, reallocating exactly if there is no room behind the unread bytes |
| Fifo.Perform | lib/base/fifo.cpp:61-87 | over any sequence of writes and reads, the bytes read followed by those unread are the bytes written |
| LoadOrder.Sorter.Visit | lib/base/type.cpp:49-62 | the search ends, visits only what the type depends on, and keeps the order: a dependency comes first unless it is on a cycle with its dependant |
| LoadOrder.SortByLoadDependencies | lib/base/type.cpp:43-75 | lists exactly the types reachable from the configuration types, each once, dependencies first unless there is a cycle |
| LoadOrder.TopologicalIffNoCycle | lib/base/type.cpp:47-48 | the order is topological exactly if there is no cycle among the types listed |
| LoadOrder.TransitiveDependenciesFirst | lib/base/type.cpp:54-61 | in a topological order indirect dependencies come first, too |

## Left out

- Sockets, TLS, files, processes, Windows and the platform code around the modelled cores.
- The lexer, the escaping of strings and the formatting of numbers in JSON: a scalar token is taken as it is; UTF-8 repair; value generators, flushing and the text of the depth error.
- JsonEncoder.Encoder.Encode: does not model the 32-bit wrap-around of the indentation; an Other object's text is a parameter; namespaces, which are written as objects, value generators, which write an array element by element as it is produced, and flushing the output are left out.
- The memory ordering of atomics and the inside of Asio; strands and the thread pool appear only through the order of their steps.
- Logging, version timestamps, validation and change notifications when attributes are modified.
- ConfigObject.ConfigObject.ModifyAttribute: works on trees as values, so that cloning, where it succeeds, is the identity; `AttributeTree` models its clone and its writing through references. The references a restore takes from the undo entries, and dictionaries inside arrays, are values only.
- ConfigObject.UndoOfDictionary: for keys without dots, as undo entries are found again by splitting their names; with dots, `UndoOfDictionaryIsExact` says what comes back.
- ConfigObject.UndoOfDictionaryIsExact: says exactly when the fields are the original ones if the new value has no dotted keys; if it has some, only what is necessary, as dotted keys that extend each other overwrite parts of one another.
- AttributeTree.Clone: arrays, and dictionaries inside arrays, are copied as plain values, so sharing through them is not tracked.
- AttributeTree.ModifiedClone: dictionaries inside arrays are plain values, so that they are copied is not tracked.
- Adjusting all timers after a clock change, which reorders several keys inside the index; starting and stopping the dispatcher around a fork and at exit; starting a timer while stopping the last one waits for the dispatcher, which would replace a thread not yet joined; a call of Stop that has looked at the stop flag but not yet taken the mutex, which are one step here; whether a waiting Stop(true) is ever woken up.
- Deserializer.Deserialize: whether a setter accepts a value is a parameter, and a "type" entry that is not a string names no type.
- Comparing values for equality beyond the identity of objects on the serializer's stack.
- RingBuffer.RingBuffer.UpdateAndGetValues: sums do not overflow; times are positive in the theorems about runs, as zero marks an unused ring.
- RingBuffer.QueryIsExact: for events within a round of the latest one; `QueryOnClock` says what is answered after any others.
- RingBuffer.RateIsExact: likewise; `RateOnClock` covers the others.
- Fifo.FIFO.Write: allocation failure; the sizes asked for stay below the limit of size_t.
- StreamBuffer.StreamReadContext.FillFromStream: waiting for data; a read fails only at the end of the stream.
- ReasonInjector.HttpResponseReasonInjector.ReadSome: takes the caller's first buffer that is not empty as its argument.
- Reading lines from a stream buffer, bulk writers, loggers, registries, script wrappers and other easy members of the library.
