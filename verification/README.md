# Skitr in Dafny

A model of four linked parts of Skitr, a JSON-RPC 2.0 library in C++, with proofs about them:

1. the copy-on-write heap behind `Value` (`src/core/value.cpp`, `include/skitr/core/value.h`);
2. the printer that walks this heap (`toString`, `writeToStream`, `escapeString`);
3. the translation between values, JSON documents and JSON-RPC messages
   (`src/protocol/json_protocol.cpp`);
4. serving: the method registry, dispatching under its mutex, and the line loop of a connection
   (`src/registry/method_registry.cpp`, `src/runtime/dispatcher.cpp`, `src/transport/server.cpp`).

`dafny verify dfyconfig.toml` checks everything.

## The heap

`Cell` is the control block of a `shared_ptr` together with the vector or map it owns: a count, a
shape and the slots of its elements. A `Slot` is what one `Value` holds: a scalar, a null container
pointer (what a move leaves behind) or a reference to a cell. A `Store` is a program's handles and
the cells behind them. Its methods share, clone, change and free cells as the C++ does, one count at
a time, including the cascade when a last holder goes away.

`Semantics` says what the handles are meant to be: one immutable tree each. A program is a list of
statements. A statement declares a handle, follows a chain of calls (`v["a"]`, `asObject()[k]`,
`asArray().at(i)`) on a handle, or follows one and then assigns to, or calls `pushBack` on, the value
it reaches. The stored value is a scalar, a copy of a handle, a copy of what a chain of const accesses
finds, a moved handle, or a vector or map of copies; so the setters are assignments, `w = v["k"]` is
the call `v["k"]` followed by a const read of it, and a handle that goes out of scope is one assigned
null. A call that throws ends its statement and leaves the effect of the calls before it.

The main result is `Store.Run`: after any legal program a reader sees through the handles of the
counted, aliased heap exactly the trees that the same program leaves on plain trees. It also says
where null container pointers are: a tree may be `Vacant`, which a reader takes for an empty
container and the printer must not meet. Along the way every method keeps every count equal to the
number of holders, and the heap keeps an interpretation, which exists only for acyclic heaps.

Which cells a statement makes is said by `Store.Follow` for the chain of calls and by `Store.WriteAt`
for the whole write: the containers met on the path are cloned from the first shared one on, once
each; after an inserted key or a replaced value each call makes one new container; these cells are
distinct, the handle refers to the first and each to the next; the vector that `pushBack` grows is
cloned exactly when it is shared by then; the last container, or the grown vector, holds the very slot
that the source gives; a new array or object is one cell; and nothing else is made or changed.

A program is legal unless a write takes its source from the written handle itself in a way that
`Outside` excludes. A `pushBack` may copy any element of its own handle that does not lie above the
place it grows (`v["a"].pushBack(cv.asObject().at("b"))`, where `cv` is `v` through a const reference),
and `v.pushBack(v)` and `v = v` are legal too. The condition is needed: `SelfReference.WriteIntoItself`
proves that every `pushBack` it excludes leaves a cycle of cells whenever its path throws nothing,
although `pushBack` takes its argument by value; and so does every nested assignment it excludes whose
source takes the whole handle, whether it copies it (`v["a"] = v`), moves it, or hands it to `setArray`
or `setObject` (`v["a"].setArray({v})`).

An array or object that is built on the right of `=` is another matter: in C++20
(`CMakeLists.txt:11`) the right operand is evaluated first, so `v["a"] = Value(Value::array_t{v})`
copies `v` before `operator[]` sees the cell, which is then shared and cloned. That is the program of
`ReadWrite.ThroughTemporary`: where the value is taken before the path is followed, no condition on the
source is needed.

`toString` does not print every handle that was not moved from: a copy of a moved-from handle can sit
inside another one. `HeapPrinter.PrintAfter` says exactly when printing succeeds after a program,
`NullPointers.NotMovedFromYetNull` gives a program of three statements after which it does not, and
`HeapPrinter.CleanProgramsPrint` a condition on programs under which only moved-from handles fail.

The model describes objects by their ascending keys beside their values, in the order `std::map`
keeps them. Characters stand for bytes.

## Messages and serving

`Json` is a document with separate kinds for signed, unsigned and floating-point numbers. `Reparse`
says what parsing a dumped document gives: a signed number that is not negative comes back
unsigned, a non-finite float comes back null, the rest is unchanged (section 6 of RFC 8259 has one
kind of number and no non-finite ones). `Normal` is what a value is after a round trip.

`Concurrency` interleaves dispatches with other threads at the mutex of the registry: taking the
lock, the body of a lock region, the handler call and the handler's own registry calls are separate
steps, as is building the reply, and a handler may end in any outcome. The log of registry changes is
ghost state of the registry; the properties are stated about it and about the schedule of the run, the
states in which a dispatch held the mutex and the steps that its handler took. `Server` takes the way each
dispatch went as given, and `ServedEndToEnd` takes it from the dispatches of a run. It reads the
connection as chunks of bytes that end where the peer closes it. Dumping a response is partial there:
a string that is not valid UTF-8 makes the library throw, which ends the connection. That can happen
on valid input too, when the parser quotes part of a character in its error text.

## Reading the code, where its comments say otherwise

- `pushBack` and `operator[]` are documented to throw on a value of the wrong type; they replace it.
- `escapeString` is documented to add quotes; its callers do. It leaves control characters other than
  newline, carriage return and tab as they are; `EscapeIsJson` says exactly when the output is JSON.
- `toString` is documented to encode binary values; it prints their size, and `BinaryPrintsLikeText`
  shows that a string can print the same.
- The const accessors read a null container pointer as the empty container; `writeToStream`
  dereferences it. `ToString` has a result exactly when no null pointer is reached.
- `v = std::move(v)` keeps a container, and leaves a string or blob unspecified.
- The message comments ask that a response carry an id and that a notification get no response. The
  code sends a response without an id to a request without one.
- An unsigned number of 2^63 or more becomes a negative `Int` (`WrapCongruent`, `NumbersKept`).

## Model

| member | source | states |
|---|---|---|
| ValueStore.Store.Run | src/core/value.cpp:76-185 | Copy-on-write refines value semantics: after any legal run of declarations, copies (of handles and of nested elements), moves, assignments, keyed, indexed and nested stores and `pushBack`, a reader sees through every handle what the same run gives on trees that are copied deeply, and null pointers are exactly where the run's moves and copies put them; the invariant (exact counts, an acyclic heap) holds again. |
| ValueStore.Store.Execute | src/core/value.cpp:76-185 | The same for one statement. |
| ValueStore.Store.WriteAt | src/core/value.cpp:76-96 | A chain of non-const accesses followed by an assignment or `pushBack` changes the trees exactly as `Written` says, reports whether a call threw, and leaves the slots of other handles alone. The containers met on the path are cloned from the first shared one on, once each, the last one with the inserted key; calls after it make one container each; these cells are pairwise distinct, the handle refers to the first and each holds the next where the call looked, also when a call throws; a vector grown by `pushBack` is one more cell, cloned exactly when it is shared then, and holds its elements and the new one; the place written holds the copied or moved slot itself, or the one new cell of a new array or object, which holds copies of the handles; no other cell is made, and no other node changes. |
| ValueStore.Store.Follow | src/core/value.cpp:182-185 | A chain of calls changes only the walked handle, to the tree `Walk` gives. Of the containers it meets exactly those from the first shared one down are cloned, one new cell each, also when it inserts keys, replaces values or throws; the cells gone through are pairwise distinct, the place it starts at refers to the first, and each holds the next where the call looked; siblings keep their slots and nothing off the path is touched. What it ends at is shared afterwards exactly when it was before or a container above it was cloned. |
| ValueStore.Store.Call | src/core/value.cpp:76-96 | One call: null and a null pointer become a container, `operator[]` replaces any other type, the others throw on it; a missing key is inserted with null, a missing index throws. What `Enter` leaves and refers to is said without it by `FieldCall`, `KeyCall` and `AtCall`. A container that was there is unshared, whether or not a key is inserted, and otherwise one new cell is made, at that place only. |
| ValueStore.Store.Container | src/core/value.cpp:76-96 | Afterwards the container at the place has one holder and denotes what it did, or an empty one where null, a null pointer or (if asked) another type was; otherwise nothing changes. |
| ValueStore.Store.EnsureUnique | src/core/value.cpp:261-283 | A shared cell is replaced by a shallow clone whose children each gain a holder, a null pointer by a new empty cell, a cell with one holder by nothing; afterwards the place holds a cell with count one, and no handle has changed meaning but by an empty container in place of a null pointer. |
| ValueStore.Store.Unshare | src/core/value.cpp:268-269 | The cloning branch: one new cell, the old one loses a holder, every child gains one, all other cells and handles keep nodes and meaning. |
| ValueStore.Store.Become | src/core/value.cpp:157-165 | `setArray` or `setObject` with an empty container, and the null-pointer branch of `ensureUnique`: one new cell with count one takes the place of what was there, and no other node changes. |
| ValueStore.Store.FindKey | src/core/value.cpp:182-185 | `std::map::operator[]` on the unshared map: the key's position afterwards, an absent key inserted in order with null, and no change at all when it was there. |
| ValueStore.Store.Push | src/core/value.cpp:177-180 | The value at the place becomes an array (a wrong type is replaced) with the argument appended; the argument's own meaning survives the clone, also when it is the same container. The vector there is cloned exactly when it has another holder then, the parameter included. |
| ValueStore.Store.Overwrite | src/core/value.cpp:132-175 | Assigning a value's storage replaces the subtree there and drops the old content; no count goes up. |
| ValueStore.Store.Evaluate | include/skitr/core/value.h:335-338 | Making the stored value by copying, moving or building leaves the handles as they were, but for a moved-from one, which is left with a null pointer or an unspecified string; no node changes, at most one cell is made, and what the written place holds becomes shared only by a copy of it. |
| ValueStore.Store.Read | src/core/value.cpp:98-110 | A chain of const accesses changes nothing, reads a null pointer as an empty container, and throws exactly when an element is missing. The place it finds is on a path held by one handle alone exactly when it is read from that handle along that path. |
| ValueStore.Store.MoveToItself | include/skitr/core/value.h:338-338 | A handle moved to itself keeps its container; a string or blob is unspecified. |
| ValueStore.Store.MoveHandle | include/skitr/core/value.h:336-338 | A move hands over the cell with no change of count. |
| ValueStore.Store.Retain | include/skitr/core/value.h:335-337 | A copy raises the count of the one cell it refers to, and counts stay exact. |
| ValueStore.Store.Release | include/skitr/core/value.h:52-56 | Dropping a holder frees the cell when it was the last and drops its children in turn; counts stay exact, no count goes up, no surviving cell changes, and cells that others support survive. |
| ValueStore.Store.Clone | src/core/value.cpp:269-269 | `make_shared<array_t>(*ptr)` copies the slots, so each child gains exactly the references the copy holds. |
| ValueStore.Store.MakeCell | src/core/value.cpp:157-165 | A fresh cell with count one takes over the references its elements held as temporaries. |
| SelfReference.WriteIntoItself | src/core/value.cpp:177-185 | Every `pushBack` that is not legal (its argument takes the whole handle at a nested path, or is an element above the place it grows), and every nested assignment, `setArray` or `setObject` that copies, moves or is given the whole handle, completes exactly when the path throws nothing, and then ends with exact counts and a cycle of cells; when the path throws, the handles denote what it left. |
| SelfReference.ArrayAt | src/core/value.cpp:177-180 | `setArray` where the element is no array, and unsharing, on a heap of which only the counts are known: the element is an array with one holder and the elements that were there, or none. |
| Conservation.CountIsHolders | src/core/value.cpp:265-282 | A cell's count is the number of handles plus the number of slots of live cells that refer to it, so `unique()` says that there is one holder. |
| Conservation.NothingLeaks | include/skitr/core/value.h:52-56 | Every live cell is reached by a chain of references from a handle. |
| Conservation.DenotesWellFormed | include/skitr/core/value.h:51-51 | Every denoted tree has, at every depth, one ascending key per object value. |
| Meaning.InterpretedIsRanked | src/core/value.cpp:210-231 | A heap that has a meaning is acyclic: a rank falls along every reference. |
| Meaning.RankedIsInterpreted | src/core/value.cpp:210-231 | Conversely an acyclic heap without dangling references has a meaning. |
| Meaning.MeaningUnique | include/skitr/core/value.h:45-56 | The heap alone fixes what its cells denote. |
| Meaning.CycleMeansNothing | src/core/value.cpp:210-231 | A heap with a cycle denotes no trees. |
| Ownership.NodeReplaced | src/core/value.cpp:261-283 | Changing the last cell of a chain of cells held once, starting at a handle, changes that handle's tree at that path and no other handle's tree. |
| Ownership.SlotWritten | src/core/value.cpp:261-283 | The same for one slot of that cell, with every cell off the chain keeping its meaning. |
| Cloning.MinimalStep | src/core/value.cpp:261-283 | One call followed by a minimal chain is a minimal chain: a container with one holder stays, and after a shared one, whose clone gave every child a holder, every further container is shared and cloned; a key inserted or a container made on the way ends the containers that are met. |
| Cloning.WroteAfter | src/core/value.cpp:177-185 | A minimal chain, the evaluation of a source and a store at its end make no cell and change no node but those accounted for; the containers gone through and the grown vector are pairwise distinct, and each container holds the next one. |
| Cloning.ClonedFrom | src/core/value.cpp:261-283 | A write accounted for as `Store.WriteAt` says, along a path whose keys and indices lead through existing containers: those before the first one with several holders stay, and every one from it on has a new cell, so a path that shares nothing makes no cell; every other cell keeps its node, but for the vector that `pushBack` grows. |
| Cloning.PushedAfter | src/core/value.cpp:177-180 | The vector at the end of a chain is grown in place if and only if neither it nor a container above it was shared and the argument is no copy of it. |
| Cloning.ClonedAndInstalled | src/core/value.cpp:268-269 | A clone put in place of its original moves one holder from the one to the other and adds one to each child. |
| ReadWrite.WriteReadsBack | src/core/value.cpp:177-185 | After a write that throws nothing, following the same chain changes nothing and finds the stored value, or, after `pushBack`, the elements of the array that was there (none if the place held no array, or is itself moved from as the argument) with the value appended; every other handle that was not moved from is as before. It throws exactly when the path or the source does, and then leaves what the calls of the path did, or nothing when the source of an assignment throws first; the argument of `pushBack` is read from the trees the path leaves, and these differ from the ones before only in elements of the handle itself. |
| ReadWrite.WalkAgain | src/core/value.cpp:76-96 | Following a chain of calls twice is following it once, whatever was stored at its end in between. |
| ReadWrite.KeyAccess | src/core/value.cpp:182-185 | `object[k] = v` is assignment to a finite map, and before it the reference is to the value under the key or to null. |
| ReadWrite.FieldCall | src/core/value.cpp:87-96 | `asObject()[k]` throws exactly on a value that is neither an object, nor null, nor a null object pointer, and leaves that value; from null or a null pointer it makes the object whose only entry is k with null; on an object it makes that entry only if there is none and keeps every other one; and it refers to the entry. |
| ReadWrite.KeyCall | src/core/value.cpp:182-185 | `operator[](k)` does not throw: it replaces whatever is no object by the object whose only entry is k with null, and does the same as `asObject()[k]` on an object. |
| ReadWrite.AtCall | src/core/value.cpp:76-85 | `asArray().at(i)` reaches element i of an array exactly when i is in range and does not change it; on null or a null array pointer it leaves an empty array and throws; on any other value it throws and leaves the value. |
| ReadWrite.PeekSays | src/core/value.cpp:98-110 | A const access finds the entry of the map an object stands for, or the element of an array, and throws on anything else. |
| ReadWrite.SourceSays | src/core/value.cpp:157-165 | A new array holds copies of the handles in order, a new object holds them under its keys, and any other source is the one value named. |
| ReadWrite.DeclareAndCall | src/core/value.cpp:76-96 | A declared handle is null, and a call whose result is dropped leaves what the call made. |
| ReadWrite.MoveLeaves | include/skitr/core/value.h:336-338 | A move hands over the tree and leaves a null pointer of the kind of a container, an unspecified string or blob, and any other scalar or null pointer as it was. |
| ReadWrite.SelfMoveLeaves | include/skitr/core/value.h:338-338 | A handle moved to itself keeps everything but a string or blob. |
| ReadWrite.ThroughTemporary | src/core/value.cpp:177-185 | A source held in a temporary may be anything, the written handle included: the tree stored is the one from before. |
| NullPointers.FlatRun | src/core/value.cpp:98-110 | Reading after a run that leaves null pointers is reading after the same run in a world where a move leaves an empty container. |
| NullPointers.RunShallow | include/skitr/core/value.h:336-338 | After a run that uses no moved-from container as a source, null pointers are at most in the handles themselves. |
| NullPointers.NotMovedFromYetNull | src/core/value.cpp:210-231 | After `x = array(); y = std::move(x); z.pushBack(x)` the handle `z`, which was not moved from, reads as an array of one empty array and holds a null pointer. |
| Trees.FlatSame | src/core/value.cpp:98-110 | A reader sees a tree itself if and only if no null pointer is in it. |
| Semantics.RouteMeets | src/core/value.cpp:76-110 | Const accesses to what a chain of calls left lead along the chain's path exactly when they name the same keys and indices, so whether an element lies above a place is decided by names alone. |
| Semantics.WalkStep | src/core/value.cpp:76-96 | A chain can be followed one call at a time. |
| Trees.InsertAscending | include/skitr/core/value.h:51-51 | Inserting an absent key at its lower bound keeps the keys strictly ascending. |
| Trees.BeforeIsLexicographic | include/skitr/core/value.h:51-51 | The order of keys is lexicographic: one string is before another exactly when at the first position where they part it ends or has the smaller character. |
| HeapPrinter.ToString | src/core/value.cpp:187-191 | Printing a value of the heap ends, gives the text of the denoted tree, and fails exactly when that tree has a null container pointer. |
| HeapPrinter.WriteArray | src/core/value.cpp:210-219 | The array loop, on the cells. |
| HeapPrinter.WriteObject | src/core/value.cpp:220-231 | The object loop, on the cells. |
| HeapPrinter.PrintAfter | src/core/value.cpp:187-231 | After any legal run a handle prints if and only if the run put no null pointer into it, and then with the text of its value. |
| HeapPrinter.CleanProgramsPrint | src/core/value.cpp:187-231 | After a run that uses no moved-from container as a source, every handle prints that does not itself hold a null pointer. |
| Printer.EscapeString | src/core/value.cpp:245-259 | The escaping loop computes `Escape`. |
| Printer.QuoteEndsString | src/core/value.cpp:245-259 | In an escaped string followed by a quote and any tail, the first unescaped quote is that quote. |
| Printer.ReadEscaped | src/core/value.cpp:245-259 | Unescaping gives the string back and leaves the tail. |
| Printer.EscapeIsJson | src/core/value.cpp:245-259 | The escaped text is string content by section 7 of RFC 8259 if and only if the string has no control character but newline, carriage return and tab. |
| Printer.DigitsAreDecimal | src/core/value.cpp:201-203 | The text of a natural number has digits only, no leading zero, and reads back as the number. |
| Printer.ReadIntPrinted | src/core/value.cpp:201-203 | Every 64-bit integer, the least one included, is read back from its digits when no digit follows. |
| Printer.ReadPrinted | src/core/value.cpp:187-231 | Decoding the text of a tree of null, booleans, integers, strings, arrays and objects, followed by any tail that does not extend a final number, gives the tree and the tail. |
| Printer.PrintInjective | src/core/value.cpp:187-231 | Different trees of those kinds print differently. |
| Printer.BinaryPrintsLikeText | src/core/value.cpp:232-235 | A blob prints as `<binary:`, a decimal number that reads back as its size, and ` bytes>`, between quotes, and so does the string of that text; so those kinds are needed. |
| Json.ValueToJson | src/protocol/json_protocol.cpp:143-169 | The recursion with its loops builds `ToJson` of the tree. |
| Json.JsonToValue | src/protocol/json_protocol.cpp:171-194 | The recursion with its loops builds `ToValue` of the document. |
| Json.RoundTrip | src/protocol/json_protocol.cpp:143-194 | Value to JSON, to text, to JSON and back replaces blobs, dates and non-finite doubles by null and null containers by empty ones at every depth, and keeps everything else. |
| Json.NormalIdentity | src/protocol/json_protocol.cpp:143-194 | The round trip is the identity if and only if the tree holds none of those. |
| Json.NormalIdempotent | src/protocol/json_protocol.cpp:143-194 | A second round trip changes nothing. |
| Json.WrapCongruent | src/protocol/json_protocol.cpp:175-176 | An unsigned number becomes the one signed 64-bit number congruent to it modulo 2^64. |
| Json.NumbersKept | src/protocol/json_protocol.cpp:143-194 | JSON to value and back keeps every number at every depth if and only if each unsigned one is below 2^63. |
| Json.WrittenSays | src/protocol/json_protocol.cpp:143-169 | The document written for a value says the value part by part, at every depth: the same scalars, the same keys, the elements in order, null for blobs and dates. |
| Json.ReadSays | src/protocol/json_protocol.cpp:171-194 | The value read from a document is what the document says if and only if no unsigned number in it needs the 64th bit. |
| Json.AssignedField | src/protocol/json_protocol.cpp:17-28 | `j[key] = x` sets that field and keeps every other one. |
| Json.ToValueWellFormed | src/protocol/json_protocol.cpp:185-190 | Objects read from JSON have ascending keys. |
| Protocol.RequestToJson | src/protocol/json_protocol.cpp:17-28 | Builds `RequestJson`. |
| Protocol.FromJsonRequest | src/protocol/json_protocol.cpp:30-71 | Computes `ReadRequest`, error text included, for every outcome of the parser; `RequestRead` and `RequestRefused` say which documents are read, as what, and which text refuses the others. |
| Protocol.ResponseToJson | src/protocol/json_protocol.cpp:73-91 | Builds `ResponseJson`. |
| Protocol.FromJsonResponse | src/protocol/json_protocol.cpp:93-141 | Computes `ReadResponse`, error text included, for every outcome of the parser; `ResponseRead`, `ErrorRead` and `ResponseRefused` say which documents are read, as what, and which text refuses the others. |
| Protocol.RequestSent | src/protocol/json_protocol.cpp:17-28 | A printed request has the version "2.0", its method, its params in order, its id if it has one, and no other member (section 4 of the JSON-RPC 2.0 Specification). |
| Protocol.ResponseSent | src/protocol/json_protocol.cpp:73-91 | A printed response has the version, its result, or else its error, or else a null result, its id if it has one, and no other member. |
| Protocol.ErrorSent | src/protocol/json_protocol.cpp:79-83 | A printed error has its code as a number, its message, its data if there are any, and no other member. |
| Protocol.RequestRead | src/protocol/json_protocol.cpp:37-60 | A document is read as a request exactly when it is an object whose "method" is a non-empty string and whose "params", if present, is an array; the request has that method, one param for each item in order, and an id exactly when the member is there. |
| Protocol.RequestRefused | src/protocol/json_protocol.cpp:30-71 | The error text of each refusal, in the order in which the code looks for them. |
| Protocol.ErrorRead | src/protocol/json_protocol.cpp:112-121 | An error is read exactly from an object with a code that converts to a number and a string message; the code is congruent to the number sent modulo 2^32; the error text of each refusal. |
| Protocol.ResponseRead | src/protocol/json_protocol.cpp:95-130 | A document is read as a response exactly when it is an object without both result and error whose error, if any, can be read; it has that error, or else the result if present, and the id if present. |
| Protocol.ResponseRefused | src/protocol/json_protocol.cpp:93-141 | The error text of each refusal of a response. |
| Protocol.RequestRoundTrip | src/protocol/json_protocol.cpp:17-60 | A printed request parses if and only if its method is not empty, and returns the method, the params in order and normalised, and the id, absent kept apart from null. |
| Protocol.ErrorRoundTrip | src/protocol/json_protocol.cpp:78-122 | An error comes back with its code and message and its data normalised. |
| Protocol.ResponseRoundTrip | src/protocol/json_protocol.cpp:73-141 | A printed response comes back as `Delivered`: a result wins over an error, neither counts as a null result, data, result and id are normalised. |
| Protocol.DeliveredProjection | src/protocol/json_protocol.cpp:73-141 | Delivering twice is delivering once, and a response is delivered unchanged if and only if it is valid and holds only values the wire carries. |
| Messages.Success | include/skitr/core/message.h:54-60 | A valid response with that result and id. |
| Messages.Failure | include/skitr/core/message.h:68-74 | A valid response with that error and id. |
| Registry.MethodRegistry.RegisterMethod | src/registry/method_registry.cpp:8-25 | Fails on an empty name or handler, with the text for it, and changes nothing then; otherwise says whether the handler is now the bound one (first wins without overwriting, last wins with it), logs the event and leaves every other name alone. |
| Registry.MethodRegistry.UnregisterMethod | src/registry/method_registry.cpp:41-44 | Removes exactly that name and says whether it was bound. |
| Registry.MethodRegistry.HasMethod | src/registry/method_registry.cpp:27-30 | True if and only if some registration of the name in the log has not been removed since. |
| Registry.MethodRegistry.GetHandler | src/registry/method_registry.cpp:32-39 | The handler of the name's last effective registration since its last removal, or the error when there is none. |
| Registry.MethodRegistry.ListMethods | src/registry/method_registry.cpp:46-52 | Each name that is still registered once, and as many as the registry holds; never the empty name. |
| Registry.MethodRegistry.Size | src/registry/method_registry.cpp:54-57 | The number of names that some unremoved registration in the log binds. |
| Registry.ReplayAgrees | src/registry/method_registry.cpp:8-44 | After any sequence of operations a name is bound if and only if the log holds an unremoved registration of it, and then to the handler of its last effective one. |
| Registry.RemovalBetween | src/registry/method_registry.cpp:41-44 | A name bound at one point of the log and unbound at a later one was removed in between. |
| Concurrency.StepKeeps | src/runtime/dispatcher.cpp:13-57 | Every atomic step of every thread (lock acquisition, body of a lock region, handler call, handler's own registry call, building the reply) keeps the invariant that ties each dispatch, and the response it holds at the end, to the log and the mutex to its holder. |
| Concurrency.RunKeeps | src/runtime/dispatcher.cpp:13-57 | So does every interleaving. |
| Concurrency.DispatchLinearizes | src/runtime/dispatcher.cpp:22-32 | In every run each finished dispatch arrived at a step of the schedule and later held the mutex in `hasMethod`, and then in `getHandler` if it got there: "method not found" means that the registry did not bind the name in the state of the first, an internal error without a handler call that it did then and not in the state of the second, between which the log has a removal; the handler called is the one bound in that state, the last effective registration in the log; and the dispatch ended with an outcome exactly when the schedule has the handler end so. |
| Concurrency.SettledNames | src/runtime/dispatcher.cpp:22-32 | A method bound when its request arrives and not removed before the dispatch finishes is called, and a name not bound then and not registered before is not found. |
| Concurrency.LoneDispatch | src/runtime/dispatcher.cpp:13-57 | In any state with the mutex free a request can arrive, and its dispatch alone runs to the end: the bound handler is called, with any outcome, or the error of an empty or unbound name is replied; the registry is unchanged. |
| Concurrency.AnswersAreValid | src/runtime/dispatcher.cpp:13-57 | In every run the response a finished dispatch holds has exactly one of result and error and the request's id; it has a result exactly when a handler returned it; otherwise the error is the one the handler threw, or has the code and text of its branch: -32600 for an empty name, -32601 for an unbound one, -32603 for a name removed in between and for any other exception. |
| Concurrency.HandlersRunUnlocked | src/registry/method_registry.cpp:32-39 | One thread at most holds the mutex, and no dispatch whose handler runs does. |
| Concurrency.HandlerMayChange | src/registry/method_registry.cpp:32-39 | With the mutex free a running handler can register or remove any method, its own included, and goes on running. |
| Concurrency.ThreadMayChange | src/registry/method_registry.cpp:8-44 | So can any other thread, and the change is logged. |
| Concurrency.LookersJoin | src/registry/method_registry.cpp:27-57 | Any thread can join at any time, and looking up or listing changes nothing. |
| Concurrency.NoDeadlock | src/runtime/dispatcher.cpp:13-57 | From every reachable state some schedule finishes every dispatch, without touching those already finished. |
| Concurrency.DispatchFinishes | src/runtime/dispatcher.cpp:30-56 | With the mutex free or its own, a dispatch can finish by itself. |
| Framing.LinesOfTerminated | src/transport/server.cpp:73-83 | The lines of newline-terminated pieces, whatever unterminated rest follows, are the pieces, each without one trailing carriage return. |
| Framing.ChompCuts | src/transport/server.cpp:83-83 | One trailing carriage return is cut, no second one, and nothing else. |
| Framing.EveryTextSplits | src/transport/server.cpp:73-83 | Every text is such pieces and such a rest, so this fixes the lines of every input. |
| Framing.LineTaken | src/transport/server.cpp:73-83 | The first line can be taken from what has arrived, before the rest has. |
| Server.HandleConnection | src/transport/server.cpp:69-106 | However the bytes are cut into reads, the loop writes one response for each line of the whole input, in order, up to the first response that cannot be dumped, and none for an unterminated rest. |
| Server.AnswerLine | src/transport/server.cpp:85-95 | A line that parses gets the dispatcher's reply, any other a parse error without an id. |
| Server.AnswerRead | src/transport/server.cpp:85-95 | What a client reads for a line is valid: the reply of its dispatch, normalised, with the request's id if the line parses, and otherwise code -32700 with the parser's error text and no id. |
| Server.EveryLineAnswered | src/transport/server.cpp:69-96 | Whatever the lines are, each is answered up to the first answer that cannot be dumped: a document that is a request with the reply of its dispatch, and anything else with code -32700 and no id. |
| Server.EndToEnd | src/transport/server.cpp:69-96 | k requests sent as lines, cut into chunks in any way and followed by any rest, are answered k times in order if and only if every response can be dumped, and the i-th answer read is the dispatcher's reply to the i-th request, with its id. |
| Server.ServedEndToEnd | src/transport/server.cpp:85-95 | When the requests are served by dispatches of a run that other threads take part in, the i-th answer read is valid and is the response its dispatch holds; a result comes from the handler bound when the dispatch looked it up, and the dispatcher's "method not found" from a name that was not bound when it checked; a method bound from the arrival of its request on is called. |

## Left out

- Sockets, accepting, threads, `start` and `stop`, signals, `src/main.cpp` and `src/client.cpp`: operating system behaviour. Writes to the socket are taken to succeed.
- The text of JSON: how the JSON library dumps and parses, and which strings it refuses to dump, are parameters (`Environment`, `Reparse`), and so are the texts of its exceptions and its conversion of floats to `int` (`Library`). Error codes fit 32 bits.
- The text of doubles and dates in `toString`: depends on the platform; it is the parameter `other`, and the decoder does not read it.
- References kept across a later copy or write: a chain of calls and the write at its end are one statement.
- Elements of the written handle as the source of an assignment (`v = v["k"]`, `v["a"] = v["b"]`): such a source is a reference into cells that the write may free or replace before it is copied, which depends on who shares them. `Outside` excludes them; through a temporary, and as the argument of `pushBack`, they are legal.
- Moves out of a slot inside a container: moves are from handles only.
- Several element accesses through one `asArray()` or `asObject()` reference, iterators, and erasing elements through them.
- The order in which the elements of a dead container are destroyed is first to last; the order the standard library uses is not specified, and no result depends on it.
- Accessors that only check a type (`asInt`, `asBinary` and the like), `typeName`, the error factories: their model would add only easy members.
- Batches, params by name, silence for notifications and null ids on errors, which sections 4.1, 4.2, 5 and 6 of the JSON-RPC 2.0 Specification ask for: the code does not implement them.
- A handler that dispatches another request: it would be another dispatch here. What a handler does with its params is left open, its outcome being arbitrary.
- Fairness: `Concurrency.NoDeadlock` gives a schedule that finishes every dispatch, and does not say that a scheduler picks it.
- Running out of memory and overflow of counts.
