# EcoColeta collection-point registry, in Dafny

EcoColeta is a small TCP server that keeps an in-memory registry of recycling
collection points (`PontoColeta`). Clients send one command per line over a
pipe-separated text protocol:

- `LIST` and `FILTER|tipo` read the registry.
- `LOGIN|user|pass` turns on the connection's administrator flag.
- `ADD|...` and `UPDATE|...` change the registry. Both need that flag.
- `EXIT` ends the session.

The server answers every command with some lines followed by `END`.

This project models the server's core:

- the collection-point record: its field sanitisation, its category
  normaliser, its one-line wire codec, its case-insensitive category test,
  and the mutable object with its setters;
- the store: a map from id to record object plus the id counter;
- the per-connection command loop with its five handlers and the category
  parser.

The model has three layers:

- `CollectionPoints` (collection_points.dfy) is the record. The value
  functions are `Safe`, `NormalizeCategories`, `Encode`, `Decode` and
  `AcceptsType`. The mutable object is the class `CollectionPoint`.
- `Protocol` (protocol.dfy) describes the server as values: `Registry` is
  the store, and one command, one line and one session are functions `Dispatch`,
  `Step` and `Run` of the store, the admin flag and the input. The
  properties of the protocol are proved about these functions.
- `Server` (server.dfy) holds the classes `Store` and `ClientHandler`. Their
  methods update the record objects in place, as the source does. Each method
  is proved equal to the matching `Protocol` function. The store's fields are
  `points` (the source's `pontos`, a map of objects) and `nextId`. The handler's field is `isAdmin`.

`Text` (text.dfy) models the parts of `java.lang.String` and
`java.lang.Integer` that the core uses:

- `trim`: drops characters up to U+0020;
- case mapping of ASCII letters;
- `replace` of one character;
- `split(sep, -1)`: keeps empty fields;
- `String.join`;
- `Integer.toString` and `Integer.parseInt`: the failure is `None`.

`Wrappers` (wrappers.dfy) holds `Option` and `Result`.

A category set (`LinkedHashSet<String>`) is a sequence without duplicates in
insertion order. Of the core's `null` tests, only `aceitaTipo`'s
(PontoColeta.java:86) is modelled, as an `Option`.

`safe` replaces `|` and line feeds only in name, address and contact
(PontoColeta.java:20-23, 27-30). Categories are only trimmed and lower-cased
(PontoColeta.java:32-40), so a category may still hold `|` or `,`. So:

- `DecodeEncode` requires that no category holds `|` or `,`;
- `Protocol.Clean` states that property of a whole store;
- `RunKeepsClean` proves that stores built by protocol commands keep it.

Categories that arrive through commands cannot hold either character, because
they come from a field already split on `|` and then split on `,`.

## Model

| member | source | states |
|---|---|---|
| CollectionPoints.Safe | PontoColeta.java:27-30 | The result never holds a pipe or a line feed and is trimmed. A string that already has these properties is returned unchanged. So the results of `safe` are exactly the sanitised strings. |
| CollectionPoints.SafeIdempotent | PontoColeta.java:27-30 | Sanitising twice is sanitising once. |
| CollectionPoints.CategoryKey | PontoColeta.java:36-37 | A category key is trimmed and holds no capital letter. |
| CollectionPoints.NormalizeCategories | PontoColeta.java:32-40 | The result is canonical: every entry is non-empty, trimmed and lower-case, and none repeats. A string is in the result iff it is the non-empty trimmed, lower-cased form of some input entry. |
| CollectionPoints.NormalizeKeepsFirstOccurrenceOrder | PontoColeta.java:32-40 | The normalised categories appear in the order of their first occurrence in the input, as a `LinkedHashSet` keeps them. |
| CollectionPoints.NormalizeIdempotent | PontoColeta.java:32-40 | Normalising an already normalised list changes nothing. The setters and the constructor can therefore re-normalise without effect. |
| CollectionPoints.MakePoint | PontoColeta.java:18-24 | The constructor keeps the given id and yields a well-formed record: sanitised text fields and canonical categories. |
| CollectionPoints.MakePointOfWellFormed | PontoColeta.java:18-24 | Rebuilding a well-formed record from its own fields gives the same record. |
| CollectionPoints.CollectionPoint.constructor | PontoColeta.java:18-24 | The new object holds the value of `MakePoint` for its arguments, and its invariant holds. |
| CollectionPoints.CollectionPoint.SetName | PontoColeta.java:48 | Only the name changes, to the sanitised argument. The invariant is kept. |
| CollectionPoints.CollectionPoint.SetAddress | PontoColeta.java:49 | Only the address changes, to the sanitised argument. The invariant is kept. |
| CollectionPoints.CollectionPoint.SetCategories | PontoColeta.java:50 | Only the categories change, to the normalised argument. The invariant is kept. |
| CollectionPoints.CollectionPoint.SetContact | PontoColeta.java:51 | Only the contact changes, to the sanitised argument. The invariant is kept. |
| CollectionPoints.Encode | PontoColeta.java:57-60 | `toProtocolString`; its meaning is stated by `JoinFields`, `EncodeFields` and `DecodeEncode`. |
| CollectionPoints.JoinFields | PontoColeta.java:57-60 | The protocol line is the five fields (id, name, address, comma-joined categories, contact) joined with pipes. |
| CollectionPoints.EncodeFields | PontoColeta.java:57-60 | When no field holds a pipe, the protocol line splits back into exactly those five fields, in order. |
| CollectionPoints.Decode | PontoColeta.java:66-80 | Fewer than five pipe fields fails, and it is the only cause of that error. A first field that `parseInt` rejects fails, and it is the only cause of that error. Any success is a well-formed record with an int id. |
| CollectionPoints.DecodeFields | PontoColeta.java:67-79 | The same three outcomes, stated over the split fields. |
| CollectionPoints.CategoriesRoundTrip | PontoColeta.java:73-77 | Splitting a canonical comma-free category list's comma-joined form and normalising it gives the list back. |
| CollectionPoints.DecodeEncode | PontoColeta.java:57-80 | `fromProtocolString(toProtocolString(p))` gives `p` back for every well-formed record. It needs an id in the int range and categories free of both separators. |
| CollectionPoints.AcceptsType | PontoColeta.java:85-88 | `null` is never accepted. |
| CollectionPoints.AcceptsTypeIgnoresCase | PontoColeta.java:85-88 | The test gives the same answer for an argument, its upper-cased form, its lower-cased form and its trimmed lower-cased key. |
| CollectionPoints.AcceptsOwnCategories | PontoColeta.java:85-88 | A well-formed record accepts each of its own categories. |
| Protocol.Valid | ServidorEcoColeta.java:33-34 | The store invariant (ids exactly 1 .. nextId-1, each record well formed under its own id), kept by `AddPoint`, `UpdatePoint`, `Dispatch`, `Step` and `Run` and established by `EmptyIsValid`. |
| Protocol.EmptyIsValid | ServidorEcoColeta.java:33-34 | The starting store has no records and the counter at 1, and it satisfies the store invariant: the ids are exactly 1 .. nextId-1 and each record is well formed and stored under its own id. |
| Protocol.AddPoint | ServidorEcoColeta.java:70-74 | An addition keeps the store invariant, advances the counter by one and stores the constructed record under the old counter value. |
| Protocol.AddPointIsFresh | ServidorEcoColeta.java:70-74 | The counter's value is not a stored id and exceeds every stored id. The new record carries that id, and every earlier record is unchanged. |
| Protocol.UpdatePoint | ServidorEcoColeta.java:229-232 | Applying the four setters to a stored record keeps the invariant and the counter. It replaces that record by the constructor's value for the new fields, under the same id. |
| Protocol.UpdatePointKeepsOthers | ServidorEcoColeta.java:218-232 | An update keeps the set of ids, the record's id and every other record. |
| Protocol.Listing | ServidorEcoColeta.java:135 | The records in visiting order: one per id, the record with id k at position k-1. |
| Protocol.ListingIsStore | ServidorEcoColeta.java:133-139 | The listing holds every stored record and nothing else. |
| Protocol.Matching | ServidorEcoColeta.java:149-153 | A record is kept iff it is in the input and accepts the category; the result is no longer than the input. Order and multiplicity are stated by `MatchingAppend` and `MatchingSingleton`. |
| Protocol.MatchingAppend | ServidorEcoColeta.java:149-153 | Filtering a concatenation is the concatenation of the filtered parts, so the kept records stay in the input's order, each as often as it occurs. |
| Protocol.MatchingSingleton | ServidorEcoColeta.java:150-152 | A single record is kept, once, exactly when it accepts the category; otherwise nothing is kept. |
| Protocol.ParseCategories | ServidorEcoColeta.java:245-254 | The parsed list is canonical and free of commas. It is free of pipes when its input is. |
| Protocol.ParseCategoriesIsNormalize | ServidorEcoColeta.java:245-254 | The blank-input guard agrees with the general path: the result is always the normalisation of the comma-split input. |
| Protocol.ParseCategoriesReparse | ServidorEcoColeta.java:245-254 | Joining the parsed categories with commas and parsing again gives the same list. |
| Protocol.LineFields | ServidorEcoColeta.java:95-99 | The trimmed line split on pipes keeping empty fields; its meaning is stated by `StepQuit`, `StepAdminFlag` and the `Dispatch` lemmas it feeds. |
| Protocol.CommandOf | ServidorEcoColeta.java:100 | The trimmed, upper-cased first field; its case-insensitivity is stated by `CommandOfIgnoresCase`, and `StepQuit` and `StepAdminFlag` use it. |
| Protocol.CommandOfIgnoresCase | ServidorEcoColeta.java:99-100 | The command word of a line is the same as that of the line lower-cased or upper-cased, so `list`, `List` and `LIST` select the same branch of the `switch`. |
| Protocol.ListReply | ServidorEcoColeta.java:133-139 | The LIST response; stated by `ListContents`. |
| Protocol.FilterReply | ServidorEcoColeta.java:141-155 | The FILTER response; stated by `FilterContents`. |
| Protocol.LoginStep | ServidorEcoColeta.java:157-172 | The LOGIN handler; stated by `LoginOutcomes`. |
| Protocol.AddStep | ServidorEcoColeta.java:174-202 | The ADD handler; stated by `AddOutcomes`. |
| Protocol.UpdateStep | ServidorEcoColeta.java:204-243 | The UPDATE handler; stated by `UpdateOutcomes`. |
| Protocol.Dispatch | ServidorEcoColeta.java:102-126 | Every command keeps the store invariant. |
| Protocol.Step | ServidorEcoColeta.java:94-126 | Every input line keeps the store invariant. |
| Protocol.Run | ServidorEcoColeta.java:94-127 | A whole session keeps the store invariant. |
| Protocol.DispatchAdminFlag | ServidorEcoColeta.java:157-172 | After a command, the admin flag is the old flag or'ed with "this is LOGIN with the administrator's user and password". |
| Protocol.DispatchWithoutAdminKeepsStore | ServidorEcoColeta.java:174-209 | A connection without admin cannot change the store with any command. |
| Protocol.DispatchReadOnly | ServidorEcoColeta.java:102-126 | Commands other than ADD and UPDATE leave the store unchanged. |
| Protocol.DispatchIdsNeverReused | ServidorEcoColeta.java:174-243 | No command loses an id. A new id is the old counter. The counter stays or grows by one. |
| Protocol.DispatchEndsWithEnd | ServidorEcoColeta.java:102-126 | Every command's response has at least two lines and ends with `END`. |
| Protocol.DispatchQuit | ServidorEcoColeta.java:118-122 | The loop ends iff the command is EXIT. EXIT answers the farewell line, then `END`, and changes nothing. |
| Protocol.DispatchUnknown | ServidorEcoColeta.java:123-125 | An unknown command word gets the error naming it and changes nothing. |
| Protocol.ListContents | ServidorEcoColeta.java:133-139 | LIST answers `OK`, then the encoding of the record with id k on line k, then `END`. It changes neither the store nor the admin flag. |
| Protocol.FilterContents | ServidorEcoColeta.java:141-155 | A missing or blank category gives the error. Otherwise FILTER answers `OK`, then exactly the stored records holding the argument's key, then `END`, even when none matches. It changes neither the store nor the admin flag. |
| Protocol.LoginOutcomes | ServidorEcoColeta.java:157-172 | Fewer than three fields gives the format error. The right pair gives `AUTH_OK` and sets the flag. Any other pair gives `AUTH_FAIL` and leaves the flag. The store never changes. |
| Protocol.AddOutcomes | ServidorEcoColeta.java:174-202 | Without admin: refused, nothing changes. With fewer than five fields: the format error, nothing changes. Otherwise exactly one record is added under the counter's value, and the reply is `ADD_OK` with the new id. |
| Protocol.UpdateOutcomes | ServidorEcoColeta.java:204-243 | The checks run in order: admin, field count, `parseInt` of the trimmed id, presence. Each failure gives its own error and changes nothing. Success rewrites that one record and keeps its id, all other records and the counter. |
| Protocol.StepAdminFlag | ServidorEcoColeta.java:94-126 | A line sets the admin flag exactly when it is a correct LOGIN. It never clears the flag. |
| Protocol.StepWithoutAdminKeepsStore | ServidorEcoColeta.java:94-126 | A line sent without admin leaves the store unchanged. |
| Protocol.StepBlank | ServidorEcoColeta.java:95-96 | A blank line gets no response and changes nothing. |
| Protocol.StepEndsWithEnd | ServidorEcoColeta.java:94-126 | Every non-blank line gets a response ending with `END`. |
| Protocol.StepQuit | ServidorEcoColeta.java:94-122 | Only a non-blank line whose trimmed, upper-cased first field is EXIT ends the loop. |
| Protocol.StepIdsNeverReused | ServidorEcoColeta.java:94-126 | No line loses an id. The counter stays or grows by one. |
| Protocol.PutKeepsClean | ServidorEcoColeta.java:192-195 | Storing a record whose categories hold no separator keeps the store's categories separator-free. |
| Protocol.DispatchKeepsClean | ServidorEcoColeta.java:174-243 | ADD and UPDATE store only categories without pipes and commas. |
| Protocol.StepKeepsClean | ServidorEcoColeta.java:94-126 | Every line keeps the store's categories separator-free. |
| Protocol.ListLinesDecode | ServidorEcoColeta.java:133-139 | In a separator-free store whose ids fit an int, each LIST line decodes with `fromProtocolString` to the record it came from. |
| Protocol.RunWithoutLoginKeepsStore | ServidorEcoColeta.java:94-127 | A session that never sends the administrator's credentials never gets admin and leaves the store exactly as it found it. |
| Protocol.RunKeepsAdmin | ServidorEcoColeta.java:157-172 | Once admin, a session stays admin to its end. |
| Protocol.RunIdsNeverReused | ServidorEcoColeta.java:94-127 | Over a session no id is lost and the counter never decreases. |
| Protocol.RunKeepsClean | ServidorEcoColeta.java:94-127 | A separator-free store stays separator-free over any session. |
| Server.Store.constructor | ServidorEcoColeta.java:33-34 | A new store is valid and empty, with the counter at 1. |
| Server.Store.AddInternal | ServidorEcoColeta.java:70-74 | In place, the store becomes `AddPoint` of the old store: the counter is taken and advanced, and a fresh record object is put under the old counter value. The invariant is kept. Every other object is untouched. |
| Server.ClientHandler.constructor | ServidorEcoColeta.java:77-83 | A new handler over a valid store serves that store, starts without admin, and its invariant holds. |
| Server.ClientHandler.ParseTipos | ServidorEcoColeta.java:245-254 | The loop builds exactly `ParseCategories` of its input: a canonical list in first-occurrence order. |
| Server.ClientHandler.HandleList | ServidorEcoColeta.java:133-139 | The loop over the stored objects produces exactly the LIST response of `ListContents`. |
| Server.ClientHandler.HandleFilter | ServidorEcoColeta.java:141-155 | The loop produces exactly the FILTER response of `FilterContents`, error case included. |
| Server.ClientHandler.HandleLogin | ServidorEcoColeta.java:157-172 | The response and the new admin flag are those of `LoginOutcomes`. The store is untouched. |
| Server.ClientHandler.HandleAdd | ServidorEcoColeta.java:174-202 | The response and the new store are those of `AddOutcomes`. The store invariant is kept. |
| Server.ClientHandler.HandleUpdate | ServidorEcoColeta.java:204-243 | The response and the new store are those of `UpdateOutcomes`. The store invariant is kept. |
| Server.ClientHandler.Overwrite | ServidorEcoColeta.java:224-232 | Calling the four setters on the stored object turns the store into `UpdatePoint` of the old one. |
| Server.ClientHandler.HandleLine | ServidorEcoColeta.java:95-126 | One pass of the loop does exactly what `Step` says. |
| Server.ClientHandler.HandleCommand | ServidorEcoColeta.java:102-126 | The `switch` does exactly what `Dispatch` says. |
| Server.ClientHandler.Serve | ServidorEcoColeta.java:94-127 | The command loop over a client's lines does exactly what `Run` says. It stops after EXIT or at the end of the input. |

## Left out

- Sockets and I/O: `start`, the reader and writer, and the greeting line.
  - The loop's input is a sequence of lines.
  - Its output is the sequence of response lines.
  - Closing the socket on EXIT is the loop's `quit` result.
  - The greeting `OK|Bem-vindo ao EcoColeta`/`END` sent on connection is not modelled.
- Threads and concurrency: one thread per connection, and the atomicity of `ConcurrentHashMap` and `AtomicInteger`.
  - One connection runs at a time against the store.
  - Interleavings of several connections are not modelled.
- `main` and `criarPontosDemo`: the startup seeding is not modelled. It is three calls to `Store.AddInternal` with fixed arguments.
- The client program `ClienteEcoColeta.java` is not part of this model.
- The display format `toDisplayString` and `toString` are not part of this model.
- The `catch (Exception e)` branches of ADD and UPDATE are not modelled, and neither is the `IOException` branch of the loop. Nothing inside the modelled code throws other than `parseInt`.
- `Protocol.Listing`: LIST and FILTER visit the records in ascending id order. The source visits them in the hash map's iteration order, which the model does not capture. Properties that do not depend on order hold for any order.
- `Protocol.AddPoint`: the id counter is an unbounded integer. The model does not capture the wrap-around of `AtomicInteger` past 2^31-1. `DecodeEncode` and `ListLinesDecode` therefore require the id to fit an int.
- Text handling:
  - case mapping covers ASCII letters only;
  - `trim` is modelled exactly;
  - the locale and Unicode rules of `toLowerCase`/`toUpperCase` are not modelled;
  - `parseInt` accepts ASCII digits only.
- `null` arguments to `safe`, `normalizeTipos`, the constructor and `parseTipos` (PontoColeta.java:28, 33; ServidorEcoColeta.java:246) are not modelled, and neither are `null` elements of a category set, which `normalizeTipos` drops (PontoColeta.java:35). The protocol never produces them.
- `Server.ClientHandler.HandleAdd` calls `Store.AddInternal` for the three steps that `handleAdd` writes out inline. The effect is the same.
- `Server.ClientHandler.HandleCommand` and `Server.ClientHandler.Overwrite` are parts of `run` and `handleUpdate`, split off as methods of their own.
- For blank input, `parseTipos` returns an empty `HashSet` instead of a `LinkedHashSet`. For an empty set the two do not differ.
