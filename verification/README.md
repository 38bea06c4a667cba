# Statement cache of the en4j H2 note repository, in Dafny

`DbPstmts` is the read side of the note repository: a process-wide cache of
prepared statements, one per (entity, field) lookup, behind a facade of
getters. This project models the parts of it that carry behaviour of their own:

- **Hash normalisation** (`HashPadding`): `padded` left-pads a stored resource
  hash with `'0'` to 32 characters and passes longer hashes through; the model
  also gives the number a hex hash denotes and shows padding keeps it.
- **Hash lookups** (`ResourceQueries`): the RESOURCES table is a sequence of
  rows in result-set order. `getDataHash` pads the hash of one resource;
  `getResources` runs the owner-hash query (its extractor collects the HASH of
  every row from the current one on) and collects the padded hashes into a
  set, returning an empty collection when the note owns nothing. A null hash
  (no row, or SQL NULL) reaching `padded` is a `NullPointerException`,
  modelled as `Threw(NullPointer)`.
- **Singleton life cycle** (`Lifecycle`): `getInstance` / `close` over the
  statics `theInstance` and `closed`, with a heap of constructed objects for
  Java object identity and, per object, its 17 statement handles in field
  order, each counting how often it was released. Sequences of calls (`Run`)
  show that only one object is ever constructed, that `close` is final and
  idempotent, and that no statement is released twice.
- **Byte drain** (`DataDrain`): `getData` copies the resource's data stream
  through a 32000-byte buffer and returns every byte in order, or null on an
  I/O failure.

`Base` holds `Option` (Java null), and `Outcome` (a value returned or a Java
exception thrown).

`PreparedStatementWrapper` is not part of this model. Its `get` is taken to bind
the key, execute, advance to the first row, and return null when there is none
or the extractor's value otherwise; the do-while extractor at lines 119-125
only makes sense when it is called positioned on that first row.

Three behaviours of the code are easy to miss. `getResources` answers an
empty collection, never null, when nothing matches; the model keeps that, but
not the fact that this empty collection is an immutable list while a non-empty
answer is a hash set. `close` finds its statements by reflecting over the
fields; the model lists the 17 fields explicitly. And `getDataHash` of a
resource with no row, or whose first row has a null hash, throws rather than
answering absent; the model keeps that.

## Model

| member | source | states |
|---|---|---|
| `HashPadding.Padded` | NBPlatformApp/NoteRepositoryH2/src/main/java/com/rubenlaguna/en4j/noterepository/DbPstmts.java:238-254 | a hash shorter than 32 becomes exactly 32 characters: zeros, then the original hash as suffix; a hash of 32 or more comes back unchanged |
| `HashPadding.Zeros` | NBPlatformApp/NoteRepositoryH2/src/main/java/com/rubenlaguna/en4j/noterepository/DbPstmts.java:245-247 | the padding is `n` characters, every one of them '0' |
| `HashPadding.PadWithBuilder` | NBPlatformApp/NoteRepositoryH2/src/main/java/com/rubenlaguna/en4j/noterepository/DbPstmts.java:238-254 | the string-builder loop (one '0' per index from the hash's length up to 32, then the hash) builds exactly the padded hash |
| `HashPadding.PaddedIsPadding` | NBPlatformApp/NoteRepositoryH2/src/main/java/com/rubenlaguna/en4j/noterepository/DbPstmts.java:238-254 | a string is the padded hash if and only if it matches the character-by-character description: length max(32, len), zeros first, the hash last |
| `HashPadding.PaddedLength` | NBPlatformApp/NoteRepositoryH2/src/main/java/com/rubenlaguna/en4j/noterepository/DbPstmts.java:239-253 | every hash handed out has at least 32 characters; exactly 32 when the stored one was shorter |
| `HashPadding.PaddedIdempotent` | NBPlatformApp/NoteRepositoryH2/src/main/java/com/rubenlaguna/en4j/noterepository/DbPstmts.java:238-254 | padding an already padded hash changes nothing |
| `HashPadding.LeadingZeroIgnored` | NBPlatformApp/NoteRepositoryH2/src/main/java/com/rubenlaguna/en4j/noterepository/DbPstmts.java:242-251 | a short stored hash with one more leading zero reads back identically |
| `HashPadding.PaddedExample` | NBPlatformApp/NoteRepositoryH2/src/main/java/com/rubenlaguna/en4j/noterepository/DbPstmts.java:242-251 | "abc123" reads back as 26 zeros followed by "abc123" |
| `HashPadding.LeadingZerosKeepValue` | NBPlatformApp/NoteRepositoryH2/src/main/java/com/rubenlaguna/en4j/noterepository/DbPstmts.java:243-248 | prefixing any number of zeros keeps a hex string hex and keeps its value |
| `HashPadding.PaddedKeepsValue` | NBPlatformApp/NoteRepositoryH2/src/main/java/com/rubenlaguna/en4j/noterepository/DbPstmts.java:238-254 | padding repairs only the representation: a hex hash stays hex and denotes the same number |
| `HashPadding.SamePaddingSameValue` | NBPlatformApp/NoteRepositoryH2/src/main/java/com/rubenlaguna/en4j/noterepository/DbPstmts.java:231-235 | two hex hashes merged into one set entry by padding denote the same value |
| `HashPadding.PaddedFitsSixteenBytes` | NBPlatformApp/NoteRepositoryH2/src/main/java/com/rubenlaguna/en4j/noterepository/DbPstmts.java:238-254 | a hex hash of at most 32 digits reads back as exactly 32 digits whose value fits in 16 bytes |
| `ResourceQueries.RowWithGuid` | NBPlatformApp/NoteRepositoryH2/src/main/java/com/rubenlaguna/en4j/noterepository/DbPstmts.java:127-133 | the lookup by resource guid yields the first row of the table carrying that guid (every earlier row has another guid), and yields nothing exactly when no row carries it |
| `ResourceQueries.GetDataHash` | NBPlatformApp/NoteRepositoryH2/src/main/java/com/rubenlaguna/en4j/noterepository/DbPstmts.java:260-263 | when the first row with the guid has a hash, the call returns exactly that hash padded (at least 32 long); with no such row, or a null hash in that first row, it throws a null-pointer exception, and that is the only exception |
| `ResourceQueries.OwnedHashColumn` | NBPlatformApp/NoteRepositoryH2/src/main/java/com/rubenlaguna/en4j/noterepository/DbPstmts.java:116 | the owner query's HASH column has exactly one entry per row the note owns, holds the hash of every owned row and nothing else, and is empty exactly when the note owns none |
| `ResourceQueries.OwnedHashColumnExact` | NBPlatformApp/NoteRepositoryH2/src/main/java/com/rubenlaguna/en4j/noterepository/DbPstmts.java:116 | the owned row of rank n (the n-th owned row in table order) gives entry n of the column: one entry per owned row, in row order |
| `ResourceQueries.CollectHashes` | NBPlatformApp/NoteRepositoryH2/src/main/java/com/rubenlaguna/en4j/noterepository/DbPstmts.java:119-125 | the do-while extractor collects every row's hash from the current row to the last, in row order |
| `ResourceQueries.OwnerHashes` | NBPlatformApp/NoteRepositoryH2/src/main/java/com/rubenlaguna/en4j/noterepository/DbPstmts.java:116-125 | the owner-hash lookup is null exactly when the note owns no row, and otherwise the whole HASH column from the first row |
| `ResourceQueries.AddPadded` | NBPlatformApp/NoteRepositoryH2/src/main/java/com/rubenlaguna/en4j/noterepository/DbPstmts.java:231-235 | the loop adds the padded form of each hash to the set, returns iff no hash is null, and grows the set by at most one entry per hash |
| `ResourceQueries.GetResources` | NBPlatformApp/NoteRepositoryH2/src/main/java/com/rubenlaguna/en4j/noterepository/DbPstmts.java:226-236 | empty (not null) when the note owns nothing; returns iff every owned row has a hash, and then is exactly the set of padded owned hashes, no larger than the number of rows; otherwise a null-pointer exception |
| `ResourceQueries.ResourcesAreNormalised` | NBPlatformApp/NoteRepositoryH2/src/main/java/com/rubenlaguna/en4j/noterepository/DbPstmts.java:231-235 | every hash in a note's resource set is at least 32 long and already normalised |
| `ResourceQueries.DataHashAmongOwnerResources` | NBPlatformApp/NoteRepositoryH2/src/main/java/com/rubenlaguna/en4j/noterepository/DbPstmts.java:226-263 | the hash read for one resource is an element of the resource set of the note that owns it |
| `ResourceQueries.LegacyAndPaddedCollapse` | NBPlatformApp/NoteRepositoryH2/src/main/java/com/rubenlaguna/en4j/noterepository/DbPstmts.java:231-235 | a legacy short hash and its padded form under one note give a one-element resource set |
| `Lifecycle.DeclaredOwnsEveryStatementOnce` | NBPlatformApp/NoteRepositoryH2/src/main/java/com/rubenlaguna/en4j/noterepository/DbPstmts.java:51-67 | the cache owns 17 statement fields, one per lookup, no lookup twice |
| `Lifecycle.Construct` | NBPlatformApp/NoteRepositoryH2/src/main/java/com/rubenlaguna/en4j/noterepository/DbPstmts.java:69-202 | a new cache object owns one open handle per declared statement, in field order |
| `Lifecycle.ReleaseAll` | NBPlatformApp/NoteRepositoryH2/src/main/java/com/rubenlaguna/en4j/noterepository/DbPstmts.java:324-347 | the handle count is kept, an object owning exactly the declared statements still owns them, and a count of n releases on every handle becomes n + 1 on every handle |
| `Lifecycle.GetInstance` | NBPlatformApp/NoteRepositoryH2/src/main/java/com/rubenlaguna/en4j/noterepository/DbPstmts.java:354-367 | closed: throws an illegal-state error and changes nothing; an existing instance is returned as is; otherwise a new object is constructed, becomes the instance and is returned; a failed construction returns null and keeps nothing |
| `Lifecycle.GetInstanceThenSame` | NBPlatformApp/NoteRepositoryH2/src/main/java/com/rubenlaguna/en4j/noterepository/DbPstmts.java:354-362 | once an instance has been handed out, the next getInstance returns the same object and changes nothing |
| `Lifecycle.Close` | NBPlatformApp/NoteRepositoryH2/src/main/java/com/rubenlaguna/en4j/noterepository/DbPstmts.java:316-348 | already closed: nothing changes; otherwise the cache is closed, the instance forgotten, every statement of the closing object released and every other object untouched |
| `Lifecycle.CloseIdempotent` | NBPlatformApp/NoteRepositoryH2/src/main/java/com/rubenlaguna/en4j/noterepository/DbPstmts.java:316-320 | a second close has no effect |
| `Lifecycle.InitValid` | NBPlatformApp/NoteRepositoryH2/src/main/java/com/rubenlaguna/en4j/noterepository/DbPstmts.java:49-50 | program start (no instance, not closed) satisfies the cache invariant |
| `Lifecycle.Step` | NBPlatformApp/NoteRepositoryH2/src/main/java/com/rubenlaguna/en4j/noterepository/DbPstmts.java:316-367 | every call keeps the cache invariant (at most one object, open while current, all released once after close); once closed nothing changes and getInstance throws; a handed-out instance is always object 0 |
| `Lifecycle.RunKeepsValid` | NBPlatformApp/NoteRepositoryH2/src/main/java/com/rubenlaguna/en4j/noterepository/DbPstmts.java:316-367 | the cache invariant holds after any sequence of getInstance and close calls |
| `Lifecycle.OnlyOneInstance` | NBPlatformApp/NoteRepositoryH2/src/main/java/com/rubenlaguna/en4j/noterepository/DbPstmts.java:354-362 | in any sequence of calls, every instance getInstance hands out is the same single object |
| `Lifecycle.ClosedStaysClosed` | NBPlatformApp/NoteRepositoryH2/src/main/java/com/rubenlaguna/en4j/noterepository/DbPstmts.java:316-320 | once closed, no sequence of calls changes the state |
| `Lifecycle.ClosedIsFinal` | NBPlatformApp/NoteRepositoryH2/src/main/java/com/rubenlaguna/en4j/noterepository/DbPstmts.java:354-357 | once closed, every getInstance in any later sequence throws an illegal-state error |
| `Lifecycle.RunSplit` | NBPlatformApp/NoteRepositoryH2/src/main/java/com/rubenlaguna/en4j/noterepository/DbPstmts.java:316-367 | running a sequence of calls is running its first part and then the rest from where it left the cache |
| `Lifecycle.UseAfterClose` | NBPlatformApp/NoteRepositoryH2/src/main/java/com/rubenlaguna/en4j/noterepository/DbPstmts.java:316-357 | after any close has returned, every later getInstance in the same run throws an illegal-state error |
| `Lifecycle.NoDoubleRelease` | NBPlatformApp/NoteRepositoryH2/src/main/java/com/rubenlaguna/en4j/noterepository/DbPstmts.java:316-347 | from program start, however often close is called, no statement is released more than once |
| `Lifecycle.CloseReleasesEverything` | NBPlatformApp/NoteRepositoryH2/src/main/java/com/rubenlaguna/en4j/noterepository/DbPstmts.java:321-347 | the first close releases every one of the 17 statements exactly once |
| `DataDrain.ReadCount` | NBPlatformApp/NoteRepositoryH2/src/main/java/com/rubenlaguna/en4j/noterepository/DbPstmts.java:275-276 | a read into the cleared buffer delivers at least one byte and no more than the 32000-byte buffer or what is left |
| `DataDrain.GetData` | NBPlatformApp/NoteRepositoryH2/src/main/java/com/rubenlaguna/en4j/noterepository/DbPstmts.java:269-286 | the result is the whole stream in order, written in chunks of 1 to 32000 bytes; with a stream, it is null exactly when the failing read is one of the reads the stream's read sizes force (`DataReads`) or the end-of-stream read after them; with no stream, null |

## Left out

- The single-column getters (`getTitle`, `getSourceurl`, `getCreated`, `getUpdated`, `getGuid`, `getContentAsReader`, `getDataAsInputStream`, `getFilename`, `getMime`, `getNoteguid`, `getRecognition`): each only returns what one statement wrapper returns.
- The four getters that return a primitive (`getUpdateSequenceNumber`, `getDataLength`, `getUpdateSequenceNumberForResource`, `isActive`): they unbox the wrapper's result, so a missing row makes them throw a null-pointer exception rather than answer absent; that unboxing exception is not modelled.
- JDBC and SQL: connections, statements, result sets and blobs become a table of rows, an optional stream and the `prepareSucceeds` flag; the SQL text is not modelled, and `PreparedStatementWrapper` is not part of this model.
- A construction that fails after some statements were prepared leaks them; the model only records that `getInstance` then returns null and keeps nothing.
- Synchronisation: `close` locks the object and `getInstance` locks the class, two different monitors; the model is sequential.
- Java reflection in `close`: replaced by the explicit list of the 17 statement fields; the reflective access exceptions it logs cannot arise with that list.
- Logging, `Exceptions.printStackTrace`, `Date` and `Reader` values, and the installer's connection.
- HashPadding.Padded: lengths count characters (Unicode scalar values), while Java's `String.length()` counts UTF-16 code units; the two differ only for characters outside the Basic Multilingual Plane, which a hex hash never contains.
- ResourceQueries.GetResources: the result is a set; that the empty answer is an immutable empty list and a non-empty one a mutable hash set is not modelled.
- ResourceQueries.OwnedHashColumn: its own contract gives the entry count and membership both ways; the entry-by-rank shape (row order) is stated by `ResourceQueries.OwnedHashColumnExact` instead, because with both sets of quantifiers on the function the solver loops.
- Lifecycle.ReleaseAll: the order in which the statements are closed is not modelled; the reflective field scan promises no order either.
- DataDrain.GetData: which read sizes a real stream produces and where an I/O error strikes are inputs (`offer`, `failingRead`), not derived from a stream implementation; a blob whose DATA is SQL NULL fails inside the wrapper, which is not part of this model.
- Lifecycle.Step: a `close` on a reference no constructor ever returned cannot be written in Java; the call sequences answer it with `NoSuchObject` and change nothing.
