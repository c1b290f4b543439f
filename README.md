# sakdb core in Dafny

sakdb stores an object graph in a versioned text repository. This project
models its record layer and its session bookkeeping, and proves properties
of them.

- **Field records** (`sakdb/sakdb_fields.py`, module `SakDbFields`). A record
  is an ordered list of fields `(ts, key, crc, payload)`.
  - `sakdb_dumps` writes one line per field: a compact JSON header, `&`, then
    the JSON payload. It refuses a header that contains `&`.
  - `sakdb_loads` reads that text back.
  - `merge` takes the union of both sides' keys in ascending order. Per key it
    keeps the strictly newer field, and on a tie it keeps `theirs`.
  - The JSON the codec prints and parses is modelled concretely in module
    `Json`: strings with `ensure_ascii` escapes, integers, and flat objects
    with either separator style. The Python string operations it relies on
    are in module `Text`: `splitlines`, `strip`, `"\n".join`, `split(sep, 1)`,
    `startswith`, and `<` on strings.
- **Storage bookkeeping** (`sakdb/sakdb_storage.py` without the git
  subclass). Module `StorageRules` holds the value-level rules. Module
  `SakDbStorage` holds the classes that change state.
  - `StorageRules` covers:
    - the sharded object path;
    - the repository version check;
    - the timestamp carry-over of a staged write;
    - the flattening of an attribute (scalar, list or dict) into the fields of
      the object's `meta` record, and the way it is read back.
  - `SakDbStorage` has one Dafny class per Python class. Each keeps the fields
    the Python methods update: `Graph`, `Session`, `SessionChanges`,
    `Namespace` and `DbObject`.
  - The namespace backend is abstract in the source. Here it is a map `store`
    from path to text, plus a `log` of the session hooks called on it (start,
    commit, rollback, close), in order.
- **Legacy codec** (`data_field.py`, module `DataField`). An earlier version of
  the record codec:
  - the first line is a type header;
  - the separator is `" || "`;
  - merge takes its result type from `theirs`, otherwise from `ours`;
  - merge visits keys in set order. That order is a parameter of the model,
    and the lemmas hold for every order.

What the code does, and the model with it:
- merge is per-field last-writer-wins and never flags a conflict;
- there is no manifest;
- leaving a session scope without an exception flushes the staged records
  and closes the backend session;
- a second `session()` fails at once.

## Model

| member | source | states |
|---|---|---|
| SakDbFields.PayloadMd5 | sakdb/sakdb_fields.py:10-12 | the digest text is `md5:` followed by 32 lower-case hex digits, so it never contains the payload separator |
| SakDbFields.PayloadMd5Injective | sakdb/sakdb_fields.py:10-12 | two payloads of at most fifteen characters below code 256 get the same digest exactly when they are equal |
| SakDbFields.NewField | sakdb/sakdb_fields.py:21-44 | payload, ts and key are the ones given; crc is the given crc, or the payload's digest when none is given |
| SakDbFields.DefaultCrcDeterministic | sakdb/sakdb_fields.py:40-44 | two fields built from equal payloads without a crc get equal crcs, whatever their keys and timestamps |
| SakDbFields.GetByKey | sakdb/sakdb_fields.py:53-57 | none exactly when no field has the key; otherwise a field with the key that no earlier field shares |
| SakDbFields.GetByKeyAt | sakdb/sakdb_fields.py:53-57 | the field at an index whose key no earlier field has is the one found for that key |
| SakDbFields.GetKeys | sakdb/sakdb_fields.py:59-63 | the keys in field order, one per field; a key is listed exactly when `get_by_key` finds it |
| SakDbFields.Fields.DropByKeyPrefix | sakdb/sakdb_fields.py:65-67 | the loop leaves in `fields` exactly `WithoutKeyPrefix` of the old fields |
| SakDbFields.WithoutKeyPrefixMembers | sakdb/sakdb_fields.py:66 | a field is kept exactly when it was present and its key does not start with the prefix |
| SakDbFields.WithoutKeyPrefixAppend | sakdb/sakdb_fields.py:66 | the filter distributes over concatenation, so kept fields stay in their original order |
| SakDbFields.WithoutKeyPrefixKeeps | sakdb/sakdb_fields.py:66 | a record where no key has the prefix is returned unchanged |
| SakDbFields.WithoutKeyPrefixIdempotent | sakdb/sakdb_fields.py:65-67 | dropping a prefix twice is the same as dropping it once |
| SakDbFields.SortedUnique | sakdb/sakdb_fields.py:130-131 | `sorted(set(keys))`: strictly ascending, with exactly the members of its input |
| SakDbFields.StrictlySortedUnique | sakdb/sakdb_fields.py:131 | two strictly ascending lists with the same members are equal, so the merge order is determined |
| SakDbFields.Winner | sakdb/sakdb_fields.py:135-144 | the chosen field is absent only when both sides lack the key, and is otherwise one of the two sides' fields |
| SakDbFields.MergeBothKeys | sakdb/sakdb_fields.py:147-164 | the merged record lists each key once, in strictly ascending order; its keys are exactly the union of both sides' keys |
| SakDbFields.MergeBothLookup | sakdb/sakdb_fields.py:150-164 | per key, the merged field is ours only when ours is strictly newer, and theirs on a tie or when ours lacks the key |
| SakDbFields.SortedRecordUnique | sakdb/sakdb_fields.py:147-164 | two key-sorted records that agree on every key lookup are equal |
| SakDbFields.MergeBothSymmetric | sakdb/sakdb_fields.py:155-160 | when no shared key has equal timestamps on both sides, swapping ours and theirs gives the same record |
| SakDbFields.MergeBothIdempotent | sakdb/sakdb_fields.py:147-164 | merging a key-sorted record with itself returns it unchanged |
| SakDbFields.MergeCases | sakdb/sakdb_fields.py:117-174 | both sides present: the sorted union, with or without a base; one side and no base: that side unchanged; a base with a side missing, or both sides missing: empty |
| SakDbFields.HeaderSeparator | sakdb/sakdb_fields.py:101-106 | a header contains `&` exactly when the field's key or crc does |
| SakDbFields.DumpLinesOk | sakdb/sakdb_fields.py:98-111 | when no header is refused, there is one `header & payload` line per field, in field order |
| SakDbFields.DumpsFails | sakdb/sakdb_fields.py:97-114 | dumping fails exactly when some field's key or crc contains `&` |
| SakDbFields.Loads | sakdb/sakdb_fields.py:70-94 | a record that is loaded always has at least one field |
| SakDbFields.LoadLines | sakdb/sakdb_fields.py:73-92 | an empty result comes only from text whose lines are all blank |
| SakDbFields.LoadLinesFailsAt | sakdb/sakdb_fields.py:73-81 | one non-blank line that does not parse makes the whole load fail |
| SakDbFields.LoadsDumpsEmpty | sakdb/sakdb_fields.py:70-114 | the empty record dumps to `"\n"`, and loading that text gives no record |
| SakDbFields.RoundTrip | sakdb/sakdb_fields.py:70-114 | a non-empty record that dumps without error loads back as the same fields, in the same order |
| Json.ObjectRoundTrip | sakdb/sakdb_fields.py:101-103 | a flat JSON object printed with compact or default separators parses back to the same members |
| Json.LoadsQuote | sakdb/sakdb_fields.py:104 | a string printed as a JSON literal parses back to itself |
| Json.LoadsScalarText | sakdb/sakdb_storage.py:953-955 | an int or str value printed as JSON parses back to itself |
| Json.ObjectTextNoBreak | sakdb/sakdb_fields.py:101-103 | a printed header never contains a line break, so it stays on one line |
| Text.SplitOnce | sakdb/sakdb_fields.py:78 | `split(sep, 1)`: none exactly when the separator is absent; otherwise the head, then the separator, then the tail, with no separator in the head |
| Text.SplitJoinTerminated | sakdb/sakdb_fields.py:114 | `splitlines` of non-empty, newline-free lines joined with a trailing newline gives back those lines |
| DataField.DumpsLayout | data_field.py:103-115 | the dump's lines are the type header, then one line per field in field order |
| DataField.LoadFrom | data_field.py:71-100 | text made only of blank lines loads as no record |
| DataField.LoadsEmpty | data_field.py:71-100 | the empty text loads as no record |
| DataField.LoadsStopsWithoutType | data_field.py:79-84 | when the first non-blank line is an object without `"t"`, loading stops with no record |
| DataField.TypeHeaderOf | data_field.py:80-82 | a type header line gives back its type name |
| DataField.DumpsNotReadable | data_field.py:103-115 | a field whose key is the separator itself (space, two bars, space) is dumped without complaint, but the dump does not load back |
| DataField.DumpsCheckedWithoutBar | data_field.py:103-115 | the checked dump agrees with the plain dump when no key or crc contains a bar |
| DataField.RoundTrip | data_field.py:71-115 | a record whose checked dump succeeds loads back with the same type name and the same fields, in order |
| DataField.MergeFields | data_field.py:131-148 | one field per key visited, each with that key, in the order the keys are visited |
| DataField.MergeFieldsLookup | data_field.py:133-148 | the merged keys are distinct; per key, ours only when strictly newer, otherwise theirs |
| DataField.MergeOrderIrrelevant | data_field.py:133-135 | any two enumerations of the key set give the same set of fields |
| DataField.MergeFieldsSorted | data_field.py:131-148 | visiting keys in ascending order gives exactly the later `merge` of `sakdb_fields.py` |
| DataField.Merge | data_field.py:118-165 | fails exactly when both sides are missing; the type name is theirs when theirs is present, otherwise ours |
| DataField.MergeCases | data_field.py:129-154 | both sides and no base: the key-wise merge; one side and no base: that side; a base and any side: no fields |
| StorageRules.ObjectPath | sakdb/sakdb_storage.py:297-307 | fails with ShortKey exactly when the key is shorter than four characters (Python's IndexError) |
| StorageRules.ObjectPathInjective | sakdb/sakdb_storage.py:297-307 | distinct namespace, key or data name give distinct paths, so `read` and `write` address one record per triple |
| StorageRules.ObjectPathApart | sakdb/sakdb_storage.py:297-311 | an object path lies under its namespace and never equals a metadata path |
| StorageRules.MetadataPath | sakdb/sakdb_storage.py:311 | the metadata path is the namespace, `metadata`, then the key |
| StorageRules.PyIntText | sakdb/sakdb_storage.py:204 | `int()` reads back every integer written in decimal |
| StorageRules.PyIntPadded | sakdb/sakdb_storage.py:204 | `int()` ignores surrounding whitespace: a space before and a newline after a decimal integer still read back as it |
| StorageRules.PyIntPlus | sakdb/sakdb_storage.py:204 | a leading `+` is accepted |
| StorageRules.PyIntUnderscore | sakdb/sakdb_storage.py:204 | a single underscore between digits is accepted: `1_0` is 10 |
| StorageRules.PyIntRefuses | sakdb/sakdb_storage.py:204 | doubled, leading or trailing underscores, a space after the sign, the empty text and `1.0` raise |
| StorageRules.ParseVersionText | sakdb/sakdb_storage.py:204-207 | a version written as three integers parses back to them |
| StorageRules.OwnVersion | sakdb/sakdb_storage.py:12 | the software version is `0.0.1`, with major component 0 |
| StorageRules.ValidateVersionMajor | sakdb/sakdb_storage.py:202-212 | a parsable version is accepted exactly when its major component is at most the software's; an unparsable one is an error |
| StorageRules.ValidateVersionExamples | sakdb/sakdb_storage.py:202-212 | `1.1.2` is refused; `0.0.1` and `-1.-1.0` are accepted |
| StorageRules.ValidateVersionRefuses | sakdb/sakdb_storage.py:204 | a version with two parts, or with a third part that is not an integer, raises |
| StorageRules.ValidateVersionPadded | sakdb/sakdb_storage.py:202-212 | components padded with whitespace parse as their integers, and the version is accepted exactly when the major one is at most 0 |
| StorageRules.InheritLookup | sakdb/sakdb_storage.py:38-47 | per key, a new field with the previous field's crc takes the previous timestamp; every other field is unchanged |
| StorageRules.InheritSelf | sakdb/sakdb_storage.py:339-348 | retiming a record against itself changes nothing |
| StorageRules.StagedWriteLookup | sakdb/sakdb_storage.py:35-49 | per key: a field with the staged crc keeps the staged field; otherwise the newer field wins, the staged field on a tie |
| StorageRules.StagedReassign | sakdb/sakdb_storage.py:35-49 | a newer field with a different short payload under the same key replaces the staged one |
| StorageRules.StagedWriteSorted | sakdb/sakdb_storage.py:49 | the staged record is key-sorted, and keys present only in the staged value survive the write |
| StorageRules.StagedWriteUnique | sakdb/sakdb_storage.py:35-49 | a value with distinct keys gives a staged record with distinct keys |
| StorageRules.ListFields | sakdb/sakdb_storage.py:930-939 | one field per list element, keyed `name:i`, with the element as JSON |
| StorageRules.DictFields | sakdb/sakdb_storage.py:940-947 | one field per dict entry, keyed `name:key`, with the value as JSON |
| StorageRules.Encode | sakdb/sakdb_storage.py:928-956 | the encoding starts with the attribute's `_name:type` field |
| StorageRules.EncodeKeys | sakdb/sakdb_storage.py:928-956 | after the type field, a scalar has the field `name`, and a list or dict has distinct `name:` item keys |
| StorageRules.EncodeUnique | sakdb/sakdb_storage.py:928-956 | all keys of an encoding are distinct |
| StorageRules.DecodeEncode | sakdb/sakdb_storage.py:854-956 | decoding an attribute's own encoding gives the attribute back, for scalars, lists and dicts with distinct keys |
| StorageRules.DictPutGet | sakdb/sakdb_storage.py:900 | a dict assignment makes the key read as the new value and leaves other keys alone |
| StorageRules.LoadEntriesLookup | sakdb/sakdb_storage.py:893-900 | the rebuilt dict holds, for each `name:x` field, x mapped to its decoded payload |
| StorageRules.DropAttrLookup | sakdb/sakdb_storage.py:961-964 | dropping an attribute removes exactly the keys starting with `_name:type` or `name:`, and keeps every other lookup |
| StorageRules.UpdateMetaShows | sakdb/sakdb_storage.py:958-967 | the new `meta` record shows the assigned value under every key the reader consults, with distinct, sorted keys |
| StorageRules.StagedShows | sakdb/sakdb_storage.py:958-969 | after the in-place drop and the staged write, the staged `meta` record still shows the assigned value |
| StorageRules.ListOrderLost | sakdb/sakdb_storage.py:876-887 | assigning the list 0..10 over an existing `meta` record does not read back as that list as written, but does with index-ordered reading |
| StorageRules.DecodeIndexedShows | sakdb/sakdb_storage.py:872-911 | a record that shows an attribute decodes, reading list items by index, to that attribute |
| StorageRules.DecodeListInOrder | sakdb/sakdb_storage.py:876-887 | a record whose item fields come in index order decodes, in field order, to the list it shows |
| StorageRules.ShortListInOrder | sakdb/sakdb_storage.py:876-887 | in a key-sorted record showing a list of at most ten items, the fields `name:0` to `name:9` come in index order |
| StorageRules.EncodeListInOrder | sakdb/sakdb_storage.py:930-939 | a list's own encoding holds its item fields in index order, however many |
| StorageRules.DecodeShows | sakdb/sakdb_storage.py:854-911 | a record showing a scalar, a dict, or a list with items in index order decodes as written to that value |
| StorageRules.SetAttrRecordShows | sakdb/sakdb_storage.py:913-969 | the staged `meta` record shows the assigned value with distinct keys; sorted unless it is the first write of the record, when it is the encoding itself |
| StorageRules.SetAttrReadBack | sakdb/sakdb_storage.py:854-969 | an assignment reads back, as `__getattribute__` is written, as the assigned value, except for a list of more than ten items over an existing record |
| StorageRules.SetAttrReadBackIndexed | sakdb/sakdb_storage.py:854-969 | with items read by index, every assignment reads back as the assigned value |
| StorageRules.MetadataFields | sakdb/sakdb_storage.py:373-376 | a metadata record is the `_type` field, then the field under the key |
| StorageRules.MetadataReadBack | sakdb/sakdb_storage.py:367-378 | after staging a metadata record, the key's field parses as the value written |
| SakDbStorage.FlushWrites | sakdb/sakdb_storage.py:59-62 | a flush that succeeds stores each staged path's dumped text and leaves other paths alone |
| SakDbStorage.FlushOwnRecords | sakdb/sakdb_storage.py:337-352 | when each path reads back its own staged record, a successful flush stores the dump of that record, which loads back as it |
| SakDbStorage.Retime | sakdb/sakdb_storage.py:339-348 | the loop over the previous fields computes `Inherit` |
| SakDbStorage.FindEntry | sakdb/sakdb_storage.py:100-103 | the change set of the named namespace, and none exactly when no change set belongs to it |
| SakDbStorage.FindEntryAppend | sakdb/sakdb_storage.py:108-110 | adding a change set makes it findable under its namespace and changes no earlier lookup |
| SakDbStorage.SessionChanges.constructor | sakdb/sakdb_storage.py:20-25 | a change set for the namespace, with nothing staged |
| SakDbStorage.SessionChanges.ClearChanges | sakdb/sakdb_storage.py:27-28 | nothing is staged afterwards |
| SakDbStorage.SessionChanges.Write | sakdb/sakdb_storage.py:35-49 | the path's staged record becomes `StagedWrite` of the old one, other paths are unchanged, and distinct keys are kept |
| SakDbStorage.SessionChanges.DropInPlace | sakdb/sakdb_storage.py:961-964 | the attribute's fields are dropped from the staged record itself, when one is staged |
| SakDbStorage.SessionChanges.ApplyChanges | sakdb/sakdb_storage.py:60-61 | the store becomes the result of flushing every staged path in order, each retimed against what the namespace read there beforehand, stopping at the first failure |
| SakDbStorage.SessionChanges.DumpToNamespace | sakdb/sakdb_storage.py:59-62 | on success nothing stays staged and each staged record is persisted; on failure the staged records are kept |
| SakDbStorage.SessionChanges.Rollback | sakdb/sakdb_storage.py:51-53 | the backend rollback is called once, the store is unchanged and nothing stays staged |
| SakDbStorage.SessionChanges.Commit | sakdb/sakdb_storage.py:55-57 | the backend commit is called once with the message and nothing stays staged |
| SakDbStorage.SessionChanges.CloseSession | sakdb/sakdb_storage.py:64-66 | the backend close is called once with the name and message, and nothing stays staged |
| SakDbStorage.Session.constructor | sakdb/sakdb_storage.py:70-80 | a session of the graph, with its name and default message, and no change sets |
| SakDbStorage.Session.OwnReads | sakdb/sakdb_storage.py:100-103 | while the session is current, a namespace reads each of its staged paths back as the staged record |
| SakDbStorage.Session.WriteToSession | sakdb/sakdb_storage.py:105-112 | the first write for a namespace calls `start_session` once; the record is staged by `StagedWrite`; every other read is unchanged |
| SakDbStorage.Session.OpenChanges | sakdb/sakdb_storage.py:108-110 | a fresh empty change set is appended for the namespace and the backend start hook is logged |
| SakDbStorage.Session.WriteEntry | sakdb/sakdb_storage.py:112 | the change set's record at the path becomes `StagedWrite` of the old one; every other read is unchanged |
| SakDbStorage.Session.DropStaged | sakdb/sakdb_storage.py:961-964 | the staged record of one namespace and path loses the attribute's fields; every other read is unchanged |
| SakDbStorage.Session.DumpAll | sakdb/sakdb_storage.py:89-92 | no hook is called; on success nothing stays staged and every staged record is persisted |
| SakDbStorage.Session.EndAll | sakdb/sakdb_storage.py:94-98 | every namespace gets the hook once, its store is unchanged and nothing stays staged |
| SakDbStorage.Session.Rollback | sakdb/sakdb_storage.py:82-87 | every namespace is rolled back once, keeps its store, and has nothing staged |
| SakDbStorage.Session.Commit | sakdb/sakdb_storage.py:89-98 | on success each namespace persisted its records and got one commit with the message or the default; on failure no hook was called |
| SakDbStorage.Session.Finish | sakdb/sakdb_storage.py:128-135 | after an exception: one rollback each; otherwise the records are persisted and each namespace is closed once, so success means every staged record could be dumped |
| SakDbStorage.Session.ExitAsWritten | sakdb/sakdb_storage.py:121-138 | the graph's session is released only when flushing succeeds; a failed flush leaves the session open |
| SakDbStorage.Session.Exit | sakdb/sakdb_storage.py:121-138 | the graph's session is released and the change sets are cleared on every exit path |
| SakDbStorage.Graph.constructor | sakdb/sakdb_storage.py:142-148 | no namespaces, no classes, no open session |
| SakDbStorage.Graph.RegisterClass | sakdb/sakdb_storage.py:165-168 | a name already registered is refused and the registry is unchanged; otherwise it is added |
| SakDbStorage.Graph.GetClass | sakdb/sakdb_storage.py:170-171 | succeeds exactly for registered names, and fails with UnknownClass otherwise |
| SakDbStorage.Graph.OpenSession | sakdb/sakdb_storage.py:179-184 | refused while a session is open; otherwise a fresh, empty session becomes the current one |
| SakDbStorage.Namespace.constructor | sakdb/sakdb_storage.py:188-200 | the namespace joins the graph unless the name is taken, and starts with no cached objects |
| SakDbStorage.Namespace.Record | sakdb/sakdb_storage.py:383-390 | a backend hook is appended to the log; store and objects are unchanged |
| SakDbStorage.Namespace.SessionApply | sakdb/sakdb_storage.py:337-352 | the record is retimed against what is read at the path and dumped there; a failed read or dump leaves the store as it was; every other path reads as before |
| SakDbStorage.Namespace.WriteSakdb | sakdb/sakdb_storage.py:324-335 | fails with NoSession outside a session; otherwise the path's staged record becomes `StagedWrite` of the old one, and nothing else read changes |
| SakDbStorage.Namespace.Read | sakdb/sakdb_storage.py:297-308 | ShortKey for a key under four characters; otherwise `read_sakdb` at the object path |
| SakDbStorage.Namespace.Write | sakdb/sakdb_storage.py:354-365 | ShortKey, NoSession, or the staged write at the object path, which `Read` then returns; no other path changes, and the start hook is logged on the namespace's first write in the session |
| SakDbStorage.Namespace.GetMetadata | sakdb/sakdb_storage.py:310-322 | a read error passes through; NoRecord when nothing is stored; NoAttribute when the record lacks the key; otherwise the key's field parsed as JSON |
| SakDbStorage.Namespace.SetMetadata | sakdb/sakdb_storage.py:367-378 | stages the `_type` and key fields and nothing else, logging the start hook on the first write; when staged fields are older, `get_metadata` then returns the value written |
| SakDbStorage.Namespace.GetVersion | sakdb/sakdb_storage.py:273-279 | the version metadata when it is a JSON string; NotAString for an integer; errors from `get_metadata` pass through |
| SakDbStorage.Namespace.ClassRecord | sakdb/sakdb_storage.py:234-243 | the payload of the `_cl` field of the object's `_cl` record, when both exist |
| SakDbStorage.Namespace.RegisterObjectAsWritten | sakdb/sakdb_storage.py:262-271 | when the key's class resolves, the recursion through `has_object` caches another, fresh object and not this one |
| SakDbStorage.Namespace.RegisterObject | sakdb/sakdb_storage.py:269-271 | the object is cached under its key unless that key is cached already |
| SakDbStorage.Namespace.GetObjectAsWritten | sakdb/sakdb_storage.py:227-271 | a loaded object is returned but is not the one left in the cache |
| SakDbStorage.Namespace.GetObject | sakdb/sakdb_storage.py:227-260 | a cached object is returned; otherwise each missing `_cl` or class error, or a fresh object of the stored class, cached and returned |
| SakDbStorage.DbObject.ClassFields | sakdb/sakdb_storage.py:842-843 | one `_cl` field holding the class name, stamped now, with its digest |
| SakDbStorage.DbObject.Save | sakdb/sakdb_storage.py:841-852 | a read error passes through; a matching `_cl` record is left alone; otherwise the class record is written and then reads back as the class; only the `_cl` path changes, and the start hook is logged on the first write |
| SakDbStorage.DbObject.GetAttr | sakdb/sakdb_storage.py:854-911 | ShortKey or a read error; NoRecord without a `meta` record; otherwise the attribute decoded from it, list items in field order |
| SakDbStorage.DbObject.GetAttrIndexed | sakdb/sakdb_storage.py:854-911 | as `GetAttr`, with list items read by index |
| SakDbStorage.DbObject.SetAttr | sakdb/sakdb_storage.py:913-971 | drops the attribute's old fields from what is read, merges in its new encoding and stages the result; no other path changes; the start hook is logged on the first write; errors pass through |
| SakDbStorage.DbObject.SetAttrReadBack | sakdb/sakdb_storage.py:854-969 | after an assignment, `__getattribute__` returns the value assigned, except a list of more than ten items over an existing record |
| SakDbStorage.DbObject.SetAttrReadBackIndexed | sakdb/sakdb_storage.py:854-969 | read by index, every assignment returns the value assigned |
| SakDbStorage.NewObject | sakdb/sakdb_storage.py:825-839 | the constructor as written: when the key's class record names a registered class, another fresh object is cached and not this one; the class record then reads back as its class |
| SakDbStorage.NewObjectCorrected | sakdb/sakdb_storage.py:825-839 | with the corrected registration, the object itself is cached unless its key is cached already |
| SakDbStorage.UndumpableRecord | sakdb/sakdb_fields.py:106-109 | a record whose dump raises (a key containing `&`) |
| SakDbStorage.StuckSessionAsWritten | sakdb/sakdb_storage.py:121-138 | after a flush fails on exit, opening a new session is refused |
| SakDbStorage.ReleasedSession | sakdb/sakdb_storage.py:121-138 | with the corrected exit, the same failing flush still lets the next session open |

## Left out

- Timestamps are integers, not floats. MD5 is replaced by a deterministic
  stand-in digest with the same `md5:` and 32-hex-digit shape: the payload's
  length, capped at 255, then its first fifteen characters, two hex digits
  each. The proofs use that it is deterministic, free of `&`, and injective on
  short payloads (`SakDbFields.PayloadMd5Injective`).
- SakDbFields.PayloadMd5: the stand-in collides where MD5 practically does
  not. Payloads longer than fifteen characters with the same length (or both
  at least 255 long) and the same first fifteen characters share a digest,
  and characters from code 256 up all count as `00`.
- New keys from `uuid.uuid4()` and the clock in `datetime.utcnow()` are
  parameters (`key`, `now`, `ts`).
- JSON covers strings, integers and flat objects only. Floats, booleans,
  `None`, nested values, `SakDbEncoder`/`SakDbDecoder` and object references
  are not modelled. A header whose `k` or `c` is not a JSON string, or a
  payload that is not one, is refused by `ParseFieldLine`, where `sakdb_loads`
  would build a field holding that value.
- StorageRules.PyInt: `int()` also accepts non-ASCII decimal digits (Arabic-Indic,
  full-width and the other Unicode `Nd` digits). The model accepts ASCII digits
  only, with the whitespace, sign and underscore rules of `int()`.
- StorageRules.ValidateVersionMajor: a version component written with
  non-ASCII decimal digits is an error here, where `int()` would read it.
- StorageRules.ValidateVersionRefuses: a third part written with non-ASCII
  decimal digits is outside what the lemma covers (it is refused here, read by
  `int()`).
- `SakDbList`/`SakDbDict` are not modelled. Their only effect is to re-assign
  the whole attribute, which `SetAttr` covers.
- `SakDbNamespaceGit` and pygit2 are not part of this model. The backend is a
  path-to-text map plus a log of the hooks called.
- `_read`/`_write` with a `branch`, and the `branch` parameter of
  `get_metadata`, are not modelled. The source ignores that parameter on the
  base class.
- Paths are component lists. `pathlib` normalisation, such as `.` or `/` inside
  a key, is not modelled.
- `add_namepace`/`register_graph` are folded into the `Namespace`
  constructor. `has_namespace_registered` is not modelled separately.
- `Graph.get_object`, `get_objects`, `get_object_keys` and `node_keys` are not
  modelled. They are loops over the namespaces' `get_object`, and `node_keys`
  is always empty on the base class.
- The `graph is None` branches are not modelled. Every namespace here has a
  graph, because the constructor registers it.
- `kwargs` in `SakDbObject.__init__` are not modelled. Each one is an
  ordinary `SetAttr`.
- `DbObject.GetAttr`, `DbObject.SetAttr`: names starting with `_`, and
  `namespace` and `key`, are plain Python attributes. They are excluded by the
  precondition `!PlainAttr(name)`.
- `SakDbStorage.Namespace.RegisterObjectAsWritten` states the net effect of the
  recursion between `get_object`, the constructor and `has_object`, which ends
  in a caught RecursionError. It does not model the recursion depth, or the
  `_save` of each nested constructor (a no-op once the class record exists).
- `StorageRules.SetAttrReadBack`, `SakDbStorage.DbObject.SetAttrReadBack`,
  `SakDbStorage.Namespace.SetMetadata` and `SakDbStorage.DbObject.Save` prove the read-back only
  when the staged field under the key is older than `now`. A field with an
  equal or newer timestamp wins the merge, as the source does. The proofs
  also need the old field's digest to differ from the new payload's unless
  it holds that very payload; `StorageRules.StagedReassign` shows the stand-in
  digest meets this for short payloads.
- `StorageRules.DecodeEncode` needs `:` absent from the attribute name, and
  distinct dict keys. Names with `:` make item keys ambiguous in the source
  too.
- `SakDbStorage.Session.Commit`, `SakDbStorage.Session.Finish`: persistence is
  stated for a session that is its graph's current session with distinct keys
  per staged record. Otherwise a namespace may read another session's staged
  values while flushing.
- Retiming inside `session_apply_sakdb` reads the staged record itself while
  the session is open, so it changes nothing (`StorageRules.InheritSelf`). The
  in-place timestamp writes on that aliased record are modelled by value.
- `data_storage.py`, `todolist_example.py`, `setup.py` and
  `sakdb/__init__.py` are not part of this model.

## Findings

| source | as written | input that shows it | evidently intended | confidence | as-written member | corrected member |
|---|---|---|---|---|---|---|
| sakdb/sakdb_storage.py:128-138 | `__exit__` releases `current_session` only after every change set has been flushed and closed; a flush that raises skips the release | a session that staged a record with `&` in a key, then left without an exception | the session is released on every exit path | not executed | SakDbStorage.StuckSessionAsWritten | SakDbStorage.ReleasedSession |
| data_field.py:103-115 | `data_object_dumps` joins header and payload with the bar separator without checking the header | a field whose key is the separator (space, two bars, space) | refuse such a header, as `sakdb_dumps` does for `&` | not executed | DataField.DumpsNotReadable | DataField.RoundTrip |
| sakdb/sakdb_storage.py:876-887 | a list is rebuilt in the record's field order, which `merge` sorts by key string | assigning `list(range(11))` to an attribute of an object whose `meta` record exists: `name:10` sorts before `name:2` | items read back in index order | not executed | StorageRules.ListOrderLost | SakDbStorage.DbObject.SetAttrReadBackIndexed |
| sakdb/sakdb_storage.py:227-271 | `register_object` asks `has_object`, which calls `get_object`, which constructs and registers again, recursing until a RecursionError | `get_object` of a stored key not yet cached | `register_object` caches the object unless its key is cached | not executed | SakDbStorage.Namespace.GetObjectAsWritten | SakDbStorage.Namespace.GetObject |
| sakdb/sakdb_storage.py:834 | the constructor registers itself through `register_object`, whose `has_object` probe builds and caches another object when the key's class record names a registered class | constructing an object for a key whose `_cl` record exists and names a registered class, while the key is not cached | the object being constructed is the one cached | not executed | SakDbStorage.NewObject | SakDbStorage.NewObjectCorrected |
