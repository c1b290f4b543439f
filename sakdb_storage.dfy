/**
 * The object graph of sakdb: a registry of classes and the one open session;
 * sessions staging records per namespace and path; namespaces that read a
 * path from the session before their backend store and flush staged records
 * into it; and objects whose attributes live in their "meta" record.
 *
 * The backend of a namespace (the git subclass) is abstract here: what it
 * stores is a map from path to text, and the calls a session makes into it
 * (start, commit, rollback, close) are recorded in order.
 */
module SakDbStorage {
  import opened Wrappers
  import SakDbFields
  import StorageRules
  import Json
  import Text

  type Field = SakDbFields.Field
  type Path = StorageRules.Path

  /** A call of the session into the namespace backend. */
  datatype Hook =
    | StartHook(session: string)
    | CommitHook(msg: string)
    | RollbackHook
    | CloseHook(session: string, msg: string)

  // ---------------------------------------------------------------- flushing staged records

  /** `session_apply_sakdb` for one record: retimed against what was read there, then dumped. */
  function FlushRecord(prev: Result<Option<seq<Field>>>, value: seq<Field>): (r: Result<string>)
    ensures prev.Fail? ==> r == Fail(prev.error)
  {
    match prev
    case Fail(e) => Fail(e)
    case Ok(None) => SakDbFields.Dumps(value)
    case Ok(Some(p)) => SakDbFields.Dumps(StorageRules.Inherit(p, value))
  }

  /** What flushing leaves: the store, and the error that stopped it, if one did. */
  datatype Flushed = Flushed(store: map<Path, string>, failure: Option<Error>)

  /**
   * `dump_to_namespace`: the staged records flushed in insertion order, each
   * retimed against `prevs` (what the namespace read at that path), stopping
   * at the first record that fails.
   */
  function Flush(store: map<Path, string>, paths: seq<Path>, changes: map<Path, seq<Field>>,
                 prevs: map<Path, Result<Option<seq<Field>>>>): (r: Flushed)
    requires forall i :: 0 <= i < |paths| ==> paths[i] in changes && paths[i] in prevs
    decreases |paths|
  {
    if paths == [] then Flushed(store, None)
    else
      match FlushRecord(prevs[paths[0]], changes[paths[0]])
      case Fail(e) => Flushed(store, Some(e))
      case Ok(text) => Flush(store[paths[0] := text], paths[1..], changes, prevs)
  }

  /** One turn of the flush: the record at `paths[i]` dumped into the store, or the flush stopped there. */
  lemma FlushStep(store: map<Path, string>, paths: seq<Path>, i: nat, changes: map<Path, seq<Field>>,
                  prevs: map<Path, Result<Option<seq<Field>>>>)
    requires i < |paths|
    requires forall j :: 0 <= j < |paths| ==> paths[j] in changes && paths[j] in prevs
    ensures var t := FlushRecord(prevs[paths[i]], changes[paths[i]]);
            Flush(store, paths[i..], changes, prevs) ==
              if t.Fail? then Flushed(store, Some(t.error))
              else Flush(store[paths[i] := t.value], paths[i + 1..], changes, prevs)
  {
    assert paths[i..][1..] == paths[i + 1..];
  }

  /**
   * A completed flush writes each flushed path with its record's text and
   * leaves every other path of the store as it was.
   */
  lemma {:induction false} FlushWrites(store: map<Path, string>, paths: seq<Path>, changes: map<Path, seq<Field>>,
                                        prevs: map<Path, Result<Option<seq<Field>>>>)
    requires forall i :: 0 <= i < |paths| ==> paths[i] in changes && paths[i] in prevs
    requires forall i, j :: 0 <= i < j < |paths| ==> paths[i] != paths[j]
    ensures var f := Flush(store, paths, changes, prevs);
            f.failure.None? ==>
              (forall i :: 0 <= i < |paths| ==>
                 FlushRecord(prevs[paths[i]], changes[paths[i]]).Ok?
                 && paths[i] in f.store && f.store[paths[i]] == FlushRecord(prevs[paths[i]], changes[paths[i]]).value)
              && (forall p :: p !in paths ==> (p in f.store <==> p in store) && (p in store ==> f.store[p] == store[p]))
    decreases |paths|
  {
    if paths != [] {
      var rest := paths[1..];
      assert forall i, j :: 0 <= i < j < |rest| ==> rest[i] != rest[j] by {
        forall i, j | 0 <= i < j < |rest| ensures rest[i] != rest[j] {
          assert rest[i] == paths[i + 1] && rest[j] == paths[j + 1];
        }
      }
      match FlushRecord(prevs[paths[0]], changes[paths[0]])
      case Fail(e) =>
      case Ok(text) =>
        FlushWrites(store[paths[0] := text], rest, changes, prevs);
        forall i | 1 <= i < |paths| ensures paths[i] == rest[i - 1] && paths[i] != paths[0] {
        }
    }
  }

  /**
   * When every path reads back its own staged record, and those records have
   * distinct keys, flushing writes each staged record's dump unretimed, which
   * loads back as that very record.
   */
  lemma FlushOwnRecords(store: map<Path, string>, paths: seq<Path>, changes: map<Path, seq<Field>>,
                        prevs: map<Path, Result<Option<seq<Field>>>>)
    requires forall i :: 0 <= i < |paths| ==> paths[i] in changes && paths[i] in prevs
    requires forall i, j :: 0 <= i < j < |paths| ==> paths[i] != paths[j]
    requires forall i :: 0 <= i < |paths| ==>
               prevs[paths[i]] == Ok(Some(changes[paths[i]])) && StorageRules.UniqueKeys(changes[paths[i]])
    ensures var f := Flush(store, paths, changes, prevs);
            f.failure.None? ==>
              forall i :: 0 <= i < |paths| ==>
                SakDbFields.Dumps(changes[paths[i]]).Ok? && paths[i] in f.store
                && f.store[paths[i]] == SakDbFields.Dumps(changes[paths[i]]).value
                && (changes[paths[i]] != [] ==> SakDbFields.Loads(f.store[paths[i]]) == Ok(Some(changes[paths[i]])))
  {
    FlushWrites(store, paths, changes, prevs);
    forall i | 0 <= i < |paths| ensures StorageRules.Inherit(changes[paths[i]], changes[paths[i]]) == changes[paths[i]] {
      StorageRules.InheritSelf(changes[paths[i]]);
    }
    forall i | 0 <= i < |paths| && changes[paths[i]] != [] && SakDbFields.Dumps(changes[paths[i]]).Ok?
      ensures SakDbFields.Loads(SakDbFields.Dumps(changes[paths[i]]).value) == Ok(Some(changes[paths[i]]))
    {
      SakDbFields.RoundTrip(changes[paths[i]]);
    }
  }

  /**
   * The timestamp loop of `SakDbSessionChanges.write` and `session_apply_sakdb`:
   * each previous field, in order, hands its timestamp to the first new field
   * with its key when the crcs agree.
   */
  method Retime(prev: seq<Field>, value: seq<Field>) returns (retimed: seq<Field>)
    ensures retimed == StorageRules.Inherit(prev, value)
  {
    retimed := value;
    var i := 0;
    while i < |prev|
      invariant 0 <= i <= |prev|
      invariant retimed == StorageRules.Inherit(prev[..i], value)
    {
      assert prev[..i + 1][..i] == prev[..i];
      var p := prev[i];
      var j := SakDbFields.KeyIndexFrom(retimed, p.key, 0);
      if j.Some? && retimed[j.value].crc == p.crc {
        retimed := retimed[j.value := retimed[j.value].(ts := p.ts)];
      }
      i := i + 1;
    }
    assert prev[..i] == prev;
  }

  /** The store holds the record's dump at the path, which loads back as the record when it has fields. */
  predicate Persisted(store: map<Path, string>, path: Path, record: seq<Field>) {
    path in store && SakDbFields.Dumps(record).Ok? && store[path] == SakDbFields.Dumps(record).value
    && (record != [] ==> SakDbFields.Loads(store[path]) == Ok(Some(record)))
  }

  /** What a namespace reads at a path: the staged record, else the stored text loaded, else nothing. */
  function ReadFrom(staged: Option<seq<Field>>, store: map<Path, string>, path: Path): (r: Result<Option<seq<Field>>>)
  {
    if staged.Some? then Ok(staged)
    else if path !in store then Ok(None)
    else SakDbFields.Loads(store[path])
  }

  lemma {:induction false} FindEntryUnique(entries: seq<SessionChanges>, i: nat)
    requires i < |entries|
    requires forall a, b :: 0 <= a < b < |entries| ==> entries[a].namespace.name != entries[b].namespace.name
    ensures FindEntry(entries, entries[i].namespace.name) == Some(i)
  {
    if i > 0 {
      FindEntryUnique(entries[1..], i - 1);
    }
  }

  /** `msg or self.default_msg`: an absent or empty message falls back to the default. */
  function CommitMessage(msg: Option<string>, default: string): string {
    if msg.Some? && msg.value != "" then msg.value else default
  }

  /** The index of the change set kept for namespace `name`, if there is one. */
  function FindEntry(entries: seq<SessionChanges>, name: string): (r: Option<nat>)
    ensures r.Some? ==> r.value < |entries| && entries[r.value].namespace.name == name
    ensures r.None? <==> forall i :: 0 <= i < |entries| ==> entries[i].namespace.name != name
  {
    if entries == [] then None
    else if entries[0].namespace.name == name then Some(0)
    else match FindEntry(entries[1..], name)
      case None => None
      case Some(i) => Some(i + 1)
  }

  // ---------------------------------------------------------------- SakDbSessionChanges

  /** The records a session stages for one namespace, by path. */
  class SessionChanges {
    const namespace: Namespace
    var changes: map<Path, seq<Field>>
    /** The paths of `changes` in insertion order, the order the dict iterates them. */
    var paths: seq<Path>

    ghost predicate Valid()
      reads this
    {
      (forall i, j :: 0 <= i < j < |paths| ==> paths[i] != paths[j])
      && (forall p :: p in changes <==> p in paths)
    }

    constructor(namespace: Namespace)
      ensures this.namespace == namespace && changes == map[] && paths == [] && Valid()
    {
      this.namespace := namespace;
      changes := map[];
      paths := [];
    }

    function Read(path: Path): (r: Option<seq<Field>>)
      reads this
    {
      if path in changes then Some(changes[path]) else None
    }

    method ClearChanges()
      modifies this
      ensures changes == map[] && paths == [] && Valid()
    {
      changes := map[];
      paths := [];
    }

    /** Every staged record has distinct keys. */
    ghost predicate UniqueRecords()
      reads this
    {
      forall p :: p in changes ==> StorageRules.UniqueKeys(changes[p])
    }

    /**
     * `write`: the new record takes the staged timestamps where its crc is
     * unchanged, then is merged over what was staged.
     */
    method Write(path: Path, value: seq<Field>)
      requires Valid()
      modifies this
      ensures Valid()
      ensures changes == old(changes)[path := StorageRules.StagedWrite(old(Read(path)), value)]
      ensures paths == if path in old(changes) then old(paths) else old(paths) + [path]
      ensures old(UniqueRecords()) && StorageRules.UniqueKeys(value) ==> UniqueRecords()
    {
      var previous := Read(path);
      if StorageRules.UniqueKeys(value) {
        StorageRules.StagedWriteUnique(previous, value);
      }
      var retimed := value;
      if previous.Some? {
        retimed := Retime(previous.value, value);
      }
      var merged := SakDbFields.Merge(None, Some(retimed), previous);
      if path !in changes {
        paths := paths + [path];
      }
      changes := changes[path := merged];
    }

    /**
     * `drop_by_key_prefix` applied to a record `read` handed out: the record
     * is the staged one itself, so the attribute's fields leave the change set.
     */
    method DropInPlace(path: Path, attr: string)
      requires Valid()
      modifies this
      ensures Valid() && paths == old(paths)
      ensures changes == if path in old(changes) then old(changes)[path := StorageRules.DropAttr(old(changes)[path], attr)]
                         else old(changes)
    {
      if path in changes {
        changes := changes[path := StorageRules.DropAttr(changes[path], attr)];
      }
    }

    /** What the namespace reads at each staged path, before anything is flushed. */
    ghost function Prevs(): map<Path, Result<Option<seq<Field>>>>
      reads this, namespace, namespace.graph, namespace.graph.currentSession
      reads if namespace.graph.currentSession == null then [] else namespace.graph.currentSession.sessionChanges
    {
      map p | p in changes :: namespace.ReadSakdb(p)
    }

    /**
     * The namespace reads every staged path back from this very change set,
     * as it does while the session that holds it is open, and each staged
     * record has distinct keys.
     */
    ghost predicate ReadsOwn()
      reads this, namespace, namespace.graph, namespace.graph.currentSession
      reads if namespace.graph.currentSession == null then [] else namespace.graph.currentSession.sessionChanges
    {
      forall p :: p in changes ==>
        namespace.ReadSakdb(p) == Ok(Some(changes[p])) && StorageRules.UniqueKeys(changes[p])
    }

    /** `dump_to_namespace`: every staged record flushed to the namespace, then the change set emptied. */
    method DumpToNamespace(msg: string, ghost own: bool) returns (r: Result<()>)
      requires Valid()
      requires own ==> ReadsOwn()
      modifies namespace
      modifies this
      ensures Valid()
      ensures r.Ok? ==> changes == map[] && paths == []
      ensures r.Fail? ==> changes == old(changes) && paths == old(paths)
      ensures namespace.log == old(namespace.log) && namespace.objects == old(namespace.objects)
      ensures own && r.Ok? ==>
                forall p :: p in old(changes) ==> Persisted(namespace.store, p, old(changes)[p])
    {
      ghost var prevs := Prevs();
      ghost var store0 := namespace.store;
      r := ApplyChanges(prevs);
      if own && r.Ok? {
        FlushOwnRecords(store0, paths, changes, prevs);
        forall p | p in changes ensures Persisted(namespace.store, p, changes[p]) {
          var i :| 0 <= i < |paths| && paths[i] == p;
        }
      }
      if r.Ok? {
        ClearChanges();
      }
    }

    /** The loop of `dump_to_namespace`: each staged record applied to the namespace in turn. */
    method ApplyChanges(ghost prevs: map<Path, Result<Option<seq<Field>>>>) returns (r: Result<()>)
      requires Valid()
      requires forall j :: 0 <= j < |paths| ==> paths[j] in prevs && namespace.ReadSakdb(paths[j]) == prevs[paths[j]]
      modifies namespace
      ensures var f := Flush(old(namespace.store), paths, changes, prevs);
              namespace.store == f.store && (r.Fail? <==> f.failure.Some?)
      ensures namespace.log == old(namespace.log) && namespace.objects == old(namespace.objects)
    {
      ghost var store0 := namespace.store;
      var i := 0;
      while i < |paths|
        modifies namespace
        invariant 0 <= i <= |paths|
        invariant namespace.log == old(namespace.log) && namespace.objects == old(namespace.objects)
        invariant Flush(namespace.store, paths[i..], changes, prevs) == Flush(store0, paths, changes, prevs)
        invariant forall j :: i <= j < |paths| ==> namespace.ReadSakdb(paths[j]) == prevs[paths[j]]
      {
        var p := paths[i];
        FlushStep(namespace.store, paths, i, changes, prevs);
        var done := namespace.SessionApply(p, changes[p]);
        if done.Fail? {
          return Fail(done.error);
        }
        i := i + 1;
      }
      r := Ok(());
    }

    method Rollback()
      modifies this, namespace
      ensures changes == map[] && paths == [] && Valid()
      ensures namespace.log == old(namespace.log) + [RollbackHook]
      ensures namespace.store == old(namespace.store) && namespace.objects == old(namespace.objects)
    {
      namespace.Record(RollbackHook);
      ClearChanges();
    }

    method Commit(msg: string)
      modifies this, namespace
      ensures changes == map[] && paths == [] && Valid()
      ensures namespace.log == old(namespace.log) + [CommitHook(msg)]
      ensures namespace.store == old(namespace.store) && namespace.objects == old(namespace.objects)
    {
      namespace.Record(CommitHook(msg));
      ClearChanges();
    }

    method CloseSession(name: string, msg: string)
      modifies this, namespace
      ensures changes == map[] && paths == [] && Valid()
      ensures namespace.log == old(namespace.log) + [CloseHook(name, msg)]
      ensures namespace.store == old(namespace.store) && namespace.objects == old(namespace.objects)
    {
      namespace.Record(CloseHook(name, msg));
      ClearChanges();
    }

    /** The hook `h` run on the namespace and the change set emptied, as the session's closing loops do. */
    method End(h: Hook)
      requires !h.StartHook?
      modifies this, namespace
      ensures changes == map[] && paths == [] && Valid()
      ensures namespace.log == old(namespace.log) + [h]
      ensures namespace.store == old(namespace.store)
    {
      match h {
        case RollbackHook => Rollback();
        case CommitHook(m) => Commit(m);
        case CloseHook(n, m) => CloseSession(n, m);
      }
    }
  }

  // ---------------------------------------------------------------- SakDbSession

  class Session {
    const graph: Graph
    const name: string
    const defaultMsg: string
    /** The dict from namespace name to change set, as its values in insertion order. */
    var sessionChanges: seq<SessionChanges>

    ghost predicate Valid()
      reads this, sessionChanges
    {
      (forall i, j :: 0 <= i < j < |sessionChanges| ==>
         sessionChanges[i].namespace.name != sessionChanges[j].namespace.name)
      && forall k :: 0 <= k < |sessionChanges| ==> sessionChanges[k].Valid()
    }

    constructor(graph: Graph, name: string, msg: string)
      ensures this.graph == graph && this.name == name && defaultMsg == msg && sessionChanges == [] && Valid()
    {
      this.graph := graph;
      this.name := name;
      defaultMsg := msg;
      sessionChanges := [];
    }

    /** The namespaces the change sets belong to. */
    function Namespaces(): set<Namespace>
      reads this
    {
      set c | c in sessionChanges :: c.namespace
    }

    /**
     * The session is its graph's open session, every change set belongs to a
     * namespace of that graph, and every staged record has distinct keys.
     */
    ghost predicate Current()
      reads this, graph, sessionChanges
    {
      graph.currentSession == this
      && forall k :: 0 <= k < |sessionChanges| ==>
           sessionChanges[k].namespace.graph == graph
           && sessionChanges[k].UniqueRecords()
    }

    /** Every staged record can be dumped. */
    ghost predicate Dumpable()
      reads this, sessionChanges
    {
      forall k, p :: 0 <= k < |sessionChanges| && p in sessionChanges[k].changes ==>
        SakDbFields.Dumps(sessionChanges[k].changes[p]).Ok?
    }

    /** While the session is current, each namespace reads its staged paths back from its own change set. */
    lemma OwnReads(i: nat)
      requires Valid() && i < |sessionChanges|
      requires graph.currentSession == this && sessionChanges[i].namespace.graph == graph
      requires sessionChanges[i].UniqueRecords()
      ensures sessionChanges[i].ReadsOwn()
    {
      var c := sessionChanges[i];
      FindEntryUnique(sessionChanges, i);
      forall p | p in c.changes ensures c.namespace.Staged(p) == Some(c.changes[p]) {
      }
    }

    /** `read_from_session`: the record staged for the namespace at the path, if any. */
    function ReadFromSession(namespace: string, path: Path): (r: Option<seq<Field>>)
      reads this, sessionChanges
    {
      match FindEntry(sessionChanges, namespace)
      case None => None
      case Some(i) => sessionChanges[i].Read(path)
    }

    /** The change set that holds a staged record the session reads. */
    lemma StagedAt(n: string, path: Path) returns (k: nat)
      requires ReadFromSession(n, path).Some?
      ensures k < |sessionChanges| && path in sessionChanges[k].changes
      ensures sessionChanges[k].changes[path] == ReadFromSession(n, path).value
    {
      k := FindEntry(sessionChanges, n).value;
    }

    /**
     * `write_to_session`: the first write for a namespace opens the backend
     * session and a change set for it; the write is staged there.
     */
    method WriteToSession(ns: Namespace, path: Path, data: seq<Field>)
      requires Valid()
      modifies this, ns, sessionChanges
      ensures Valid()
      ensures ns.log == old(ns.log) + (if old(FindEntry(sessionChanges, ns.name)).None? then [StartHook(name)] else [])
      ensures ns.store == old(ns.store) && ns.objects == old(ns.objects)
      ensures FindEntry(sessionChanges, ns.name).Some?
      ensures ReadFromSession(ns.name, path) == Some(StorageRules.StagedWrite(old(ReadFromSession(ns.name, path)), data))
      ensures forall n, p :: n != ns.name || p != path ==> ReadFromSession(n, p) == old(ReadFromSession(n, p))
      ensures forall c :: c in old(sessionChanges) ==> c in sessionChanges
      ensures forall c :: c in sessionChanges ==> c in old(sessionChanges) || fresh(c)
      ensures old(Current()) && ns.graph == graph && StorageRules.UniqueKeys(data) ==> Current()
      ensures Namespaces() <= old(Namespaces()) + {ns}
    {
      var found := FindEntry(sessionChanges, ns.name);
      if found.None? {
        var i := OpenChanges(ns);
        found := Some(i);
      }
      WriteEntry(found.value, path, data);
    }

    /** `write` on the change set at index `i`; every other staged record stays as it was. */
    method WriteEntry(i: nat, path: Path, data: seq<Field>)
      requires Valid() && i < |sessionChanges|
      modifies sessionChanges[i]
      ensures Valid()
      ensures ReadFromSession(sessionChanges[i].namespace.name, path)
              == Some(StorageRules.StagedWrite(old(sessionChanges[i].Read(path)), data))
      ensures forall n, p :: n != sessionChanges[i].namespace.name || p != path ==> ReadFromSession(n, p) == old(ReadFromSession(n, p))
      ensures old(Current()) && StorageRules.UniqueKeys(data) ==> Current()
    {
      var c := sessionChanges[i];
      forall k | 0 <= k < |sessionChanges| && k != i ensures sessionChanges[k] != c {
        assert sessionChanges[k].namespace.name != c.namespace.name;
      }
      FindEntryUnique(sessionChanges, i);
      c.Write(path, data);
      forall n, p | n != c.namespace.name || p != path
        ensures ReadFromSession(n, p) == old(ReadFromSession(n, p))
      {
        var k := FindEntry(sessionChanges, n);
        if k.Some? && k.value != i {
          assert sessionChanges[k.value] != c;
        }
      }
    }

    /** The first write for a namespace: its backend session opened, and an empty change set added for it. */
    method OpenChanges(ns: Namespace) returns (i: nat)
      requires Valid() && FindEntry(sessionChanges, ns.name).None?
      modifies this, ns
      ensures Valid()
      ensures i == |old(sessionChanges)| && |sessionChanges| == i + 1 && sessionChanges[..i] == old(sessionChanges)
      ensures fresh(sessionChanges[i]) && sessionChanges[i].namespace == ns && sessionChanges[i].changes == map[]
      ensures FindEntry(sessionChanges, ns.name) == Some(i)
      ensures ns.log == old(ns.log) + [StartHook(name)] && ns.store == old(ns.store) && ns.objects == old(ns.objects)
      ensures forall n, p :: ReadFromSession(n, p) == old(ReadFromSession(n, p))
      ensures old(Current()) && ns.graph == graph ==> Current()
    {
      ns.Record(StartHook(name));
      var c := new SessionChanges(ns);
      var was := sessionChanges;
      sessionChanges := sessionChanges + [c];
      i := |was|;
      assert sessionChanges[..i] == was;
      forall a, b | 0 <= a < b < |sessionChanges|
        ensures sessionChanges[a].namespace.name != sessionChanges[b].namespace.name
      {
        assert sessionChanges[a] == was[a];
      }
      FindEntryAppend(was, c, ns.name);
      forall n, p ensures ReadFromSession(n, p) == old(ReadFromSession(n, p)) {
        FindEntryAppend(was, c, n);
        if FindEntry(was, n).Some? {
          assert sessionChanges[FindEntry(was, n).value] == was[FindEntry(was, n).value];
        }
      }
    }

    /** The staged record of a namespace at a path cut in place by `__setattr__`'s drops; nothing else changes. */
    method DropStaged(ns: string, path: Path, attr: string)
      requires Valid()
      modifies sessionChanges
      ensures Valid()
      ensures ReadFromSession(ns, path) ==
                if old(ReadFromSession(ns, path)).Some? then Some(StorageRules.DropAttr(old(ReadFromSession(ns, path)).value, attr))
                else None
      ensures forall n, p :: n != ns || p != path ==> ReadFromSession(n, p) == old(ReadFromSession(n, p))
    {
      var found := FindEntry(sessionChanges, ns);
      if found.Some? {
        var c := sessionChanges[found.value];
        c.DropInPlace(path, attr);
        forall n, p | n != ns || p != path
          ensures ReadFromSession(n, p) == old(ReadFromSession(n, p))
        {
          var k := FindEntry(sessionChanges, n);
          if k.Some? && k.value != found.value {
            assert sessionChanges[k.value] != c;
          }
        }
      }
    }

    /**
     * The first loop of `commit` and of `__exit__`: each change set dumped
     * into its namespace in turn, the first failure ending the loop. While
     * the session is current, every staged record reaches its namespace's
     * backend as its own dump.
     */
    method DumpAll(msg: string) returns (r: Result<()>)
      requires Valid()
      modifies sessionChanges, Namespaces()
      ensures Valid()
      ensures forall k :: 0 <= k < |sessionChanges| ==> sessionChanges[k].namespace.log == old(sessionChanges[k].namespace.log)
      ensures r.Ok? ==> forall k :: 0 <= k < |sessionChanges| ==> |sessionChanges[k].paths| == 0
      ensures r.Ok? && old(Current()) ==>
                forall k, p :: 0 <= k < |sessionChanges| && p in old(sessionChanges[k].changes) ==>
                  Persisted(sessionChanges[k].namespace.store, p, old(sessionChanges[k].changes)[p])
    {
      ghost var own := Current();
      var i := 0;
      while i < |sessionChanges|
        invariant 0 <= i <= |sessionChanges|
        invariant forall k :: 0 <= k < |sessionChanges| ==> sessionChanges[k].Valid()
        invariant forall k :: 0 <= k < |sessionChanges| ==>
                    sessionChanges[k].namespace.log == old(sessionChanges[k].namespace.log)
        invariant forall k :: 0 <= k < i ==> |sessionChanges[k].paths| == 0
        invariant forall k :: i <= k < |sessionChanges| ==> sessionChanges[k].changes == old(sessionChanges[k].changes)
        invariant own ==>
                    forall k, p :: 0 <= k < i && p in old(sessionChanges[k].changes) ==>
                      Persisted(sessionChanges[k].namespace.store, p, old(sessionChanges[k].changes)[p])
      {
        var c := sessionChanges[i];
        if own {
          assert old(sessionChanges[i].changes) == c.changes;
          OwnReads(i);
        }
        r := c.DumpToNamespace(msg, own);
        if r.Fail? {
          return;
        }
        forall k | 0 <= k < |sessionChanges| && k != i ensures sessionChanges[k].namespace != c.namespace {
          assert sessionChanges[k].namespace.name != c.namespace.name;
        }
        i := i + 1;
      }
      r := Ok(());
    }

    /**
     * The loops that end every change set: each rolls back, commits or
     * closes its namespace's backend session, then is cleared.
     */
    method EndAll(h: Hook)
      requires Valid()
      requires !h.StartHook?
      modifies sessionChanges, Namespaces()
      ensures Valid()
      ensures forall k :: 0 <= k < |sessionChanges| ==>
                sessionChanges[k].changes == map[]
                && sessionChanges[k].namespace.log == old(sessionChanges[k].namespace.log) + [h]
                && sessionChanges[k].namespace.store == old(sessionChanges[k].namespace.store)
    {
      var i := 0;
      while i < |sessionChanges|
        invariant 0 <= i <= |sessionChanges|
        invariant Valid()
        invariant forall k :: 0 <= k < i ==>
                    sessionChanges[k].changes == map[]
                    && sessionChanges[k].namespace.log == old(sessionChanges[k].namespace.log) + [h]
        invariant forall k :: i <= k < |sessionChanges| ==>
                    sessionChanges[k].namespace.log == old(sessionChanges[k].namespace.log)
        invariant forall k :: 0 <= k < |sessionChanges| ==>
                    sessionChanges[k].namespace.store == old(sessionChanges[k].namespace.store)
      {
        sessionChanges[i].End(h);
        i := i + 1;
      }
    }

    /**
     * `rollback`: every namespace rolls its backend session back and every
     * change set is emptied.
     */
    method Rollback()
      requires Valid()
      modifies sessionChanges, Namespaces()
      ensures Valid()
      ensures forall k :: 0 <= k < |sessionChanges| ==>
                sessionChanges[k].changes == map[]
                && sessionChanges[k].namespace.log == old(sessionChanges[k].namespace.log) + [RollbackHook]
                && sessionChanges[k].namespace.store == old(sessionChanges[k].namespace.store)
    {
      // The second loop of the source, clearing every change set again, has no further effect.
      EndAll(RollbackHook);
    }

    /**
     * `commit`: every change set is dumped, then every namespace commits
     * with the message given, or the default one when none or an empty one
     * is. A failing dump commits nothing.
     */
    method Commit(msg: Option<string>) returns (r: Result<()>)
      requires Valid()
      modifies sessionChanges, Namespaces()
      ensures Valid()
      ensures r.Fail? ==>
                forall k :: 0 <= k < |sessionChanges| ==> sessionChanges[k].namespace.log == old(sessionChanges[k].namespace.log)
      ensures r.Ok? ==>
                forall k :: 0 <= k < |sessionChanges| ==>
                  sessionChanges[k].changes == map[]
                  && sessionChanges[k].namespace.log == old(sessionChanges[k].namespace.log) + [CommitHook(CommitMessage(msg, defaultMsg))]
      ensures r.Ok? && old(Current()) ==>
                forall k, p :: 0 <= k < |sessionChanges| && p in old(sessionChanges[k].changes) ==>
                  Persisted(sessionChanges[k].namespace.store, p, old(sessionChanges[k].changes)[p])
    {
      var message := CommitMessage(msg, defaultMsg);
      r := DumpAll(message);
      if r.Ok? {
        EndAll(CommitHook(message));
      }
    }

    /**
     * `__exit__` as written: after an exception, a rollback; otherwise every
     * change set is dumped and every backend session closed. Only then is
     * the graph's session released, so a dump that fails leaves it held.
     */
    method ExitAsWritten(failed: bool) returns (r: Result<()>)
      requires Valid()
      modifies this, graph, sessionChanges, Namespaces()
      ensures failed ==> r.Ok?
      ensures r.Ok? ==> graph.currentSession == null && sessionChanges == []
      ensures r.Fail? ==> graph.currentSession == old(graph.currentSession) && sessionChanges == old(sessionChanges)
      ensures r.Ok? ==>
                forall k :: 0 <= k < |old(sessionChanges)| ==>
                  old(sessionChanges)[k].namespace.log
                    == old(sessionChanges[k].namespace.log) + [if failed then RollbackHook else CloseHook(name, defaultMsg)]
      ensures r.Ok? && !failed && old(Current()) ==>
                forall k, p :: 0 <= k < |old(sessionChanges)| && p in old(sessionChanges[k].changes) ==>
                  Persisted(old(sessionChanges)[k].namespace.store, p, old(sessionChanges[k].changes)[p])
      ensures r.Ok? && !failed && old(Current()) ==> old(Dumpable())
    {
      r := Finish(failed);
      if r.Fail? {
        return;
      }
      graph.currentSession := null;
      sessionChanges := [];
    }

    /**
     * `__exit__` with the release in a `finally`: the graph's session is
     * released and the change sets dropped whether or not the dump fails.
     */
    method Exit(failed: bool) returns (r: Result<()>)
      requires Valid()
      modifies this, graph, sessionChanges, Namespaces()
      ensures failed ==> r.Ok?
      ensures graph.currentSession == null && sessionChanges == []
      ensures r.Ok? ==>
                forall k :: 0 <= k < |old(sessionChanges)| ==>
                  old(sessionChanges)[k].namespace.log
                    == old(sessionChanges[k].namespace.log) + [if failed then RollbackHook else CloseHook(name, defaultMsg)]
      ensures r.Ok? && !failed && old(Current()) ==>
                forall k, p :: 0 <= k < |old(sessionChanges)| && p in old(sessionChanges[k].changes) ==>
                  Persisted(old(sessionChanges)[k].namespace.store, p, old(sessionChanges[k].changes)[p])
      ensures r.Ok? && !failed && old(Current()) ==> old(Dumpable())
    {
      r := Finish(failed);
      graph.currentSession := null;
      sessionChanges := [];
    }

    /** The body of `__exit__` before the release: a rollback, or the dumps and the closes. */
    method Finish(failed: bool) returns (r: Result<()>)
      requires Valid()
      modifies sessionChanges, Namespaces()
      ensures Valid()
      ensures failed ==> r.Ok?
      ensures r.Ok? ==>
                forall k :: 0 <= k < |sessionChanges| ==>
                  sessionChanges[k].namespace.log
                    == old(sessionChanges[k].namespace.log) + [if failed then RollbackHook else CloseHook(name, defaultMsg)]
      ensures r.Ok? && !failed && old(Current()) ==>
                forall k, p :: 0 <= k < |sessionChanges| && p in old(sessionChanges[k].changes) ==>
                  Persisted(sessionChanges[k].namespace.store, p, old(sessionChanges[k].changes)[p])
      ensures r.Ok? && !failed && old(Current()) ==> old(Dumpable())
    {
      if failed {
        Rollback();
        r := Ok(());
      } else {
        r := DumpAll(defaultMsg);
        if r.Ok? {
          EndAll(CloseHook(name, defaultMsg));
        }
      }
    }
  }

  lemma {:induction false} FindEntryAppend(entries: seq<SessionChanges>, c: SessionChanges, name: string)
    ensures FindEntry(entries + [c], name) ==
              if FindEntry(entries, name).Some? then FindEntry(entries, name)
              else if c.namespace.name == name then Some(|entries|) else None
  {
    if entries == [] {
      assert entries + [c] == [c];
    } else {
      assert (entries + [c])[1..] == entries[1..] + [c];
      FindEntryAppend(entries[1..], c, name);
    }
  }

  // ---------------------------------------------------------------- SakDbGraph

  class Graph {
    var namespaces: map<string, Namespace>
    /** The registered classes, by their names. */
    var classes: set<string>
    var currentSession: Session?

    constructor()
      ensures namespaces == map[] && classes == {} && currentSession == null
    {
      namespaces := map[];
      classes := {};
      currentSession := null;
    }

    /** `register_class`: a second class with the same name is refused and the registry kept. */
    method RegisterClass(cl: string) returns (r: Result<()>)
      modifies this
      ensures cl in old(classes) ==> r == Fail(ClassAlreadyRegistered) && classes == old(classes)
      ensures cl !in old(classes) ==> r == Ok(()) && classes == old(classes) + {cl}
      ensures namespaces == old(namespaces) && currentSession == old(currentSession)
    {
      if cl in classes {
        return Fail(ClassAlreadyRegistered);
      }
      classes := classes + {cl};
      r := Ok(());
    }

    /** `get_class`: the class registered under the name. */
    function GetClass(clname: string): (r: Result<string>)
      reads this
      ensures r.Ok? <==> clname in classes
      ensures r.Ok? ==> r.value == clname
      ensures r.Fail? ==> r.error == UnknownClass
    {
      if clname in classes then Ok(clname) else Fail(UnknownClass)
    }

    /** `session()`: opens the graph's one session, refused while another is open. */
    method OpenSession(name: string, msg: string) returns (r: Result<Session>)
      modifies this
      ensures old(currentSession) != null ==> r == Fail(SessionAlreadyOpen) && currentSession == old(currentSession)
      ensures old(currentSession) == null ==>
                r.Ok? && fresh(r.value) && currentSession == r.value && r.value.graph == this
                && r.value.name == name && r.value.defaultMsg == msg && r.value.sessionChanges == [] && r.value.Valid()
      ensures namespaces == old(namespaces) && classes == old(classes)
    {
      if currentSession != null {
        return Fail(SessionAlreadyOpen);
      }
      var s := new Session(this, name, msg);
      currentSession := s;
      r := Ok(s);
    }
  }

  // ---------------------------------------------------------------- SakDbNamespace

  class Namespace {
    const name: string
    const graph: Graph
    /** The objects of this namespace already built, by key. */
    var objects: map<string, DbObject>
    /** What the backend holds, by path (`_read` / `_write`). */
    var store: map<Path, string>
    /** The backend calls made so far. */
    var log: seq<Hook>

    /** A namespace over a backend holding `store`, registered with its graph under its name. */
    constructor(graph: Graph, name: string, store: map<Path, string>)
      modifies graph
      ensures this.name == name && this.graph == graph && this.store == store && objects == map[] && log == []
      ensures graph.namespaces == if name in old(graph.namespaces) then old(graph.namespaces) else old(graph.namespaces)[name := this]
      ensures graph.classes == old(graph.classes) && graph.currentSession == old(graph.currentSession)
    {
      this.name := name;
      this.graph := graph;
      this.store := store;
      objects := map[];
      log := [];
      new;
      if name !in graph.namespaces {
        graph.namespaces := graph.namespaces[name := this];
      }
    }

    /** A call into the backend, recorded. */
    method Record(h: Hook)
      modifies this
      ensures log == old(log) + [h] && store == old(store) && objects == old(objects)
    {
      log := log + [h];
    }

    /** The record the open session stages for this namespace at the path, if any. */
    function Staged(path: Path): (r: Option<seq<Field>>)
      reads graph, graph.currentSession
      reads if graph.currentSession == null then [] else graph.currentSession.sessionChanges
    {
      if graph.currentSession == null then None else graph.currentSession.ReadFromSession(name, path)
    }

    /** `read_sakdb`: the record staged in the open session, else the backend's text loaded. */
    function ReadSakdb(path: Path): (r: Result<Option<seq<Field>>>)
      reads this, graph, graph.currentSession
      reads if graph.currentSession == null then [] else graph.currentSession.sessionChanges
    {
      ReadFrom(Staged(path), store, path)
    }

    /** `session_apply_sakdb`: the record retimed against what is read at the path, dumped into the backend. */
    method SessionApply(path: Path, value: seq<Field>) returns (r: Result<()>)
      modifies this
      ensures var t := FlushRecord(old(ReadSakdb(path)), value);
              (r.Fail? <==> t.Fail?) && (t.Fail? ==> r.error == t.error)
              && store == (if t.Ok? then old(store)[path := t.value] else old(store))
      ensures forall q :: q != path ==> ReadSakdb(q) == old(ReadSakdb(q))
      ensures log == old(log) && objects == old(objects)
    {
      var prev := ReadSakdb(path);
      if prev.Fail? {
        return Fail(prev.error);
      }
      var retimed := value;
      if prev.value.Some? {
        retimed := Retime(prev.value.value, value);
      }
      var text := SakDbFields.Dumps(retimed);
      if text.Fail? {
        return Fail(text.error);
      }
      store := store[path := text.value];
      r := Ok(());
    }

    /**
     * `write_sakdb`: refused outside a session; inside one, the record is
     * staged in the session's change set for this namespace, the first write
     * opening the backend session.
     */
    method WriteSakdb(path: Path, value: seq<Field>) returns (r: Result<()>)
      requires graph.currentSession != null ==> graph.currentSession.Valid()
      modifies this, graph.currentSession
      modifies if graph.currentSession == null then [] else graph.currentSession.sessionChanges
      ensures r.Ok? <==> old(graph.currentSession) != null
      ensures r.Fail? ==> r.error == NoSession && log == old(log)
      ensures r.Ok? ==> graph.currentSession.Valid()
      ensures r.Ok? ==> Staged(path) == Some(StorageRules.StagedWrite(old(Staged(path)), value))
      ensures r.Ok? ==> forall n, q :: n != name || q != path ==>
                graph.currentSession.ReadFromSession(n, q) == old(graph.currentSession.ReadFromSession(n, q))
      ensures r.Ok? ==> log == old(log) + (if old(FindEntry(graph.currentSession.sessionChanges, name)).None?
                                            then [StartHook(graph.currentSession.name)] else [])
      ensures store == old(store) && objects == old(objects)
      ensures r.Ok? && old(graph.currentSession.Current()) && graph.currentSession.graph == graph && StorageRules.UniqueKeys(value) ==>
                graph.currentSession.Current()
      ensures r.Ok? ==> graph.currentSession.Namespaces() <= old(graph.currentSession.Namespaces()) + {this}
      ensures r.Ok? ==> forall c :: c in graph.currentSession.sessionChanges ==>
                          c in old(graph.currentSession.sessionChanges) || fresh(c)
    {
      var session := graph.currentSession;
      if session == null {
        return Fail(NoSession);
      }
      session.WriteToSession(this, path, value);
      r := Ok(());
    }

    /**
     * `drop_by_key_prefix` on the record `read_sakdb` handed out: when it is
     * the staged record, the attribute's fields leave the session with it;
     * a record loaded from the backend is a copy, and nothing changes.
     */
    method DropStaged(path: Path, attr: string)
      requires graph.currentSession != null ==> graph.currentSession.Valid()
      modifies if graph.currentSession == null then [] else graph.currentSession.sessionChanges
      ensures graph.currentSession == old(graph.currentSession)
      ensures graph.currentSession != null ==>
                graph.currentSession.sessionChanges == old(graph.currentSession.sessionChanges) && graph.currentSession.Valid()
      ensures Staged(path) == if old(Staged(path)).Some? then Some(StorageRules.DropAttr(old(Staged(path)).value, attr)) else None
      ensures forall q :: q != path ==> Staged(q) == old(Staged(q))
    {
      var session := graph.currentSession;
      if session != null {
        session.DropStaged(name, path, attr);
      }
    }

    /** `read`: the record `dataKey` of the object `nodeKey`; a key shorter than four characters raises. */
    function Read(nodeKey: string, dataKey: string): (r: Result<Option<seq<Field>>>)
      reads this, graph, graph.currentSession
      reads if graph.currentSession == null then [] else graph.currentSession.sessionChanges
      ensures |nodeKey| < 4 ==> r == Fail(ShortKey)
      ensures |nodeKey| >= 4 ==> r == ReadSakdb(StorageRules.ObjectPath(name, nodeKey, dataKey).value)
    {
      match StorageRules.ObjectPath(name, nodeKey, dataKey)
      case Fail(e) => Fail(e)
      case Ok(path) => ReadSakdb(path)
    }

    /**
     * `write`: the record staged at the object's path, which `read` then
     * hands back merged over what was staged there before.
     */
    method Write(nodeKey: string, dataKey: string, value: seq<Field>) returns (r: Result<()>)
      requires graph.currentSession != null ==> graph.currentSession.Valid()
      modifies this, graph.currentSession
      modifies if graph.currentSession == null then [] else graph.currentSession.sessionChanges
      ensures |nodeKey| < 4 ==> r == Fail(ShortKey) && log == old(log)
      ensures |nodeKey| >= 4 ==> (r.Ok? <==> old(graph.currentSession) != null)
      ensures r.Fail? ==> log == old(log) && forall q :: Staged(q) == old(Staged(q))
      ensures r.Ok? ==> graph.currentSession.Valid()
      ensures r.Ok? ==> var path := StorageRules.ObjectPath(name, nodeKey, dataKey).value;
                Staged(path) == Some(StorageRules.StagedWrite(old(Staged(path)), value))
                && Read(nodeKey, dataKey) == Ok(Some(StorageRules.StagedWrite(old(Staged(path)), value)))
                && forall q :: q != path ==> Staged(q) == old(Staged(q))
      ensures r.Ok? ==> log == old(log) + (if old(FindEntry(graph.currentSession.sessionChanges, name)).None?
                                            then [StartHook(graph.currentSession.name)] else [])
      ensures store == old(store) && objects == old(objects)
    {
      var path := StorageRules.ObjectPath(name, nodeKey, dataKey);
      if path.Fail? {
        return Fail(path.error);
      }
      r := WriteSakdb(path.value, value);
    }

    /**
     * `get_metadata`: the JSON value stored under the key in the metadata
     * record; a missing record or entry raises.
     */
    function GetMetadata(key: string): (r: Result<Json.Scalar>)
      reads this, graph, graph.currentSession
      reads if graph.currentSession == null then [] else graph.currentSession.sessionChanges
      ensures var d := ReadSakdb(StorageRules.MetadataPath(name, key));
              d.Fail? ==> r == Fail(d.error)
      ensures ReadSakdb(StorageRules.MetadataPath(name, key)) == Ok(None) ==> r == Fail(NoRecord)
      ensures var d := ReadSakdb(StorageRules.MetadataPath(name, key));
              d.Ok? && d.value.Some? ==>
                var f := SakDbFields.GetByKey(d.value.value, key);
                (f.None? ==> r == Fail(NoAttribute)) && (f.Some? ==> r == Json.LoadsScalar(f.value.payload))
      ensures r.Ok? ==> var d := ReadSakdb(StorageRules.MetadataPath(name, key));
                d.Ok? && d.value.Some? && SakDbFields.GetByKey(d.value.value, key).Some?
    {
      match ReadSakdb(StorageRules.MetadataPath(name, key))
      case Fail(e) => Fail(e)
      case Ok(None) => Fail(NoRecord)
      case Ok(Some(data)) =>
        match SakDbFields.GetByKey(data, key)
        case None => Fail(NoAttribute)
        case Some(f) => Json.LoadsScalar(f.payload)
    }

    /**
     * `set_metadata`: the value's type and JSON text staged as the metadata
     * record of the key; read back in the same session it is the value set,
     * as long as an entry staged before it is older and has no digest
     * collision with it.
     */
    method SetMetadata(key: string, v: Json.Scalar, now: int) returns (r: Result<()>)
      requires graph.currentSession != null ==> graph.currentSession.Valid()
      modifies this, graph.currentSession
      modifies if graph.currentSession == null then [] else graph.currentSession.sessionChanges
      ensures r.Ok? <==> old(graph.currentSession) != null
      ensures r.Fail? ==> r.error == NoSession && log == old(log)
      ensures var mp := StorageRules.MetadataPath(name, key);
              r.Ok? ==> Staged(mp) == Some(StorageRules.StagedWrite(old(Staged(mp)), StorageRules.MetadataFields(key, v, now)))
                        && forall q :: q != mp ==> Staged(q) == old(Staged(q))
      ensures r.Ok? ==> log == old(log) + (if old(FindEntry(graph.currentSession.sessionChanges, name)).None?
                                            then [StartHook(graph.currentSession.name)] else [])
      ensures var staged := old(Staged(StorageRules.MetadataPath(name, key)));
              r.Ok? && key != "_type"
              && (staged.Some? ==> StorageRules.UniqueKeys(staged.value) && StorageRules.NameFieldOlder(staged.value, key, StorageRules.Scalar(v), now))
              ==> GetMetadata(key) == Ok(v)
      ensures store == old(store) && objects == old(objects)
    {
      ghost var staged := Staged(StorageRules.MetadataPath(name, key));
      r := WriteSakdb(StorageRules.MetadataPath(name, key), StorageRules.MetadataFields(key, v, now));
      if r.Ok? && key != "_type"
         && (staged.Some? ==> StorageRules.UniqueKeys(staged.value) && StorageRules.NameFieldOlder(staged.value, key, StorageRules.Scalar(v), now)) {
        StorageRules.MetadataReadBack(staged, key, v, now);
      }
    }

    /** `get_version`: the "version" metadata, which must be a JSON string. */
    function GetVersion(): (r: Result<string>)
      reads this, graph, graph.currentSession
      reads if graph.currentSession == null then [] else graph.currentSession.sessionChanges
      ensures r.Ok? <==> GetMetadata("version").Ok? && GetMetadata("version").value.JStr?
      ensures r.Ok? ==> GetMetadata("version") == Ok(Json.JStr(r.value))
      ensures GetMetadata("version").Fail? ==> r == Fail(GetMetadata("version").error)
      ensures GetMetadata("version").Ok? && GetMetadata("version").value.JInt? ==> r == Fail(NotAString)
    {
      match GetMetadata("version")
      case Fail(e) => Fail(e)
      case Ok(v) => if v.JStr? then Ok(v.s) else Fail(NotAString)
    }

    /**
     * The class name the object's "_cl" record holds, if the record and its
     * field are there.
     */
    function ClassRecord(key: string): (r: Result<Option<string>>)
      reads this, graph, graph.currentSession
      reads if graph.currentSession == null then [] else graph.currentSession.sessionChanges
      ensures |key| < 4 ==> r == Fail(ShortKey)
      ensures r.Ok? && r.value.Some? <==>
                Read(key, "_cl").Ok? && Read(key, "_cl").value.Some?
                && SakDbFields.GetByKey(Read(key, "_cl").value.value, "_cl").Some?
      ensures r.Ok? && r.value.Some? ==>
                SakDbFields.GetByKey(Read(key, "_cl").value.value, "_cl").value.payload == r.value.value
    {
      match Read(key, "_cl")
      case Fail(e) => Fail(e)
      case Ok(None) => Ok(None)
      case Ok(Some(fields)) =>
        match SakDbFields.GetByKey(fields, "_cl")
        case None => Ok(None)
        case Some(f) => Ok(Some(f.payload))
    }

    /**
     * `register_object` as its guard means it: the object is registered
     * unless one is already registered under its key.
     */
    method RegisterObject(obj: DbObject)
      modifies this
      ensures objects == if obj.key in old(objects) then old(objects) else old(objects)[obj.key := obj]
      ensures store == old(store) && log == old(log)
    {
      if obj.key !in objects {
        objects := objects[obj.key := obj];
      }
    }

    /**
     * `register_object` as written: `has_object` probes the key through
     * `get_object`, which, for a key with a class record of a registered
     * class, builds an object of that class whose constructor registers
     * itself through the same probe, and so on until the interpreter's
     * recursion limit; the innermost object gets registered and the one
     * passed in does not.
     */
    method RegisterObjectAsWritten(obj: DbObject)
      modifies this
      ensures obj.key in old(objects) ==> objects == old(objects)
      ensures obj.key !in old(objects) ==>
                var c := old(ClassRecord(obj.key));
                if c.Ok? && c.value.Some? && c.value.value in graph.classes then
                  obj.key in objects && objects[obj.key] != obj && fresh(objects[obj.key])
                  && objects[obj.key].className == c.value.value
                  && objects == old(objects)[obj.key := objects[obj.key]]
                else objects == old(objects)[obj.key := obj]
      ensures store == old(store) && log == old(log)
    {
      if obj.key in objects {
        return;
      }
      var c := ClassRecord(obj.key);
      if c.Ok? && c.value.Some? && c.value.value in graph.classes {
        var inner := new DbObject(this, obj.key, c.value.value);
        objects := objects[obj.key := inner];
      } else {
        objects := objects[obj.key := obj];
      }
    }

    /**
     * `get_object`: the object already built for the key, else one of the
     * class its "_cl" record names, built and registered; a missing record or
     * field, or a class never registered, raises.
     */
    method GetObject(key: string) returns (r: Result<DbObject>)
      modifies this
      ensures key in old(objects) ==> r == Ok(old(objects)[key]) && objects == old(objects)
      ensures key !in old(objects) ==>
                var c := old(ClassRecord(key));
                if c.Fail? then r == Fail(c.error) && objects == old(objects)
                else if c.value.None? then r == Fail(NoClassRecord) && objects == old(objects)
                else if c.value.value !in graph.classes then r == Fail(UnknownClass) && objects == old(objects)
                else r.Ok? && fresh(r.value) && r.value.namespace == this && r.value.key == key
                     && r.value.className == c.value.value && objects == old(objects)[key := r.value]
      ensures store == old(store) && log == old(log)
    {
      if key in objects {
        return Ok(objects[key]);
      }
      var c := ClassRecord(key);
      if c.Fail? {
        return Fail(c.error);
      }
      if c.value.None? {
        return Fail(NoClassRecord);
      }
      var cl := graph.GetClass(c.value.value);
      if cl.Fail? {
        return Fail(cl.error);
      }
      var obj := new DbObject(this, key, cl.value);
      RegisterObject(obj);
      r := Ok(obj);
    }

    /**
     * `get_object` as written: the constructor's own registration registers
     * another object of the class, so the object handed back is not the one
     * kept for the key.
     */
    method GetObjectAsWritten(key: string) returns (r: Result<DbObject>)
      modifies this
      ensures key in old(objects) ==> r == Ok(old(objects)[key]) && objects == old(objects)
      ensures r.Ok? && key !in old(objects) ==> key in objects && objects[key] != r.value
      ensures store == old(store) && log == old(log)
    {
      if key in objects {
        return Ok(objects[key]);
      }
      var c := ClassRecord(key);
      if c.Fail? {
        return Fail(c.error);
      }
      if c.value.None? {
        return Fail(NoClassRecord);
      }
      var cl := graph.GetClass(c.value.value);
      if cl.Fail? {
        return Fail(cl.error);
      }
      var obj := new DbObject(this, key, cl.value);
      RegisterObjectAsWritten(obj);
      RegisterObjectAsWritten(obj);
      r := Ok(obj);
    }
  }

  /** The names `__getattribute__` and `__setattr__` leave to Python: underscored, "namespace" and "key". */
  predicate PlainAttr(name: string) {
    (|name| > 0 && name[0] == '_') || name == "namespace" || name == "key"
  }

  /** `SakDbObject`: an object of a registered class, kept under its key in a namespace. */
  class DbObject {
    const namespace: Namespace
    const key: string
    const className: string

    constructor(namespace: Namespace, key: string, className: string)
      ensures this.namespace == namespace && this.key == key && this.className == className
    {
      this.namespace := namespace;
      this.key := key;
      this.className := className;
    }

    /** The class record `_save` writes: the class name under "_cl". */
    function ClassFields(now: int): (r: seq<Field>)
      ensures |r| == 1 && r[0].key == "_cl" && r[0].payload == className && r[0].ts == now
      ensures r[0].crc == SakDbFields.PayloadMd5(className)
    {
      [SakDbFields.NewField(className, now, "_cl", None)]
    }

    /**
     * `_save`: the class record written unless the one read already names
     * the object's class. Once it succeeds the record names the class, as long
     * as a "_cl" field staged before is older and has no digest collision.
     */
    method Save(now: int) returns (r: Result<()>)
      requires namespace.graph.currentSession != null ==> namespace.graph.currentSession.Valid()
      modifies namespace, namespace.graph.currentSession
      modifies if namespace.graph.currentSession == null then [] else namespace.graph.currentSession.sessionChanges
      ensures old(namespace.ClassRecord(key)).Fail? ==>
                r == Fail(old(namespace.ClassRecord(key)).error) && namespace.log == old(namespace.log)
      ensures old(namespace.ClassRecord(key)) == Ok(Some(className)) ==>
                r == Ok(()) && namespace.log == old(namespace.log)
      ensures r.Fail? || old(namespace.ClassRecord(key)) == Ok(Some(className)) ==>
                forall q :: namespace.Staged(q) == old(namespace.Staged(q))
      ensures |key| >= 4 ==>
                var path := StorageRules.ObjectPath(namespace.name, key, "_cl").value;
                forall q :: q != path ==> namespace.Staged(q) == old(namespace.Staged(q))
      ensures r.Ok? && old(namespace.ClassRecord(key)) != Ok(Some(className)) ==>
                namespace.graph.currentSession != null && namespace.log == old(namespace.log) + (if old(FindEntry(namespace.graph.currentSession.sessionChanges, namespace.name)).None?
                                                         then [StartHook(namespace.graph.currentSession.name)] else [])
      ensures old(namespace.ClassRecord(key)).Ok? ==> (r.Ok? <==> old(namespace.ClassRecord(key)) == Ok(Some(className)) || old(namespace.graph.currentSession) != null)
      ensures |key| >= 4 ==>
                var staged := old(namespace.Staged(StorageRules.ObjectPath(namespace.name, key, "_cl").value));
                r.Ok? && (staged.Some? ==> StorageRules.UniqueKeys(staged.value) && StorageRules.FieldOlder(staged.value, "_cl", className, now))
                ==> namespace.ClassRecord(key) == Ok(Some(className))
      ensures namespace.store == old(namespace.store) && namespace.objects == old(namespace.objects)
    {
      var previous := namespace.ClassRecord(key);
      if previous.Fail? {
        return Fail(previous.error);
      }
      if previous.value == Some(className) {
        return Ok(());
      }
      ghost var staged := namespace.Staged(StorageRules.ObjectPath(namespace.name, key, "_cl").value);
      var fields := ClassFields(now);
      r := namespace.Write(key, "_cl", fields);
      if r.Ok? && (staged.Some? ==> StorageRules.UniqueKeys(staged.value) && StorageRules.FieldOlder(staged.value, "_cl", className, now)) {
        SakDbFields.GetByKeyAt(fields, 0);
        StorageRules.StagedFieldWins(staged, fields, fields[0]);
      }
    }

    /**
     * `__getattribute__` for a stored attribute: decoded from the object's
     * "meta" record, a list's items in field order, a missing record raising.
     */
    function GetAttr(name: string): (r: Result<StorageRules.Attr>)
      requires !PlainAttr(name)
      reads namespace, namespace.graph, namespace.graph.currentSession
      reads if namespace.graph.currentSession == null then [] else namespace.graph.currentSession.sessionChanges
      ensures |key| < 4 ==> r == Fail(ShortKey)
      ensures namespace.Read(key, "meta").Fail? ==> r == Fail(namespace.Read(key, "meta").error)
      ensures namespace.Read(key, "meta") == Ok(None) ==> r == Fail(NoRecord)
      ensures namespace.Read(key, "meta").Ok? && namespace.Read(key, "meta").value.Some? ==>
                r == StorageRules.Decode(name, namespace.Read(key, "meta").value.value)
    {
      match namespace.Read(key, "meta")
      case Fail(e) => Fail(e)
      case Ok(None) => Fail(NoRecord)
      case Ok(Some(data)) => StorageRules.Decode(name, data)
    }

    /** `__getattribute__` with a list's items read by index, `name:0` first. */
    function GetAttrIndexed(name: string): (r: Result<StorageRules.Attr>)
      requires !PlainAttr(name)
      reads namespace, namespace.graph, namespace.graph.currentSession
      reads if namespace.graph.currentSession == null then [] else namespace.graph.currentSession.sessionChanges
      ensures |key| < 4 ==> r == Fail(ShortKey)
      ensures namespace.Read(key, "meta").Fail? ==> r == Fail(namespace.Read(key, "meta").error)
      ensures namespace.Read(key, "meta") == Ok(None) ==> r == Fail(NoRecord)
      ensures namespace.Read(key, "meta").Ok? && namespace.Read(key, "meta").value.Some? ==>
                r == StorageRules.DecodeIndexed(name, namespace.Read(key, "meta").value.value)
    {
      match namespace.Read(key, "meta")
      case Fail(e) => Fail(e)
      case Ok(None) => Fail(NoRecord)
      case Ok(Some(data)) => StorageRules.DecodeIndexed(name, data)
    }

    /**
     * `__setattr__` for a stored attribute: the attribute's fields in the
     * "meta" record replaced by the encoding of the value. When the record
     * read was the staged one, the drops cut it in place before the write.
     * Read back through the session, the attribute is the value assigned.
     */
    method SetAttr(name: string, a: StorageRules.Attr, now: int) returns (r: Result<()>)
      requires !PlainAttr(name)
      requires namespace.graph.currentSession != null ==> namespace.graph.currentSession.Valid()
      modifies namespace, namespace.graph.currentSession
      modifies if namespace.graph.currentSession == null then [] else namespace.graph.currentSession.sessionChanges
      ensures |key| < 4 ==> r == Fail(ShortKey)
      ensures r.Fail? ==> namespace.log == old(namespace.log)
      ensures |key| >= 4 ==>
                var path := StorageRules.ObjectPath(namespace.name, key, "meta").value;
                var previous := old(namespace.ReadSakdb(path));
                (previous.Fail? ==> r == Fail(previous.error))
                && (previous.Ok? ==> (r.Ok? <==> old(namespace.graph.currentSession) != null))
                && (r.Ok? ==> previous.Ok? && namespace.Staged(path) == Some(StorageRules.SetAttrRecord(old(namespace.Staged(path)), previous.value, name, a, now)))
      ensures |key| >= 4 ==>
                var path := StorageRules.ObjectPath(namespace.name, key, "meta").value;
                forall q :: q != path ==> namespace.Staged(q) == old(namespace.Staged(q))
      ensures r.Ok? ==> namespace.log == old(namespace.log) + (if old(FindEntry(namespace.graph.currentSession.sessionChanges, namespace.name)).None?
                                                                 then [StartHook(namespace.graph.currentSession.name)] else [])
      ensures namespace.store == old(namespace.store) && namespace.objects == old(namespace.objects)
    {
      var path := StorageRules.ObjectPath(namespace.name, key, "meta");
      if path.Fail? {
        return Fail(path.error);
      }
      var previous := namespace.ReadSakdb(path.value);
      if previous.Fail? {
        return Fail(previous.error);
      }
      var record := StorageRules.UpdateMeta(previous.value, name, a, now);
      namespace.DropStaged(path.value, name);
      r := namespace.WriteSakdb(path.value, record);
    }

    /**
     * An assignment read back through the session is the value assigned, as
     * long as the attribute's name has no ':', the dict's keys are distinct
     * and a field of the name stored before is older and has no digest
     * collision; a list comes back as assigned when it has at most ten items
     * or the "meta" record was first written by this assignment.
     */
    lemma SetAttrReadBack(name: string, a: StorageRules.Attr, now: int, staged: Option<seq<Field>>, loaded: Option<seq<Field>>)
      requires !PlainAttr(name) && |key| >= 4 && ':' !in name
      requires a.DictOf? ==> StorageRules.UniqueEntryKeys(a.entries)
      requires staged.Some? ==> StorageRules.UniqueKeys(staged.value) && StorageRules.NameFieldOlder(staged.value, name, a, now)
      requires staged.None? && loaded.Some? ==> StorageRules.NameFieldOlder(loaded.value, name, a, now)
      requires namespace.Staged(StorageRules.ObjectPath(namespace.name, key, "meta").value)
               == Some(StorageRules.SetAttrRecord(staged, loaded, name, a, now))
      ensures (a.ListOf? && |a.items| > 10 && (staged.Some? || loaded.Some?))
              || (GetAttr(name).Ok? && StorageRules.SameAttr(GetAttr(name).value, a))
    {
      StorageRules.SetAttrReadBack(staged, loaded, name, a, now);
    }

    /** Read by index, an assignment of any value reads back through the session as the value assigned. */
    lemma SetAttrReadBackIndexed(name: string, a: StorageRules.Attr, now: int, staged: Option<seq<Field>>, loaded: Option<seq<Field>>)
      requires !PlainAttr(name) && |key| >= 4 && ':' !in name
      requires a.DictOf? ==> StorageRules.UniqueEntryKeys(a.entries)
      requires staged.Some? ==> StorageRules.UniqueKeys(staged.value) && StorageRules.NameFieldOlder(staged.value, name, a, now)
      requires staged.None? && loaded.Some? ==> StorageRules.NameFieldOlder(loaded.value, name, a, now)
      requires namespace.Staged(StorageRules.ObjectPath(namespace.name, key, "meta").value)
               == Some(StorageRules.SetAttrRecord(staged, loaded, name, a, now))
      ensures GetAttrIndexed(name).Ok? && StorageRules.SameAttr(GetAttrIndexed(name).value, a)
    {
      StorageRules.SetAttrReadBackIndexed(staged, loaded, name, a, now);
    }
  }

  /**
   * `SakDbObject(namespace, key)` as written: registered through
   * `register_object`, whose probe through `get_object` caches another,
   * fresh object of the stored class instead of this one when the key's
   * class record names a registered class; then its class record saved.
   */
  method NewObject(ns: Namespace, key: string, cl: string, now: int) returns (obj: DbObject, r: Result<()>)
    requires ns.graph.currentSession != null ==> ns.graph.currentSession.Valid()
    modifies ns, ns.graph.currentSession
    modifies if ns.graph.currentSession == null then [] else ns.graph.currentSession.sessionChanges
    ensures fresh(obj) && obj.namespace == ns && obj.key == key && obj.className == cl
    ensures key in old(ns.objects) ==> ns.objects == old(ns.objects)
    ensures key !in old(ns.objects) ==>
              var c := old(ns.ClassRecord(key));
              if c.Ok? && c.value.Some? && c.value.value in ns.graph.classes then
                key in ns.objects && ns.objects[key] != obj && fresh(ns.objects[key])
                && ns.objects[key].className == c.value.value
                && ns.objects == old(ns.objects)[key := ns.objects[key]]
              else ns.objects == old(ns.objects)[key := obj]
    ensures |key| >= 4 ==>
              var staged := old(ns.Staged(StorageRules.ObjectPath(ns.name, key, "_cl").value));
              r.Ok? && (staged.Some? ==> StorageRules.UniqueKeys(staged.value) && StorageRules.FieldOlder(staged.value, "_cl", cl, now))
              ==> ns.ClassRecord(key) == Ok(Some(cl))
    ensures |key| < 4 ==> r == Fail(ShortKey)
  {
    ghost var c := ns.ClassRecord(key);
    obj := new DbObject(ns, key, cl);
    assert ns.ClassRecord(key) == c;
    ns.RegisterObjectAsWritten(obj);
    ghost var registered := ns.objects;
    ghost var path := StorageRules.ObjectPath(ns.name, key, "_cl");
    assert path.Ok? ==> ns.Staged(path.value) == old(ns.Staged(path.value));
    r := obj.Save(now);
    assert ns.objects == registered && ns.graph.classes == old(ns.graph.classes);
  }

  /**
   * `SakDbObject(namespace, key)` with `register_object` as its guard means
   * it: the object itself is cached unless one is there already, then its
   * class record saved.
   */
  method NewObjectCorrected(ns: Namespace, key: string, cl: string, now: int) returns (obj: DbObject, r: Result<()>)
    requires ns.graph.currentSession != null ==> ns.graph.currentSession.Valid()
    modifies ns, ns.graph.currentSession
    modifies if ns.graph.currentSession == null then [] else ns.graph.currentSession.sessionChanges
    ensures fresh(obj) && obj.namespace == ns && obj.key == key && obj.className == cl
    ensures ns.objects == if key in old(ns.objects) then old(ns.objects) else old(ns.objects)[key := obj]
    ensures |key| >= 4 ==>
              var staged := old(ns.Staged(StorageRules.ObjectPath(ns.name, key, "_cl").value));
              r.Ok? && (staged.Some? ==> StorageRules.UniqueKeys(staged.value) && StorageRules.FieldOlder(staged.value, "_cl", cl, now))
              ==> ns.ClassRecord(key) == Ok(Some(cl))
    ensures |key| < 4 ==> r == Fail(ShortKey)
  {
    obj := new DbObject(ns, key, cl);
    ns.RegisterObject(obj);
    ghost var path := StorageRules.ObjectPath(ns.name, key, "_cl");
    assert path.Ok? ==> ns.Staged(path.value) == old(ns.Staged(path.value));
    r := obj.Save(now);
  }

  // ---------------------------------------------------------------- a session left open

  /** A record whose one field has a key holding the payload separator: staging it is fine, dumping it raises. */
  function UndumpableRecord(): (r: seq<Field>)
    ensures SakDbFields.Dumps(r).Fail?
  {
    var r := [SakDbFields.NewField("1", 0, "a&b", None)];
    SakDbFields.DumpsFails(r);
    assert SakDbFields.PayloadSeparator in r[0].key;
    r
  }

  /** A graph whose open session has staged, for the namespace "ns", a record that cannot be dumped. */
  method StageUndumpable() returns (g: Graph, session: Session)
    ensures fresh(g) && fresh(session) && g.currentSession == session && session.graph == g
    ensures session.Valid() && session.Current() && !session.Dumpable()
    ensures forall c :: c in session.sessionChanges ==> fresh(c)
    ensures forall n :: n in session.Namespaces() ==> fresh(n)
  {
    g := new Graph();
    var ns := new Namespace(g, "ns", map[]);
    var first := g.OpenSession("s", "Update");
    session := first.value;
    var staged := UndumpableRecord();
    var path := StorageRules.MetadataPath("ns", "version");
    assert session.Current();
    var written := ns.WriteSakdb(path, staged);
    SakDbFields.MergeCases(None, Some(staged), None);
    ghost var k := session.StagedAt("ns", path);
    assert session.Namespaces() <= {ns};
  }

  /**
   * The `__exit__` as written: a write whose dump raises leaves the graph's
   * session held, so the next `session()` on the graph is refused.
   */
  method StuckSessionAsWritten() returns (r: Result<Session>)
    ensures r == Fail(SessionAlreadyOpen)
  {
    var g, session := StageUndumpable();
    var exited := session.ExitAsWritten(false);
    r := g.OpenSession("t", "Update");
  }

  /** The release in a `finally`: the dump still raises, and the graph opens a new session. */
  method ReleasedSession() returns (exited: Result<()>, r: Result<Session>)
    ensures exited.Fail? && r.Ok?
  {
    var g, session := StageUndumpable();
    exited := session.Exit(false);
    r := g.OpenSession("t", "Update");
  }
}
