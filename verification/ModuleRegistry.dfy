/**
 The registry of loaded modules as a value: what loading and unloading do to the list and to the
 handles obtained from the operating system, over any run. Handle 0 is the null handle of the VM
 itself, which internal modules share and which is never obtained or freed.
 */
module ModuleRegistry {

  datatype Entry = Entry(name: string, handle: int, ffiLoaded: bool)

  /** `obtained` and `freed` count the handles the operating system has given and been given back. */
  datatype Registry = Registry(entries: seq<Entry>, obtained: multiset<int>, freed: multiset<int>)

  const EMPTY := Registry([], multiset{}, multiset{})

  datatype Option<T> = None | Some(value: T)

  /** What a module exports and how it answers: the name it was compiled with, the answer of
      setInterpreter, the answer of initialiseModule. None: not exported. */
  datatype Plugin = Plugin(
    getModuleName: Option<Option<string>>, setInterpreter: Option<bool>, initialiseModule: Option<bool>)

  /** callInitializersIn. A compiled name need only begin with the module's name. */
  predicate Initialises(p: Plugin, name: string) {
    && (p.getModuleName.Some? ==> p.getModuleName.value.Some? && name <= p.getModuleName.value.value)
    && p.setInterpreter == Some(true)
    && p.initialiseModule != Some(false)
  }

  /** The surroundings of one load: the handle the operating system answers, or 0; whether
      setInterpreter of the module is found among the VM's own exports; the module found. */
  datatype Surroundings = Surroundings(handle: int, internal: bool, plugin: Plugin)

  datatype Op =
    | Load(name: string, ffi: bool, os: Surroundings)
    | Unload(name: string, shutsDown: bool)

  predicate Loaded(entries: seq<Entry>, name: string) {
    exists k :: 0 <= k < |entries| && entries[k].name == name
  }

  /** Whether findAndLoadModule succeeds. */
  predicate Loads(name: string, ffi: bool, os: Surroundings) {
    if ffi then os.handle != 0
    else (os.handle != 0 || os.internal) && Initialises(os.plugin, name)
  }

  function HandleOf(handle: int): multiset<int> {
    if handle == 0 then multiset{} else multiset{handle}
  }

  /** findOrLoadModule: nothing for a module already loaded or the VM itself; otherwise the handle
      obtained ends up in a new first entry, or is freed again if the initializers refuse. */
  function AfterLoad(r: Registry, name: string, ffi: bool, os: Surroundings): Registry {
    if name == "" || Loaded(r.entries, name) then r
    else if Loads(name, ffi, os) then
      r.(entries := [Entry(name, os.handle, ffi)] + r.entries, obtained := r.obtained + HandleOf(os.handle))
    else
      r.(obtained := r.obtained + HandleOf(os.handle), freed := r.freed + HandleOf(os.handle))
  }

  /** shutdownModule: `answer` is what the module's shutdownModule answers, None if not exported.
      Modules loaded for the FFI are not asked. */
  predicate ShutsDown(ffiLoaded: bool, answer: Option<bool>) { ffiLoaded || answer != Some(false) }

  /** ioUnloadModule: removes the module unless it refuses to shut down. */
  function AfterUnload(r: Registry, name: string, shutsDown: bool): Registry {
    if name == "" || !Loaded(r.entries, name) || !shutsDown then r
    else
      var k := IndexOf(r.entries, name);
      r.(entries := r.entries[..k] + r.entries[k + 1..], freed := r.freed + HandleOf(r.entries[k].handle))
  }

  function IndexOf(entries: seq<Entry>, name: string): (k: nat)
    requires Loaded(entries, name)
    ensures k < |entries| && entries[k].name == name
    ensures forall j :: 0 <= j < k ==> entries[j].name != name
  {
    if entries[0].name == name then 0
    else
      assert Loaded(entries[1..], name) by {
        var k :| 0 <= k < |entries| && entries[k].name == name;
        assert entries[1..][k - 1].name == name;
      }
      1 + IndexOf(entries[1..], name)
  }

  function Apply(r: Registry, op: Op): Registry {
    match op
    case Load(name, ffi, os) => AfterLoad(r, name, ffi, os)
    case Unload(name, shutsDown) => AfterUnload(r, name, shutsDown)
  }

  function Replay(ops: seq<Op>): Registry {
    if ops == [] then EMPTY else Apply(Replay(ops[..|ops| - 1]), ops[|ops| - 1])
  }

  /** The handles the entries own. */
  function Owned(entries: seq<Entry>): multiset<int> {
    if entries == [] then multiset{} else HandleOf(entries[0].handle) + Owned(entries[1..])
  }

  /** Names are non-empty and distinct, and every handle obtained is owned by exactly one entry or has
      been freed exactly once. */
  ghost predicate Sound(r: Registry) {
    && (forall k :: 0 <= k < |r.entries| ==> r.entries[k].name != "")
    && (forall j, k :: 0 <= j < k < |r.entries| ==> r.entries[j].name != r.entries[k].name)
    && r.obtained == r.freed + Owned(r.entries)
  }

  /** The entry an unload takes away is the one of that name, wherever it stands. */
  lemma AfterUnloadAt(r: Registry, at: nat)
    requires Sound(r) && at < |r.entries|
    ensures var e := r.entries[at];
            AfterUnload(r, e.name, true) ==
            r.(entries := r.entries[..at] + r.entries[at + 1..], freed := r.freed + HandleOf(e.handle))
  {
    assert Loaded(r.entries, r.entries[at].name);
  }

  /** What an unload does to the handles: none is obtained, and exactly that of the entry taken away is
      freed, the VM's own excepted. */
  lemma UnloadFrees(r: Registry, name: string, shutsDown: bool, at: nat)
    requires Sound(r) && at < |r.entries| && r.entries[at].name == name
    ensures var r', handle := AfterUnload(r, name, shutsDown), r.entries[at].handle;
            && r'.obtained == r.obtained
            && r'.freed == r.freed + (if shutsDown && handle != 0 then multiset{handle} else multiset{})
            && |r'.entries| == |r.entries| - if shutsDown then 1 else 0
  {
    if shutsDown { AfterUnloadAt(r, at); }
  }

  lemma {:induction false} OwnedWithout(entries: seq<Entry>, k: nat)
    requires k < |entries|
    ensures Owned(entries) == HandleOf(entries[k].handle) + Owned(entries[..k] + entries[k + 1..])
  {
    var rest := entries[..k] + entries[k + 1..];
    if k == 0 {
      assert rest == entries[1..];
    } else {
      OwnedWithout(entries[1..], k - 1);
      assert rest[1..] == entries[1..][..k - 1] + entries[1..][k..];
    }
  }

  lemma SoundAfterLoad(r: Registry, name: string, ffi: bool, os: Surroundings)
    requires Sound(r)
    ensures Sound(AfterLoad(r, name, ffi, os))
  {
    var r' := AfterLoad(r, name, ffi, os);
    if |r'.entries| > |r.entries| {
      assert r'.entries == [Entry(name, os.handle, ffi)] + r.entries;
      assert r'.entries[1..] == r.entries;
      assert forall k :: 0 <= k < |r.entries| ==> r'.entries[k + 1] == r.entries[k];
    }
  }

  lemma SoundAfterUnload(r: Registry, name: string, shutsDown: bool)
    requires Sound(r)
    ensures Sound(AfterUnload(r, name, shutsDown))
  {
    var r' := AfterUnload(r, name, shutsDown);
    if r' != r {
      var k := IndexOf(r.entries, name);
      assert r'.obtained == r'.freed + Owned(r'.entries) by { OwnedWithout(r.entries, k); }
      assert forall j :: 0 <= j < |r'.entries| ==> r'.entries[j] == r.entries[if j < k then j else j + 1];
    }
  }

  /** Over every run of loads and unloads, with every behaviour of the operating system and of the
      modules: names stay non-empty and distinct, and no handle is leaked, shared or freed twice. */
  lemma {:induction false} SoundAlways(ops: seq<Op>)
    ensures Sound(Replay(ops))
  {
    if ops != [] {
      SoundAlways(ops[..|ops| - 1]);
      var r := Replay(ops[..|ops| - 1]);
      match ops[|ops| - 1]
      case Load(name, ffi, os) => SoundAfterLoad(r, name, ffi, os);
      case Unload(name, shutsDown) => SoundAfterUnload(r, name, shutsDown);
    }
  }

  /** After a load the module is found exactly if it was there before or could be loaded; whatever
      happens, every other module is found as before and the old list is the end of the new one. */
  lemma FoundAfterLoad(r: Registry, name: string, ffi: bool, os: Surroundings)
    ensures var es := AfterLoad(r, name, ffi, os).entries;
            && (Loaded(es, name) <==> Loaded(r.entries, name) || (name != "" && Loads(name, ffi, os)))
            && (forall e: Entry :: e.name != name ==> (e in es <==> e in r.entries))
            && |r.entries| <= |es| <= |r.entries| + 1 && es[|es| - |r.entries|..] == r.entries
  {
    var es := AfterLoad(r, name, ffi, os).entries;
    if |es| > |r.entries| { assert es[0].name == name; }
  }

  /** An unload that is refused leaves the list unchanged; any other removes exactly the one entry of
      that name, if there is one. */
  lemma ListAfterUnload(r: Registry, name: string, shutsDown: bool)
    requires Sound(r)
    ensures var es := AfterUnload(r, name, shutsDown).entries;
            && (!shutsDown || name == "" ==> es == r.entries)
            && (shutsDown && name != "" ==> forall e :: e in es <==> e in r.entries && e.name != name)
            && |es| == |r.entries| - if shutsDown && name != "" && Loaded(r.entries, name) then 1 else 0
  {
    if shutsDown && name != "" && Loaded(r.entries, name) {
      var k := IndexOf(r.entries, name);
      var es := r.entries[..k] + r.entries[k + 1..];
      forall e ensures e in es <==> e in r.entries && e.name != name {
        if e in r.entries && e.name != name {
          var j :| 0 <= j < |r.entries| && r.entries[j] == e;
          assert es[if j < k then j else j - 1] == e;
        }
      }
    } else if shutsDown && name != "" {
      forall e | e in r.entries ensures e.name != name {
        var j :| 0 <= j < |r.entries| && r.entries[j] == e;
      }
    }
  }

  /** Load number j put e into the list. */
  ghost predicate Made(ops: seq<Op>, j: nat, e: Entry) {
    && j < |ops| && ops[j].Load? && Loads(ops[j].name, ops[j].ffi, ops[j].os)
    && !Loaded(Replay(ops[..j]).entries, e.name)
    && e == Entry(ops[j].name, ops[j].os.handle, ops[j].ffi)
  }

  /** The load called the module's initializers, and they accepted. */
  predicate Initialised(op: Op) { op.Load? && !op.ffi && Initialises(op.os.plugin, op.name) }

  lemma MadeStill(ops: seq<Op>, op: Op, j: nat, e: Entry)
    requires Made(ops, j, e)
    ensures Made(ops + [op], j, e)
  {
    assert (ops + [op])[..j] == ops[..j];
  }

  lemma KeptOrMade(r: Registry, op: Op, e: Entry)
    requires e in Apply(r, op).entries
    ensures e in r.entries ||
            (op.Load? && Loads(op.name, op.ffi, op.os) && !Loaded(r.entries, e.name)
             && e == Entry(op.name, op.os.handle, op.ffi))
  {
  }

  /** What a load of an absent module depends on, answer by answer: for the FFI on a handle alone, and
      otherwise on a handle or an internal module, a compiled name that is absent or begins with the
      module's, setInterpreter answering true, and initialiseModule absent or answering true. A load
      that is refused leaves the list alone and gives the handle back. */
  lemma LoadDecides(r: Registry, name: string, ffi: bool, os: Surroundings)
    requires name != "" && forall k :: 0 <= k < |r.entries| ==> r.entries[k].name != name
    ensures var r' := AfterLoad(r, name, ffi, os);
            var handles := if os.handle == 0 then multiset{} else multiset{os.handle};
            var accepted := if ffi then os.handle != 0
                            else && (os.handle != 0 || os.internal)
                                 && os.plugin.setInterpreter == Some(true)
                                 && os.plugin.initialiseModule != Some(false)
                                 && os.plugin.getModuleName != Some(None)
                                 && (os.plugin.getModuleName.Some? ==> name <= os.plugin.getModuleName.value.value);
            && r'.obtained == r.obtained + handles
            && (accepted ==> r'.entries == [Entry(name, os.handle, ffi)] + r.entries && r'.freed == r.freed)
            && (!accepted ==> r'.entries == r.entries && r'.freed == r.freed + handles)
  {
  }

  /** A load of the VM itself or of a module already there changes nothing. */
  lemma LoadOfKnown(r: Registry, name: string, ffi: bool, os: Surroundings)
    requires name == "" || exists k :: 0 <= k < |r.entries| && r.entries[k].name == name
    ensures AfterLoad(r, name, ffi, os) == r
  {
  }

  /** Over every run, an entry not loaded for the FFI has the handle of a load whose plugin accepted:
      setInterpreter answered true, initialiseModule did not answer false, and a compiled name, if
      there is one, begins with the entry's name. */
  lemma NonFfiEntriesAccepted(ops: seq<Op>, e: Entry) returns (j: nat)
    requires e in Replay(ops).entries && !e.ffiLoaded
    ensures j < |ops| && ops[j].Load? && ops[j].name == e.name && !ops[j].ffi && ops[j].os.handle == e.handle
    ensures var plugin := ops[j].os.plugin;
            && plugin.setInterpreter == Some(true) && plugin.initialiseModule != Some(false)
            && plugin.getModuleName != Some(None)
            && (plugin.getModuleName.Some? ==> e.name <= plugin.getModuleName.value.value)
            && (e.handle != 0 || ops[j].os.internal)
  {
    j := EveryEntryWasMade(ops, e);
    SoundAlways(ops);
    LoadDecides(Registry([], multiset{}, multiset{}), ops[j].name, false, ops[j].os);
  }

  /** Every entry is there because some load in the run succeeded, and that load initialised the
      module if and only if it was not for the FFI. */
  lemma {:induction false} EveryEntryWasMade(ops: seq<Op>, e: Entry) returns (j: nat)
    requires e in Replay(ops).entries
    ensures Made(ops, j, e) && (Initialised(ops[j]) <==> !e.ffiLoaded)
  {
    var n := |ops| - 1;
    var before := ops[..n];
    assert ops == before + [ops[n]];
    KeptOrMade(Replay(before), ops[n], e);
    if e in Replay(before).entries {
      j := EveryEntryWasMade(before, e);
      MadeStill(before, ops[n], j, e);
    } else {
      j := n;
    }
  }

  /** A load is answered with a module whose initializers have accepted, if and only if the module was
      not loaded for the FFI before: a later load that is not for the FFI does not make up for it. */
  lemma AnsweredInitialised(ops: seq<Op>, name: string, ffi: bool, os: Surroundings) returns (j: nat)
    requires Loaded(Replay(ops + [Load(name, ffi, os)]).entries, name)
    ensures var ops' := ops + [Load(name, ffi, os)];
            var es := Replay(ops').entries;
            var e := es[IndexOf(es, name)];
            && Made(ops', j, e) && (Initialised(ops'[j]) <==> !e.ffiLoaded)
            && (Loaded(Replay(ops).entries, name) ==> es == Replay(ops).entries && j < |ops|)
  {
    var ops' := ops + [Load(name, ffi, os)];
    assert ops'[..|ops|] == ops;
    var es := Replay(ops').entries;
    j := EveryEntryWasMade(ops', es[IndexOf(es, name)]);
  }

  /** It happens: loaded for the FFI and then not for it, a module is answered that was never asked. */
  lemma FfiLoadIsNotMadeUpFor(name: string, os: Surroundings, os': Surroundings)
    requires name != "" && os.handle != 0
    ensures var ops := [Load(name, true, os), Load(name, false, os')];
            Replay(ops).entries == [Entry(name, os.handle, true)] && !Initialised(ops[0])
  {
    var ops := [Load(name, true, os), Load(name, false, os')];
    assert ops[..1] == [ops[0]] && [ops[0]][..0] == [];
    assert Replay(ops[..1]).entries[0].name == name;
  }

  /** Unloading what was just loaded restores the list and gives the handle back. */
  lemma UnloadUndoesLoad(r: Registry, name: string, ffi: bool, os: Surroundings)
    requires name != "" && !Loaded(r.entries, name)
    ensures var r' := AfterUnload(AfterLoad(r, name, ffi, os), name, true);
            && r'.entries == r.entries
            && r'.obtained == r.obtained + HandleOf(os.handle)
            && r'.freed == r.freed + HandleOf(os.handle)
  {
    var r1 := AfterLoad(r, name, ffi, os);
    if Loads(name, ffi, os) {
      assert r1.entries[0].name == name;
      assert IndexOf(r1.entries, name) == 0;
    }
  }
}
