/** sqNamedPrims.c: the module list as linked entries, relinked in place. */
module NamedPrims {
  import opened ModuleRegistry

  class ModuleEntry {
    var next: ModuleEntry?
    const handle: int
    const ffiLoaded: bool
    const name: string

    constructor (name: string, handle: int, ffiLoaded: bool, next: ModuleEntry?)
      ensures this.name == name && this.handle == handle && this.ffiLoaded == ffiLoaded && this.next == next
    {
      this.name, this.handle, this.ffiLoaded, this.next := name, handle, ffiLoaded, next;
    }

    function Value(): Entry { Entry(name, handle, ffiLoaded) }
  }

  class ModuleList {
    var squeakModule: ModuleEntry?
    var firstModule: ModuleEntry?
    /** The entries in list order, and the handles the operating system gave and got back. */
    ghost var chain: seq<ModuleEntry>
    ghost var obtained: multiset<int>
    ghost var freed: multiset<int>

    /** What chain[k].next is. */
    ghost function NextOf(k: nat): ModuleEntry?
      requires k < |chain|
      reads this`chain
    {
      if k + 1 < |chain| then chain[k + 1] else null
    }

    ghost predicate Linked()
      reads this, chain
    {
      && firstModule == (if chain == [] then null else chain[0])
      && (forall k {:trigger chain[k].next} :: 0 <= k < |chain| ==> chain[k].next == NextOf(k))
      && (forall j, k :: 0 <= j < k < |chain| ==> chain[j] != chain[k])
    }

    ghost predicate Valid()
      reads this, chain
    {
      && Linked()
      && (squeakModule == null ==> chain == [])
      && (squeakModule != null ==> squeakModule !in chain && squeakModule.handle == 0 && squeakModule.name == "")
      && Sound(View())
    }

    ghost function View(): Registry
      reads this
    {
      Registry(Values(chain), obtained, freed)
    }

    constructor ()
      ensures Valid() && View() == EMPTY
    {
      squeakModule, firstModule, chain, obtained, freed := null, null, [], multiset{}, multiset{};
    }

    /** The module of that name, the VM itself for no name, or null. */
    method FindLoadedModule(pluginName: string) returns (found: ModuleEntry?)
      requires Valid()
      ensures pluginName == "" ==> found == squeakModule
      ensures pluginName != "" ==>
                if Loaded(View().entries, pluginName)
                then found == chain[IndexOf(View().entries, pluginName)] else found == null
      ensures pluginName != "" && found != null ==> found in chain && found.name == pluginName
    {
      if pluginName == "" {
        return squeakModule;
      }
      ghost var k := 0;
      var module_ := firstModule;
      while module_ != null
        invariant 0 <= k <= |chain| && module_ == (if k < |chain| then chain[k] else null)
        invariant forall j :: 0 <= j < k ==> chain[j].name != pluginName
        decreases |chain| - k
      {
        if module_.name == pluginName {
          assert View().entries[k].name == pluginName;
          return module_;
        }
        module_ := module_.next;
        k := k + 1;
      }
      return null;
    }

    /** Links a new entry in front. */
    method AddToModuleList(pluginName: string, handle: int, ffiFlag: bool) returns (added: ModuleEntry)
      requires Linked()
      modifies this`firstModule, this`chain
      ensures Linked() && fresh(added) && chain == [added] + old(chain)
      ensures added.Value() == Entry(pluginName, handle, ffiFlag)
    {
      added := new ModuleEntry(pluginName, handle, ffiFlag, firstModule);
      firstModule := added;
      chain := [added] + chain;
    }

    /** Unlinks an entry of the list. */
    method RemoveFromList(entry: ModuleEntry, ghost at: nat)
      requires Linked() && at < |chain| && chain[at] == entry
      modifies this`firstModule, this`chain, chain
      ensures Linked() && chain == old(chain)[..at] + old(chain)[at + 1..]
    {
      if entry == firstModule {
        assert at == 0;
        firstModule := entry.next;
        chain := chain[1..];
      } else {
        var prevModule := Predecessor(entry, at);
        prevModule.next := entry.next;
        chain := chain[..at] + chain[at + 1..];
      }
    }

    /** The search for the entry whose next is this one. */
    method Predecessor(entry: ModuleEntry, ghost at: nat) returns (prevModule: ModuleEntry)
      requires Linked() && 0 < at < |chain| && chain[at] == entry
      ensures prevModule == chain[at - 1]
    {
      prevModule := firstModule;
      ghost var k := 0;
      while prevModule.next != entry
        invariant 0 <= k < at && prevModule == chain[k]
        decreases at - k
      {
        k := k + 1;
        prevModule := prevModule.next;
      }
    }

    /** callInitializersIn, the module answering as `plugin` says. */
    method CallInitializersIn(entry: ModuleEntry, plugin: Plugin) returns (ok: bool)
      ensures ok == Initialises(plugin, entry.name)
      ensures ok <==>
                && plugin.setInterpreter == Some(true) && plugin.initialiseModule != Some(false)
                && plugin.getModuleName != Some(None)
                && (plugin.getModuleName.Some? ==> entry.name <= plugin.getModuleName.value.value)
    {
      if plugin.getModuleName.Some? {
        var moduleName := plugin.getModuleName.value;
        if moduleName.None? {
          return false;
        }
        if !(entry.name <= moduleName.value) {
          return false;
        }
      }
      if plugin.setInterpreter.None? {
        return false;
      }
      if !plugin.setInterpreter.value {
        return false;
      }
      if plugin.initialiseModule.Some? {
        return plugin.initialiseModule.value;
      }
      return true;
    }

    /** Links an entry, and unlinks it again if its initializers fail. */
    method Initialise(pluginName: string, handle: int, ffiLoad: bool, plugin: Plugin) returns (found: ModuleEntry?)
      requires Linked() && squeakModule != null && squeakModule.handle == 0
      modifies this`firstModule, this`chain, this`freed, chain
      ensures Linked()
      ensures found != null ==> fresh(found)
      ensures found != null <==> Initialises(plugin, pluginName)
      ensures found != null ==> chain == [found] + old(chain) && found.Value() == Entry(pluginName, handle, ffiLoad)
      ensures found == null ==> chain == old(chain)
      ensures freed == old(freed) + if found == null then HandleOf(handle) else multiset{}
    {
      found := AddToModuleList(pluginName, handle, ffiLoad);
      var ok := CallInitializersIn(found, plugin);
      if !ok {
        if handle != squeakModule.handle {
          freed := freed + HandleOf(handle);
        }
        RemoveFromList(found, 0);
        assert chain == old(chain);
        found := null;
      }
    }

    /** Loads a module that is not in the list. */
    method FindAndLoadModule(pluginName: string, ffiLoad: bool, os: Surroundings) returns (found: ModuleEntry?)
      requires Linked() && squeakModule != null && squeakModule.handle == 0
      modifies this`firstModule, this`chain, this`obtained, this`freed, chain
      ensures Linked()
      ensures found != null <==> Loads(pluginName, ffiLoad, os)
      ensures found != null ==>
                fresh(found) && chain == [found] + old(chain) && found.Value() == Entry(pluginName, os.handle, ffiLoad)
      ensures found == null ==> chain == old(chain)
      ensures obtained == old(obtained) + HandleOf(os.handle)
      ensures freed == old(freed) + if found == null then HandleOf(os.handle) else multiset{}
    {
      var handle := os.handle;
      obtained := obtained + HandleOf(handle);
      if ffiLoad {
        if handle == 0 {
          return null;
        }
        found := AddToModuleList(pluginName, handle, ffiLoad);
        return;
      }
      if handle == 0 {
        if !os.internal {
          return null;
        }
        handle := squeakModule.handle;
      }
      found := Initialise(pluginName, handle, ffiLoad, os.plugin);
    }

    /** The entry that stands for the VM itself, made on first use and kept off the list. */
    method NeedSqueakModule()
      requires Valid()
      modifies this
      ensures Valid() && squeakModule != null && chain == old(chain) && View() == old(View())
      ensures old(squeakModule) != null ==> squeakModule == old(squeakModule)
    {
      if squeakModule == null {
        squeakModule := AddToModuleList("", 0, true);
        firstModule, chain := null, [];
      }
    }

    /** Loads a module that was looked for and not found. */
    method LoadMissing(pluginName: string, ffiLoad: bool, os: Surroundings) returns (found: ModuleEntry?)
      requires Valid() && squeakModule != null && pluginName != "" && !Loaded(View().entries, pluginName)
      modifies this`firstModule, this`chain, this`obtained, this`freed, chain
      ensures Valid() && View() == AfterLoad(old(View()), pluginName, ffiLoad, os)
      ensures found != null <==> Loads(pluginName, ffiLoad, os)
      ensures found != null ==> found in chain && found.name == pluginName
    {
      ghost var before := View();
      SoundAfterLoad(before, pluginName, ffiLoad, os);
      found := FindAndLoadModule(pluginName, ffiLoad, os);
      if found != null {
        assert Values(chain) == [found.Value()] + before.entries;
      }
    }

    /** The module of that name, loaded if need be, or null. */
    method FindOrLoadModule(pluginName: string, ffiLoad: bool, os: Surroundings) returns (found: ModuleEntry?)
      requires Valid()
      modifies this, chain
      ensures Valid() && View() == AfterLoad(old(View()), pluginName, ffiLoad, os)
      ensures squeakModule != null && (old(squeakModule) != null ==> squeakModule == old(squeakModule))
      ensures pluginName == "" ==> found == squeakModule
      ensures pluginName != "" ==>
                (found != null <==> Loaded(old(View().entries), pluginName) || Loads(pluginName, ffiLoad, os))
      ensures pluginName != "" && found != null ==> found in chain && found.name == pluginName
    {
      NeedSqueakModule();
      assert View() == old(View());
      found := FindLoadedModule(pluginName);
      if found == null {
        found := LoadMissing(pluginName, ffiLoad, os);
      } else {
        LoadOfKnown(View(), pluginName, ffiLoad, os);
      }
    }

    /** Calls moduleUnloaded in every other module that exports it, in list order. */
    method NotifyOthers(entry: ModuleEntry, ghost at: nat, hooks: string -> bool)
      returns (notified: seq<string>, ghost told: seq<nat>)
      requires Linked() && at < |chain| && chain[at] == entry
      ensures notified == Notified(Values(chain), at, hooks, |chain|)
      ensures |told| == |notified| && forall k, l :: 0 <= k < l < |told| ==> told[k] < told[l]
      ensures forall k :: 0 <= k < |told| ==> told[k] < |chain| && notified[k] == chain[told[k]].name
      ensures forall j: nat :: j in told <==> j < |chain| && j != at && hooks(chain[j].name)
    {
      ghost var es := Values(chain);
      notified := [];
      ghost var k := 0;
      var temp := firstModule;
      while temp != null
        invariant 0 <= k <= |chain| && temp == (if k < |chain| then chain[k] else null)
        invariant notified == Notified(es, at, hooks, k)
        decreases |chain| - k
      {
        assert es[k].name == temp.name && (temp == entry <==> k == at);
        NotifiedNext(es, at, hooks, k);
        if temp != entry {
          if hooks(temp.name) {
            notified := notified + [temp.name];
          }
        }
        temp := temp.next;
        k := k + 1;
      }
      told := Told(es, at, hooks, |chain|);
      ToldMeans(es, at, hooks, notified);
    }

    /** Unlinks an entry and gives its handle back. */
    method Discard(entry: ModuleEntry, ghost at: nat)
      requires Linked() && at < |chain| && chain[at] == entry && squeakModule != null && squeakModule.handle == 0
      modifies this`firstModule, this`chain, this`freed, chain
      ensures Linked() && chain == old(chain)[..at] + old(chain)[at + 1..]
      ensures freed == old(freed) + HandleOf(entry.handle)
    {
      if entry.handle != squeakModule.handle {
        freed := freed + HandleOf(entry.handle);
      }
      RemoveFromList(entry, at);
    }

    /** Takes a module off the list for good. */
    method Unload(entry: ModuleEntry, ghost at: nat)
      requires Valid() && squeakModule != null && at < |chain| && chain[at] == entry
      modifies this`firstModule, this`chain, this`freed, chain
      ensures Valid() && View() == AfterUnload(old(View()), entry.name, true)
      ensures chain == old(chain)[..at] + old(chain)[at + 1..] && freed == old(freed) + HandleOf(entry.handle)
    {
      ghost var before := View();
      assert before.entries[at] == entry.Value();
      AfterUnloadAt(before, at);
      SoundAfterUnload(before, entry.name, true);
      ValuesWithout(chain, at);
      Discard(entry, at);
    }

    /** Unloads a module: false if refused, true if done or if it was never loaded. Before it goes,
        the other modules that want to know are told. */
    method IoUnloadModule(moduleName: string, answer: Option<bool>, hooks: string -> bool)
      returns (ok: bool, notified: seq<string>)
      requires Valid()
      modifies this`firstModule, this`chain, this`freed, chain
      ensures Valid()
      ensures View() == AfterUnload(old(View()), moduleName, ok)
      ensures ok <==>
                && squeakModule != null && moduleName != ""
                && (Loaded(old(View()).entries, moduleName) ==>
                      ShutsDown(old(View()).entries[IndexOf(old(View()).entries, moduleName)].ffiLoaded, answer))
      ensures notified ==
                if ok && Loaded(old(View()).entries, moduleName)
                then Notified(old(View()).entries, IndexOf(old(View()).entries, moduleName), hooks, |old(chain)|)
                else []
      ensures moduleName != "" && Loaded(old(View()).entries, moduleName) ==>
                var k := IndexOf(old(View()).entries, moduleName);
                if !old(chain)[k].ffiLoaded && answer == Some(false)
                then !ok && notified == [] && chain == old(chain) && freed == old(freed)
                else && ok && chain == old(chain)[..k] + old(chain)[k + 1..]
                     && freed == old(freed) + HandleOf(old(chain)[k].handle)
    {
      notified := [];
      if squeakModule == null || moduleName == "" {
        NotThere(View(), moduleName, false);
        return false, [];
      }
      var entry := FindLoadedModule(moduleName);
      if entry == null {
        NotThere(View(), moduleName, true);
        return true, [];
      }
      ghost var at := IndexOf(View().entries, moduleName);
      ok, notified := UnloadFound(entry, at, answer, hooks);
    }

    /** The module having been found: it is asked, the others are told, and it goes. */
    method UnloadFound(entry: ModuleEntry, ghost at: nat, answer: Option<bool>, hooks: string -> bool)
      returns (ok: bool, notified: seq<string>)
      requires Valid() && squeakModule != null && at < |chain| && chain[at] == entry
      modifies this`firstModule, this`chain, this`freed, chain
      ensures Valid() && View() == AfterUnload(old(View()), entry.name, ok)
      ensures ok <==> ShutsDown(entry.ffiLoaded, answer)
      ensures notified == if ok then Notified(old(View()).entries, at, hooks, |old(chain)|) else []
      ensures if !entry.ffiLoaded && answer == Some(false)
              then !ok && chain == old(chain) && freed == old(freed)
              else && ok && chain == old(chain)[..at] + old(chain)[at + 1..]
                   && freed == old(freed) + HandleOf(entry.handle)
    {
      if !entry.ffiLoaded && answer == Some(false) {
        return false, [];
      }
      ghost var told;
      notified, told := NotifyOthers(entry, at, hooks);
      Unload(entry, at);
      ok := true;
    }

    /** The n-th loaded module, counted from 1, by the name it was compiled with if it tells one. */
    method IoListLoadedModule(moduleIndex: int, compiledName: string -> Option<string>) returns (r: Option<string>)
      requires Valid()
      ensures 1 <= moduleIndex <= |chain| ==>
                var own := chain[moduleIndex - 1].name;
                r == if compiledName(own).Some? then compiledName(own) else Some(own)
      ensures !(1 <= moduleIndex <= |chain|) ==> r == None
    {
      var index := 1;
      var entry := firstModule;
      if moduleIndex < 1 {
        return None;
      }
      while entry != null && index < moduleIndex
        invariant 1 <= index <= |chain| + 1 && index <= moduleIndex
        invariant entry == if index <= |chain| then chain[index - 1] else null
        decreases |chain| - index
      {
        entry := entry.next;
        index := index + 1;
      }
      if entry == null {
        return None;
      }
      var moduleName := compiledName(entry.name);
      r := Some(if moduleName.Some? then moduleName.value else entry.name);
    }
  }

  /** The numbers below n that are picked, in order. */
  function Chosen(pick: nat -> bool, n: nat): (chosen: seq<nat>)
    ensures forall k :: 0 <= k < |chosen| ==> chosen[k] < n
  {
    if n == 0 then [] else Chosen(pick, n - 1) + if pick(n - 1) then [n - 1] else []
  }

  ghost predicate Ascending(s: seq<nat>) { forall k, l :: 0 <= k < l < |s| ==> s[k] < s[l] }

  lemma {:induction false} ChosenAscend(pick: nat -> bool, n: nat)
    ensures Ascending(Chosen(pick, n))
  {
    if n > 0 { ChosenAscend(pick, n - 1); }
  }

  lemma {:induction false} ChosenAreThose(pick: nat -> bool, n: nat, j: nat)
    ensures j in Chosen(pick, n) <==> j < n && pick(j)
  {
    if n > 0 { ChosenAreThose(pick, n - 1, j); }
  }

  /** Whether entry k is another one than `at` and exports a hook. */
  function Listens(entries: seq<Entry>, at: nat, hooks: string -> bool): nat -> bool {
    (k: nat) => k < |entries| && k != at && hooks(entries[k].name)
  }

  /** The places, among the first n, of the entries that are told. */
  function Told(entries: seq<Entry>, at: nat, hooks: string -> bool, n: nat): (told: seq<nat>)
    ensures forall k :: 0 <= k < |told| ==> told[k] < n
  {
    Chosen(Listens(entries, at, hooks), n)
  }

  function NamesAt(entries: seq<Entry>, places: seq<nat>): seq<string>
    requires forall k :: 0 <= k < |places| ==> places[k] < |entries|
  {
    seq(|places|, k requires 0 <= k < |places| => entries[places[k]].name)
  }

  function Notified(entries: seq<Entry>, at: nat, hooks: string -> bool, n: nat): seq<string>
    requires n <= |entries|
  {
    NamesAt(entries, Told(entries, at, hooks, n))
  }

  lemma NotThere(r: Registry, name: string, shutsDown: bool)
    requires Sound(r) && (name == "" || r.entries == [] || !Loaded(r.entries, name))
    ensures AfterUnload(r, name, shutsDown) == r && !Loaded(r.entries, name)
  {
  }

  lemma ToldMeans(entries: seq<Entry>, at: nat, hooks: string -> bool, notified: seq<string>)
    requires notified == Notified(entries, at, hooks, |entries|)
    ensures var told := Told(entries, at, hooks, |entries|);
            && |told| == |notified| && Ascending(told)
            && (forall k :: 0 <= k < |told| ==> told[k] < |entries| && notified[k] == entries[told[k]].name)
            && (forall j: nat :: j in told <==> j < |entries| && j != at && hooks(entries[j].name))
  {
    var told := Told(entries, at, hooks, |entries|);
    ChosenAscend(Listens(entries, at, hooks), |entries|);
    forall j: nat ensures j in told <==> j < |entries| && j != at && hooks(entries[j].name) {
      ChosenAreThose(Listens(entries, at, hooks), |entries|, j);
    }
  }

  lemma NotifiedNext(entries: seq<Entry>, at: nat, hooks: string -> bool, n: nat)
    requires n < |entries|
    ensures Notified(entries, at, hooks, n + 1) ==
            Notified(entries, at, hooks, n) + if n != at && hooks(entries[n].name) then [entries[n].name] else []
  {
  }

  /** Every other module with a hook is told exactly once, the one that goes is not, and they are told
      in list order: the places told are ascending, so none is there twice. */
  lemma NotifiedOnce(entries: seq<Entry>, at: nat, hooks: string -> bool, n: nat, j: nat)
    requires n <= |entries| && j < |entries|
    ensures Ascending(Told(entries, at, hooks, n))
    ensures j in Told(entries, at, hooks, n) <==> j < n && j != at && hooks(entries[j].name)
  {
    ChosenAscend(Listens(entries, at, hooks), n);
    ChosenAreThose(Listens(entries, at, hooks), n, j);
  }

  // ------------------------------------------------------------------- the VM's own exports

  /** A row of an export table; an empty name and a null name are the same. accessorDepth is the byte
      hidden after the terminated function name. */
  datatype Export = Export(pluginName: string, primitiveName: string, primitiveAddress: int, accessorDepth: int)

  /** A row with neither name ends its table. */
  predicate EndOfTable(e: Export) { e.pluginName == "" && e.primitiveName == "" }

  predicate Names(e: Export, functionName: string, pluginName: string) {
    e.pluginName == pluginName && e.primitiveName == functionName && !EndOfTable(e)
  }

  /** Row i of table l is reached and is the function sought. */
  predicate Hit(tables: seq<seq<Export>>, l: int, i: int, functionName: string, pluginName: string) {
    && 0 <= l < |tables| && 0 <= i < |tables[l]|
    && Names(tables[l][i], functionName, pluginName)
    && forall k :: 0 <= k < i ==> !EndOfTable(tables[l][k])
  }

  /** A row counts if it has both names sought and no row of its table up to it is without names. */
  lemma HitMeans(tables: seq<seq<Export>>, l: nat, i: nat, functionName: string, pluginName: string)
    requires l < |tables| && i < |tables[l]|
    ensures Hit(tables, l, i, functionName, pluginName) <==>
            && tables[l][i].pluginName == pluginName && tables[l][i].primitiveName == functionName
            && forall k :: 0 <= k <= i ==> tables[l][k].pluginName != "" || tables[l][k].primitiveName != ""
  {
  }

  /** findInternalFunctionIn: the first row that names the function, in table order and then row
      order, or None. Its accessor depth is told if asked for. */
  method FindInternalFunctionIn(functionName: string, pluginName: string, tables: seq<seq<Export>>, wantsDepth: bool)
    returns (address: Option<int>, depth: Option<int>)
    requires wantsDepth ==> functionName != ""
    ensures address.None? ==> depth == None && forall l, i :: !Hit(tables, l, i, functionName, pluginName)
    ensures address.Some? ==>
              exists l, i :: Hit(tables, l, i, functionName, pluginName)
                && address.value == tables[l][i].primitiveAddress
                && depth == (if wantsDepth then Some(tables[l][i].accessorDepth) else None)
                && forall l', i' :: Hit(tables, l', i', functionName, pluginName) ==> l < l' || (l == l' && i <= i')
  {
    var listIndex := 0;
    while listIndex < |tables|
      invariant 0 <= listIndex <= |tables|
      invariant forall l, i :: Hit(tables, l, i, functionName, pluginName) ==> l >= listIndex
    {
      var exports := tables[listIndex];
      var index := 0;
      while index < |exports| && !EndOfTable(exports[index])
        invariant 0 <= index <= |exports|
        invariant forall k :: 0 <= k < index ==> !EndOfTable(exports[k])
        invariant forall l, i :: Hit(tables, l, i, functionName, pluginName) ==>
                    l >= listIndex && (l == listIndex ==> i >= index)
      {
        if exports[index].pluginName == pluginName && exports[index].primitiveName == functionName {
          assert Hit(tables, listIndex, index, functionName, pluginName);
          return Some(exports[index].primitiveAddress), if wantsDepth then Some(exports[index].accessorDepth) else None;
        }
        index := index + 1;
      }
      listIndex := listIndex + 1;
    }
    address, depth := None, None;
  }

  lemma ValuesWithout(chain: seq<ModuleEntry>, at: nat)
    requires at < |chain|
    ensures Values(chain[..at] + chain[at + 1..]) == Values(chain)[..at] + Values(chain)[at + 1..]
  {
  }

  ghost function Values(chain: seq<ModuleEntry>): seq<Entry> {
    seq(|chain|, k requires 0 <= k < |chain| => chain[k].Value())
  }
}
