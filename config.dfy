/**
 * `Config` of `resources/config/config.py`: a resource manager over one
 * `key=value` file, holding one `Entry` object per option.
 *
 * Listener callbacks are identified by number; calling one appends a
 * `Call` to a `Trace` shared by every entry, so the order in which
 * listeners run is observable. The task handler is the manager's job
 * queue, and waiting on an event runs queued jobs until the event is set
 * (the worker's side of the queue, run on the caller's behalf).
 */
module Configs {
  import opened Strings
  import opened Wrappers
  import opened ParserUtil
  import opened ConfigFormat
  import opened ConfigStore
  import opened Resources
  import opened FileSystem

  /** The listener calls made so far, in order. */
  class Trace {
    var calls: seq<Call>

    constructor ()
      ensures calls == []
    {
      calls := [];
    }
  }

  /** `Config.Entry` */
  class Entry {
    const name: string
    const parser: Parser
    const description: string
    const defaultValue: Value
    var value: Value
    /** `_notifiers`, in registration order. */
    var listeners: seq<ListenerId>
    const trace: Trace

    predicate Valid()
      reads this
    {
      HasType(parser, value) && HasType(parser, defaultValue)
    }

    /** The entry's state as a store slot. */
    function AsSlot(): Slot
      reads this
    {
      Slot(parser, description, defaultValue, value, listeners)
    }

    /** A new entry holds its default and has no listeners. */
    constructor (name: string, parser: Parser, description: string, defaultValue: Value, trace: Trace)
      requires HasType(parser, defaultValue)
      ensures Valid()
      ensures this.name == name && this.parser == parser && this.description == description
      ensures this.defaultValue == defaultValue && value == defaultValue && listeners == []
      ensures this.trace == trace
    {
      this.name := name;
      this.parser := parser;
      this.description := description;
      this.defaultValue := defaultValue;
      this.value := defaultValue;
      this.listeners := [];
      this.trace := trace;
    }

    /** `when_changed`: the listener goes after those already registered. */
    method WhenChanged(listener: ListenerId)
      modifies this
      ensures listeners == old(listeners) + [listener]
      ensures value == old(value)
    {
      listeners := listeners + [listener];
    }

    /**
     * `_set_value`: store the new value first, then call every listener in
     * registration order with the old and the new value.
     */
    method SetValue(v: Value)
      requires Valid() && HasType(parser, v)
      modifies this, trace
      ensures Valid()
      ensures value == v && listeners == old(listeners)
      ensures trace.calls == old(trace.calls) + Notify(listeners, name, old(value), v)
    {
      var before := value;
      value := v;
      var i := 0;
      while i < |listeners|
        invariant 0 <= i <= |listeners|
        invariant value == v && listeners == old(listeners)
        invariant trace.calls == old(trace.calls) + Notify(listeners[..i], name, before, v)
      {
        trace.calls := trace.calls + [Call(listeners[i], name, before, v)];
        i := i + 1;
      }
      assert listeners[..i] == listeners;
    }

    /** `reset`: back to the default, notifying the listeners even if the value was already the default. */
    method Reset()
      requires Valid()
      modifies this, trace
      ensures Valid()
      ensures value == defaultValue && listeners == old(listeners)
      ensures trace.calls == old(trace.calls) + Notify(listeners, name, old(value), defaultValue)
    {
      SetValue(defaultValue);
    }

    /** `parse_and_set` */
    method ParseAndSet(text: string)
      requires Valid()
      modifies this, trace
      ensures Valid()
      ensures AsSlot() == ConfigStore.ParseAndSet(old(AsSlot()), name, text).0
      ensures trace.calls == old(trace.calls) + ConfigStore.ParseAndSet(old(AsSlot()), name, text).1
    {
      var parsed := EntryParse(AsSlot(), text);
      if parsed.Ok? && parsed.value != value {
        SetValue(parsed.value);
      }
    }

    /** `write` given an open file: the lines this entry adds to it. */
    function Block(): (lines: seq<string>)
      requires Valid()
      reads this
    {
      EntryBlock(name, description, Stringify(parser, value))
    }

    /**
     * `write` given a path: copy the file, rewriting this entry's lines, and
     * replace it. A missing file makes the source raise; here nothing is written.
     */
    method WriteInPlace(fs: Disk, path: Path)
      requires Valid() && fs.Valid()
      modifies fs
      ensures fs.Valid()
      ensures path in old(fs.files) ==>
        fs.files == old(fs.files)[path := FileData(SurgicalWrite(old(fs.files)[path].lines, name, Stringify(parser, value)), old(fs.clock))]
      ensures path !in old(fs.files) ==> fs.files == old(fs.files)
    {
      if path in fs.files {
        var out := CopyReplacing(fs.files[path].lines, name, Stringify(parser, value));
        fs.Write(path, out);
      }
    }
  }

  /** A job's share of the work left: a write can queue a reload and wait for it. */
  function JobWeight(jobs: seq<Job>): nat
  {
    if |jobs| == 0 then 0
    else JobWeight(jobs[..|jobs| - 1]) + (if jobs[|jobs| - 1].WriteJob? then 3 else 1)
  }

  lemma {:induction false} JobWeightAppend(a: seq<Job>, b: seq<Job>)
    ensures JobWeight(a + b) == JobWeight(a) + JobWeight(b)
    decreases |b|
  {
    if |b| == 0 {
      assert a + b == a;
    } else {
      assert (a + b)[..|a + b| - 1] == a + b[..|b| - 1];
      JobWeightAppend(a, b[..|b| - 1]);
    }
  }

  lemma JobWeightTake(jobs: seq<Job>)
    requires |jobs| > 0
    ensures JobWeight(jobs) == JobWeight([jobs[0]]) + JobWeight(jobs[1..])
  {
    JobWeightAppend([jobs[0]], jobs[1..]);
    assert [jobs[0]] + jobs[1..] == jobs;
  }

  /** `check_file_changes`' test: the file is gone or its modification time is not the one last read. */
  predicate Stale(files: map<Path, FileData>, path: Path, lastRead: Option<nat>) {
    path !in files || lastRead != Some(files[path].mtime)
  }

  /** The last calls of the trace are the option's listeners, in order, each hearing the value `after`. */
  predicate EndsWithNotify(calls: seq<Call>, listeners: seq<ListenerId>, option: string, after: Value) {
    && |calls| >= |listeners|
    && var tail := calls[|calls| - |listeners|..];
       forall i :: 0 <= i < |tail| ==> tail[i].listener == listeners[i] && tail[i].option == option && tail[i].after == after
  }

  /** Notifying a value leaves the listeners' calls at the end of the trace. */
  lemma NotifyEndsTrace(calls: seq<Call>, listeners: seq<ListenerId>, option: string, before: Value, after: Value)
    ensures EndsWithNotify(calls + Notify(listeners, option, before, after), listeners, option, after)
  {
    var all := calls + Notify(listeners, option, before, after);
    assert all[|all| - |listeners|..] == Notify(listeners, option, before, after);
  }

  /** The file's lines assign the option's text last, whenever the text survives the format. */
  predicate ReadsBack(lines: seq<string>, option: string, text: string) {
    WellFormedKey(option) && NoLeadingSpace(text) && '\n' !in text ==> LastAssignment(lines, option) == Some(text)
  }

  /** Rewriting an option's lines leaves the file assigning it the new text last. */
  lemma WrittenReadsBack(lines: seq<string>, option: string, text: string)
    ensures ReadsBack(SurgicalWrite(lines, option, text), option, text)
  {
    if WellFormedKey(option) && NoLeadingSpace(text) && '\n' !in text {
      ReadBack(lines, option, text, option);
    }
  }

  class Config {
    const path: Path
    const fs: Disk
    const trace: Trace
    const manager: ResourceManager
    /** `NULL_EVENT`: shared by every config, set once and never cleared. */
    const nullEvent: Event
    /** `_config_cache` */
    var cache: map<string, Entry>
    /** The order in which the options were registered (the dictionary's order). */
    var keys: seq<string>
    /** `_last_read` */
    var lastRead: Option<nat>
    ghost var Repr: set<object>

    ghost predicate Valid()
      reads this, Repr, manager, nullEvent
    {
      Shape() && EntriesValid()
    }

    /** The invariant apart from the entries' values: which entries there are, in what order, and what is queued. */
    ghost predicate Shape()
      reads this, manager, nullEvent
    {
      && this in Repr && manager in Repr && manager.readyEvent in Repr
      && fs !in Repr && trace !in Repr && nullEvent !in Repr
      && nullEvent.isSet
      && (forall i, j :: 0 <= i < j < |keys| ==> keys[i] != keys[j])
      && (forall i :: 0 <= i < |keys| ==> keys[i] in cache)
      && (forall k :: k in cache ==> k in keys)
      && (forall k :: k in cache ==> cache[k] in Repr && cache[k].name == k && cache[k].trace == trace)
      && (forall j :: 0 <= j < |manager.jobs| && manager.jobs[j].WriteJob? ==> manager.jobs[j].option in cache)
    }

    /** Every entry's value and default have the entry's type. */
    ghost predicate EntriesValid()
      reads this, Entries()
    {
      forall k :: k in cache ==> cache[k].Valid()
    }

    /** The entries' state, option by option. */
    function Store(): Store
      reads this`cache, Entries()
    {
      map k | k in cache :: cache[k].AsSlot()
    }

    function Entries(): set<Entry>
      reads this`cache
    {
      set k | k in cache :: cache[k]
    }

    /**
     * The first part of `__init__`: a fresh manager, the path, and an empty
     * option table. The subclass's options and the first `reload` follow.
     */
    constructor (path: Path, fs: Disk, trace: Trace, nullEvent: Event)
      requires nullEvent.isSet
      ensures Valid() && fresh(Repr - {this})
      ensures this.path == path && this.fs == fs && this.trace == trace && this.nullEvent == nullEvent
      ensures cache == map[] && keys == [] && lastRead == None
      ensures manager.state == Uninitialized && manager.jobs == [] && !manager.readyEvent.isSet
    {
      this.path := path;
      this.fs := fs;
      this.trace := trace;
      this.nullEvent := nullEvent;
      var m := new ResourceManager();
      this.manager := m;
      this.cache := map[];
      this.keys := [];
      this.lastRead := None;
      this.Repr := {this, m, m.readyEvent};
    }

    /**
     * `_add_config_option(name, validator, description, default)`: a new
     * entry holding its default. Registering a name again replaces the
     * earlier entry but keeps its place in the order.
     */
    method AddConfigOption(name: string, parser: Parser, description: string, defaultValue: Value)
      requires Valid() && HasType(parser, defaultValue)
      modifies this
      ensures Valid() && fresh(Repr - old(Repr))
      ensures cache.Keys == old(cache.Keys) + {name}
      ensures keys == if name in old(cache) then old(keys) else old(keys) + [name]
      ensures fresh(cache[name]) && cache[name].AsSlot() == Slot(parser, description, defaultValue, defaultValue, [])
      ensures Store() == old(Store())[name := Slot(parser, description, defaultValue, defaultValue, [])]
      ensures lastRead == old(lastRead)
    {
      ghost var before := Store();
      var e := new Entry(name, parser, description, defaultValue, trace);
      assert Store() == before;
      AddEntry(e);
    }

    /** `_add_config_option(entry)`: the entry goes in under its name. */
    method AddEntry(e: Entry)
      requires Valid() && e.Valid() && e.trace == trace && e !in Repr
      modifies this`cache, this`keys, this`Repr
      ensures Valid() && Repr == old(Repr) + {e}
      ensures cache == old(cache)[e.name := e]
      ensures keys == if e.name in old(cache) then old(keys) else old(keys) + [e.name]
      ensures Store() == old(Store())[e.name := e.AsSlot()]
      ensures lastRead == old(lastRead)
    {
      ghost var before := Store();
      PutEntry(e);
      ghost var after := before[e.name := e.AsSlot()];
      assert Store().Keys == after.Keys;
      forall k | k in after ensures Store()[k] == after[k] {
        if k != e.name {
          assert cache[k] == old(cache[k]);
        }
      }
    }

    /** The option table's side of `AddEntry`: the name keeps its place, or goes last if it is new. */
    method PutEntry(e: Entry)
      requires Valid() && e.Valid() && e.trace == trace && e !in Repr
      modifies this`cache, this`keys, this`Repr
      ensures Valid() && Repr == old(Repr) + {e}
      ensures cache == old(cache)[e.name := e]
      ensures keys == if e.name in old(cache) then old(keys) else old(keys) + [e.name]
    {
      if e.name !in cache {
        keys := keys + [e.name];
      }
      cache := cache[e.name := e];
      Repr := Repr + {e};
    }

    /** `reload`, inherited from the resource manager. */
    method Reload() returns (e: Event)
      requires Valid()
      modifies manager, manager.readyEvent
      ensures Valid()
      ensures Store() == old(Store())
      ensures e == manager.readyEvent && manager.state == Initializing
      ensures old(manager.state) != Initializing ==>
        !manager.readyEvent.isSet && manager.jobs == old(manager.jobs) + [ReloadJob]
      ensures old(manager.state) == Initializing ==>
        manager.readyEvent.isSet == old(manager.readyEvent.isSet) && manager.jobs == old(manager.jobs)
    {
      e := manager.Reload();
    }

    /**
     * `_reload_inner`. With no file, every entry is reset to its default
     * (notifying its listeners) and a default file is created; otherwise the
     * file is read line by line into the entries. Either way the file's
     * modification time is recorded.
     */
    method ReloadInner()
      requires Valid() && fs.Valid()
      modifies this`lastRead, Entries(), fs, trace
      ensures Valid() && fs.Valid()
      ensures path !in old(fs.files) ==>
        && Store() == ResetAll(old(Store()))
        && trace.calls == old(trace.calls) + ResetCalls(old(Store()), keys)
        && fs.files == old(fs.files)[path := FileData(DefaultFile(old(Store()), keys), old(fs.clock))]
      ensures path in old(fs.files) ==>
        && Store() == ConfigStore.Reload(old(Store()), old(fs.files)[path].lines).0
        && trace.calls == old(trace.calls) + ConfigStore.Reload(old(Store()), old(fs.files)[path].lines).1
        && fs.files == old(fs.files)
      ensures path in fs.files && lastRead == Some(fs.files[path].mtime)
    {
      if path !in fs.files {
        CreateDefaultFile();
      } else {
        ReadFile();
      }
    }

    /** The missing-file branch of `_reload_inner`: reset and write every entry in registration order. */
    method CreateDefaultFile()
      requires Valid() && fs.Valid() && path !in fs.files
      modifies this`lastRead, Entries(), fs, trace
      ensures Valid() && fs.Valid()
      ensures Store() == ResetAll(old(Store()))
      ensures trace.calls == old(trace.calls) + ResetCalls(old(Store()), keys)
      ensures fs.files == old(fs.files)[path := FileData(DefaultFile(old(Store()), keys), old(fs.clock))]
      ensures lastRead == Some(fs.files[path].mtime)
    {
      var lines := ResetEntries();
      WriteFile(lines);
      RecordRead();
    }

    /** Replace the config file; the entries are untouched. */
    method WriteFile(lines: seq<string>)
      requires Valid() && fs.Valid()
      modifies fs
      ensures Valid() && fs.Valid() && Store() == old(Store())
      ensures fs.files == old(fs.files)[path := FileData(lines, old(fs.clock))]
    {
      fs.Write(path, lines);
    }

    /** `_last_read = os.path.getmtime(path)` */
    method RecordRead()
      requires Valid() && path in fs.files
      modifies this`lastRead
      ensures Valid() && lastRead == Some(fs.files[path].mtime)
      ensures Store() == old(Store())
    {
      lastRead := Some(fs.files[path].mtime);
    }

    /** The loop of the missing-file branch: every entry reset in registration order, and the file's lines. */
    method ResetEntries() returns (lines: seq<string>)
      requires Valid()
      modifies Entries(), trace
      ensures Valid()
      ensures Store() == ResetAll(old(Store()))
      ensures trace.calls == old(trace.calls) + ResetCalls(old(Store()), keys)
      ensures lines == DefaultFile(old(Store()), keys)
    {
      ghost var st0 := Store();
      ghost var calls0 := trace.calls;
      lines := [];
      var i := 0;
      while i < |keys|
        invariant 0 <= i <= |keys|
        invariant Valid() && keys == old(keys) && cache == old(cache)
        invariant ResetInvariant(st0, calls0, i, lines)
      {
        lines := ResetNext(st0, calls0, i, lines);
        i := i + 1;
      }
      assert keys[..i] == keys;
      ResetSomeAll(st0, keys);
    }

    /** Where the missing-file loop stands after `i` entries. */
    ghost predicate ResetInvariant(st0: Store, calls0: seq<Call>, i: nat, lines: seq<string>)
      reads this, Entries(), trace
    {
      && i <= |keys| && StoreTyped(st0) && (forall j :: 0 <= j < |keys| ==> keys[j] in st0)
      && lines == DefaultFile(st0, keys[..i])
      && Store() == ResetSome(st0, keys[..i])
      && trace.calls == calls0 + ResetCalls(st0, keys[..i])
    }

    /** One pass of the missing-file loop. */
    method ResetNext(ghost st0: Store, ghost calls0: seq<Call>, i: nat, lines: seq<string>) returns (lines': seq<string>)
      requires Valid() && i < |keys| && ResetInvariant(st0, calls0, i, lines)
      modifies Entries(), trace
      ensures Valid() && ResetInvariant(st0, calls0, i + 1, lines')
    {
      var k := keys[i];
      assert k !in keys[..i];
      ResetSomeSnoc(st0, keys, i);
      ResetCallsSnoc(st0, keys, i, calls0);
      DefaultFileSnoc(st0, keys, i);
      var block := ResetStep(k);
      lines' := lines + block;
    }

    /** One entry of the missing-file loop: `entry.reset()`, then the entry's block of the new file. */
    method ResetStep(k: string) returns (block: seq<string>)
      requires Valid() && k in cache
      modifies Entries(), trace
      ensures Valid()
      ensures Store() == old(Store())[k := old(Store())[k].(value := old(Store())[k].default)]
      ensures trace.calls == old(trace.calls) + Notify(old(Store())[k].listeners, k, old(Store())[k].value, old(Store())[k].default)
      ensures block == EntryBlock(k, old(Store())[k].description, Stringify(old(Store())[k].parser, old(Store())[k].default))
    {
      ghost var mid := Store();
      var e := cache[k];
      e.Reset();
      assert Store() == mid[k := e.AsSlot()];
      block := e.Block();
    }

    /** The main branch of `_reload_inner`: every line of the file in turn. */
    method ReadFile()
      requires Valid() && fs.Valid() && path in fs.files
      modifies this`lastRead, Entries(), trace
      ensures Valid()
      ensures Store() == ConfigStore.Reload(old(Store()), fs.files[path].lines).0
      ensures trace.calls == old(trace.calls) + ConfigStore.Reload(old(Store()), fs.files[path].lines).1
      ensures lastRead == Some(fs.files[path].mtime)
    {
      ghost var st0 := Store();
      var lines := fs.files[path].lines;
      var i := 0;
      ghost var acc: (Store, seq<Call>) := (st0, []);
      assert acc == ConfigStore.Reload(st0, lines[..i]);
      while i < |lines|
        invariant 0 <= i <= |lines|
        invariant Valid()
        invariant acc == ConfigStore.Reload(st0, lines[..i])
        invariant Store() == acc.0 && trace.calls == old(trace.calls) + acc.1
      {
        ReloadSnoc(st0, lines, i);
        ghost var step := ApplyLine(acc.0, lines[i]);
        ApplyLineStep(lines[i]);
        CallsAssoc(old(trace.calls), acc.1, step.1);
        acc := (step.0, acc.1 + step.1);
        i := i + 1;
      }
      assert lines[..i] == lines;
      RecordRead();
    }

    /** One line of the reading loop: `parse_and_set` on the entry it names, if any. */
    method ApplyLineStep(line: string)
      requires Valid()
      modifies Entries(), trace
      ensures Valid()
      ensures Store() == ApplyLine(old(Store()), line).0
      ensures trace.calls == old(trace.calls) + ApplyLine(old(Store()), line).1
    {
      match ClassifyLine(line) {
        case Assignment(key, text) =>
          if key in cache {
            ParseAndSetEntry(key, text);
          }
        case _ =>
      }
    }

    /** `parse_and_set` on the entry under `key`; the other entries are untouched. */
    method ParseAndSetEntry(key: string, text: string)
      requires Valid() && key in cache
      modifies cache[key], trace
      ensures Valid()
      ensures Store() == old(Store())[key := ConfigStore.ParseAndSet(old(Store())[key], key, text).0]
      ensures trace.calls == old(trace.calls) + ConfigStore.ParseAndSet(old(Store())[key], key, text).1
    {
      ghost var mid := Store();
      var e := cache[key];
      e.ParseAndSet(text);
      assert Store() == mid[key := e.AsSlot()];
    }

    /**
     * `check_file_changes`: reload when the file is missing or its
     * modification time is not the one last read; otherwise hand back the
     * already-set null event.
     */
    method CheckFileChanges() returns (e: Event)
      requires Valid()
      modifies manager, manager.readyEvent
      ensures Valid()
      ensures Stale(fs.files, path, lastRead) ==>
        && e == manager.readyEvent && manager.state == Initializing
        && (old(manager.state) != Initializing ==> !manager.readyEvent.isSet && manager.jobs == old(manager.jobs) + [ReloadJob])
        && (old(manager.state) == Initializing ==> manager.jobs == old(manager.jobs))
      ensures !Stale(fs.files, path, lastRead) ==>
        e == nullEvent && e.isSet && unchanged(manager, manager.readyEvent)
    {
      if Stale(fs.files, path, lastRead) {
        e := Reload();
      } else {
        e := nullEvent;
      }
    }

    /**
     * `event.wait()`: queued jobs run, oldest first, until the event is set
     * or nothing is left to run.
     */
    method Wait(e: Event)
      requires Valid() && fs.Valid() && (e == manager.readyEvent || e == nullEvent)
      modifies Repr, fs, trace
      ensures Valid() && fs.Valid() && Repr == old(Repr) && cache == old(cache) && keys == old(keys)
      ensures JobWeight(manager.jobs) <= old(JobWeight(manager.jobs))
      ensures e.isSet || manager.jobs == []
      decreases JobWeight(manager.jobs), 2
    {
      while !e.isSet && |manager.jobs| > 0
        invariant Valid() && fs.Valid() && Repr == old(Repr) && cache == old(cache) && keys == old(keys)
        invariant JobWeight(manager.jobs) <= old(JobWeight(manager.jobs))
        decreases JobWeight(manager.jobs)
      {
        RunNextJob();
      }
    }

    /**
     * The worker runs the oldest job: a reload job reads the file and then
     * completes the reload (READY and the event set, unless the state was
     * changed meanwhile); a write job writes its option to the file.
     */
    method RunNextJob()
      requires Valid() && fs.Valid() && |manager.jobs| > 0
      modifies Repr, fs, trace
      ensures Valid() && fs.Valid() && Repr == old(Repr) && cache == old(cache) && keys == old(keys)
      ensures JobWeight(manager.jobs) < old(JobWeight(manager.jobs))
      ensures old(manager.jobs[0]) == ReloadJob ==>
        && manager.jobs == old(manager.jobs[1..])
        && (old(manager.state) == Initializing ==> manager.state == Ready && manager.readyEvent.isSet)
        && (old(manager.state) != Initializing ==> manager.state == old(manager.state))
        && path in fs.files && lastRead == Some(fs.files[path].mtime)
      decreases JobWeight(manager.jobs), 1
    {
      JobWeightTake(manager.jobs);
      var job := TakeJob();
      match job
      case ReloadJob =>
        RunReloadJob();
      case WriteJob(option) =>
        SetValueUpdateFile(option);
    }

    /** A reload job: `_reload_inner`, then the reload is complete. */
    method RunReloadJob()
      requires Valid() && fs.Valid()
      modifies this`lastRead, Entries(), fs, trace, manager, manager.readyEvent
      ensures Valid() && fs.Valid()
      ensures manager.jobs == old(manager.jobs)
      ensures old(manager.state) == Initializing ==> manager.state == Ready && manager.readyEvent.isSet
      ensures old(manager.state) != Initializing ==> manager.state == old(manager.state)
      ensures path in fs.files && lastRead == Some(fs.files[path].mtime)
    {
      ReloadInner();
      CompleteReload();
    }

    /** The worker's side of the queue: the oldest job leaves it. */
    method TakeJob() returns (job: Job)
      requires Valid() && |manager.jobs| > 0
      modifies manager
      ensures Valid() && Store() == old(Store())
      ensures job == old(manager.jobs[0]) && manager.jobs == old(manager.jobs[1..])
      ensures manager.state == old(manager.state)
      ensures job.WriteJob? ==> job.option in cache
    {
      job := manager.TakeJob();
    }

    /** The end of a reload job: READY and the event set, unless the state was changed meanwhile. */
    method CompleteReload()
      requires Valid()
      modifies manager, manager.readyEvent
      ensures Valid() && Store() == old(Store())
      ensures manager.jobs == old(manager.jobs)
      ensures old(manager.state) == Initializing ==> manager.state == Ready && manager.readyEvent.isSet
      ensures old(manager.state) != Initializing ==> manager.state == old(manager.state)
    {
      manager.CompleteReload();
    }

    /**
     * `_set_value_update_file`: first take in any outside change to the
     * file, then rewrite this option's lines in place and record the new
     * modification time.
     */
    method SetValueUpdateFile(option: string)
      requires Valid() && fs.Valid() && option in cache
      modifies Repr, fs, trace
      ensures Valid() && fs.Valid() && Repr == old(Repr) && cache == old(cache) && keys == old(keys)
      ensures JobWeight(manager.jobs) <= old(JobWeight(manager.jobs)) + 1
      ensures path in fs.files ==> lastRead == Some(fs.files[path].mtime)
      ensures path in fs.files ==> ReadsBack(fs.files[path].lines, option, Stringify(cache[option].parser, cache[option].value))
      decreases JobWeight(manager.jobs) + 2, 0
    {
      var e := CheckFileChanges();
      JobWeightAppend(old(manager.jobs), [ReloadJob]);
      Wait(e);
      WriteOption(option);
    }

    /** The locked part of `_set_value_update_file`: `option.write(path)`, then record the modification time. */
    method WriteOption(option: string)
      requires Valid() && fs.Valid() && option in cache
      modifies this`lastRead, fs
      ensures Valid() && fs.Valid()
      ensures path in fs.files ==> lastRead == Some(fs.files[path].mtime)
      ensures path in fs.files ==> ReadsBack(fs.files[path].lines, option, Stringify(cache[option].parser, cache[option].value))
    {
      var entry := cache[option];
      ghost var before := if path in fs.files then fs.files[path].lines else [];
      entry.WriteInPlace(fs, path);
      if path in fs.files {
        RecordRead();
        WrittenReadsBack(before, option, Stringify(entry.parser, entry.value));
      }
    }

    /**
     * `get_option(key, safe)`: an unsafe read first waits for the first load,
     * a safe one waits for the change check's reload; both run the check.
     * An unknown key is `None` (a `KeyError` in the source).
     */
    method GetOption(key: string, safe: bool) returns (r: Option<Entry>)
      requires Valid() && fs.Valid()
      modifies Repr, fs, trace
      ensures Valid() && fs.Valid() && Repr == old(Repr) && cache == old(cache) && keys == old(keys)
      ensures r == if key in cache then Some(cache[key]) else None
    {
      if !safe {
        var ready := manager.OnReady();
        Wait(ready);
      }
      var e := CheckFileChanges();
      if safe {
        Wait(e);
      }
      r := if key in cache then Some(cache[key]) else None;
    }

    /** `get_value(key, safe)`: the value of the entry `get_option` returns. */
    method GetValue(key: string, safe: bool) returns (r: Option<Value>)
      requires Valid() && fs.Valid()
      modifies Repr, fs, trace
      ensures Valid() && fs.Valid() && Repr == old(Repr) && cache == old(cache) && keys == old(keys)
      ensures key in cache <==> r.Some?
      ensures key in cache ==> r.value == cache[key].value
    {
      var option := GetOption(key, safe);
      r := if option.Some? then Some(option.value.value) else None;
    }

    /**
     * `set_value`: after a safe `get_option`, store the value and notify the
     * listeners at once, then queue one write of the option to the file.
     */
    method SetValue(key: string, v: Value)
      requires Valid() && fs.Valid()
      requires key in cache ==> HasType(cache[key].parser, v)
      modifies Repr, fs, trace
      ensures Valid() && fs.Valid() && Repr == old(Repr) && cache == old(cache) && keys == old(keys)
      ensures key in cache ==>
        && cache[key].value == v
        && |manager.jobs| > 0 && manager.jobs[|manager.jobs| - 1] == WriteJob(key)
        && EndsWithNotify(trace.calls, cache[key].listeners, key, v)
    {
      var option := GetOption(key, true);
      if option.Some? {
        NotifyThenQueue(key, v);
      }
    }

    /** The part of `set_value` after the lookup: the entry's `_set_value`, then the queued write. */
    method NotifyThenQueue(key: string, v: Value)
      requires Valid() && key in cache && HasType(cache[key].parser, v)
      modifies cache[key], trace, manager
      ensures Valid()
      ensures cache[key].value == v && cache[key].listeners == old(cache[key].listeners)
      ensures manager.jobs == old(manager.jobs) + [WriteJob(key)] && manager.state == old(manager.state)
      ensures trace.calls == old(trace.calls) + Notify(cache[key].listeners, key, old(cache[key].value), v)
      ensures EndsWithNotify(trace.calls, cache[key].listeners, key, v)
    {
      var entry := cache[key];
      entry.SetValue(v);
      manager.Queue(WriteJob(key));
      NotifyEndsTrace(old(trace.calls), entry.listeners, key, old(entry.value), v);
    }
  }
}
