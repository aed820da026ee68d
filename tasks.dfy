/** `create_tasks` and the task it spawns per device (src/lib.rs). A task
    handle is an abstract task id; the device it belongs to is the name of
    the reader the task was given. */
module Tasks {
  import opened Types
  import opened ChangeFilter
  import opened Channels
  import opened Reader

  /** The `JoinHandle` of a spawned device task, with the reader that was
      moved into the task. */
  datatype Handle<V> = Handle(id: nat, reader: ReaderState<V>)

  /** The devices of `devices` whose reader can be built from `fs`. */
  ghost function Spawnable<V>(devices: Devices, fs: FileSystem, parse: string -> Option<V>): set<string>
  {
    set n | n in devices && FromConfig(n, devices[n], fs, parse).Ok?
  }

  /** The devices that `handles` run readers for. */
  ghost function Names<V>(handles: seq<Handle<V>>): set<string>
  {
    set h | h in handles :: h.reader.name
  }

  lemma NamesSnoc<V>(handles: seq<Handle<V>>, h: Handle<V>)
    ensures Names(handles + [h]) == Names(handles) + {h.reader.name}
  {
  }

  /** The task ids of `handles`. */
  ghost function Ids<V>(handles: seq<Handle<V>>): set<nat>
  {
    set h | h in handles :: h.id
  }

  lemma IdsSnoc<V>(handles: seq<Handle<V>>, h: Handle<V>)
    ensures Ids(handles + [h]) == Ids(handles) + {h.id}
  {
  }

  /** `h` runs the reader built from the configuration of its device. */
  ghost predicate BuiltFrom<V>(h: Handle<V>, devices: Devices, fs: FileSystem, parse: string -> Option<V>)
  {
    h.reader.name in devices && FromConfig(h.reader.name, devices[h.reader.name], fs, parse) == Ok(h.reader)
  }

  /** The ids of `handles` are `firstId`, `firstId + 1`, ... in order. */
  ghost predicate IdsFrom<V>(handles: seq<Handle<V>>, firstId: nat)
  {
    forall i :: 0 <= i < |handles| ==> handles[i].id == firstId + i
  }

  ghost predicate AllBuilt<V>(handles: seq<Handle<V>>, devices: Devices, fs: FileSystem, parse: string -> Option<V>)
  {
    forall i :: 0 <= i < |handles| ==> BuiltFrom(handles[i], devices, fs, parse)
  }

  /** No two handles run a reader for the same device. */
  ghost predicate DistinctNames<V>(handles: seq<Handle<V>>)
  {
    forall i, j :: 0 <= i < j < |handles| ==> handles[i].reader.name != handles[j].reader.name
  }

  /** `handles` is what spawning a task for every device of `devices` whose
      reader initialises gives: one handle per such device and no other,
      each holding the reader built from that device's configuration, with
      the ids `firstId`, `firstId + 1`, ... */
  ghost predicate SpawnedFor<V>(handles: seq<Handle<V>>, devices: Devices, fs: FileSystem,
                                parse: string -> Option<V>, firstId: nat)
  {
    && IdsFrom(handles, firstId)
    && AllBuilt(handles, devices, fs, parse)
    && DistinctNames(handles)
    && Names(handles) == Spawnable(devices, fs, parse)
  }

  /** Where the loop of `create_tasks` stands with the devices `remaining`
      still to visit: the devices visited so far got exactly the handles
      they should. */
  ghost predicate Progress<V>(handles: seq<Handle<V>>, devices: Devices, fs: FileSystem,
                              parse: string -> Option<V>, firstId: nat, remaining: set<string>)
  {
    && remaining <= devices.Keys
    && |handles| + |remaining| <= |devices|
    && IdsFrom(handles, firstId)
    && AllBuilt(handles, devices, fs, parse)
    && Names(handles) !! remaining
    && DistinctNames(handles)
    && Names(handles) == Spawnable(devices, fs, parse) - remaining
  }

  /** Appending a handle with the next id for a device not yet seen keeps the
      ids consecutive and the devices distinct. */
  lemma SnocFresh<V>(handles: seq<Handle<V>>, h: Handle<V>, firstId: nat)
    requires IdsFrom(handles, firstId) && DistinctNames(handles)
    requires h.id == firstId + |handles| && h.reader.name !in Names(handles)
    ensures IdsFrom(handles + [h], firstId) && DistinctNames(handles + [h])
  {
  }

  /** Consecutive ids starting at `firstId` are exactly the ids from
      `firstId` up to, not including, `firstId + |handles|`. */
  lemma IdsRange<V>(handles: seq<Handle<V>>, firstId: nat)
    requires IdsFrom(handles, firstId)
    ensures forall x: nat :: x in Ids(handles) <==> firstId <= x < firstId + |handles|
  {
    forall x: nat | firstId <= x < firstId + |handles| ensures x in Ids(handles) {
      assert handles[x - firstId].id == x;
    }
  }

  lemma SnocBuilt<V>(handles: seq<Handle<V>>, h: Handle<V>, devices: Devices, fs: FileSystem,
                     parse: string -> Option<V>)
    requires AllBuilt(handles, devices, fs, parse) && BuiltFrom(h, devices, fs, parse)
    ensures AllBuilt(handles + [h], devices, fs, parse)
  {
  }

  /** The visit of a device whose reader fails to initialise adds nothing. */
  lemma ProgressSkip<V>(handles: seq<Handle<V>>, devices: Devices, fs: FileSystem,
                        parse: string -> Option<V>, firstId: nat, remaining: set<string>, name: string)
    requires Progress(handles, devices, fs, parse, firstId, remaining) && name in remaining
    requires FromConfig(name, devices[name], fs, parse).Err?
    ensures Progress(handles, devices, fs, parse, firstId, remaining - {name})
  {
  }

  /** The visit of a device whose reader initialises adds one handle, built
      from that device's configuration, with the next id. */
  lemma ProgressSpawn<V>(handles: seq<Handle<V>>, devices: Devices, fs: FileSystem,
                         parse: string -> Option<V>, firstId: nat, remaining: set<string>,
                         name: string, reader: ReaderState<V>)
    requires Progress(handles, devices, fs, parse, firstId, remaining) && name in remaining
    requires FromConfig(name, devices[name], fs, parse) == Ok(reader)
    ensures Progress(handles + [Handle(firstId + |handles|, reader)], devices, fs, parse, firstId, remaining - {name})
  {
    var h := Handle(firstId + |handles|, reader);
    var rest := remaining - {name};
    assert reader.name == name;
    var s := Spawnable(devices, fs, parse);
    assert name in s;
    assert s - rest == (s - remaining) + {name};
    NamesSnoc(handles, h);
    assert |rest| == |remaining| - 1;
    SnocFresh(handles, h, firstId);
    SnocBuilt(handles, h, devices, fs, parse);
  }

  /** `create_tasks`: for every device, in the map's (unspecified) order,
      build its reader; a device whose reader fails to initialise is skipped
      and the loop goes on with the next one; every other device gets one
      spawned task. `fs` is the file system the readers see while it runs. */
  method CreateTasks<V>(devices: Devices, fs: FileSystem, parse: string -> Option<V>, firstId: nat)
    returns (handles: seq<Handle<V>>)
    ensures SpawnedFor(handles, devices, fs, parse, firstId)
    ensures |handles| <= |devices|
  {
    handles := [];
    var remaining := devices.Keys;
    while remaining != {}
      invariant Progress(handles, devices, fs, parse, firstId, remaining)
      decreases remaining
    {
      var name :| name in remaining;
      var r := FromConfig(name, devices[name], fs, parse);
      if r.Ok? {
        ProgressSpawn(handles, devices, fs, parse, firstId, remaining, name, r.value);
        handles := handles + [Handle(firstId + |handles|, r.value)];
      } else {
        // the error is logged and the device skipped
        ProgressSkip(handles, devices, fs, parse, firstId, remaining, name);
      }
      remaining := remaining - {name};
    }
  }

  /** What a device task sends, as values: the initial value when it can be
      sent, then whatever the poll loop sends. */
  function TaskValues<V(==)>(init: ReaderState<V>, rs: seq<Result<V>>, open: bool): seq<V>
  {
    (if open then [init.currentValue] else []) + Track(init.currentValue, rs, open).sent
  }

  /** The body of a spawned device task: send the initial value, and then,
      whether or not that send failed (its error is only logged), run the
      poll loop. `trace` holds the file system at each interval tick. */
  method DeviceTask<V(==)>(init: ReaderState<V>, tx: Channel<V>, trace: seq<FileSystem>,
                           parse: string -> Option<V>) returns (err: Option<Error>)
    modifies tx
    ensures tx.open == old(tx.open)
    ensures var rs := Readings(trace, init.filePath, parse);
            && err == Track(init.currentValue, rs, old(tx.open)).stop
            && tx.sent == old(tx.sent) + ValueMessages(init.name, TaskValues(init, rs, old(tx.open)))
  {
    var reader := new DeviceReader(init, tx);
    ghost var open := tx.open;
    ghost var sent0 := tx.sent;
    ghost var first := if open then [init.currentValue] else [];
    var sendErr := reader.SendCurrentValue();
    assert ValueMessages(init.name, first) == (if open then [ValueChange(init.name, init.currentValue)] else []);
    ghost var run := Track(init.currentValue, Readings(trace, init.filePath, parse), open);
    err := reader.Read(trace, parse);
    ValueMessagesChain(init.name, sent0, first, run.sent);
  }

  /** Over polls that all read a number, with the controller listening, a
      device task sends its initial value followed by every reading that
      differs from the value stored before it, in order: the destuttering
      of the initial value followed by the readings. */
  lemma TaskSendsFirstThenChanges<V>(init: ReaderState<V>, rs: seq<Result<V>>)
    requires AllOk(rs)
    ensures TaskValues(init, rs, true) == Destutter([init.currentValue] + Values(rs))
  {
    TrackDestutters(init.currentValue, rs);
  }
}
