/** The controller (`Controller` in src/lib.rs): it owns the map from device
    name to the last value received, and, while it runs, the handles of the
    device tasks of the current configuration. Its receive loop handles one
    message at a time: a `ValueChange` is stored, a `ConfigChange` aborts
    every device task, forgets every value and spawns the tasks of the new
    device set. */
module Control {
  import opened Types
  import opened Config
  import opened Tasks

  // ---------------------------------------------------------------------
  // The values map

  /** What handling `m` does to the values map: a `ValueChange` inserts or
      overwrites its entry, whatever the device set (the controller does no
      filtering), and leaves every other entry as it was; a `ConfigChange`
      clears the map. */
  function Apply<V>(values: map<string, V>, m: Message<V>): (r: map<string, V>)
    ensures m.ValueChange? ==>
              && r.Keys == values.Keys + {m.name}
              && r[m.name] == m.value
              && forall n :: n in values && n != m.name ==> r[n] == values[n]
    ensures m.ConfigChange? ==> r == map[]
  {
    match m
    case ValueChange(name, value) => values[name := value]
    case ConfigChange(_) => map[]
  }

  /** The values map after the messages `ms`, handled in order. */
  function Replay<V>(values: map<string, V>, ms: seq<Message<V>>): map<string, V>
    decreases |ms|
  {
    if ms == [] then values else Apply(Replay(values, ms[..|ms| - 1]), ms[|ms| - 1])
  }

  predicate NoConfigChange<V>(ms: seq<Message<V>>)
  {
    forall i :: 0 <= i < |ms| ==> ms[i].ValueChange?
  }

  /** Only the messages after the last `ConfigChange` matter: whatever came
      before it, the map then holds exactly what the later messages put in
      an empty map. */
  lemma {:induction false} ReplayForgetsBeforeConfigChange<V>(values: map<string, V>, before: seq<Message<V>>,
                                                              d: Devices, after: seq<Message<V>>)
    ensures Replay(values, before + [ConfigChange(d)] + after) == Replay(map[], after)
    decreases |after|
  {
    var ms := before + [ConfigChange(d)] + after;
    if after == [] {
      assert ms[..|ms| - 1] == before;
    } else {
      var init := after[..|after| - 1];
      assert ms[..|ms| - 1] == before + [ConfigChange(d)] + init;
      assert ms[|ms| - 1] == after[|after| - 1];
      ReplayForgetsBeforeConfigChange(values, before, d, init);
    }
  }

  /** Without a `ConfigChange`, the map holds the entries it started with
      and one for every device a message was received from, nothing else. */
  lemma {:induction false} ReplayKeys<V>(values: map<string, V>, ms: seq<Message<V>>)
    requires NoConfigChange(ms)
    ensures Replay(values, ms).Keys == values.Keys + (set i | 0 <= i < |ms| :: ms[i].name)
    decreases |ms|
  {
    if ms != [] {
      var init := ms[..|ms| - 1];
      assert NoConfigChange(init) by {
        forall i | 0 <= i < |init| ensures init[i].ValueChange? {
          assert init[i] == ms[i];
        }
      }
      ReplayKeys(values, init);
      var names := set i | 0 <= i < |ms| :: ms[i].name;
      var initNames := set i | 0 <= i < |init| :: init[i].name;
      assert names == initNames + {ms[|ms| - 1].name} by {
        forall n | n in names ensures n in initNames + {ms[|ms| - 1].name} {
          var i :| 0 <= i < |ms| && ms[i].name == n;
          if i < |init| { assert init[i] == ms[i]; }
        }
        forall n | n in initNames ensures n in names {
          var i :| 0 <= i < |init| && init[i].name == n;
          assert ms[i] == init[i];
        }
      }
    }
  }

  /** Without a `ConfigChange`, the value of a device is the one carried by
      the last message received from it. */
  lemma {:induction false} ReplayLatest<V>(values: map<string, V>, ms: seq<Message<V>>, i: nat)
    requires NoConfigChange(ms) && i < |ms|
    requires forall j :: i < j < |ms| ==> ms[j].name != ms[i].name
    ensures ms[i].name in Replay(values, ms) && Replay(values, ms)[ms[i].name] == ms[i].value
    decreases |ms|
  {
    if i < |ms| - 1 {
      var init := ms[..|ms| - 1];
      assert init[i] == ms[i];
      assert NoConfigChange(init) by {
        forall k | 0 <= k < |init| ensures init[k].ValueChange? {
          assert init[k] == ms[k];
        }
      }
      forall j | i < j < |init| ensures init[j].name != init[i].name {
        assert init[j] == ms[j];
      }
      ReplayLatest(values, init, i);
    }
  }

  /** Without a `ConfigChange`, a device no message came from keeps the
      value it had. */
  lemma {:induction false} ReplayUntouched<V>(values: map<string, V>, ms: seq<Message<V>>, n: string)
    requires NoConfigChange(ms) && n in values
    requires forall j :: 0 <= j < |ms| ==> ms[j].name != n
    ensures n in Replay(values, ms) && Replay(values, ms)[n] == values[n]
    decreases |ms|
  {
    if ms != [] {
      var init := ms[..|ms| - 1];
      assert NoConfigChange(init) by {
        forall k | 0 <= k < |init| ensures init[k].ValueChange? {
          assert init[k] == ms[k];
        }
      }
      forall j | 0 <= j < |init| ensures init[j].name != n {
        assert init[j] == ms[j];
      }
      ReplayUntouched(values, init, n);
    }
  }

  // ---------------------------------------------------------------------
  // The device set the current tasks were spawned for

  /** The device set, and the file system its readers were built from, of
      the last `ConfigChange` in `inbox`, or the start-up ones when there is
      none. `fsAt[i]` is the file system while message `i` is handled. */
  ghost function Active<V>(devices: Devices, fs0: FileSystem, inbox: seq<Message<V>>,
                        fsAt: seq<FileSystem>): (Devices, FileSystem)
    requires |fsAt| == |inbox|
    decreases |inbox|
  {
    if inbox == [] then (devices, fs0)
    else if inbox[|inbox| - 1].ConfigChange? then (inbox[|inbox| - 1].devices, fsAt[|inbox| - 1])
    else Active(devices, fs0, inbox[..|inbox| - 1], fsAt[..|fsAt| - 1])
  }

  /** Handling one more message of the inbox. */
  lemma ReplayStep<V>(values: map<string, V>, inbox: seq<Message<V>>, i: nat)
    requires i < |inbox|
    ensures Replay(values, inbox[..i + 1]) == Apply(Replay(values, inbox[..i]), inbox[i])
  {
    assert inbox[..i + 1][..i] == inbox[..i];
  }

  /** One more message changes the active device set exactly when it is a
      `ConfigChange`. */
  lemma ActiveStep<V>(devices: Devices, fs0: FileSystem, inbox: seq<Message<V>>, fsAt: seq<FileSystem>, i: nat)
    requires |fsAt| == |inbox| && i < |inbox|
    ensures Active(devices, fs0, inbox[..i + 1], fsAt[..i + 1]) ==
              if inbox[i].ConfigChange? then (inbox[i].devices, fsAt[i])
              else Active(devices, fs0, inbox[..i], fsAt[..i])
  {
    assert inbox[..i + 1][..i] == inbox[..i];
    assert fsAt[..i + 1][..i] == fsAt[..i];
  }

  class Controller<V> {
    /** The device set read at start-up; it is handed to the watcher and
        never updated. */
    const devices: Devices
    /** The values map behind the `Arc<Mutex<..>>`. */
    var values: map<string, V>
    /** The handles of the running device tasks (a local of the receive loop). */
    var handles: seq<Handle<V>>
    /** The ids of the tasks that were aborted. */
    var aborted: set<nat>
    /** The id the next spawned task gets. */
    var nextId: nat

    /** The handles hold the ids most recently given out, in order, and
        the aborted tasks are exactly all the older ones: every task spawned
        before the current ones has been aborted, and no running one. */
    ghost predicate Valid()
      reads this
    {
      && |handles| <= nextId
      && IdsFrom(handles, nextId - |handles|)
      && forall a: nat :: a in aborted <==> a < nextId - |handles|
    }

    /** No task whose handle the controller holds has been aborted. */
    lemma RunningNotAborted()
      requires Valid()
      ensures forall h :: h in handles ==> h.id !in aborted
    {
    }

    constructor (devices: Devices)
      ensures Valid()
      ensures this.devices == devices && values == map[] && handles == [] && aborted == {}
    {
      this.devices := devices;
      values := map[];
      handles := [];
      aborted := {};
      nextId := 0;
    }

    /** `Controller::new`: fails exactly when the configuration cannot be
        read or decoded, with that error; otherwise the controller holds the
        decoded device set and an empty values map. */
    static method New(fs: FileSystem, decode: string -> Option<Devices>) returns (r: Result<Controller<V>>)
      ensures r.Ok? <==> LoadConfig(fs, decode).Ok?
      ensures r.Err? ==> r.error == LoadConfig(fs, decode).error
      ensures r.Ok? ==> && fresh(r.value) && r.value.Valid()
                        && r.value.devices == LoadConfig(fs, decode).value
                        && r.value.values == map[] && r.value.handles == [] && r.value.aborted == {}
    {
      match LoadConfig(fs, decode)
      case Err(e) =>
        r := Err(e);
      case Ok(devices) =>
        var c := new Controller(devices);
        r := Ok(c);
    }

    /** `handles.into_iter().for_each(|h| h.abort())`: every held task is
        aborted, and nothing else changes. */
    method AbortAll()
      modifies this`aborted
      ensures aborted == old(aborted) + Ids(handles)
    {
      var i := 0;
      while i < |handles|
        invariant 0 <= i <= |handles|
        invariant aborted == old(aborted) + Ids(handles[..i])
      {
        IdsSnoc(handles[..i], handles[i]);
        assert handles[..i + 1] == handles[..i] + [handles[i]];
        aborted := aborted + {handles[i].id};
        i := i + 1;
      }
      assert handles[..i] == handles;
    }

    /** The body of the receive loop for one message `m`; `fs` is the file
        system the new readers see. A `ValueChange` only updates the values
        map. A `ConfigChange` aborts every task held before, including those
        of devices the new set keeps unchanged, then clears the values map,
        then holds one new task per device of the new set whose reader
        initialises, and nothing else. */
    method HandleMessage(m: Message<V>, fs: FileSystem, parse: string -> Option<V>)
      requires Valid()
      modifies this
      ensures Valid()
      ensures values == Apply(old(values), m)
      ensures m.ValueChange? ==> handles == old(handles) && aborted == old(aborted) && nextId == old(nextId)
      ensures m.ConfigChange? ==>
                && aborted == old(aborted) + Ids(old(handles))
                && SpawnedFor(handles, m.devices, fs, parse, old(nextId))
                && |handles| <= |m.devices|
                && nextId == old(nextId) + |handles|
    {
      match m
      case ValueChange(name, value) =>
        values := values[name := value];
      case ConfigChange(d) =>
        ghost var lo := nextId - |handles|;
        IdsRange(handles, lo);
        AbortAll();
        values := map[];
        var hs := CreateTasks(d, fs, parse, nextId);
        handles := hs;
        nextId := nextId + |hs|;
    }

    /** `controll`: spawn the tasks of the start-up device set (built from
        `fs0`), then handle the messages of `inbox` in order, message `i`
        with the file system `fsAt[i]`. Afterwards the values map is the
        replay of the messages, and the handles are those spawned for the
        device set of the last `ConfigChange` (or the start-up set); every
        task spawned in between, the start-up ones included, has been
        aborted, and no other. */
    method Controll(fs0: FileSystem, inbox: seq<Message<V>>, fsAt: seq<FileSystem>, parse: string -> Option<V>)
      requires Valid() && handles == [] && |fsAt| == |inbox|
      modifies this
      ensures Valid()
      ensures old(nextId) <= nextId - |handles|
      ensures forall a: nat :: a in aborted <==> a in old(aborted) || old(nextId) <= a < nextId - |handles|
      ensures values == Replay(old(values), inbox)
      ensures var (d, fs) := Active(devices, fs0, inbox, fsAt);
              SpawnedFor(handles, d, fs, parse, nextId - |handles|)
    {
      ghost var id0 := nextId;
      var hs := CreateTasks(devices, fs0, parse, nextId);
      handles := hs;
      nextId := nextId + |hs|;
      ghost var values0 := values;
      var i := 0;
      while i < |inbox|
        invariant 0 <= i <= |inbox|
        invariant Valid()
        invariant id0 <= nextId - |handles|
        invariant values == Replay(values0, inbox[..i])
        invariant var (d, fs) := Active(devices, fs0, inbox[..i], fsAt[..i]);
                  SpawnedFor(handles, d, fs, parse, nextId - |handles|)
      {
        ReplayStep(values0, inbox, i);
        ActiveStep(devices, fs0, inbox, fsAt, i);
        HandleMessage(inbox[i], fsAt[i], parse);
        i := i + 1;
      }
      assert inbox[..i] == inbox;
      assert fsAt[..i] == fsAt;
    }
  }
}
