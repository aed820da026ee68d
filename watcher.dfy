/** `wait_config_change` (src/lib.rs): every 500 ms, load the configuration
    again; when it differs from the last one seen, remember it and send it
    to the controller as a `ConfigChange`. The first failure, of the read,
    of the decode or of the send, ends the watcher. */
module Watcher {
  import opened Types
  import opened ChangeFilter
  import opened Channels
  import opened Config

  /** The loads of the successive ticks. */
  function Loads(snapshots: seq<FileSystem>, decode: string -> Option<Devices>): (rs: seq<Result<Devices>>)
    ensures |rs| == |snapshots|
    ensures forall i :: 0 <= i < |snapshots| ==> rs[i] == LoadConfig(snapshots[i], decode)
  {
    seq(|snapshots|, i requires 0 <= i < |snapshots| => LoadConfig(snapshots[i], decode))
  }

  /** The messages the watcher sends for the device sets `ds`. */
  function ConfigMessages<V>(ds: seq<Devices>): (ms: seq<Message<V>>)
    ensures |ms| == |ds| && forall i :: 0 <= i < |ds| ==> ms[i] == ConfigChange(ds[i])
  {
    seq(|ds|, i requires 0 <= i < |ds| => ConfigChange(ds[i]))
  }

  /** An outbox that got the messages for `a` and then those for `b` got
      the messages for `a + b`. */
  lemma ConfigMessagesChain<V>(sent: seq<Message<V>>, a: seq<Devices>, b: seq<Devices>)
    ensures (sent + ConfigMessages(a)) + ConfigMessages(b) == sent + ConfigMessages(a + b)
  {
  }

  /** The state of a running `wait_config_change`: its `devices` baseline
      and its clone of the sender. */
  class ConfigWatcher<V> {
    var devices: Devices
    const tx: Channel<V>

    /** A watcher with the given device set as its first baseline and the
        given sender. */
    constructor (devices: Devices, tx: Channel<V>)
      ensures this.devices == devices && this.tx == tx
    {
      this.devices := devices;
      this.tx := tx;
    }

    /** One tick of the loop: one step of the change filter over the load
        of the configuration. By `TrackOne`, a failed load is returned with
        the baseline unchanged; a device set equal to the baseline changes
        nothing and sends nothing; a different one replaces the baseline
        and is then sent, so a failed send leaves the new baseline in
        place. */
    method Tick(fs: FileSystem, decode: string -> Option<Devices>) returns (err: Option<Error>)
      modifies this, tx
      ensures tx.open == old(tx.open)
      ensures var step := Track(old(devices), [LoadConfig(fs, decode)], old(tx.open));
              && devices == step.last
              && err == step.stop
              && tx.sent == old(tx.sent) + ConfigMessages(step.sent)
    {
      var r := LoadConfig(fs, decode);
      TrackOne(devices, r, tx.open);
      if r.Err? {
        return Some(r.error);
      }
      if r.value != devices {
        devices := r.value;
        err := tx.Send(ConfigChange(r.value));
        if err.Some? {
          return;
        }
      }
      err := None;
    }

    /** The loop of `wait_config_change`, one tick per element of
        `snapshots` (the file system at that tick), until a tick fails. The
        result is the change filter run over the loads; `err` is None when
        the snapshots ran out with the watcher still running. */
    method Watch(snapshots: seq<FileSystem>, decode: string -> Option<Devices>) returns (err: Option<Error>)
      modifies this, tx
      ensures tx.open == old(tx.open)
      ensures var run := Track(old(devices), Loads(snapshots, decode), old(tx.open));
              && devices == run.last
              && err == run.stop
              && tx.sent == old(tx.sent) + ConfigMessages(run.sent)
    {
      ghost var rs := Loads(snapshots, decode);
      ghost var d0 := devices;
      ghost var sent0 := tx.sent;
      ghost var open := tx.open;
      assert rs[..0] == [];
      var i := 0;
      while i < |snapshots|
        invariant 0 <= i <= |snapshots|
        invariant tx.open == open
        invariant var run := Track(d0, rs[..i], open);
                  && run.stop.None?
                  && devices == run.last
                  && tx.sent == sent0 + ConfigMessages(run.sent)
      {
        ghost var before := Track(d0, rs[..i], open);
        err := Tick(snapshots[i], decode);
        ghost var step := Track(before.last, [rs[i]], open);
        TrackStep(d0, rs, i, open);
        ConfigMessagesChain(sent0, before.sent, step.sent);
        if err.Some? {
          return;
        }
        i := i + 1;
      }
      assert rs[..i] == rs;
      err := None;
    }
  }

  /** While every load succeeds and the controller listens, the watcher
      never stops, and its first baseline followed by the device sets it
      sends is the destuttering of the first baseline followed by the
      loads: exactly the loads that differ from the one before them. */
  lemma WatchSendsEveryChange(d0: Devices, snapshots: seq<FileSystem>, decode: string -> Option<Devices>)
    requires AllOk(Loads(snapshots, decode))
    ensures var run := Track(d0, Loads(snapshots, decode), true);
            && run.stop.None?
            && [d0] + run.sent == Destutter([d0] + Values(Loads(snapshots, decode)))
  {
    TrackDestutters(d0, Loads(snapshots, decode));
  }

  /** With a live receiver, the first tick whose load fails ends the
      watcher with that error,
      after exactly the messages of the ticks before it; the ticks after it
      never happen. */
  lemma WatchStopsAtFirstFailedLoad(d0: Devices, snapshots: seq<FileSystem>, decode: string -> Option<Devices>, k: nat)
    requires k < |snapshots| && LoadConfig(snapshots[k], decode).Err?
    requires forall i :: 0 <= i < k ==> LoadConfig(snapshots[i], decode).Ok?
    ensures var before := Track(d0, Loads(snapshots[..k], decode), true);
            Track(d0, Loads(snapshots, decode), true)
              == Run(before.sent, before.last, Some(LoadConfig(snapshots[k], decode).error))
  {
    var rs := Loads(snapshots, decode);
    assert rs[..k] == Loads(snapshots[..k], decode);
    TrackStopsAtFirstError(d0, rs, k);
  }
}
