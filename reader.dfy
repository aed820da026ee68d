/** The device reader (`DeviceReader` in src/reader.rs): built from one
    device's configuration, it keeps the last value read from the device's
    file and sends a `ValueChange` whenever a poll reads a different one. */
module Reader {
  import opened Types
  import opened StdText
  import opened ChangeFilter
  import opened Channels

  /** `fs::read_to_string(path)?.trim().parse()?`: read the file, trim it,
      parse the rest as a number. `parse` stands for `f64::from_str`. A
      missing file is an I/O error; a file whose trimmed text does not parse
      is a float error carrying that text. */
  function ReadValue<V>(fs: FileSystem, path: string, parse: string -> Option<V>): (r: Result<V>)
    ensures r.Ok? <==> path in fs && parse(Trim(fs[path])).Some?
    ensures r.Ok? ==> r.value == parse(Trim(fs[path])).value
    ensures path !in fs ==> r == Err(Io(path))
    ensures path in fs && parse(Trim(fs[path])).None? ==> r == Err(InvalidFloat(Trim(fs[path])))
  {
    match ReadToString(fs, path)
    case Err(e) => Err(e)
    case Ok(content) =>
      match parse(Trim(content))
      case None => Err(InvalidFloat(Trim(content)))
      case Some(v) => Ok(v)
  }

  /** White space around the number in a value file does not change what a
      reading yields. */
  lemma ReadValuePadded<V>(fs: FileSystem, path: string, parse: string -> Option<V>,
                           pre: string, t: string, post: string)
    requires AllWhitespace(pre) && AllWhitespace(post)
    requires t != [] ==> !IsWhitespace(t[0]) && !IsWhitespace(t[|t| - 1])
    ensures ReadValue(fs[path := pre + t + post], path, parse) == ReadValue(fs[path := t], path, parse)
  {
    TrimPadded(pre, t, post);
    TrimPadded([], t, []);
    assert [] + t + [] == t;
  }

  /** The fields of a `DeviceReader` other than its sender. */
  datatype ReaderState<V> = ReaderState(name: string, filePath: string, cycleTimeMs: nat, currentValue: V)

  /** `DeviceReader::from_config`: read the initial value from the device's
      file, then parse the interval; the first failure is the result. */
  function FromConfig<V>(name: string, config: DeviceConfig, fs: FileSystem,
                         parse: string -> Option<V>): (r: Result<ReaderState<V>>)
    ensures r.Ok? <==> ReadValue(fs, config.file, parse).Ok? && ParseU64(config.cycleTimeMs).Ok?
    ensures ReadValue(fs, config.file, parse).Err? ==> r == Err(ReadValue(fs, config.file, parse).error)
    ensures ReadValue(fs, config.file, parse).Ok? && ParseU64(config.cycleTimeMs).Err? ==>
              r == Err(ParseU64(config.cycleTimeMs).error)
    ensures r.Ok? ==> && r.value.name == name
                      && r.value.filePath == config.file
                      && r.value.currentValue == ReadValue(fs, config.file, parse).value
                      && r.value.cycleTimeMs == ParseU64(config.cycleTimeMs).value
                      && r.value.cycleTimeMs <= U64Max
  {
    match ReadValue(fs, config.file, parse)
    case Err(e) => Err(e)
    case Ok(v) =>
      match ParseU64(config.cycleTimeMs)
      case Err(e) => Err(e)
      case Ok(ms) => Ok(ReaderState(name, config.file, ms, v))
  }

  /** There is no range check on the interval: a zero interval is accepted. */
  lemma FromConfigAcceptsZeroInterval<V>(name: string, file: string, fs: FileSystem,
                                         parse: string -> Option<V>)
    requires ReadValue(fs, file, parse).Ok?
    ensures FromConfig(name, DeviceConfig(file, "0"), fs, parse)
              == Ok(ReaderState(name, file, 0, ReadValue(fs, file, parse).value))
  {
  }

  /** The readings of the successive polls of `path`. */
  function Readings<V>(trace: seq<FileSystem>, path: string, parse: string -> Option<V>): (rs: seq<Result<V>>)
    ensures |rs| == |trace| && forall i :: 0 <= i < |trace| ==> rs[i] == ReadValue(trace[i], path, parse)
  {
    seq(|trace|, i requires 0 <= i < |trace| => ReadValue(trace[i], path, parse))
  }

  /** The messages a reader of device `name` sends for the values `vs`. */
  function ValueMessages<V>(name: string, vs: seq<V>): (ms: seq<Message<V>>)
    ensures |ms| == |vs| && forall i :: 0 <= i < |vs| ==> ms[i] == ValueChange(name, vs[i])
  {
    seq(|vs|, i requires 0 <= i < |vs| => ValueChange(name, vs[i]))
  }

  /** An outbox that got the messages for `a` and then those for `b` got
      the messages for `a + b`. */
  lemma ValueMessagesChain<V>(name: string, sent: seq<Message<V>>, a: seq<V>, b: seq<V>)
    ensures (sent + ValueMessages(name, a)) + ValueMessages(name, b) == sent + ValueMessages(name, a + b)
  {
  }

  class DeviceReader<V(==)> {
    var currentValue: V
    const name: string
    const filePath: string
    const cycleTimeMs: nat
    const sender: Channel<V>

    /** The reader `from_config` returns, holding the fields it computed
        and the sender it was handed. */
    constructor (init: ReaderState<V>, sender: Channel<V>)
      ensures State() == init && this.sender == sender
    {
      currentValue := init.currentValue;
      name := init.name;
      filePath := init.filePath;
      cycleTimeMs := init.cycleTimeMs;
      this.sender := sender;
    }

    function State(): ReaderState<V>
      reads this
    {
      ReaderState(name, filePath, cycleTimeMs, currentValue)
    }

    /** `send_current_value`: sends exactly `ValueChange(name, current_value)`
        and leaves the reader as it is. */
    method SendCurrentValue() returns (err: Option<Error>)
      modifies sender
      ensures sender.open == old(sender.open)
      ensures err == (if old(sender.open) then None else Some(ChannelClosed))
      ensures sender.sent == old(sender.sent) + (if err.None? then [ValueChange(name, currentValue)] else [])
    {
      err := sender.Send(ValueChange(name, currentValue));
    }

    /** `read_content`, one poll: one step of the change filter over the
        reading of the value file. By `TrackOne`, a failed read or parse is
        returned with the reader unchanged; an equal value changes nothing
        and sends nothing; a different value becomes the current value
        before it is sent, so a failed send leaves the new value stored. */
    method ReadContent(fs: FileSystem, parse: string -> Option<V>) returns (err: Option<Error>)
      modifies this, sender
      ensures sender.open == old(sender.open)
      ensures var step := Track(old(currentValue), [ReadValue(fs, filePath, parse)], old(sender.open));
              && currentValue == step.last
              && err == step.stop
              && sender.sent == old(sender.sent) + ValueMessages(name, step.sent)
    {
      var r := ReadValue(fs, filePath, parse);
      TrackOne(currentValue, r, sender.open);
      if r.Err? {
        return Some(r.error);
      }
      if r.value != currentValue {
        currentValue := r.value;
        err := SendCurrentValue();
        if err.Some? {
          return;
        }
      }
      err := None;
    }

    /** `read`: polls once per element of `trace` (one interval tick each)
        until a poll fails. The result is the change filter run over the
        readings; `err` is None when the trace ran out with the loop still
        polling. */
    method Read(trace: seq<FileSystem>, parse: string -> Option<V>) returns (err: Option<Error>)
      modifies this, sender
      ensures sender.open == old(sender.open)
      ensures var run := Track(old(currentValue), Readings(trace, filePath, parse), old(sender.open));
              && currentValue == run.last
              && err == run.stop
              && sender.sent == old(sender.sent) + ValueMessages(name, run.sent)
    {
      ghost var rs := Readings(trace, filePath, parse);
      ghost var v0 := currentValue;
      ghost var sent0 := sender.sent;
      ghost var open := sender.open;
      assert rs[..0] == [];
      var i := 0;
      while i < |trace|
        invariant 0 <= i <= |trace|
        invariant sender.open == open
        invariant var run := Track(v0, rs[..i], open);
                  && run.stop.None?
                  && currentValue == run.last
                  && sender.sent == sent0 + ValueMessages(name, run.sent)
      {
        ghost var before := Track(v0, rs[..i], open);
        assert rs[i] == ReadValue(trace[i], filePath, parse);
        err := ReadContent(trace[i], parse);
        ghost var step := Track(before.last, [rs[i]], open);
        TrackStep(v0, rs, i, open);
        ValueMessagesChain(name, sent0, before.sent, step.sent);
        if err.Some? {
          return;
        }
        i := i + 1;
      }
      assert rs[..i] == rs;
      err := None;
    }
  }

  /** With a live receiver, the first poll whose read or parse fails ends
      `read` with that error,
      with the current value and the messages the polls before it left; the
      polls after it never happen. */
  lemma ReadStopsAtFirstFailedPoll<V>(v0: V, trace: seq<FileSystem>, path: string,
                                      parse: string -> Option<V>, k: nat)
    requires k < |trace| && ReadValue(trace[k], path, parse).Err?
    requires forall i :: 0 <= i < k ==> ReadValue(trace[i], path, parse).Ok?
    ensures var before := Track(v0, Readings(trace[..k], path, parse), true);
            Track(v0, Readings(trace, path, parse), true)
              == Run(before.sent, before.last, Some(ReadValue(trace[k], path, parse).error))
  {
    var rs := Readings(trace, path, parse);
    assert rs[..k] == Readings(trace[..k], path, parse);
    TrackStopsAtFirstError(v0, rs, k);
  }
}
