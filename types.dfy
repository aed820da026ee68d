/** Vocabulary shared by the controller, the device readers and the
    configuration watcher: results and errors, the device configuration,
    the messages that travel over the channel, and the file system as the
    model sees it. */
module Types {

  datatype Option<+T> = None | Some(value: T)

  /** The `anyhow::Result` of the program: a value or the error that ended
      the operation. */
  datatype Result<+R> = Ok(value: R) | Err(error: Error)

  /** Why the standard library refused to read a string as a `u64`. */
  datatype IntErrorKind = Empty | InvalidDigit | PosOverflow

  datatype Error =
    | Io(path: string)               // the file was missing or unreadable
    | InvalidFloat(text: string)     // the trimmed content is not a number
    | InvalidInt(kind: IntErrorKind) // `cycle_time_ms` is not a `u64`
    | InvalidJson                    // the configuration is not a device map
    | ChannelClosed                  // the receiving end of the channel is gone

  /** One entry of `asset_list.json`: the value file and the polling interval
      in milliseconds, still as the text found in the JSON. */
  datatype DeviceConfig = DeviceConfig(file: string, cycleTimeMs: string)

  /** The device set: device name to configuration. Equality is structural. */
  type Devices = map<string, DeviceConfig>

  /** What the device tasks and the watcher send to the controller. */
  datatype Message<V> =
    | ValueChange(name: string, value: V)
    | ConfigChange(devices: Devices)

  /** A snapshot of the file system: the paths that can be read as text, with
      their contents. A path outside the map cannot be read. */
  type FileSystem = map<string, string>

  /** The configuration file read at start-up and by the watcher. */
  const ConfigFile: string := "./asset_list.json"

  /** `fs::read_to_string(path)`: the contents of a readable path, or an
      I/O error naming the path. */
  function ReadToString(fs: FileSystem, path: string): (r: Result<string>)
    ensures r.Ok? <==> path in fs
    ensures r.Ok? ==> r.value == fs[path]
    ensures r.Err? ==> r.error == Io(path)
  {
    if path in fs then Ok(fs[path]) else Err(Io(path))
  }
}
