/** Reading the device set from `asset_list.json`, as `Controller::new` and
    the configuration watcher both do: read the whole file as text and
    decode it as a map from device name to configuration. `decode` stands
    for `serde_json::from_str::<Devices>`. */
module Config {
  import opened Types

  /** `serde_json::from_str(&fs::read_to_string(CONFIG_FILE)?)?` */
  function LoadConfig(fs: FileSystem, decode: string -> Option<Devices>): (r: Result<Devices>)
    ensures r.Ok? <==> ConfigFile in fs && decode(fs[ConfigFile]).Some?
    ensures ConfigFile !in fs ==> r == Err(Io(ConfigFile))
    ensures ConfigFile in fs && decode(fs[ConfigFile]).None? ==> r == Err(InvalidJson)
    ensures r.Ok? ==> r.value == decode(fs[ConfigFile]).value
  {
    match ReadToString(fs, ConfigFile)
    case Err(e) => Err(e)
    case Ok(text) =>
      match decode(text)
      case None => Err(InvalidJson)
      case Some(devices) => Ok(devices)
  }

}
