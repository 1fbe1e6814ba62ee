/**
 * The validation chain of `read_config` and the two lookups of
 * `get_config_data`, over the mapping the YAML file was loaded into.
 * Whether a path exists on disk is the predicate `pathExists`.
 */
module ConfigReader {
  import opened Wrappers

  /** A loaded YAML value; a key whose value is null maps to None. */
  datatype Value =
    | Str(s: string)
    | Num(n: int)
    | Flag(b: bool)
    | Items(items: seq<Value>)
    | Mapping(entries: map<string, Option<Value>>)

  /** The exceptions `read_config` and `get_config_data` raise. */
  datatype ConfigError =
    | KeyLookup           // KeyError from `print(config[tag])`
    | ConfigKeyMissing    // ConfigKeyMissingError
    | ConfigDataBlank     // ConfigDataBlankError
    | FileNotFound        // FileNotFoundError
    | TypeMismatch        // TypeError: `path.exists` of a non-path, or `**` of a non-mapping

  /** Python truthiness of an optional value: None, "", 0, False and empty collections are falsy. */
  predicate Truthy(v: Option<Value>) {
    match v
    case None => false
    case Some(Str(s)) => s != ""
    case Some(Num(n)) => n != 0
    case Some(Flag(b)) => b
    case Some(Items(items)) => |items| > 0
    case Some(Mapping(entries)) => |entries| > 0
  }

  /** `os.path.exists` accepts strings and integers (file descriptors, of which bool is one); anything else is a TypeError. */
  predicate PathLike(v: Option<Value>) {
    v.Some? && (v.value.Str? || v.value.Num? || v.value.Flag?)
  }

  /** The flags of a `read_config` call. */
  datatype ReadOptions = ReadOptions(writeToConsole: bool, raiseOnNotFound: bool, validateExistence: bool, ifNoneReturn: Option<Value>)

  /** The defaults: every flag off and no fallback. */
  const Defaults := ReadOptions(false, false, false, None)

  /**
   * `read_config`: the lookup made for the console comes first, then the
   * presence check, the blank check, the existence check, and finally the
   * fallback for a None value.
   */
  function ReadConfig(config: map<string, Option<Value>>, tag: string, opts: ReadOptions, pathExists: Value -> bool): (r: Result<Option<Value>, ConfigError>)
    ensures tag !in config ==> r == Err(if opts.writeToConsole then KeyLookup else ConfigKeyMissing)
    ensures tag in config && opts.raiseOnNotFound && config[tag].None? ==> r == Err(ConfigDataBlank)
    ensures r == Err(FileNotFound) <==>
      tag in config && !(opts.raiseOnNotFound && config[tag].None?) && opts.validateExistence
      && PathLike(config[tag]) && !pathExists(config[tag].value)
    ensures r.Ok? <==>
      tag in config && !(opts.raiseOnNotFound && config[tag].None?)
      && (opts.validateExistence ==> PathLike(config[tag]) && pathExists(config[tag].value))
    ensures r.Ok? ==> r.value == if Truthy(opts.ifNoneReturn) && config[tag].None? then opts.ifNoneReturn else config[tag]
  {
    if opts.writeToConsole && tag !in config then Err(KeyLookup)
    else if tag !in config then Err(ConfigKeyMissing)
    else
      var value := config[tag];
      if opts.raiseOnNotFound && value.None? then Err(ConfigDataBlank)
      else if opts.validateExistence && !PathLike(value) then Err(TypeMismatch)
      else if opts.validateExistence && !pathExists(value.value) then Err(FileNotFound)
      else if Truthy(opts.ifNoneReturn) && value.None? then Ok(opts.ifNoneReturn)
      else Ok(value)
  }

  /**
   * The fallback never replaces a stored value, and a falsy fallback is never
   * used: with it, a None value is returned as None.
   */
  lemma FallbackOnlyForNone(config: map<string, Option<Value>>, tag: string, opts: ReadOptions, pathExists: Value -> bool)
    requires tag in config
    ensures config[tag].Some? && ReadConfig(config, tag, opts, pathExists).Ok? ==> ReadConfig(config, tag, opts, pathExists) == Ok(config[tag])
    ensures !Truthy(opts.ifNoneReturn) && ReadConfig(config, tag, opts, pathExists).Ok? ==> ReadConfig(config, tag, opts, pathExists) == Ok(config[tag])
  {
  }

  /** With the defaults a present tag is returned as stored (None included), and a missing one raises ConfigKeyMissingError. */
  lemma DefaultReadIsLookup(config: map<string, Option<Value>>, tag: string, pathExists: Value -> bool)
    ensures ReadConfig(config, tag, Defaults, pathExists) == if tag in config then Ok(config[tag]) else Err(ConfigKeyMissing)
  {
  }

  /** The keys `get_config_data` reads. */
  const OcaKey: string := "OCA_XPATH"
  const NgqKey: string := "NGQ_XPATH"

  /** The keyword arguments `**value` passes on: only a mapping can be unpacked. */
  function Unpack(v: Option<Value>): Result<map<string, Option<Value>>, ConfigError> {
    if v.Some? && v.value.Mapping? then Ok(v.value.entries) else Err(TypeMismatch)
  }

  /** The two sections handed to the typed configuration models: the OCA one and the NGQ one. */
  datatype ConfigSections = ConfigSections(oca: map<string, Option<Value>>, ngq: map<string, Option<Value>>)

  /**
   * `get_config_data`: read both keys with the defaults, in order, then unpack
   * each section (field validation by the configuration models is not part
   * of this model).
   */
  function GetConfigData(config: map<string, Option<Value>>, pathExists: Value -> bool): (r: Result<ConfigSections, ConfigError>)
    ensures r.Ok? <==> OcaKey in config && NgqKey in config && Unpack(config[OcaKey]).Ok? && Unpack(config[NgqKey]).Ok?
    ensures r.Ok? ==> Some(Mapping(r.value.oca)) == config[OcaKey] && Some(Mapping(r.value.ngq)) == config[NgqKey]
    ensures OcaKey !in config ==> r == Err(ConfigKeyMissing)
    ensures OcaKey in config && NgqKey !in config ==> r == Err(ConfigKeyMissing)
  {
    DefaultReadIsLookup(config, OcaKey, pathExists);
    DefaultReadIsLookup(config, NgqKey, pathExists);
    match ReadConfig(config, OcaKey, Defaults, pathExists)
    case Err(e) => Err(e)
    case Ok(oca) =>
      match ReadConfig(config, NgqKey, Defaults, pathExists)
      case Err(e) => Err(e)
      case Ok(ngq) =>
        match Unpack(oca)
        case Err(e) => Err(e)
        case Ok(ocaFields) =>
          match Unpack(ngq)
          case Err(e) => Err(e)
          case Ok(ngqFields) => Ok(ConfigSections(ocaFields, ngqFields))
  }

  /** `get_config_data` depends on no key of the file other than "OCA_XPATH" and "NGQ_XPATH". */
  lemma ReadsOnlyTwoKeys(config: map<string, Option<Value>>, other: map<string, Option<Value>>, pathExists: Value -> bool)
    requires forall k :: k == OcaKey || k == NgqKey ==> (k in config <==> k in other) && (k in config ==> config[k] == other[k])
    ensures GetConfigData(config, pathExists) == GetConfigData(other, pathExists)
  {
    assert OcaKey in config <==> OcaKey in other;
    assert NgqKey in config <==> NgqKey in other;
  }
}
