/** The configuration store: a tree of JSON values addressed by dotted
    paths. `Get` walks the tree and falls back to a default whenever a key
    is missing or a non-dictionary is in the way; `Set` creates missing
    intermediate dictionaries, and fails without changing anything when an
    existing intermediate is not a dictionary. Loading and saving the JSON
    file are not part of this model. */
module Config {
  import opened Wrappers
  import opened Json
  import Strings

  /** The keys of a dotted path, `path.split('.')`. */
  function Keys(path: string): (ks: seq<string>)
    ensures |ks| >= 1
  {
    Strings.Split(path, '.')
  }

  /** The walk `for key in keys: value = value[key]`: `None` when it would
      raise (a missing key, or a step into something that is not a
      dictionary). */
  function Lookup(data: Value, keys: seq<string>): (r: Option<Value>)
    ensures |keys| > 0 && r.Some? ==> data.Dict? && keys[0] in data.fields
    decreases |keys|
  {
    if |keys| == 0 then Some(data)
    else
      match data
      case Dict(m) => if keys[0] in m then Lookup(m[keys[0]], keys[1..]) else None
      case _ => None
  }

  /** The walk along `keys` stops at step `j`: the node reached so far
      exists but is not a dictionary or lacks the next key. */
  predicate StopsAt(data: Value, keys: seq<string>, j: int)
    requires 0 <= j < |keys|
  {
    match Lookup(data, keys[..j])
    case None => false
    case Some(node) => !node.Dict? || keys[j] !in node.fields
  }

  /** `Config.get(path, default)`. */
  function Get(data: Value, path: string, fallback: Value): (r: Value)
    ensures !data.Dict? ==> r == fallback
    ensures data.Dict? && '.' !in path ==> r == (if path in data.fields then data.fields[path] else fallback)
  {
    if '.' in path then Lookup(data, Keys(path)).GetOr(fallback)
    else
      Strings.SplitWithoutSeparator(path, '.');
      assert Keys(path)[1..] == [];
      assert Lookup(data, Keys(path)) == (if data.Dict? && path in data.fields then Some(data.fields[path]) else None);
      Lookup(data, Keys(path)).GetOr(fallback)
  }

  /** The walk fails exactly when some step stops it; then `get` returns
      the fallback, otherwise the value found at the end of the walk. */
  lemma {:induction false} LookupFailsIffStopped(data: Value, keys: seq<string>)
    ensures Lookup(data, keys).None? <==> exists j :: 0 <= j < |keys| && StopsAt(data, keys, j)
    decreases |keys|
  {
    if |keys| > 0 {
      assert keys[..0] == [];
      match data
      case Dict(m) =>
        if keys[0] in m {
          var child := m[keys[0]];
          LookupFailsIffStopped(child, keys[1..]);
          forall j | 1 <= j < |keys|
            ensures StopsAt(data, keys, j) <==> StopsAt(child, keys[1..], j - 1)
          {
            assert keys[..j] == [keys[0]] + keys[1..][..j - 1];
            assert Lookup(data, keys[..j]) == Lookup(child, keys[1..][..j - 1]);
          }
          if Lookup(data, keys).None? {
            var j :| 0 <= j < |keys| - 1 && StopsAt(child, keys[1..], j);
            assert StopsAt(data, keys, j + 1);
          }
        } else {
          assert StopsAt(data, keys, 0);
        }
      case _ =>
        assert StopsAt(data, keys, 0);
    }
  }

  /** `get` never raises: it answers the fallback exactly when the walk is
      stopped, and the value at the end of the walk otherwise. */
  lemma GetFallsBack(data: Value, path: string, fallback: Value)
    ensures (exists j :: 0 <= j < |Keys(path)| && StopsAt(data, Keys(path), j))
            ==> Get(data, path, fallback) == fallback
    ensures Lookup(data, Keys(path)).Some? ==> Get(data, path, fallback) == Lookup(data, Keys(path)).value
  {
    LookupFailsIffStopped(data, Keys(path));
  }

  /** The assignment `set` performs along `keys` (never empty): `None`
      when it raises. */
  function Assign(data: Value, keys: seq<string>, v: Value): (r: Option<Value>)
    requires |keys| >= 1
    ensures !data.Dict? ==> r.None?
    ensures |keys| == 1 ==> (r.Some? <==> data.Dict?)
    ensures r.Some? ==> r.value.Dict? && r.value.fields.Keys == data.fields.Keys + {keys[0]}
    decreases |keys|
  {
    match data
    case Dict(m) =>
      if |keys| == 1 then Some(Dict(m[keys[0] := v]))
      else
        var child := if keys[0] in m then m[keys[0]] else Dict(map[]);
        (match Assign(child, keys[1..], v)
         case None => None
         case Some(c) => Some(Dict(m[keys[0] := c])))
    case _ => None
  }

  /** `Config.set(path, value)`: the new tree and whether it succeeded; on
      failure the tree is returned unchanged. */
  function Set(data: Value, path: string, v: Value): (r: (Value, bool))
    ensures !r.1 ==> r.0 == data
  {
    match Assign(data, Keys(path), v)
    case Some(d) => (d, true)
    case None => (data, false)
  }

  /** What was set is what is read back. */
  lemma {:induction false} LookupAfterAssign(data: Value, keys: seq<string>, v: Value)
    requires |keys| >= 1
    requires Assign(data, keys, v).Some?
    ensures Lookup(Assign(data, keys, v).value, keys) == Some(v)
    decreases |keys|
  {
    if |keys| > 1 {
      var m := data.fields;
      var child := if keys[0] in m then m[keys[0]] else Dict(map[]);
      LookupAfterAssign(child, keys[1..], v);
    }
  }

  /** `set` followed by `get` of the same path returns the value set. */
  lemma GetAfterSet(data: Value, path: string, v: Value, fallback: Value)
    requires Set(data, path, v).1
    ensures Get(Set(data, path, v).0, path, fallback) == v
  {
    LookupAfterAssign(data, Keys(path), v);
  }

  /** Every proper prefix of `keys` leads to a dictionary after a
      successful assignment: missing intermediates are created. */
  lemma {:induction false} AssignBuildsDicts(data: Value, keys: seq<string>, v: Value, j: nat)
    requires |keys| >= 1 && j < |keys|
    requires Assign(data, keys, v).Some?
    ensures var node := Lookup(Assign(data, keys, v).value, keys[..j]);
            node.Some? && node.value.Dict?
    decreases |keys|
  {
    if j > 0 {
      var m := data.fields;
      var child := if keys[0] in m then m[keys[0]] else Dict(map[]);
      AssignBuildsDicts(child, keys[1..], v, j - 1);
      assert keys[..j] == [keys[0]] + keys[1..][..j - 1];
      assert keys[..j][1..] == keys[1..][..j - 1];
    }
  }

  /** The assignment fails exactly when the walk meets an existing node
      that is not a dictionary before the last key. */
  lemma {:induction false} AssignFailsIffNonDict(data: Value, keys: seq<string>, v: Value)
    requires |keys| >= 1
    ensures Assign(data, keys, v).None? <==>
            exists j :: 0 <= j < |keys| && HitsNonDict(data, keys, j)
    decreases |keys|
  {
    assert keys[..0] == [];
    match data
    case Dict(m) =>
      if |keys| == 1 {
        assert !HitsNonDict(data, keys, 0);
      } else if keys[0] in m {
        var child := m[keys[0]];
        AssignFailsIffNonDict(child, keys[1..], v);
        forall j | 1 <= j < |keys|
          ensures HitsNonDict(data, keys, j) <==> HitsNonDict(child, keys[1..], j - 1)
        {
          assert keys[..j] == [keys[0]] + keys[1..][..j - 1];
          assert Lookup(data, keys[..j]) == Lookup(child, keys[1..][..j - 1]);
        }
        assert !HitsNonDict(data, keys, 0);
        if Assign(data, keys, v).None? {
          var j :| 0 <= j < |keys| - 1 && HitsNonDict(child, keys[1..], j);
          assert HitsNonDict(data, keys, j + 1);
        }
      } else {
        EmptyDictAcceptsAll(keys[1..], v);
        forall j | 0 <= j < |keys| ensures !HitsNonDict(data, keys, j) {
          if j > 0 {
            assert keys[..j][0] == keys[0];
          }
        }
      }
    case _ =>
      assert Lookup(data, keys[..0]) == Some(data);
      assert HitsNonDict(data, keys, 0);
  }

  /** The node reached after `j` keys exists and is not a dictionary. */
  predicate HitsNonDict(data: Value, keys: seq<string>, j: int)
    requires 0 <= j <= |keys|
  {
    match Lookup(data, keys[..j])
    case None => false
    case Some(node) => !node.Dict?
  }

  /** Assigning below a fresh, empty dictionary never fails. */
  lemma {:induction false} EmptyDictAcceptsAll(keys: seq<string>, v: Value)
    requires |keys| >= 1
    ensures Assign(Dict(map[]), keys, v).Some?
    decreases |keys|
  {
    if |keys| > 1 {
      EmptyDictAcceptsAll(keys[1..], v);
    }
  }

  predicate IsPrefix(a: seq<string>, b: seq<string>)
  {
    |a| <= |b| && b[..|a|] == a
  }

  /** Prefixes of two key paths that start alike are prefixes of their
      tails. */
  lemma PrefixOfTails(a: seq<string>, b: seq<string>)
    requires |a| >= 1 && |b| >= 1 && a[0] == b[0]
    ensures IsPrefix(a[1..], b[1..]) <==> IsPrefix(a, b)
  {
    if |a| <= |b| {
      assert b[..|a|] == [b[0]] + b[1..][..|a| - 1];
      assert a == [a[0]] + a[1..];
    }
  }

  /** An assignment leaves every path alone that is neither a prefix nor an
      extension of the assigned one. */
  lemma {:induction false} AssignFrame(data: Value, keys: seq<string>, v: Value, other: seq<string>)
    requires |keys| >= 1
    requires Assign(data, keys, v).Some?
    requires !IsPrefix(other, keys) && !IsPrefix(keys, other)
    ensures Lookup(Assign(data, keys, v).value, other) == Lookup(data, other)
    decreases |keys|
  {
    var m := data.fields;
    var k := keys[0];
    assert IsPrefix([], keys);
    assert |other| >= 1;
    if other[0] != k {
    } else {
      assert other[..1] == [k];
      assert |keys| >= 2;
      var child := if k in m then m[k] else Dict(map[]);
      PrefixOfTails(other, keys);
      PrefixOfTails(keys, other);
      AssignFrame(child, keys[1..], v, other[1..]);
      assert keys[..1] == [k];
      assert |other| >= 2;
    }
  }

  /** `set(p, v)` leaves `get(q)` alone for every path `q` that is neither
      a prefix nor an extension of `p`. */
  lemma GetUnaffectedBySet(data: Value, p: string, v: Value, q: string, fallback: Value)
    requires !IsPrefix(Keys(q), Keys(p)) && !IsPrefix(Keys(p), Keys(q))
    ensures Get(Set(data, p, v).0, q, fallback) == Get(data, q, fallback)
  {
    if Set(data, p, v).1 {
      AssignFrame(data, Keys(p), v, Keys(q));
    }
  }

  // ---------------------------------------------------------------------
  // Typed accessors
  // ---------------------------------------------------------------------

  /** The named settings the firmware reads through properties. */
  datatype Setting =
    | PinSda | PinScl | PinLeft | PinRight | PinFire | PinLaser | PinUp | PinDown | PinBuzzer
    | WifiMode | WifiKnown | WifiSelected
    | LaserEnabled | BignumEnabled | ReadingMode | RefreshRate
    | ThermostatActive | ThermostatTarget | ThermostatP | ThermostatI | ThermostatD
    | TapoEnabled | TapoIp
    | CalibrationEnabled | CalibrationPoint1Raw | CalibrationPoint1Real
    | CalibrationPoint2Raw | CalibrationPoint2Real

  /** The sections of the configuration tree that hold settings. */
  datatype Section = Pins | Wifi | Preferences | Thermostat | Tapo | Calibration

  /** The key a section is stored under at the root of the tree. */
  function SectionName(sec: Section): string
  {
    match sec
    case Pins => "pins"
    case Wifi => "wifi"
    case Preferences => "preferences"
    case Thermostat => "thermostat"
    case Tapo => "tapo"
    case Calibration => "calibration"
  }

  /** The section a setting lives under. */
  function SectionOf(s: Setting): Section
  {
    match s
    case PinSda => Pins
    case PinScl => Pins
    case PinLeft => Pins
    case PinRight => Pins
    case PinFire => Pins
    case PinLaser => Pins
    case PinUp => Pins
    case PinDown => Pins
    case PinBuzzer => Pins
    case WifiMode => Wifi
    case WifiKnown => Wifi
    case WifiSelected => Wifi
    case LaserEnabled => Preferences
    case BignumEnabled => Preferences
    case ReadingMode => Preferences
    case RefreshRate => Preferences
    case ThermostatActive => Thermostat
    case ThermostatTarget => Thermostat
    case ThermostatP => Thermostat
    case ThermostatI => Thermostat
    case ThermostatD => Thermostat
    case TapoEnabled => Tapo
    case TapoIp => Tapo
    case CalibrationEnabled => Calibration
    case CalibrationPoint1Raw => Calibration
    case CalibrationPoint1Real => Calibration
    case CalibrationPoint2Raw => Calibration
    case CalibrationPoint2Real => Calibration
  }

  /** The key a setting is stored under within its section. */
  function Key(s: Setting): string
  {
    match s
    case PinSda => "PIN_SDA"
    case PinScl => "PIN_SCL"
    case PinLeft => "PIN_LEFT"
    case PinRight => "PIN_RIGHT"
    case PinFire => "PIN_FIRE"
    case PinLaser => "PIN_LASER"
    case PinUp => "PIN_UP"
    case PinDown => "PIN_DOWN"
    case PinBuzzer => "PIN_BUZZER"
    case WifiMode => "mode"
    case WifiKnown => "known"
    case WifiSelected => "selected"
    case LaserEnabled => "laser"
    case BignumEnabled => "bignum"
    case ReadingMode => "reading"
    case RefreshRate => "refresh"
    case ThermostatActive => "active"
    case ThermostatTarget => "target"
    case ThermostatP => "p"
    case ThermostatI => "i"
    case ThermostatD => "d"
    case TapoEnabled => "enabled"
    case TapoIp => "ip"
    case CalibrationEnabled => "enabled"
    case CalibrationPoint1Raw => "point1_raw"
    case CalibrationPoint1Real => "point1_real"
    case CalibrationPoint2Raw => "point2_raw"
    case CalibrationPoint2Real => "point2_real"
  }

  /** The section and key each setting lives under. */
  function SettingKeys(s: Setting): (ks: seq<string>)
    ensures |ks| == 2
  {
    [SectionName(SectionOf(s)), Key(s)]
  }

  /** No section name holds the path separator. */
  lemma SectionNameHasNoDot(sec: Section)
    ensures '.' !in SectionName(sec)
  {
  }

  lemma PinsKeysHaveNoDot(s: Setting)
    requires SectionOf(s) == Pins
    ensures '.' !in Key(s)
  {
  }

  lemma WifiKeysHaveNoDot(s: Setting)
    requires SectionOf(s) == Wifi
    ensures '.' !in Key(s)
  {
  }

  lemma PreferencesKeysHaveNoDot(s: Setting)
    requires SectionOf(s) == Preferences
    ensures '.' !in Key(s)
  {
  }

  lemma ThermostatKeysHaveNoDot(s: Setting)
    requires SectionOf(s) == Thermostat
    ensures '.' !in Key(s)
  {
  }

  lemma TapoKeysHaveNoDot(s: Setting)
    requires SectionOf(s) == Tapo
    ensures '.' !in Key(s)
  {
  }

  lemma CalibrationKeysHaveNoDot(s: Setting)
    requires SectionOf(s) == Calibration
    ensures '.' !in Key(s)
  {
  }

  /** Neither the section nor the key of a setting holds the path
      separator. */
  lemma KeysHaveNoDots(s: Setting)
    ensures '.' !in SettingKeys(s)[0] && '.' !in SettingKeys(s)[1]
  {
    SectionNameHasNoDot(SectionOf(s));
    match SectionOf(s)
    case Pins => PinsKeysHaveNoDot(s);
    case Wifi => WifiKeysHaveNoDot(s);
    case Preferences => PreferencesKeysHaveNoDot(s);
    case Thermostat => ThermostatKeysHaveNoDot(s);
    case Tapo => TapoKeysHaveNoDot(s);
    case Calibration => CalibrationKeysHaveNoDot(s);
  }

  /** The dotted path of a setting, e.g. `thermostat.target`. */
  function PathOf(s: Setting): string
  {
    Strings.Join(SettingKeys(s), '.')
  }

  /** The value a property answers when its key is absent: a pin number
      for every pin, `true`/`false` for exactly the on/off switches, a
      float for exactly the gains and calibration points. */
  function DefaultOf(s: Setting): (r: Value)
    ensures SectionOf(s) == Pins ==> r.Int?
    ensures r.Bool? <==> s in {LaserEnabled, BignumEnabled, ThermostatActive, TapoEnabled, CalibrationEnabled}
    ensures r.Float? <==> s in {ThermostatP, ThermostatI, ThermostatD, CalibrationPoint1Raw,
                                CalibrationPoint1Real, CalibrationPoint2Raw, CalibrationPoint2Real}
  {
    match s
    case PinSda => Int(5)
    case PinScl => Int(6)
    case PinLeft => Int(3)
    case PinRight => Int(4)
    case PinFire => Int(0)
    case PinLaser => Int(9)
    case PinUp => Int(10)
    case PinDown => Int(7)
    case PinBuzzer => Int(1)
    case WifiMode => Str("AP")
    case WifiKnown => List([])
    case WifiSelected => Int(0)
    case LaserEnabled => Bool(true)
    case BignumEnabled => Bool(false)
    case ReadingMode => Str("OnShoot")
    case RefreshRate => Int(500)
    case ThermostatActive => Bool(false)
    case ThermostatTarget => Int(50)
    case ThermostatP => Float(1.0)
    case ThermostatI => Float(0.0)
    case ThermostatD => Float(0.0)
    case TapoEnabled => Bool(false)
    case TapoIp => Str("192.168.137.242")
    case CalibrationEnabled => Bool(false)
    case CalibrationPoint1Raw => Float(36.3)
    case CalibrationPoint1Real => Float(60.0)
    case CalibrationPoint2Raw => Float(58.2)
    case CalibrationPoint2Real => Float(100.0)
  }

  /** Whether the property has a setter (the pins and the known-network
      list are read-only). */
  predicate HasSetter(s: Setting)
  {
    !(s.PinSda? || s.PinScl? || s.PinLeft? || s.PinRight? || s.PinFire? || s.PinLaser?
      || s.PinUp? || s.PinDown? || s.PinBuzzer? || s.WifiKnown?)
  }

  /** Reading a property: `get(path, default)` on the property's dotted
      path, written here as the walk along its section and key (the two
      agree, see `ReadIsGet`). */
  function Read(data: Value, s: Setting): (r: Value)
    ensures !data.Dict? || SectionName(SectionOf(s)) !in data.fields ==> r == DefaultOf(s)
    ensures data.Dict? && SectionName(SectionOf(s)) in data.fields &&
            data.fields[SectionName(SectionOf(s))].Dict? &&
            Key(s) in data.fields[SectionName(SectionOf(s))].fields ==>
              r == data.fields[SectionName(SectionOf(s))].fields[Key(s)]
  {
    Lookup(data, SettingKeys(s)).GetOr(DefaultOf(s))
  }

  /** `set(path, value)` on a property's dotted path, written here as the
      assignment along its section and key (the two agree, see
      `StoreIsSet`). */
  function Store(data: Value, s: Setting, v: Value): (r: (Value, bool))
    ensures !r.1 ==> r.0 == data
  {
    match Assign(data, SettingKeys(s), v)
    case Some(d) => (d, true)
    case None => (data, false)
  }

  /** Writing a property through its setter. */
  function Write(data: Value, s: Setting, v: Value): (r: (Value, bool))
    requires HasSetter(s)
    ensures r.1 <==> WritableSection(data, SectionOf(s))
    ensures r.1 ==> Read(r.0, s) == v
    ensures !r.1 ==> r.0 == data
  {
    StoreSucceedsIffWritable(data, s, v);
    Store(data, s, v)
  }

  /** A store succeeds exactly on a writable section, and then reads back
      the value stored. */
  lemma StoreSucceedsIffWritable(data: Value, s: Setting, v: Value)
    ensures Store(data, s, v).1 <==> WritableSection(data, SectionOf(s))
    ensures Store(data, s, v).1 ==> Read(Store(data, s, v).0, s) == v
  {
    if WritableSection(data, SectionOf(s)) {
      StoreThenRead(data, s, v);
    } else if data.Dict? {
      var sec := SectionName(SectionOf(s));
      assert sec in data.fields && !data.fields[sec].Dict?;
      assert Assign(data.fields[sec], SettingKeys(s)[1..], v).None?;
    }
  }

  /** A setting's dotted path splits back into its section and key. */
  lemma PathOfSplits(s: Setting)
    ensures Keys(PathOf(s)) == SettingKeys(s)
  {
    KeysHaveNoDots(s);
    Strings.SplitOfJoin(SettingKeys(s), '.');
  }

  /** Reading a property is `get` on its dotted path with its default. */
  lemma ReadIsGet(data: Value, s: Setting)
    ensures Read(data, s) == Get(data, PathOf(s), DefaultOf(s))
  {
    PathOfSplits(s);
  }

  /** Storing a property is `set` on its dotted path. */
  lemma StoreIsSet(data: Value, s: Setting, v: Value)
    ensures Store(data, s, v) == Set(data, PathOf(s), v)
  {
    PathOfSplits(s);
  }

  /** Distinct sections have distinct names. */
  lemma SectionNameInjective(a: Section, b: Section)
    requires a != b
    ensures SectionName(a) != SectionName(b)
  {
  }

  lemma PinsKeysDistinct(s: Setting, t: Setting)
    requires SectionOf(s) == SectionOf(t) == Pins && s != t
    ensures Key(s) != Key(t)
  {
  }

  lemma WifiKeysDistinct(s: Setting, t: Setting)
    requires SectionOf(s) == SectionOf(t) == Wifi && s != t
    ensures Key(s) != Key(t)
  {
  }

  lemma PreferencesKeysDistinct(s: Setting, t: Setting)
    requires SectionOf(s) == SectionOf(t) == Preferences && s != t
    ensures Key(s) != Key(t)
  {
  }

  lemma ThermostatKeysDistinct(s: Setting, t: Setting)
    requires SectionOf(s) == SectionOf(t) == Thermostat && s != t
    ensures Key(s) != Key(t)
  {
  }

  lemma TapoKeysDistinct(s: Setting, t: Setting)
    requires SectionOf(s) == SectionOf(t) == Tapo && s != t
    ensures Key(s) != Key(t)
  {
  }

  lemma CalibrationKeysDistinct(s: Setting, t: Setting)
    requires SectionOf(s) == SectionOf(t) == Calibration && s != t
    ensures Key(s) != Key(t)
  {
  }

  /** Two distinct settings of one section have distinct keys. */
  lemma KeysDistinct(s: Setting, t: Setting)
    requires SectionOf(s) == SectionOf(t) && s != t
    ensures Key(s) != Key(t)
  {
    match SectionOf(s)
    case Pins => PinsKeysDistinct(s, t);
    case Wifi => WifiKeysDistinct(s, t);
    case Preferences => PreferencesKeysDistinct(s, t);
    case Thermostat => ThermostatKeysDistinct(s, t);
    case Tapo => TapoKeysDistinct(s, t);
    case Calibration => CalibrationKeysDistinct(s, t);
  }

  /** Two distinct settings have distinct key paths. */
  lemma SettingKeysInjective(s: Setting, t: Setting)
    requires s != t
    ensures SettingKeys(s) != SettingKeys(t)
  {
    if SectionOf(s) != SectionOf(t) {
      SectionNameInjective(SectionOf(s), SectionOf(t));
      assert SettingKeys(s)[0] != SettingKeys(t)[0];
    } else {
      KeysDistinct(s, t);
      assert SettingKeys(s)[1] != SettingKeys(t)[1];
    }
  }

  /** Two different two-key paths: neither is a prefix of the other. */
  lemma DistinctPairsUnrelated(ks: seq<string>, kt: seq<string>)
    requires |ks| == 2 && |kt| == 2 && ks != kt
    ensures !IsPrefix(ks, kt) && !IsPrefix(kt, ks)
  {
    assert kt[..2] == kt && ks[..2] == ks;
  }

  /** Storing one property changes no other property. */
  lemma StoreIsolated(data: Value, s: Setting, v: Value, t: Setting)
    requires s != t
    ensures Read(Store(data, s, v).0, t) == Read(data, t)
  {
    SettingKeysInjective(s, t);
    if Store(data, s, v).1 {
      DistinctPairsUnrelated(SettingKeys(s), SettingKeys(t));
      AssignFrame(data, SettingKeys(s), v, SettingKeys(t));
    }
  }

  /** Writing one property changes no other property. */
  lemma WriteIsolated(data: Value, s: Setting, v: Value, t: Setting)
    requires HasSetter(s) && s != t
    ensures Read(Write(data, s, v).0, t) == Read(data, t)
  {
    StoreIsolated(data, s, v, t);
  }

  /** Storing a property and reading it back gives the value stored,
      whenever the store succeeds. */
  lemma ReadAfterStore(data: Value, s: Setting, v: Value)
    requires Store(data, s, v).1
    ensures Read(Store(data, s, v).0, s) == v
  {
    LookupAfterAssign(data, SettingKeys(s), v);
  }

  /** Assigning a two-key path succeeds whenever some other two-key path
      of the same section can be walked: the walk met dictionaries only. */
  lemma SiblingAssignable(data: Value, ks: seq<string>, kt: seq<string>, v: Value)
    requires |ks| == 2 && |kt| == 2 && ks[0] == kt[0]
    requires Lookup(data, kt).Some?
    ensures Assign(data, ks, v).Some?
  {
    var m := data.fields;
    assert Lookup(m[kt[0]], kt[1..]).Some?;
  }

  /** A setting can always be stored once another setting of the same
      section can be read. */
  lemma SectionWritable(data: Value, s: Setting, t: Setting, v: Value)
    requires SectionOf(s) == SectionOf(t)
    requires Lookup(data, SettingKeys(t)).Some?
    ensures Store(data, s, v).1
  {
    SiblingAssignable(data, SettingKeys(s), SettingKeys(t), v);
  }

  /** The root is a dictionary and the section is either absent or a
      dictionary: every setting of that section can be stored. */
  predicate WritableSection(data: Value, sec: Section)
  {
    data.Dict? && (SectionName(sec) in data.fields ==> data.fields[SectionName(sec)].Dict?)
  }

  /** Assigning a two-key path below a dictionary whose first-key entry is
      absent or a dictionary succeeds, and leaves a dictionary there. */
  lemma AssignTwoKeys(data: Value, ks: seq<string>, v: Value)
    requires |ks| == 2 && data.Dict?
    requires ks[0] in data.fields ==> data.fields[ks[0]].Dict?
    ensures Assign(data, ks, v).Some?
    ensures var d := Assign(data, ks, v).value;
            d.Dict? && ks[0] in d.fields && d.fields[ks[0]].Dict?
  {
    var m := data.fields;
    var child := if ks[0] in m then m[ks[0]] else Dict(map[]);
    assert Assign(child, ks[1..], v).Some?;
  }

  /** Storing a property of a writable section succeeds, reads back the
      value stored, and leaves the section writable. */
  lemma StoreThenRead(data: Value, s: Setting, v: Value)
    requires WritableSection(data, SectionOf(s))
    ensures Store(data, s, v).1
    ensures Read(Store(data, s, v).0, s) == v
    ensures WritableSection(Store(data, s, v).0, SectionOf(s))
  {
    AssignTwoKeys(data, SettingKeys(s), v);
    ReadAfterStore(data, s, v);
  }

  /** Storing two properties of one writable section, one after the
      other: both read back what was stored. */
  lemma StoreTwoInSection(data: Value, s1: Setting, v1: Value, s2: Setting, v2: Value)
    requires s1 != s2 && SectionOf(s1) == SectionOf(s2)
    requires WritableSection(data, SectionOf(s1))
    ensures var after := Store(Store(data, s1, v1).0, s2, v2).0;
            Read(after, s1) == v1 && Read(after, s2) == v2
  {
    StoreThenRead(data, s1, v1);
    var first := Store(data, s1, v1).0;
    StoreThenRead(first, s2, v2);
    StoreIsolated(first, s2, v2, s1);
  }

  /** The tree used when no configuration file can be loaded. */
  function DefaultConfig(): (r: Value)
    ensures r.Dict? && r.fields.Keys == {"pins", "wifi", "preferences", "thermostat", "tapo", "calibration"}
    ensures forall k :: k in r.fields ==> r.fields[k].Dict?
  {
    Dict(map[
      "pins" := DefaultPins(),
      "wifi" := DefaultWifi(),
      "preferences" := DefaultPreferences(),
      "thermostat" := DefaultThermostat(),
      "tapo" := DefaultTapo(),
      "calibration" := DefaultCalibration()
    ])
  }

  function DefaultPins(): Value
  {
    Dict(map[
      "PIN_SDA" := Int(5), "PIN_SCL" := Int(6), "PIN_LEFT" := Int(3),
      "PIN_RIGHT" := Int(4), "PIN_FIRE" := Int(0), "PIN_LASER" := Int(9),
      "PIN_UP" := Int(10), "PIN_DOWN" := Int(7), "PIN_BUZZER" := Int(1)])
  }

  function DefaultWifi(): Value
  {
    Dict(map[
      "mode" := Str("AP"), "known" := List([]), "selected" := Int(0),
      "ap_ip" := Str("192.168.4.1"),
      "ap_credentials" := Dict(map["ssid" := Str("SmartThermo"), "password" := Str("12345678")])])
  }

  function DefaultPreferences(): Value
  {
    Dict(map[
      "laser" := Bool(true), "bignum" := Bool(false),
      "reading" := Str("OnShoot"), "refresh" := Int(500)])
  }

  function DefaultThermostat(): Value
  {
    Dict(map[
      "active" := Bool(false), "target" := Int(50),
      "p" := Float(1.0), "i" := Float(0.0), "d" := Float(0.0)])
  }

  function DefaultTapo(): Value
  {
    Dict(map[
      "enabled" := Bool(false), "ip" := Str("192.168.137.242"),
      "email" := Str(""), "password" := Str("")])
  }

  function DefaultCalibration(): Value
  {
    Dict(map[
      "enabled" := Bool(true), "point1_raw" := Float(36.3), "point1_real" := Float(60.0),
      "point2_raw" := Float(58.2), "point2_real" := Float(100.0)])
  }

  /** The default tree stores `true` under `calibration.enabled`, while
      the property falls back to `false` when the key is absent. */
  lemma CalibrationDefaultsDisagree()
    ensures Lookup(DefaultConfig(), SettingKeys(CalibrationEnabled)) == Some(Bool(true))
    ensures DefaultOf(CalibrationEnabled) == Bool(false)
  {
    CalibrationStoredTrue();
    CalibrationFallbackFalse();
  }

  lemma CalibrationStoredTrue()
    ensures Lookup(DefaultConfig(), SettingKeys(CalibrationEnabled)) == Some(Bool(true))
  {
    var calibration := DefaultConfig().fields["calibration"];
    assert Lookup(calibration, ["enabled"]) == Some(Bool(true));
  }

  lemma CalibrationFallbackFalse()
    ensures DefaultOf(CalibrationEnabled) == Bool(false)
  {
  }

  lemma DefaultPinsHoldFallbacks(s: Setting)
    requires SectionOf(s) == Pins && s != CalibrationEnabled
    ensures Lookup(DefaultPins(), SettingKeys(s)[1..]) == Some(DefaultOf(s))
  {
    match s
    case PinSda => assert Lookup(DefaultPins(), ["PIN_SDA"]) == Some(DefaultPins().fields["PIN_SDA"]);
    case PinScl => assert Lookup(DefaultPins(), ["PIN_SCL"]) == Some(DefaultPins().fields["PIN_SCL"]);
    case PinLeft => assert Lookup(DefaultPins(), ["PIN_LEFT"]) == Some(DefaultPins().fields["PIN_LEFT"]);
    case PinRight => assert Lookup(DefaultPins(), ["PIN_RIGHT"]) == Some(DefaultPins().fields["PIN_RIGHT"]);
    case PinFire => assert Lookup(DefaultPins(), ["PIN_FIRE"]) == Some(DefaultPins().fields["PIN_FIRE"]);
    case PinLaser => assert Lookup(DefaultPins(), ["PIN_LASER"]) == Some(DefaultPins().fields["PIN_LASER"]);
    case PinUp => assert Lookup(DefaultPins(), ["PIN_UP"]) == Some(DefaultPins().fields["PIN_UP"]);
    case PinDown => assert Lookup(DefaultPins(), ["PIN_DOWN"]) == Some(DefaultPins().fields["PIN_DOWN"]);
    case PinBuzzer => assert Lookup(DefaultPins(), ["PIN_BUZZER"]) == Some(DefaultPins().fields["PIN_BUZZER"]);
    case _ =>
  }

  lemma DefaultWifiHoldFallbacks(s: Setting)
    requires SectionOf(s) == Wifi && s != CalibrationEnabled
    ensures Lookup(DefaultWifi(), SettingKeys(s)[1..]) == Some(DefaultOf(s))
  {
    match s
    case WifiMode => assert Lookup(DefaultWifi(), ["mode"]) == Some(DefaultWifi().fields["mode"]);
    case WifiKnown => assert Lookup(DefaultWifi(), ["known"]) == Some(DefaultWifi().fields["known"]);
    case WifiSelected => assert Lookup(DefaultWifi(), ["selected"]) == Some(DefaultWifi().fields["selected"]);
    case _ =>
  }

  lemma DefaultPreferencesHoldFallbacks(s: Setting)
    requires SectionOf(s) == Preferences && s != CalibrationEnabled
    ensures Lookup(DefaultPreferences(), SettingKeys(s)[1..]) == Some(DefaultOf(s))
  {
    match s
    case LaserEnabled => assert Lookup(DefaultPreferences(), ["laser"]) == Some(DefaultPreferences().fields["laser"]);
    case BignumEnabled => assert Lookup(DefaultPreferences(), ["bignum"]) == Some(DefaultPreferences().fields["bignum"]);
    case ReadingMode => assert Lookup(DefaultPreferences(), ["reading"]) == Some(DefaultPreferences().fields["reading"]);
    case RefreshRate => assert Lookup(DefaultPreferences(), ["refresh"]) == Some(DefaultPreferences().fields["refresh"]);
    case _ =>
  }

  lemma DefaultThermostatHoldFallbacks(s: Setting)
    requires SectionOf(s) == Thermostat && s != CalibrationEnabled
    ensures Lookup(DefaultThermostat(), SettingKeys(s)[1..]) == Some(DefaultOf(s))
  {
    match s
    case ThermostatActive => assert Lookup(DefaultThermostat(), ["active"]) == Some(DefaultThermostat().fields["active"]);
    case ThermostatTarget => assert Lookup(DefaultThermostat(), ["target"]) == Some(DefaultThermostat().fields["target"]);
    case ThermostatP => assert Lookup(DefaultThermostat(), ["p"]) == Some(DefaultThermostat().fields["p"]);
    case ThermostatI => assert Lookup(DefaultThermostat(), ["i"]) == Some(DefaultThermostat().fields["i"]);
    case ThermostatD => assert Lookup(DefaultThermostat(), ["d"]) == Some(DefaultThermostat().fields["d"]);
    case _ =>
  }

  lemma DefaultTapoHoldFallbacks(s: Setting)
    requires SectionOf(s) == Tapo && s != CalibrationEnabled
    ensures Lookup(DefaultTapo(), SettingKeys(s)[1..]) == Some(DefaultOf(s))
  {
    match s
    case TapoEnabled => assert Lookup(DefaultTapo(), ["enabled"]) == Some(DefaultTapo().fields["enabled"]);
    case TapoIp => assert Lookup(DefaultTapo(), ["ip"]) == Some(DefaultTapo().fields["ip"]);
    case _ =>
  }

  lemma DefaultCalibrationHoldFallbacks(s: Setting)
    requires SectionOf(s) == Calibration && s != CalibrationEnabled
    ensures Lookup(DefaultCalibration(), SettingKeys(s)[1..]) == Some(DefaultOf(s))
  {
    match s
    case CalibrationPoint1Raw => assert Lookup(DefaultCalibration(), ["point1_raw"]) == Some(DefaultCalibration().fields["point1_raw"]);
    case CalibrationPoint1Real => assert Lookup(DefaultCalibration(), ["point1_real"]) == Some(DefaultCalibration().fields["point1_real"]);
    case CalibrationPoint2Raw => assert Lookup(DefaultCalibration(), ["point2_raw"]) == Some(DefaultCalibration().fields["point2_raw"]);
    case CalibrationPoint2Real => assert Lookup(DefaultCalibration(), ["point2_real"]) == Some(DefaultCalibration().fields["point2_real"]);
    case _ =>
  }

  /** The default contents of each section. */
  function DefaultSection(sec: Section): Value
  {
    match sec
    case Pins => DefaultPins()
    case Wifi => DefaultWifi()
    case Preferences => DefaultPreferences()
    case Thermostat => DefaultThermostat()
    case Tapo => DefaultTapo()
    case Calibration => DefaultCalibration()
  }

  /** The default tree holds every section under its name. */
  lemma DefaultSectionAt(sec: Section)
    ensures SectionName(sec) in DefaultConfig().fields
    ensures DefaultConfig().fields[SectionName(sec)] == DefaultSection(sec)
  {
  }

  /** A walk from a dictionary holding its first key continues from the
      entry under that key. */
  lemma LookupStepsInto(data: Value, ks: seq<string>)
    requires |ks| >= 1 && data.Dict? && ks[0] in data.fields
    ensures Lookup(data, ks) == Lookup(data.fields[ks[0]], ks[1..])
  {
  }

  /** The default tree stores, under every other property's path, the
      property's own fallback. */
  lemma DefaultTreeHoldsFallbacks(s: Setting)
    ensures s != CalibrationEnabled ==> Lookup(DefaultConfig(), SettingKeys(s)) == Some(DefaultOf(s))
  {
    if s != CalibrationEnabled {
      DefaultSectionAt(SectionOf(s));
      LookupStepsInto(DefaultConfig(), SettingKeys(s));
      match SectionOf(s)
      case Pins => DefaultPinsHoldFallbacks(s);
      case Wifi => DefaultWifiHoldFallbacks(s);
      case Preferences => DefaultPreferencesHoldFallbacks(s);
      case Thermostat => DefaultThermostatHoldFallbacks(s);
      case Tapo => DefaultTapoHoldFallbacks(s);
      case Calibration => DefaultCalibrationHoldFallbacks(s);
    }
  }

  /** Reading any property from the default tree gives the property's own
      fallback, except `calibration.enabled`, which reads `true` there but
      falls back to `false`. */
  lemma DefaultConfigMatchesFallbacks(s: Setting)
    ensures s != CalibrationEnabled ==> Read(DefaultConfig(), s) == DefaultOf(s)
    ensures s == CalibrationEnabled ==> Read(DefaultConfig(), s) == Bool(true) != DefaultOf(s)
  {
    DefaultTreeHoldsFallbacks(s);
    CalibrationDefaultsDisagree();
  }

  /** `set('test.value', 42)` succeeds on any tree whose root is a
      dictionary with no `test` entry or a dictionary there (the default
      tree among them), and `get('test.value')` then answers 42. */
  lemma SetThenGetTestValue(root: Value)
    requires root.Dict?
    requires "test" !in root.fields || root.fields["test"].Dict?
    ensures Set(root, "test.value", Int(42)).1
    ensures Get(Set(root, "test.value", Int(42)).0, "test.value", Null) == Int(42)
  {
    SetTestValueSucceeds(root);
    GetAfterSet(root, "test.value", Int(42), Null);
  }

  lemma SetTestValueSucceeds(root: Value)
    requires root.Dict?
    requires "test" !in root.fields || root.fields["test"].Dict?
    ensures Set(root, "test.value", Int(42)).1
  {
    var ks := ["test", "value"];
    assert Assign(root, ks, Int(42)).Some? by {
      if "test" !in root.fields {
        EmptyDictAcceptsAll(ks[1..], Int(42));
      }
    }
    TestValueKeys();
  }

  lemma DefaultTreeHasNoTest()
    ensures "test" !in DefaultConfig().fields
  {
  }

  lemma TestValueKeys()
    ensures Keys("test.value") == ["test", "value"]
  {
    var ks := ["test", "value"];
    assert Strings.Join(ks, '.') == "test" + "." + "value";
    assert "test" + "." + "value" == "test.value";
    Strings.SplitOfJoin(ks, '.');
  }
}
