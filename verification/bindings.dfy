/** How the setup screen's menu items reach the stored configuration.
    Most items read a setting through its property (with the property's
    fallback) and write it with `set(path, value)`. The SSID item shows the
    selected network by name but stores it as an index into the
    known-network list `wifi.known`, whose entries are dictionaries with an
    `ssid` key. Every operation that can raise answers `None`. */
module Bindings {
  import opened Wrappers
  import opened Json
  import Config

  /** Where an item's value lives: nowhere (labels, levels, actions), in
      one setting, or in the selected-network index. */
  datatype Binding = Unbound | Field(setting: Config.Setting) | SelectedNetwork

  /** The callbacks the setup screen attaches to its action items. */
  datatype ActionId = Autotune | SaveAndExit | ExitWithoutSave

  /** The name shown when there is no network to show. */
  const NoNetwork := Str("None")

  const SsidKey := "ssid"

  /** `v[key]` with a string key: only a dictionary holding the key
      answers; anything else raises (`KeyError` or `TypeError`). */
  function Subscript(v: Value, key: string): (r: Option<Value>)
    ensures r.Some? <==> v.Dict? && key in v.fields
    ensures r.Some? ==> r.value == v.fields[key]
  {
    match v
    case Dict(m) => if key in m then Some(m[key]) else None
    case _ => None
  }

  /** The entries `for net in known` visits. A list yields its items; an
      empty string or dictionary yields nothing. A non-empty string or
      dictionary yields strings, and every loop over `known` subscripts
      each entry with `'ssid'`, which raises on a string: that raise is
      taken here at once. Anything else is not iterable. */
  function Networks(known: Value): (r: Option<seq<Value>>)
    ensures known.List? ==> r == Some(known.items)
    ensures r.Some? && !known.List? ==> r.value == [] && !Truthy(known)
  {
    match known
    case List(items) => Some(items)
    case Str(s) => if |s| == 0 then Some([]) else None
    case Dict(m) => if |m| == 0 then Some([]) else None
    case _ => None
  }

  /** `len(v)`: defined on strings, lists and dictionaries. */
  function Len(v: Value): (r: Option<nat>)
    ensures v.List? ==> r == Some(|v.items|)
    ensures r.Some? <==> v.Str? || v.List? || v.Dict?
  {
    match v
    case Str(s) => Some(|s|)
    case List(items) => Some(|items|)
    case Dict(m) => Some(|m|)
    case _ => None
  }

  /** `known[i]` for a non-negative number `i` below `len(known)`: a list
      answers for an `int` or `bool` index. A dictionary has only string
      keys (`KeyError`), a float index raises, and the one-character string
      a string answers makes the following `['ssid']` raise, so all of
      those are `None`. */
  function Index(known: Value, i: Value): (r: Option<Value>)
    ensures r.Some? ==> known.List? && (i.Int? || i.Bool?)
    ensures known.List? && (i.Int? || i.Bool?) && 0 <= IntOf(i) < |known.items| ==>
            r == Some(known.items[IntOf(i)])
  {
    match known
    case List(items) =>
      if (i.Int? || i.Bool?) && 0 <= IntOf(i) < |items| then Some(items[IntOf(i)]) else None
    case _ => None
  }

  /** `[net['ssid'] for net in nets]`: raises when some entry has no
      `ssid`, and otherwise lists the names in order. */
  function SsidsOf(nets: seq<Value>): (r: Option<seq<Value>>)
    ensures r.Some? <==> forall i :: 0 <= i < |nets| ==> Subscript(nets[i], SsidKey).Some?
    ensures r.Some? ==> (|r.value| == |nets| &&
            forall i :: 0 <= i < |nets| ==> r.value[i] == nets[i].fields[SsidKey])
  {
    if |nets| == 0 then Some([])
    else
      match Subscript(nets[0], SsidKey)
      case None => None
      case Some(name) =>
        match SsidsOf(nets[1..])
        case None => None
        case Some(rest) => Some([name] + rest)
  }

  /** `_get_known_ssids`: the names of the known networks in stored order,
      or the single choice `"None"` when there are none. */
  function KnownSsids(cfg: Value): (r: Option<seq<Value>>)
    ensures var known := Config.Read(cfg, Config.WifiKnown);
            (!Truthy(known) ==> r == Some([NoNetwork])) &&
            (Truthy(known) && !known.List? ==> r.None?) &&
            (Truthy(known) && known.List? ==>
               (r.Some? <==> forall i :: 0 <= i < |known.items| ==> Subscript(known.items[i], SsidKey).Some?) &&
               (r.Some? ==> (|r.value| == |known.items| &&
                  forall i :: 0 <= i < |known.items| ==> r.value[i] == known.items[i].fields[SsidKey])))
  {
    var known := Config.Read(cfg, Config.WifiKnown);
    if !Truthy(known) then Some([NoNetwork])
    else
      match Networks(known)
      case None => None
      case Some(nets) => SsidsOf(nets)
  }

  /** `_get_selected_ssid`: the name of the known network the stored index
      points at, `"None"` when the list is empty or the index is out of
      range. The range test `0 <= selected < len(known)` raises on a
      non-number; it stops after its first half when that is false. */
  function SelectedSsid(cfg: Value): (r: Option<Value>)
    ensures var known := Config.Read(cfg, Config.WifiKnown);
            var selected := Config.Read(cfg, Config.WifiSelected);
            known.List? && selected.Int? ==>
              r == if 0 <= selected.n < |known.items| then Subscript(known.items[selected.n], SsidKey)
                   else Some(NoNetwork)
    ensures !Truthy(Config.Read(cfg, Config.WifiKnown)) ==> r == Some(NoNetwork)
  {
    var known := Config.Read(cfg, Config.WifiKnown);
    var selected := Config.Read(cfg, Config.WifiSelected);
    if !Truthy(known) then Some(NoNetwork)
    else
      match Number(selected)
      case None => None
      case Some(x) =>
        if !(0.0 <= x) then Some(NoNetwork)
        else
          match Len(known)
          case None => None
          case Some(n) =>
            if !(x < n as real) then Some(NoNetwork)
            else
              match Index(known, selected)
              case None => None
              case Some(net) => Subscript(net, SsidKey)
  }

  /** The outcome of the search loop in `_set_selected_ssid`. */
  datatype Search = Raised | Absent | At(index: nat)

  /** No entry before `j` raises or matches `ssid`. */
  predicate PassedBefore(nets: seq<Value>, ssid: Value, j: int)
    requires 0 <= j <= |nets|
  {
    forall k :: 0 <= k < j ==> Subscript(nets[k], SsidKey).Some? && Subscript(nets[k], SsidKey).value != ssid
  }

  /** `for i, net in enumerate(nets): if net['ssid'] == ssid: ... break`:
      the first entry whose name is `ssid`, unless an entry without a name
      comes first. */
  function FindSsid(nets: seq<Value>, ssid: Value): (r: Search)
    ensures r.At? ==> r.index < |nets| && PassedBefore(nets, ssid, r.index) &&
                      Subscript(nets[r.index], SsidKey) == Some(ssid)
    ensures r.Absent? ==> PassedBefore(nets, ssid, |nets|)
    ensures r.Raised? ==> exists j :: 0 <= j < |nets| && PassedBefore(nets, ssid, j) &&
                                      Subscript(nets[j], SsidKey).None?
  {
    if |nets| == 0 then Absent
    else
      match Subscript(nets[0], SsidKey)
      case None =>
        assert PassedBefore(nets, ssid, 0);
        Raised
      case Some(name) =>
        if name == ssid then At(0)
        else
          match FindSsid(nets[1..], ssid)
          case Raised =>
            var j :| 0 <= j < |nets| - 1 && PassedBefore(nets[1..], ssid, j) && Subscript(nets[1..][j], SsidKey).None?;
            assert PassedBefore(nets, ssid, j + 1);
            Raised
          case Absent => Absent
          case At(i) => At(i + 1)
  }

  /** `_set_selected_ssid(ssid)`: store the index of the first known
      network named `ssid`; change nothing when there is none. */
  function SetSelectedSsid(cfg: Value, ssid: Value): (r: Option<Value>)
    ensures Networks(Config.Read(cfg, Config.WifiKnown)).None? ==> r.None?
    ensures r.Some? ==> Config.Read(r.value, Config.WifiKnown) == Config.Read(cfg, Config.WifiKnown)
    ensures r.Some? && r.value != cfg ==> Config.Read(cfg, Config.WifiKnown).List?
  {
    var known := Config.Read(cfg, Config.WifiKnown);
    match Networks(known)
    case None => None
    case Some(nets) =>
      match FindSsid(nets, ssid)
      case Raised => None
      case Absent => Some(cfg)
      case At(i) =>
        Config.WriteIsolated(cfg, Config.WifiSelected, Int(i), Config.WifiKnown);
        Some(Config.Write(cfg, Config.WifiSelected, Int(i)).0)
  }

  /** Selecting a name the known list holds stores the index of its first
      occurrence, whatever comes after it. */
  lemma SelectsFirstMatch(cfg: Value, ssid: Value, i: nat)
    requires var known := Config.Read(cfg, Config.WifiKnown);
             known.List? && i < |known.items| && PassedBefore(known.items, ssid, i) &&
             Subscript(known.items[i], SsidKey) == Some(ssid)
    ensures SetSelectedSsid(cfg, ssid) == Some(Config.Write(cfg, Config.WifiSelected, Int(i)).0)
  {
    FindSsidIsFirst(Config.Read(cfg, Config.WifiKnown).items, ssid, i);
  }

  /** The search stops at the first entry named `ssid` when every entry
      before it has a different name. */
  lemma {:induction false} FindSsidIsFirst(nets: seq<Value>, ssid: Value, i: nat)
    requires i < |nets| && PassedBefore(nets, ssid, i) && Subscript(nets[i], SsidKey) == Some(ssid)
    ensures FindSsid(nets, ssid) == At(i)
  {
    if i > 0 {
      assert Subscript(nets[0], SsidKey).value != ssid;
      assert PassedBefore(nets[1..], ssid, i - 1);
      FindSsidIsFirst(nets[1..], ssid, i - 1);
    }
  }

  /** Selecting a name no known network has changes nothing. */
  lemma SelectingUnknownNameIsNoop(cfg: Value, ssid: Value)
    requires var known := Config.Read(cfg, Config.WifiKnown);
             known.List? && forall k :: 0 <= k < |known.items| ==>
               Subscript(known.items[k], SsidKey).Some? && Subscript(known.items[k], SsidKey).value != ssid
    ensures SetSelectedSsid(cfg, ssid) == Some(cfg)
  {
    var items := Config.Read(cfg, Config.WifiKnown).items;
    assert PassedBefore(items, ssid, |items|);
  }

  /** Selecting a known network by name and reading the selection back
      gives that name. */
  lemma SelectThenGet(cfg: Value, ssid: Value, i: nat)
    requires var known := Config.Read(cfg, Config.WifiKnown);
             known.List? && i < |known.items| && PassedBefore(known.items, ssid, i) &&
             Subscript(known.items[i], SsidKey) == Some(ssid)
    ensures SetSelectedSsid(cfg, ssid).Some?
    ensures SelectedSsid(SetSelectedSsid(cfg, ssid).value) == Some(ssid)
  {
    SelectsFirstMatch(cfg, ssid, i);
    assert Config.Lookup(cfg, Config.SettingKeys(Config.WifiKnown)).Some?;
    Config.SectionWritable(cfg, Config.WifiSelected, Config.WifiKnown, Int(i));
    Config.ReadAfterStore(cfg, Config.WifiSelected, Int(i));
    Config.StoreIsolated(cfg, Config.WifiSelected, Int(i), Config.WifiKnown);
  }

  /** `get_current_value()` of a bound item. An unbound item answers its
      initial internal value, which the setup screen never supplies. */
  function ReadBinding(b: Binding, cfg: Value): (r: Option<Value>)
    ensures b.Field? ==> r == Some(Config.Read(cfg, b.setting))
    ensures b.SelectedNetwork? ==> r == SelectedSsid(cfg)
    ensures b.Unbound? ==> r == Some(Null)
    ensures r.None? ==> b.SelectedNetwork?
    ensures b.SelectedNetwork? && !Truthy(Config.Read(cfg, Config.WifiKnown)) ==> r == Some(NoNetwork)
  {
    match b
    case Unbound => Some(Null)
    case Field(s) => Some(Config.Read(cfg, s))
    case SelectedNetwork => SelectedSsid(cfg)
  }

  /** `set_current_value(v)` of a bound item: the new configuration tree.
      A field is written with `set(path, v)` and its result is dropped. */
  function WriteBinding(b: Binding, cfg: Value, v: Value): (r: Option<Value>)
    ensures b.Field? ==> r == Some(Config.Store(cfg, b.setting, v).0)
    ensures b.SelectedNetwork? ==> r == SetSelectedSsid(cfg, v)
    ensures b.Unbound? ==> r == Some(cfg)
    ensures r.None? ==> b.SelectedNetwork?
    ensures b.Field? ==> forall t :: t != b.setting ==> Config.Read(r.value, t) == Config.Read(cfg, t)
    ensures b.Field? && Config.Store(cfg, b.setting, v).1 ==> Config.Read(r.value, b.setting) == v
    ensures b.SelectedNetwork? && r.Some? ==>
              Config.Read(r.value, Config.WifiKnown) == Config.Read(cfg, Config.WifiKnown)
  {
    match b
    case Unbound => Some(cfg)
    case Field(s) =>
      StoreMovesOnlyItsSetting(s, cfg, v);
      Some(Config.Store(cfg, s, v).0)
    case SelectedNetwork => SetSelectedSsid(cfg, v)
  }

  /** A store changes no other setting, and reads back when it succeeds. */
  lemma StoreMovesOnlyItsSetting(s: Config.Setting, cfg: Value, v: Value)
    ensures forall t :: t != s ==> Config.Read(Config.Store(cfg, s, v).0, t) == Config.Read(cfg, t)
    ensures Config.Store(cfg, s, v).1 ==> Config.Read(Config.Store(cfg, s, v).0, s) == v
  {
    forall t | t != s
      ensures Config.Read(Config.Store(cfg, s, v).0, t) == Config.Read(cfg, t)
    {
      Config.StoreIsolated(cfg, s, v, t);
    }
    if Config.Store(cfg, s, v).1 {
      Config.ReadAfterStore(cfg, s, v);
    }
  }

  /** A field reads back what was written to it when the write succeeds,
      and no other setting moves. */
  lemma FieldRoundTrip(s: Config.Setting, cfg: Value, v: Value, t: Config.Setting)
    requires Config.Store(cfg, s, v).1
    ensures WriteBinding(Field(s), cfg, v).Some?
    ensures ReadBinding(Field(s), WriteBinding(Field(s), cfg, v).value) == Some(v)
    ensures t != s ==> Config.Read(WriteBinding(Field(s), cfg, v).value, t) == Config.Read(cfg, t)
  {
    StoreMovesOnlyItsSetting(s, cfg, v);
  }
}
