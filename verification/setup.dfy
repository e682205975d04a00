/** The setup screen: the menu tree of every editable setting, with the
    bounds and choices each item carries, and the two exit actions. The
    screen runs the menu until an exit action empties the top-level list.
    Saving the configuration file and drawing are outside the model: the
    save is recorded as requested, and drawing only matters through the
    values it reads, which can raise. */
module Setup {
  import opened Wrappers
  import opened Json
  import Config
  import Bindings
  import Buttons
  import Menu

  // ---------------------------------------------------------------------
  // The menu tree
  // ---------------------------------------------------------------------

  function Field(kind: Menu.Kind, caption: string, s: Config.Setting): Menu.Item
  {
    Menu.NewItem(kind, caption).(binding := Bindings.Field(s))
  }

  function NumberItem(kind: Menu.Kind, caption: string, s: Config.Setting, lo: Value, hi: Value, step: Value): Menu.Item
  {
    Field(kind, caption, s).(minVal := lo, maxVal := hi, step := step)
  }

  function ActionItem(caption: string, a: Bindings.ActionId): Menu.Item
  {
    Menu.NewItem(Menu.ActionItem, caption).(action := Some(a))
  }

  function LevelItem(caption: string, children: seq<Menu.Item>): Menu.Item
  {
    Menu.NewItem(Menu.LevelItem, caption).(children := children)
  }

  const ModeChoices: seq<Value> := [Str("Off"), Str("AP"), Str("STA"), Str("BOTH")]
  const ReadingChoices: seq<Value> := [Str("OnShoot"), Str("Continue")]

  /** The Wi-Fi level; the SSID choices are the known names at the time
      the tree is built, and building it raises when they cannot be
      listed. */
  function WifiItems(ssids: seq<Value>): seq<Menu.Item>
  {
    [ Field(Menu.ListItem, "Mode", Config.WifiMode).(choices := ModeChoices),
      Menu.NewItem(Menu.ListItem, "SSID").(choices := ssids, binding := Bindings.SelectedNetwork) ]
  }

  function RefreshItem(): Menu.Item
  {
    NumberItem(Menu.IntItem, "Refresh", Config.RefreshRate, Int(50), Int(1000), Int(50))
  }

  function TargetItem(): Menu.Item
  {
    NumberItem(Menu.IntItem, "Target", Config.ThermostatTarget, Int(0), Int(150), Int(1))
  }

  function GainItem(caption: string, s: Config.Setting): Menu.Item
  {
    NumberItem(Menu.FloatItem, caption, s, Float(0.0), Float(10.0), Float(0.1))
  }

  function PreferencesItems(): seq<Menu.Item>
  {
    [ Field(Menu.BoolItem, "Laser", Config.LaserEnabled),
      Field(Menu.BoolItem, "BigNum", Config.BignumEnabled),
      Field(Menu.ListItem, "Reading", Config.ReadingMode).(choices := ReadingChoices),
      RefreshItem() ]
  }

  function ThermostatItems(): seq<Menu.Item>
  {
    [ Field(Menu.BoolItem, "Active", Config.ThermostatActive),
      TargetItem(),
      GainItem("P", Config.ThermostatP),
      GainItem("I", Config.ThermostatI),
      GainItem("D", Config.ThermostatD),
      ActionItem("Auto tune PID", Bindings.Autotune) ]
  }

  function TapoItems(): seq<Menu.Item>
  {
    [ Field(Menu.BoolItem, "Enable", Config.TapoEnabled),
      Field(Menu.IpItem, "IP", Config.TapoIp) ]
  }

  /** `_build_menu_tree`. */
  function BuildTree(cfg: Value): (r: Option<seq<Menu.Item>>)
    ensures r.Some? <==> Bindings.KnownSsids(cfg).Some?
    ensures r.Some? ==> |r.value| == 7
  {
    match Bindings.KnownSsids(cfg)
    case None => None
    case Some(ssids) =>
      Some([ LevelItem("Wifi", WifiItems(ssids)),
             LevelItem("Preferences", PreferencesItems()),
             LevelItem("Thermostat", ThermostatItems()),
             LevelItem("Tapo", TapoItems()),
             Menu.NewItem(Menu.LabelItem, "---"),
             ActionItem("Save and Exit", Bindings.SaveAndExit),
             ActionItem("Exit", Bindings.ExitWithoutSave) ])
  }

  /** The number items of the tree. */
  function NumberItems(): seq<Menu.Item>
  {
    [ RefreshItem(), TargetItem(),
      GainItem("P", Config.ThermostatP), GainItem("I", Config.ThermostatI), GainItem("D", Config.ThermostatD) ]
  }

  /** The tree's shape: four non-empty levels, a separator and the two
      exit actions at the top; every number item of the levels is one of
      `NumberItems`. */
  lemma TreeShape(cfg: Value)
    requires BuildTree(cfg).Some?
    ensures var root := BuildTree(cfg).value;
            (forall i :: 0 <= i < 4 ==> root[i].kind.LevelItem? && |root[i].children| > 0) &&
            root[4].kind.LabelItem? &&
            root[5].action == Some(Bindings.SaveAndExit) && root[6].action == Some(Bindings.ExitWithoutSave) &&
            |root[0].children| == 2 && root[0].children[1].binding.SelectedNetwork? &&
            root[0].children[1].choices == Bindings.KnownSsids(cfg).value &&
            (forall i, j :: (0 <= i < 4 && 0 <= j < |root[i].children| &&
                             (root[i].children[j].kind.IntItem? || root[i].children[j].kind.FloatItem?)) ==>
                            root[i].children[j] in NumberItems())
  {
    var root := BuildTree(cfg).value;
    assert root[0].children == WifiItems(Bindings.KnownSsids(cfg).value);
    assert root[1].children == PreferencesItems();
    assert root[2].children == ThermostatItems();
    assert root[3].children == TapoItems();
  }

  /** The bounds of the number items: Refresh 50..1000 by 50, Target
      0..150 by 1, and the gains P, I and D 0.0..10.0 by 0.1. */
  predicate BoundsOf(it: Menu.Item, lo: real, hi: real, step: real)
  {
    (it == RefreshItem() && lo == 50.0 && hi == 1000.0 && step == 50.0) ||
    (it == TargetItem() && lo == 0.0 && hi == 150.0 && step == 1.0) ||
    (it.kind.FloatItem? && lo == 0.0 && hi == 10.0 && step == 1.0 / 10.0)
  }

  /** Every number item carries the bounds above, and editing it keeps a
      value that starts inside its bounds inside them. */
  lemma NumberItemsKeepRange(it: Menu.Item, v: Value, k: nat, up: bool, lo: real, hi: real, step: real)
    requires it in NumberItems() && BoundsOf(it, lo, hi, step)
    requires Between(v, lo, hi)
    ensures Menu.NumericBounds(it, lo, hi, step)
    ensures Menu.EditValue(it, v, k, up).Some? && Between(Menu.EditValue(it, v, k, up).value, lo, hi)
  {
    Menu.RaiseLowerClamp(it, v, lo, hi, step);
  }

  // ---------------------------------------------------------------------
  // Running the screen
  // ---------------------------------------------------------------------

  datatype State = State(menu: Menu.State, cfg: Value, exitRequested: bool, saveRequested: bool)

  /** The screen before the first button: the tree built from the current
      configuration, the first row selected. */
  function Start(cfg: Value): (r: Option<State>)
    ensures r.Some? ==> Menu.Valid(r.value.menu) && r.value.cfg == cfg && !r.value.exitRequested
  {
    match BuildTree(cfg)
    case None => None
    case Some(root) => Some(State(Menu.Start(root), cfg, false, false))
  }

  /** The effect of an action callback. Both exit actions request the exit
      and empty the shown list, which ends the menu loop; saving and
      exiting also asks for the file to be written. Auto-tune calls back
      into the application and changes nothing here. */
  function RunAction(s: State, a: Bindings.ActionId): (r: State)
    ensures a.Autotune? ==> r == s
    ensures !a.Autotune? ==> r.exitRequested && r.menu.items == [] && r.cfg == s.cfg &&
                             r.menu == s.menu.(items := [])
    ensures r.saveRequested <==> s.saveRequested || a.SaveAndExit?
  {
    match a
    case Autotune => s
    case SaveAndExit => s.(menu := s.menu.(items := []), exitRequested := true, saveRequested := true)
    case ExitWithoutSave => s.(menu := s.menu.(items := []), exitRequested := true)
  }

  /** One poll of the buttons: the menu's handler, then the fired action.
      Also answers whether the screen must be redrawn. It raises exactly
      when the handler does; a poll inside the debounce window changes
      nothing; the action never touches the configuration; and only a
      fired exit action requests the exit. */
  function Press(s: State, clk: Buttons.Clock, ls: Buttons.Levels): (r: Option<(State, bool)>)
    ensures r.None? <==> Menu.HandleInput(s.menu, s.cfg, clk, ls).None?
    ensures Buttons.Bouncing(clk) ==> r == Some((s, false))
    ensures r.Some? ==> r.value.0.cfg == Menu.HandleInput(s.menu, s.cfg, clk, ls).value.cfg &&
                        r.value.1 == Menu.HandleInput(s.menu, s.cfg, clk, ls).value.changed
    ensures r.Some? && r.value.0.exitRequested && !s.exitRequested ==>
              var fired := Menu.HandleInput(s.menu, s.cfg, clk, ls).value.fired;
              fired.Some? && !fired.value.Autotune?
  {
    match Menu.HandleInput(s.menu, s.cfg, clk, ls)
    case None => None
    case Some(st) =>
      var s1 := s.(menu := st.state, cfg := st.cfg);
      match st.fired
      case None => Some((s1, st.changed))
      case Some(a) => Some((RunAction(s1, a), st.changed))
  }

  /** One poll of the four buttons. */
  datatype Poll = Poll(clock: Buttons.Clock, levels: Buttons.Levels)

  /** The loop of `Menu.run` over a run of polls: handle the buttons,
      redraw after a change, and stop as soon as the top level has been
      emptied. Answers the final state and the number of polls used; `None`
      when a handler or a redraw raises. */
  function RunMenu(s: State, polls: seq<Poll>, show: (Menu.Item, Value) -> string): (r: Option<(State, nat)>)
    ensures r.Some? ==> r.value.1 <= |polls|
    ensures r.Some? && r.value.1 < |polls| ==> Menu.Exited(r.value.0.menu)
    decreases |polls|
  {
    if |polls| == 0 then Some((s, 0))
    else
      match Press(s, polls[0].clock, polls[0].levels)
      case None => None
      case Some((s1, changed)) =>
        if changed && Menu.Render(s1.menu, s1.cfg, show).None? then None
        else if Menu.Exited(s1.menu) then Some((s1, 1))
        else
          match RunMenu(s1, polls[1..], show)
          case None => None
          case Some((f, k)) => Some((f, k + 1))
  }

  /** `Menu.run` as a whole: the screen is drawn once before the first
      poll, so a start state that cannot be drawn raises at once; after
      that the loop runs as above. */
  function MenuRun(s: State, polls: seq<Poll>, show: (Menu.Item, Value) -> string): (r: Option<(State, nat)>)
    ensures Menu.Render(s.menu, s.cfg, show).None? ==> r.None?
    ensures r.Some? ==> r.value.1 <= |polls|
    ensures r.Some? && r.value.1 < |polls| ==> Menu.Exited(r.value.0.menu)
  {
    if Menu.Render(s.menu, s.cfg, show).None? then None
    else RunMenu(s, polls, show)
  }

  /** A poll whose RIGHT read is outside the debounce window and in which
      RIGHT is the only button held down. */
  predicate PressesRight(p: Poll)
  {
    p.clock.right.elapsed >= Buttons.DebounceMs &&
    p.levels.up != Buttons.PressedLevel && p.levels.down != Buttons.PressedLevel &&
    p.levels.left != Buttons.PressedLevel && p.levels.right == Buttons.PressedLevel
  }

  /** RIGHT on either exit action at the top level requests the exit and
      satisfies the loop's exit test, so the loop ends on that poll. */
  lemma ExitActionEndsLoop(s: State, polls: seq<Poll>, show: (Menu.Item, Value) -> string)
    requires Menu.Valid(s.menu) && !s.menu.editing && s.menu.stack == []
    requires s.menu.items[s.menu.index].kind.ActionItem?
    requires s.menu.items[s.menu.index].action in {Some(Bindings.SaveAndExit), Some(Bindings.ExitWithoutSave)}
    requires |polls| > 0 && PressesRight(polls[0])
    ensures var r := RunMenu(s, polls, show);
            r.Some? && r.value.1 == 1 && r.value.0.exitRequested && Menu.Exited(r.value.0.menu) &&
            r.value.0.cfg == s.cfg &&
            (r.value.0.saveRequested <==> s.saveRequested || s.menu.items[s.menu.index].action == Some(Bindings.SaveAndExit))
  {
    var p := polls[0];
    assert Buttons.Poll(s.menu.lastPress, p.clock, p.levels).0 == Some(Buttons.Right);
    var m1 := s.menu.(lastPress := p.clock.right.now);
    Menu.ActionFires(m1, s.cfg);
    Menu.RenderAfterExit(m1.(items := []), s.cfg, show);
  }

  /** The menu loop only ends through an exit action: a press that leaves
      a valid menu without a list to show has requested the exit. */
  lemma OnlyExitActionsEndLoop(s: State, clk: Buttons.Clock, ls: Buttons.Levels)
    requires Menu.Valid(s.menu)
    requires Press(s, clk, ls).Some?
    requires Menu.Exited(Press(s, clk, ls).value.0.menu)
    ensures Press(s, clk, ls).value.0.exitRequested
  {
    var st := Menu.HandleInput(s.menu, s.cfg, clk, ls).value;
    Menu.InputKeepsValid(s.menu, s.cfg, clk, ls);
    assert |st.state.items| > 0;
  }
}
