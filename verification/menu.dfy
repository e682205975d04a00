/** The navigable menu driven by four buttons. A menu is a tree of items;
    the state is the list being shown, the selected index, the first
    visible row, the stack of parent lists, and whether the selected item
    is being edited (with the octet cursor used by IP items). UP and DOWN
    move the selection or change the edited value, RIGHT enters a level,
    starts editing or fires an action, LEFT leaves editing or goes back up
    a level. Item values live in the configuration tree, reached through
    the item's binding. */
module Menu {
  import opened Wrappers
  import opened Json
  import Strings
  import Bindings
  import Buttons
  import Config

  // ---------------------------------------------------------------------
  // Items and state
  // ---------------------------------------------------------------------

  datatype Kind = LabelItem | LevelItem | ActionItem | IntItem | FloatItem | IpItem | ListItem | BoolItem

  /** The kinds whose value can be edited. */
  predicate Editable(k: Kind)
  {
    k.IntItem? || k.FloatItem? || k.BoolItem? || k.ListItem? || k.IpItem?
  }

  /** One menu entry. `children` belong to a level, `action` to an action
      item, the bounds and step to number items, `choices` to list items. */
  datatype Item = Item(
    kind: Kind,
    caption: string,
    children: seq<Item>,
    action: Option<Bindings.ActionId>,
    minVal: Value,
    maxVal: Value,
    step: Value,
    choices: seq<Value>,
    binding: Bindings.Binding)

  /** An item with the constructor's defaults: no children, no action,
      bounds 0..100, step 1, no choices, no binding. */
  function NewItem(kind: Kind, caption: string): (it: Item)
    ensures it.kind == kind && it.caption == caption
    ensures it.minVal == Int(0) && it.maxVal == Int(100) && it.step == Int(1)
    ensures it.children == [] && it.choices == [] && it.action.None? && it.binding.Unbound?
  {
    Item(kind, caption, [], None, Int(0), Int(100), Int(1), [], Bindings.Unbound)
  }

  /** A saved position on the level stack. */
  datatype Level = Level(items: seq<Item>, index: nat, scroll: nat)

  datatype State = State(
    items: seq<Item>,
    index: nat,
    scroll: nat,
    stack: seq<Level>,
    editing: bool,
    editIndex: nat,
    lastPress: int)

  /** Rows on screen at once. */
  const VisibleItems := 5

  /** Characters that fit on one row. */
  const LineWidth := 21

  /** Positions of the octet cursor of an IP item. */
  const Octets := 4

  /** A fresh menu on the root list. */
  function Start(root: seq<Item>): (m: State)
    ensures m.items == root && m.index == 0 && m.scroll == 0 && m.stack == []
    ensures !m.editing && m.editIndex == 0 && m.lastPress == 0
  {
    State(root, 0, 0, [], false, 0, 0)
  }

  /** The selected index lies inside the list and inside the visible
      window. */
  predicate InWindow(index: nat, scroll: nat, n: nat)
  {
    scroll <= index < n && index < scroll + VisibleItems
  }

  /** The invariant every reachable state of a running menu keeps. */
  predicate Valid(m: State)
  {
    InWindow(m.index, m.scroll, |m.items|) &&
    (forall l :: l in m.stack ==> InWindow(l.index, l.scroll, |l.items|)) &&
    (m.editing ==> Editable(m.items[m.index].kind)) &&
    m.editIndex < Octets
  }

  lemma StartIsValid(root: seq<Item>)
    requires |root| > 0
    ensures Valid(Start(root))
  {
  }

  /** `current_items[current_index]`: raises once the list is exhausted
      (the index is never negative). */
  function Current(m: State): (r: Option<Item>)
    ensures r.Some? <==> m.index < |m.items|
    ensures r.Some? ==> r.value == m.items[m.index]
  {
    if m.index < |m.items| then Some(m.items[m.index]) else None
  }

  /** What a button handler returns: the new menu, the new configuration,
      whether anything changed (so the screen is redrawn), and the action
      that fired, if any. */
  datatype Step = Step(state: State, cfg: Value, changed: bool, fired: Option<Bindings.ActionId>)

  // ---------------------------------------------------------------------
  // Value editing
  // ---------------------------------------------------------------------

  /** UP on a number: `min(v + step, max_val)`. It raises unless the
      value, the step and the maximum are all numbers; otherwise the result
      is the value plus the step, clamped to the maximum. */
  function Raise(it: Item, v: Value): (r: Option<Value>)
    ensures r.Some? <==> Number(v).Some? && Number(it.step).Some? && Number(it.maxVal).Some?
    ensures r.Some? ==> Number(r.value).Some?
    ensures r.Some? ==>
              Number(r.value).value ==
              (if Number(v).value + Number(it.step).value <= Number(it.maxVal).value
               then Number(v).value + Number(it.step).value
               else Number(it.maxVal).value)
  {
    match Add(v, it.step)
    case None => None
    case Some(w) => Min(w, it.maxVal)
  }

  /** DOWN on a number: `max(v - step, min_val)`. It raises unless the
      value, the step and the minimum are all numbers; otherwise the result
      is the value minus the step, clamped to the minimum. */
  function Lower(it: Item, v: Value): (r: Option<Value>)
    ensures r.Some? <==> Number(v).Some? && Number(it.step).Some? && Number(it.minVal).Some?
    ensures r.Some? ==> Number(r.value).Some?
    ensures r.Some? ==>
              Number(r.value).value ==
              (if Number(v).value - Number(it.step).value >= Number(it.minVal).value
               then Number(v).value - Number(it.step).value
               else Number(it.minVal).value)
  {
    match Sub(v, it.step)
    case None => None
    case Some(w) => Max(w, it.minVal)
  }

  /** The bounds of a number item as reals. */
  predicate NumericBounds(it: Item, lo: real, hi: real, step: real)
  {
    Number(it.minVal) == Some(lo) && Number(it.maxVal) == Some(hi) && Number(it.step) == Some(step)
  }

  /** UP adds the step but never passes the maximum, `min(v + step, max)`;
      DOWN subtracts it but never passes the minimum, `max(v - step, min)`.
      A value inside the bounds stays inside. */
  lemma RaiseLowerClamp(it: Item, v: Value, lo: real, hi: real, step: real)
    requires NumericBounds(it, lo, hi, step) && Number(v).Some?
    ensures Raise(it, v).Some? && Lower(it, v).Some?
    ensures Number(Raise(it, v).value).value ==
            (if Number(v).value + step <= hi then Number(v).value + step else hi)
    ensures Number(Lower(it, v).value).value ==
            (if Number(v).value - step >= lo then Number(v).value - step else lo)
    ensures Between(v, lo, hi) && step >= 0.0 ==>
            Between(Raise(it, v).value, lo, hi) && Between(Lower(it, v).value, lo, hi)
  {
    var up := Add(v, it.step).value;
    var down := Sub(v, it.step).value;
    assert Number(up) == Some(Number(v).value + step);
    assert Number(down) == Some(Number(v).value - step);
  }

  /** `choices.index(v)`: the first position holding `v`. */
  function IndexOf(xs: seq<Value>, v: Value): (r: Option<nat>)
    ensures r.Some? ==> r.value < |xs| && xs[r.value] == v &&
                        forall j :: 0 <= j < r.value ==> xs[j] != v
    ensures r.None? <==> v !in xs
  {
    if |xs| == 0 then None
    else if xs[0] == v then Some(0)
    else
      match IndexOf(xs[1..], v)
      case None => None
      case Some(i) => Some(i + 1)
  }

  /** A list item moves `delta` places round its choices (UP is -1, DOWN
      is +1); a value not among them is reset to the first choice, or to
      `None` when there are no choices. */
  function Cycle(choices: seq<Value>, v: Value, delta: int): (r: Value)
    ensures v in choices ==> r == choices[(IndexOf(choices, v).value + delta) % |choices|]
    ensures v !in choices ==> r == if |choices| > 0 then choices[0] else Null
  {
    match IndexOf(choices, v)
    case Some(i) => choices[(i + delta) % |choices|]
    case None => if |choices| > 0 then choices[0] else Null
  }

  /** No choice is listed twice. */
  predicate Distinct(xs: seq<Value>)
  {
    forall i, j :: 0 <= i < j < |xs| ==> xs[i] != xs[j]
  }

  /** With distinct choices the position of a choice is where it stands. */
  lemma IndexOfDistinct(xs: seq<Value>, i: nat)
    requires Distinct(xs) && i < |xs|
    ensures IndexOf(xs, xs[i]) == Some(i)
  {
    var j := IndexOf(xs, xs[i]).value;
    assert xs[j] == xs[i];
  }

  /** With distinct choices, UP then DOWN (and DOWN then UP) gives back a
      value that is among the choices. */
  lemma CycleRoundTrip(choices: seq<Value>, v: Value)
    requires Distinct(choices) && v in choices
    ensures Cycle(choices, Cycle(choices, v, -1), 1) == v
    ensures Cycle(choices, Cycle(choices, v, 1), -1) == v
  {
    UpThenDown(choices, v);
    DownThenUp(choices, v);
  }

  lemma UpThenDown(choices: seq<Value>, v: Value)
    requires Distinct(choices) && v in choices
    ensures Cycle(choices, Cycle(choices, v, -1), 1) == v
  {
    var n := |choices|;
    var i := IndexOf(choices, v).value;
    var prev := (i - 1) % n;
    assert Cycle(choices, v, -1) == choices[prev];
    IndexOfDistinct(choices, prev);
    BackThenForward(i, n);
  }

  lemma DownThenUp(choices: seq<Value>, v: Value)
    requires Distinct(choices) && v in choices
    ensures Cycle(choices, Cycle(choices, v, 1), -1) == v
  {
    var n := |choices|;
    var i := IndexOf(choices, v).value;
    var next := (i + 1) % n;
    assert Cycle(choices, v, 1) == choices[next];
    IndexOfDistinct(choices, next);
    ForwardThenBack(i, n);
  }

  /** One step back and one step forward round `n` positions cancel. */
  lemma StepsRoundTrip(i: int, n: int)
    requires 0 <= i < n
    ensures ((i - 1) % n + 1) % n == i
    ensures ((i + 1) % n - 1) % n == i
  {
    BackThenForward(i, n);
    ForwardThenBack(i, n);
  }

  lemma BackThenForward(i: int, n: int)
    requires 0 <= i < n
    ensures ((i - 1) % n + 1) % n == i
  {
    if i == 0 {
      assert (i - 1) % n == n - 1;
      assert n % n == 0;
    } else {
      assert (i - 1) % n == i - 1;
    }
  }

  lemma ForwardThenBack(i: int, n: int)
    requires 0 <= i < n
    ensures ((i + 1) % n - 1) % n == i
  {
    if i == n - 1 {
      assert (i + 1) % n == 0;
      assert (-1) % n == n - 1;
    } else {
      assert (i + 1) % n == i + 1;
    }
  }

  /** The text of each octet, `map(str, octets)`. */
  function ShowAll(os: seq<int>): (r: seq<string>)
    ensures |r| == |os|
    ensures forall i :: 0 <= i < |os| ==> r[i] == Strings.IntToString(os[i])
  {
    if |os| == 0 then [] else [Strings.IntToString(os[0])] + ShowAll(os[1..])
  }

  /** `[int(x) for x in parts]`. */
  function ParseAll(parts: seq<string>): (r: Option<seq<int>>)
    ensures r.Some? <==> forall i :: 0 <= i < |parts| ==> Strings.ParseInt(parts[i]).Some?
    ensures r.Some? ==> |r.value| == |parts| &&
                        forall i :: 0 <= i < |parts| ==> Strings.ParseInt(parts[i]) == Some(r.value[i])
  {
    if |parts| == 0 then Some([])
    else
      match Strings.ParseInt(parts[0])
      case None => None
      case Some(x) =>
        match ParseAll(parts[1..])
        case None => None
        case Some(rest) => Some([x] + rest)
  }

  /** The octets of a dotted address, `[int(x) for x in ip.split('.')]`. */
  function OctetsOf(ip: string): Option<seq<int>>
  {
    ParseAll(Strings.Split(ip, '.'))
  }

  /** `'.'.join(map(str, octets))`. */
  function FormatOctets(os: seq<int>): string
  {
    Strings.Join(ShowAll(os), '.')
  }

  /** Formatting octets and reading them back gives the same octets. */
  lemma OctetsRoundTrip(os: seq<int>)
    requires |os| >= 1
    ensures OctetsOf(FormatOctets(os)) == Some(os)
  {
    var parts := ShowAll(os);
    forall i | 0 <= i < |parts| ensures '.' !in parts[i] {
      var s := parts[i];
      assert forall k :: 0 <= k < |s| ==> s[k] != '.';
    }
    Strings.SplitOfJoin(parts, '.');
    forall i | 0 <= i < |os| ensures Strings.ParseInt(parts[i]) == Some(os[i]) {
      Strings.ParseOfIntToString(os[i]);
    }
    var back := ParseAll(parts).value;
    assert back == os;
  }

  /** UP (`up`) or DOWN on the octet under cursor `k` of an IP address:
      the octet moves by one, clamped to 0..255, and the address is written
      back in dotted form. A non-string value, a non-numeric octet or a
      cursor past the last octet raises. */
  function NudgeOctet(v: Value, k: nat, up: bool): (r: Option<Value>)
    ensures r.Some? ==> v.Str? && r.value.Str?
  {
    match v
    case Str(ip) =>
      (match OctetsOf(ip)
       case None => None
       case Some(os) =>
         if k >= |os| then None
         else
           var o := if up then (if os[k] + 1 < 255 then os[k] + 1 else 255)
                    else (if os[k] - 1 > 0 then os[k] - 1 else 0);
           Some(Str(FormatOctets(os[k := o]))))
    case _ => None
  }

  /** IP editing changes only the octet under the cursor, by one step,
      clamped to 0..255; an octet inside 0..255 stays inside. */
  lemma NudgeOctetChangesOne(ip: string, k: nat, up: bool)
    requires NudgeOctet(Str(ip), k, up).Some?
    ensures var os := OctetsOf(ip).value;
            var after := OctetsOf(NudgeOctet(Str(ip), k, up).value.s);
            k < |os| && after.Some? && |after.value| == |os| &&
            (forall i :: 0 <= i < |os| && i != k ==> after.value[i] == os[i]) &&
            (up ==> after.value[k] == if os[k] + 1 < 255 then os[k] + 1 else 255) &&
            (!up ==> after.value[k] == if os[k] - 1 > 0 then os[k] - 1 else 0) &&
            (0 <= os[k] <= 255 ==> 0 <= after.value[k] <= 255)
  {
    var os := OctetsOf(ip).value;
    var o := if up then (if os[k] + 1 < 255 then os[k] + 1 else 255)
             else (if os[k] - 1 > 0 then os[k] - 1 else 0);
    OctetsRoundTrip(os[k := o]);
  }

  /** The cursor of an IP item steps round its four octets. */
  function MoveCursor(editIndex: int, delta: int): (r: nat)
    ensures r < Octets
  {
    (editIndex + delta) % Octets
  }

  /** RIGHT then LEFT (and LEFT then RIGHT) puts the cursor back; four
      steps the same way go all the way round. */
  lemma CursorRoundTrip(k: nat)
    requires k < Octets
    ensures MoveCursor(MoveCursor(k, 1), -1) == k
    ensures MoveCursor(MoveCursor(k, -1), 1) == k
    ensures MoveCursor(MoveCursor(MoveCursor(MoveCursor(k, 1), 1), 1), 1) == k
  {
  }

  /** The new value UP (`up`) or DOWN gives an edited item, from its
      current value `v`. */
  function EditValue(it: Item, v: Value, editIndex: nat, up: bool): (r: Option<Value>)
    requires Editable(it.kind) && !it.kind.BoolItem?
    ensures it.kind.ListItem? ==> r.Some? && (|it.choices| > 0 ==> r.value in it.choices)
    ensures it.kind.IpItem? && r.Some? ==> v.Str? && r.value.Str?
    ensures (it.kind.IntItem? || it.kind.FloatItem?) ==>
              (r.Some? <==> Number(v).Some? && Number(it.step).Some? &&
                            Number(if up then it.maxVal else it.minVal).Some?)
    ensures (it.kind.IntItem? || it.kind.FloatItem?) && r.Some? ==>
              Number(r.value).Some? &&
              if up then Number(r.value).value <= Number(it.maxVal).value
              else Number(r.value).value >= Number(it.minVal).value
  {
    match it.kind
    case IntItem => if up then Raise(it, v) else Lower(it, v)
    case FloatItem => if up then Raise(it, v) else Lower(it, v)
    case ListItem => Some(Cycle(it.choices, v, if up then -1 else 1))
    case IpItem => NudgeOctet(v, editIndex, up)
  }

  /** UP or DOWN while editing: a boolean is set outright (its value is
      not read); other editable kinds read the value, change it and write
      it back; any other kind changes nothing. */
  function Edit(m: State, cfg: Value, it: Item, up: bool): (r: Option<Step>)
    ensures r.Some? ==> r.value.state == m && r.value.fired.None?
    ensures r.Some? ==> (r.value.changed <==> Editable(it.kind))
    ensures !Editable(it.kind) ==> r == Some(Step(m, cfg, false, None))
  {
    if it.kind.BoolItem? then
      match Bindings.WriteBinding(it.binding, cfg, Bool(up))
      case None => None
      case Some(c) => Some(Step(m, c, true, None))
    else if Editable(it.kind) then
      match Bindings.ReadBinding(it.binding, cfg)
      case None => None
      case Some(v) =>
        match EditValue(it, v, m.editIndex, up)
        case None => None
        case Some(w) =>
          match Bindings.WriteBinding(it.binding, cfg, w)
          case None => None
          case Some(c) => Some(Step(m, c, true, None))
    else Some(Step(m, cfg, false, None))
  }

  // ---------------------------------------------------------------------
  // Button handlers
  // ---------------------------------------------------------------------

  /** `_handle_up`: edit the value upwards, or select the previous row and
      scroll up to keep it visible. */
  function HandleUp(m: State, cfg: Value): (r: Option<Step>)
    ensures r.Some? <==> m.index < |m.items| && (m.editing ==> Edit(m, cfg, m.items[m.index], true).Some?)
    ensures r.Some? ==> r.value.fired.None?
    ensures r.Some? && !m.editing ==> r.value.cfg == cfg && r.value.state.stack == m.stack
    ensures r.Some? && m.editing ==> r.value.state == m
  {
    match Current(m)
    case None => None
    case Some(it) =>
      if m.editing then Edit(m, cfg, it, true)
      else if m.index > 0 then
        var i := m.index - 1;
        Some(Step(m.(index := i, scroll := if i < m.scroll then i else m.scroll), cfg, true, None))
      else Some(Step(m, cfg, false, None))
  }

  /** `_handle_down`: edit the value downwards, or select the next row and
      scroll down to keep it visible. */
  function HandleDown(m: State, cfg: Value): (r: Option<Step>)
    ensures r.Some? <==> m.index < |m.items| && (m.editing ==> Edit(m, cfg, m.items[m.index], false).Some?)
    ensures r.Some? ==> r.value.fired.None?
    ensures r.Some? && !m.editing ==> r.value.cfg == cfg && r.value.state.stack == m.stack
    ensures r.Some? && m.editing ==> r.value.state == m
  {
    match Current(m)
    case None => None
    case Some(it) =>
      if m.editing then Edit(m, cfg, it, false)
      else if m.index < |m.items| - 1 then
        var i := m.index + 1;
        Some(Step(m.(index := i, scroll := if i >= m.scroll + VisibleItems then i - VisibleItems + 1 else m.scroll),
                  cfg, true, None))
      else Some(Step(m, cfg, false, None))
  }

  /** `_handle_left`: move the IP cursor back, leave editing, or return to
      the parent list exactly where it was left. */
  function HandleLeft(m: State, cfg: Value): (r: Option<Step>)
    ensures r.Some? <==> m.index < |m.items|
    ensures r.Some? ==> r.value.cfg == cfg && r.value.fired.None?
    ensures r.Some? && m.editing ==> r.value.state.items == m.items && r.value.state.index == m.index
    ensures r.Some? && !m.editing && |m.stack| > 0 ==> r.value.state.stack == m.stack[..|m.stack| - 1]
  {
    match Current(m)
    case None => None
    case Some(it) =>
      if m.editing then
        if it.kind.IpItem? then Some(Step(m.(editIndex := MoveCursor(m.editIndex, -1)), cfg, true, None))
        else Some(Step(m.(editing := false, editIndex := 0), cfg, true, None))
      else if |m.stack| > 0 then
        var top := m.stack[|m.stack| - 1];
        Some(Step(m.(items := top.items, index := top.index, scroll := top.scroll,
                     stack := m.stack[..|m.stack| - 1]), cfg, true, None))
      else Some(Step(m, cfg, false, None))
  }

  /** `_handle_right`: move the IP cursor on, enter a non-empty level,
      fire an action, or start editing an editable item. */
  function HandleRight(m: State, cfg: Value): (r: Option<Step>)
    ensures r.Some? <==> m.index < |m.items|
    ensures r.Some? ==> r.value.cfg == cfg
    ensures r.Some? && r.value.fired.Some? ==>
              !m.editing && m.items[m.index].kind.ActionItem? && r.value.fired == m.items[m.index].action
    ensures r.Some? && m.editing ==> r.value.state.editing && r.value.state.index == m.index
  {
    match Current(m)
    case None => None
    case Some(it) =>
      if m.editing then
        if it.kind.IpItem? then Some(Step(m.(editIndex := MoveCursor(m.editIndex, 1)), cfg, true, None))
        else Some(Step(m, cfg, false, None))
      else if it.kind.LevelItem? then
        if |it.children| > 0 then
          Some(Step(m.(stack := m.stack + [Level(m.items, m.index, m.scroll)],
                       items := it.children, index := 0, scroll := 0), cfg, true, None))
        else Some(Step(m, cfg, false, None))
      else if it.kind.ActionItem? then Some(Step(m, cfg, true, it.action))
      else if Editable(it.kind) then Some(Step(m.(editing := true, editIndex := 0), cfg, true, None))
      else Some(Step(m, cfg, false, None))
  }

  /** `handle_input`: poll the buttons in order and run the handler of the
      first accepted press. */
  function HandleInput(m: State, cfg: Value, clk: Buttons.Clock, ls: Buttons.Levels): (r: Option<Step>)
    ensures Buttons.Bouncing(clk) ==> r == Some(Step(m, cfg, false, None))
  {
    var (pressed, last) := Buttons.Poll(m.lastPress, clk, ls);
    var m1 := m.(lastPress := last);
    match pressed
    case None => Some(Step(m1, cfg, false, None))
    case Some(b) =>
      match b
      case Up => HandleUp(m1, cfg)
      case Down => HandleDown(m1, cfg)
      case Left => HandleLeft(m1, cfg)
      case Right => HandleRight(m1, cfg)
  }

  /** `run` stops once the top level has been emptied. */
  predicate Exited(m: State)
  {
    |m.stack| == 0 && |m.items| == 0
  }

  // ---------------------------------------------------------------------
  // Properties of the handlers
  // ---------------------------------------------------------------------

  /** The handler of one button. */
  function Dispatch(b: Buttons.Button, m: State, cfg: Value): (r: Option<Step>)
    ensures r.Some? ==> m.index < |m.items|
    ensures r.Some? && r.value.fired.Some? ==> b == Buttons.Right
    ensures b != Buttons.Up && b != Buttons.Down && r.Some? ==> r.value.cfg == cfg
  {
    match b
    case Up => HandleUp(m, cfg)
    case Down => HandleDown(m, cfg)
    case Left => HandleLeft(m, cfg)
    case Right => HandleRight(m, cfg)
  }

  /** Every handler keeps the selection inside its list and its visible
      window, keeps every saved level valid, edits only editable items and
      keeps the IP cursor on one of the four octets. */
  lemma HandlersKeepValid(b: Buttons.Button, m: State, cfg: Value)
    requires Valid(m) && Dispatch(b, m, cfg).Some?
    ensures Valid(Dispatch(b, m, cfg).value.state)
  {
    match b
    case Up => UpKeepsValid(m, cfg);
    case Down => DownKeepsValid(m, cfg);
    case Left => LeftKeepsValid(m, cfg);
    case Right => RightKeepsValid(m, cfg);
  }

  lemma UpKeepsValid(m: State, cfg: Value)
    requires Valid(m) && HandleUp(m, cfg).Some?
    ensures Valid(HandleUp(m, cfg).value.state)
  {
  }

  lemma DownKeepsValid(m: State, cfg: Value)
    requires Valid(m) && HandleDown(m, cfg).Some?
    ensures Valid(HandleDown(m, cfg).value.state)
  {
  }

  lemma LeftKeepsValid(m: State, cfg: Value)
    requires Valid(m) && HandleLeft(m, cfg).Some?
    ensures Valid(HandleLeft(m, cfg).value.state)
  {
    if !m.editing && |m.stack| > 0 {
      assert m.stack[|m.stack| - 1] in m.stack;
      forall l | l in m.stack[..|m.stack| - 1] ensures InWindow(l.index, l.scroll, |l.items|) {
        assert l in m.stack;
      }
    }
  }

  lemma RightKeepsValid(m: State, cfg: Value)
    requires Valid(m) && HandleRight(m, cfg).Some?
    ensures Valid(HandleRight(m, cfg).value.state)
  {
    var it := m.items[m.index];
    if !m.editing && it.kind.LevelItem? && |it.children| > 0 {
      var pushed := m.stack + [Level(m.items, m.index, m.scroll)];
      forall l | l in pushed ensures InWindow(l.index, l.scroll, |l.items|) {
        assert l in m.stack || l == Level(m.items, m.index, m.scroll);
      }
    }
  }

  /** `handle_input` keeps the menu valid. */
  lemma InputKeepsValid(m: State, cfg: Value, clk: Buttons.Clock, ls: Buttons.Levels)
    requires Valid(m) && HandleInput(m, cfg, clk, ls).Some?
    ensures Valid(HandleInput(m, cfg, clk, ls).value.state)
  {
    var (pressed, last) := Buttons.Poll(m.lastPress, clk, ls);
    if pressed.Some? {
      HandlersKeepValid(pressed.value, m.(lastPress := last), cfg);
    }
  }

  /** In navigation, UP selects the previous row unless the first is
      selected and DOWN the next unless the last is; the index moves by at
      most one, nothing else but the scroll offset changes, and the screen
      is redrawn exactly when the index moved. */
  lemma NavigationMovesByOne(m: State, cfg: Value)
    requires Valid(m) && !m.editing
    ensures var up := HandleUp(m, cfg);
            up.Some? && up.value.cfg == cfg && up.value.fired.None? &&
            up.value.state.index == (if m.index > 0 then m.index - 1 else 0) &&
            up.value.state == m.(index := up.value.state.index, scroll := up.value.state.scroll) &&
            (up.value.changed <==> m.index > 0)
    ensures var down := HandleDown(m, cfg);
            down.Some? && down.value.cfg == cfg && down.value.fired.None? &&
            down.value.state.index == (if m.index < |m.items| - 1 then m.index + 1 else |m.items| - 1) &&
            down.value.state == m.(index := down.value.state.index, scroll := down.value.state.scroll) &&
            (down.value.changed <==> m.index < |m.items| - 1)
  {
  }

  /** RIGHT on a non-empty level saves the current position and opens the
      level at its first row; LEFT then returns to exactly the state
      before. */
  lemma EnterThenLeaveLevel(m: State, cfg: Value)
    requires Valid(m) && !m.editing
    requires m.items[m.index].kind.LevelItem? && |m.items[m.index].children| > 0
    ensures var r := HandleRight(m, cfg);
            r.Some? && r.value.cfg == cfg && r.value.changed &&
            r.value.state.items == m.items[m.index].children &&
            r.value.state.index == 0 && r.value.state.scroll == 0 &&
            r.value.state.stack == m.stack + [Level(m.items, m.index, m.scroll)] &&
            HandleLeft(r.value.state, r.value.cfg) == Some(Step(m, cfg, true, None))
  {
    var inner := HandleRight(m, cfg).value.state;
    assert inner.stack[..|inner.stack| - 1] == m.stack;
  }

  /** RIGHT on an editable item starts editing at the first octet; for any
      kind but IP, LEFT then stops editing and gives back the state before
      (the cursor reset to the first octet). */
  lemma EnterThenLeaveEdit(m: State, cfg: Value)
    requires Valid(m) && !m.editing && Editable(m.items[m.index].kind)
    ensures HandleRight(m, cfg) == Some(Step(m.(editing := true, editIndex := 0), cfg, true, None))
    ensures !m.items[m.index].kind.IpItem? ==>
            HandleLeft(m.(editing := true, editIndex := 0), cfg) == Some(Step(m.(editIndex := 0), cfg, true, None))
  {
  }

  /** While an IP item is edited, LEFT and RIGHT only move the cursor round
      the four octets, and UP and DOWN only change the value: no button
      leaves editing. */
  lemma IpEditingNeverEnds(b: Buttons.Button, m: State, cfg: Value)
    requires Valid(m) && m.editing && m.items[m.index].kind.IpItem?
    requires Dispatch(b, m, cfg).Some?
    ensures Dispatch(b, m, cfg).value.state.editing
    ensures b == Buttons.Left ==> Dispatch(b, m, cfg).value.state == m.(editIndex := MoveCursor(m.editIndex, -1))
    ensures b == Buttons.Right ==> Dispatch(b, m, cfg).value.state == m.(editIndex := MoveCursor(m.editIndex, 1))
  {
  }

  /** RIGHT on an action item fires its action and changes nothing else. */
  lemma ActionFires(m: State, cfg: Value)
    requires Valid(m) && !m.editing && m.items[m.index].kind.ActionItem?
    ensures HandleRight(m, cfg) == Some(Step(m, cfg, true, m.items[m.index].action))
  {
  }

  /** A field whose setting can be read can be written, and reads back
      what was written. */
  lemma FieldWriteLands(cfg: Value, s: Config.Setting, w: Value)
    requires Config.Lookup(cfg, Config.SettingKeys(s)).Some?
    ensures Bindings.WriteBinding(Bindings.Field(s), cfg, w).Some?
    ensures Bindings.ReadBinding(Bindings.Field(s), Bindings.WriteBinding(Bindings.Field(s), cfg, w).value) == Some(w)
  {
    Config.SectionWritable(cfg, s, s, w);
    Bindings.FieldRoundTrip(s, cfg, w, s);
  }

  /** Editing a stored setting: UP or DOWN writes the edited value back,
      and reading the item afterwards gives the new value, a boolean
      becoming true on UP and false on DOWN. */
  lemma EditWritesSetting(m: State, cfg: Value, up: bool)
    requires Valid(m) && m.editing
    requires m.items[m.index].binding.Field?
    requires Config.Lookup(cfg, Config.SettingKeys(m.items[m.index].binding.setting)).Some?
    ensures var it := m.items[m.index];
            var r := if up then HandleUp(m, cfg) else HandleDown(m, cfg);
            var before := Bindings.ReadBinding(it.binding, cfg).value;
            (it.kind.BoolItem? ==> r.Some? && Bindings.ReadBinding(it.binding, r.value.cfg) == Some(Bool(up))) &&
            (!it.kind.BoolItem? && EditValue(it, before, m.editIndex, up).Some? ==>
               r.Some? && Bindings.ReadBinding(it.binding, r.value.cfg) == EditValue(it, before, m.editIndex, up))
  {
    var it := m.items[m.index];
    var s := it.binding.setting;
    var before := Bindings.ReadBinding(it.binding, cfg).value;
    assert Current(m) == Some(it);
    if it.kind.BoolItem? {
      FieldWriteLands(cfg, s, Bool(up));
    } else if EditValue(it, before, m.editIndex, up).Some? {
      FieldWriteLands(cfg, s, EditValue(it, before, m.editIndex, up).value);
    }
  }

  // ---------------------------------------------------------------------
  // Rendering
  // ---------------------------------------------------------------------

  /** The first character of row `i`: `*` on the row being edited (IP
      items keep `>` and highlight the octet instead), `>` on the selected
      row, a space elsewhere. */
  function Marker(m: State, i: nat): char
    requires i < |m.items|
  {
    if i != m.index then ' '
    else if m.editing && !m.items[i].kind.IpItem? then '*'
    else '>'
  }

  /** The text of row `i` with value text `suffix`, before truncation:
      the selection prefix, the caption, the value, and the editing star
      written over the prefix. */
  function RowText(m: State, i: nat, suffix: string): (text: string)
    requires i < |m.items|
    ensures text == [Marker(m, i)] + m.items[i].caption + suffix
  {
    var it := m.items[i];
    var text := [if i == m.index then '>' else ' '] + it.caption + suffix;
    if m.editing && i == m.index && !it.kind.IpItem? then "*" + text[1..] else text
  }

  /** A row cut to the width of the screen. */
  function Truncate(s: string): (r: string)
    ensures |r| == if |s| > LineWidth then LineWidth else |s|
    ensures r == s[..|r|]
  {
    if |s| > LineWidth then s[..LineWidth] else s
  }

  /** The pieces of an address with the one under the cursor put in
      brackets, as `render` highlights the octet being edited. */
  function Highlight(pieces: seq<string>, k: nat): (r: seq<string>)
    requires k < |pieces|
    ensures |r| == |pieces|
  {
    pieces[k := "[" + pieces[k] + "]"]
  }

  /** `f"{val:.2f}"` raises on anything but a number; the highlighted
      address raises on a value that is not a string (`val.split`) and on
      one with no piece at the cursor (`octets[edit_index]`). Otherwise the
      value is written by `show`, or with its octet in brackets. */
  function FormatValue(it: Item, v: Value, highlighted: bool, cursor: nat, show: (Item, Value) -> string): (r: Option<string>)
    ensures r.None? <==>
              (it.kind.FloatItem? && Number(v).None?) ||
              (it.kind.IpItem? && highlighted && (!v.Str? || cursor >= |Strings.Split(v.s, '.')|))
  {
    if it.kind.FloatItem? && Number(v).None? then None
    else if it.kind.IpItem? && highlighted then
      match v
      case Str(ip) =>
        var pieces := Strings.Split(ip, '.');
        if cursor < |pieces| then Some(Strings.Join(Highlight(pieces, cursor), '.')) else None
      case _ => None
    else Some(show(it, v))
  }

  /** The highlighted address still splits into the address's pieces:
      the one under the cursor is wrapped in brackets and the others are
      unchanged, so the edited octet is the only one marked. */
  lemma HighlightMarksCursor(ip: string, k: nat)
    requires k < |Strings.Split(ip, '.')|
    ensures var pieces := Strings.Split(ip, '.');
            var shown := Strings.Split(Strings.Join(Highlight(pieces, k), '.'), '.');
            |shown| == |pieces| && shown[k] == "[" + pieces[k] + "]" &&
            forall j :: 0 <= j < |pieces| && j != k ==> shown[j] == pieces[j]
  {
    var pieces := Strings.Split(ip, '.');
    var marked := Highlight(pieces, k);
    forall j | 0 <= j < |marked| ensures '.' !in marked[j] {
      if j == k {
        assert marked[j] == "[" + pieces[k] + "]";
        assert '.' !in pieces[k];
      }
    }
    Strings.SplitOfJoin(marked, '.');
  }

  /** The value text after the caption: ` >` for a level, `: ON` or
      `: OFF` for a boolean, `: ` and the formatted value for numbers,
      lists and addresses, nothing for labels and actions. How a value is
      written by `str` or with two decimals is `show`; `highlighted` says
      whether the row is the IP item being edited, and `cursor` is the
      octet under the cursor. Reading and formatting the value can raise. */
  function Suffix(it: Item, cfg: Value, highlighted: bool, cursor: nat, show: (Item, Value) -> string): (r: Option<string>)
    ensures it.kind.LevelItem? ==> r == Some(" >")
    ensures it.kind.LabelItem? || it.kind.ActionItem? ==> r == Some("")
    ensures !(it.kind.LevelItem? || it.kind.LabelItem? || it.kind.ActionItem?) ==>
              (r.None? <==> Bindings.ReadBinding(it.binding, cfg).None? ||
                            FormatValue(it, Bindings.ReadBinding(it.binding, cfg).value, highlighted, cursor, show).None?)
  {
    match it.kind
    case LevelItem => Some(" >")
    case LabelItem => Some("")
    case ActionItem => Some("")
    case BoolItem =>
      (match Bindings.ReadBinding(it.binding, cfg)
       case None => None
       case Some(v) => Some(if Truthy(v) then ": ON" else ": OFF"))
    case _ =>
      match Bindings.ReadBinding(it.binding, cfg)
      case None => None
      case Some(v) =>
        match FormatValue(it, v, highlighted, cursor, show)
        case None => None
        case Some(text) => Some(": " + text)
  }

  /** The value text of row `i`. */
  function RowSuffix(m: State, cfg: Value, i: nat, show: (Item, Value) -> string): Option<string>
    requires i < |m.items|
  {
    Suffix(m.items[i], cfg, m.editing && i == m.index, m.editIndex, show)
  }

  /** The rows drawn for the list positions from `i` up to `end`. */
  function Rows(m: State, cfg: Value, i: nat, end: nat, show: (Item, Value) -> string): (r: Option<seq<string>>)
    requires end <= |m.items|
    ensures r.Some? ==> |r.value| == (if i < end then end - i else 0)
    ensures r.Some? ==> forall j :: 0 <= j < |r.value| ==>
              1 <= |r.value[j]| <= LineWidth && r.value[j][0] == Marker(m, i + j)
    decreases end - i
  {
    if i >= end then Some([])
    else
      match RowSuffix(m, cfg, i, show)
      case None => None
      case Some(sfx) =>
        var row := Truncate(RowText(m, i, sfx));
        RowShape(m, i, sfx);
        match Rows(m, cfg, i + 1, end, show)
        case None => None
        case Some(rest) =>
          PrependRow(m, i, row, rest);
          Some([row] + rest)
  }

  /** Drawing raises exactly when the value text of some row drawn
      raises: every row whose value reads and formats is drawn. */
  lemma {:induction false} RowsRaiseIff(m: State, cfg: Value, i: nat, end: nat, show: (Item, Value) -> string)
    requires end <= |m.items|
    ensures Rows(m, cfg, i, end, show).None? <==> exists j :: i <= j < end && RowSuffix(m, cfg, j, show).None?
    decreases end - i
  {
    if i < end {
      RowsRaiseIff(m, cfg, i + 1, end, show);
      if RowSuffix(m, cfg, i, show).Some? {
        assert Rows(m, cfg, i, end, show).None? <==> Rows(m, cfg, i + 1, end, show).None?;
        if Rows(m, cfg, i, end, show).Some? {
          forall j | i <= j < end ensures RowSuffix(m, cfg, j, show).Some? {
            if j > i {
              assert i + 1 <= j < end;
            }
          }
        }
      }
    }
  }

  /** The rows from `i + 1` on, with the row for `i` put in front, are
      the rows from `i` on. */
  lemma PrependRow(m: State, i: nat, row: string, rest: seq<string>)
    requires i + 1 + |rest| <= |m.items|
    requires 1 <= |row| <= LineWidth && row[0] == Marker(m, i)
    requires forall j :: 0 <= j < |rest| ==> 1 <= |rest[j]| <= LineWidth && rest[j][0] == Marker(m, i + 1 + j)
    ensures forall j :: 0 <= j < |[row] + rest| ==>
              1 <= |([row] + rest)[j]| <= LineWidth && ([row] + rest)[j][0] == Marker(m, i + j)
  {
    forall j | 0 <= j < |[row] + rest|
      ensures 1 <= |([row] + rest)[j]| <= LineWidth && ([row] + rest)[j][0] == Marker(m, i + j)
    {
      if j > 0 {
        assert ([row] + rest)[j] == rest[j - 1];
      }
    }
  }

  /** A drawn row is never empty, never wider than the screen, and starts
      with its marker. */
  lemma RowShape(m: State, i: nat, sfx: string)
    requires i < |m.items|
    ensures var row := Truncate(RowText(m, i, sfx));
            1 <= |row| <= LineWidth && row[0] == Marker(m, i)
  {
    var text := RowText(m, i, sfx);
    assert text[0] == Marker(m, i);
  }

  /** `render`: the rows of the visible window, at most five, starting at
      the scroll offset. */
  function Render(m: State, cfg: Value, show: (Item, Value) -> string): (r: Option<seq<string>>)
    ensures r.Some? ==> |r.value| <= VisibleItems
  {
    var end := if m.scroll + VisibleItems < |m.items| then m.scroll + VisibleItems else |m.items|;
    Rows(m, cfg, m.scroll, end, show)
  }

  /** In a valid menu the selected row is on screen, marked `>` (or `*`
      while editing anything but an address), every other row starts with
      a space, and no row is wider than the screen. */
  lemma RenderShowsSelection(m: State, cfg: Value, show: (Item, Value) -> string)
    requires Valid(m) && Render(m, cfg, show).Some?
    ensures var rows := Render(m, cfg, show).value;
            var sel := m.index - m.scroll;
            0 <= sel < |rows| &&
            rows[sel][0] == (if m.editing && !m.items[m.index].kind.IpItem? then '*' else '>') &&
            (forall j :: 0 <= j < |rows| && j != sel ==> rows[j][0] == ' ') &&
            (forall j :: 0 <= j < |rows| ==> |rows[j]| <= LineWidth)
  {
  }

  /** Nothing is drawn once the list has been emptied on exit. */
  lemma RenderAfterExit(m: State, cfg: Value, show: (Item, Value) -> string)
    requires |m.items| == 0
    ensures Render(m, cfg, show) == Some([])
  {
  }
}
