# SmartThermo core in Dafny

A model of the core of SmartThermo, the MicroPython firmware of an infrared
thermometer and thermostat. It covers the pure, sequential parts of the
firmware and proves properties of each:

- **PID engine** (`pid.dfy`): one `update` step over exact reals. It has a
  guard on the step length, an integral clamped to [-100, 100] and an
  output clamped to [0, 100]. It also models `reset`, `set_tunings` and
  `set_setpoint`.
- **Dotted-path configuration store** (`config.dfy`): `get` and `set` over
  a nested JSON tree. Also the property accessors with their fallback
  defaults, and the default tree.
- **Menu state machine** (`menu.dfy`, `buttons.dfy`): the item list, index,
  scroll offset, level stack, editing flag and octet cursor. These are
  driven by four debounced buttons. It covers clamped number editing,
  cyclic list editing, per-octet IP editing, and the visible window of
  `render`.
- **Setup screen bindings** (`bindings.dfy`, `setup.dfy`): the known
  network names, and reading and selecting the current network. Also the
  bounds of every number item and the two exit actions.
- **Web server logic** (`web_server.dfy`): request-line and body
  splitting, exact-match routing, and response formatting. Also the
  configuration updates of `/api/target`, `/api/config` and
  `/api/wifi/save`.
- **MLX90614 decoding** (`mlx90614.dfy`): a three-byte register read
  becomes a temperature in exact hundredths of a degree Celsius.
- **Main loop** (`app.dfy`): one pass of `ThermoApp.run` as a transition.
  It covers the Continue due check, the OnShoot trigger, the laser decision
  and the thermostat hook. Then the loop over many passes, the
  safe-off cleanup, and where an interrupt can arrive.

Shared support:

- `wrappers.dfy`: an `Option`. A Python exception that the code lets
  escape is `None`.
- `json.dfy`: JSON values, Python truthiness, and the numeric `+`, `-`,
  `min` and `max`.
- `strings.dfy`: `split`, `join`, `find`, `str`/`int` on integers, and the
  UTF-8 length.

Things outside the code are parameters:

- the decoded JSON document of a request;
- what the I2C bus answers for a register;
- the milliseconds elapsed between two ticks;
- the button levels;
- the configuration after the web requests of a pass.

Two behaviours of the code stand out in the proofs:

- **IP editing never ends.** While an address is being edited, LEFT and
  RIGHT only move the octet cursor, and UP and DOWN only change the
  value. No button ever leaves editing (`Menu.IpEditingNeverEnds`).
- **`calibration.enabled` disagrees with itself.** The default tree
  stores `true`, but the property falls back to `false` when the key is
  absent. Every other property's fallback equals the value in the default
  tree (`Config.DefaultConfigMatchesFallbacks`).
- **An interrupt can leave the laser lit.** An interrupt during the
  one-second back-off after a caught exception is outside every handler of
  the loop, so `cleanup` never runs (see Findings below).

## Model

| member | source | states |
|---|---|---|
| Pid.Clamp | src/pid_controller.py:55 | `max(min(x, hi), lo)` lies in [lo, hi], is `x` inside it and the nearer bound outside |
| Pid.Init | src/pid_controller.py:11-28 | a new controller keeps its gains and setpoint, with zero integral and last error and its last time at the construction tick |
| Pid.Dt | src/pid_controller.py:41-44 | the step length is always positive: elapsed ms / 1000 when positive, 0.001 s otherwise |
| Pid.Update | src/pid_controller.py:30-73 | after any step the integral lies in [-100, 100] and the output in [0, 100]; last error is setpoint - value, last time is now; gains and setpoint unchanged |
| Pid.IntegralAccumulates | src/pid_controller.py:53-55 | below the limits the integral grows by exactly error * dt; beyond them it sticks to the limit crossed |
| Pid.ProportionalOnly | src/pid_controller.py:50-67 | with ki = kd = 0 the output is clamp(kp * (setpoint - value), 0, 100) |
| Pid.ProportionalOnlyIsAntitone | src/pid_controller.py:47-67 | a proportional-only controller with kp >= 0 asks for no more heat at a hotter reading |
| Pid.Reset | src/pid_controller.py:85-89 | integral and last error become 0 and last time becomes now; gains and setpoint are kept |
| Pid.SetTunings | src/pid_controller.py:75-79 | only kp, ki and kd change |
| Pid.SetSetpoint | src/pid_controller.py:81-83 | only the setpoint changes |
| Pid.AtSetpointAfterReset | src/pid_controller.py:47-67 | the first step after a reset, at the setpoint, outputs 0 and leaves integral and last error at 0 |
| Pid.Run | src/pid_controller.py:30-73 | over any run of samples every output is in [0, 100]; the final integral is in [-100, 100] and the final time is the last sample's |
| Mlx90614.Raw | src/drivers/mlx90614.py:47-51 | the raw value is below 65536, its low byte is buf[0] and its high byte buf[1] |
| Mlx90614.CentiCelsius | src/drivers/mlx90614.py:53-56 | no reading is below -273.15 C, and each raw unit is 0.02 C, so the raw value is recovered from the temperature |
| Mlx90614.ConversionIsMonotonic | src/drivers/mlx90614.py:53-56 | raw 0 reads -273.15 C, and a larger raw value always reads hotter |
| Mlx90614.ReadTemp | src/drivers/mlx90614.py:35-62 | a bus error gives no number and a frame always gives one, 2 * (256 * hi + lo) - 27315 hundredths, within the sensor's range |
| Mlx90614.FramingRoundTrip | src/drivers/mlx90614.py:47-51 | little-endian framing of a 16-bit value reads back as that value, any frame is the framing of its raw value, and the PEC byte never matters |
| Mlx90614.ConversionInverse | src/drivers/mlx90614.py:51-56 | every even-step temperature in range has a raw value, and a frame carrying it decodes to that temperature |
| Mlx90614.ReadBoth | src/drivers/mlx90614.py:64-92 | the pair is the object register 0x07 first, the ambient register 0x06 second |
| Strings.Split | src/config.py:56 | a split is never empty and no piece holds the separator |
| Strings.JoinOfSplit | src/menu.py:165-167 | joining the pieces of a split with the same separator gives back the text |
| Strings.SplitOfJoin | src/menu.py:165-167 | splitting a join of separator-free pieces gives back the pieces |
| Strings.SplitHasSeveralPieces | src/web_server.py:139-142 | a line splits into two or more words exactly when it holds the separator |
| Strings.Find | src/web_server.py:152 | `find` answers the first position where the pattern occurs, or none when it occurs nowhere |
| Strings.FindSkipsPrefix | src/web_server.py:152 | searching text that has no match before position k equals searching its tail from k, shifted by k |
| Strings.IntToString | src/menu.py:167 | `str(n)` is non-empty and made of digits and a minus sign |
| Strings.ParseInt | src/menu.py:165 | `int(s)` succeeds only on a non-empty text whose characters after the first are digits, and is negative only after a leading minus |
| Strings.Join | src/menu.py:167 | `sep.join` of no pieces is empty, the first piece opens the text, and there is a character for every separator; separator-free pieces split back (`Strings.SplitOfJoin`) |
| Strings.ParseOfIntToString | src/menu.py:165-167 | `int(str(n)) == n` for every integer |
| Strings.Utf8LengthBounds | src/web_server.py:379-381 | the UTF-8 byte length is between 1 and 4 bytes per character, and equals the character count exactly for ASCII text |
| Strings.Utf8Length | src/web_server.py:379-381 | the UTF-8 size of a text is between one and four bytes per character |
| Strings.Utf8LengthOfConcat | src/web_server.py:379-381 | the byte length of a concatenation is the sum of the byte lengths |
| Json.Add | src/menu.py:141 | `a + b` is defined exactly on two numbers and gives their sum, a float exactly when a float takes part and an int otherwise |
| Json.Sub | src/menu.py:187 | `a - b` is defined exactly on two numbers and gives their difference, a float exactly when a float takes part and an int otherwise |
| Json.Min | src/menu.py:141 | `min` is one of its arguments and no larger than either; the first argument is kept unless the second is strictly smaller |
| Json.Max | src/menu.py:187 | `max` is one of its arguments and no smaller than either; the first argument is kept unless the second is strictly larger |
| Config.Keys | src/config.py:56 | a dotted path always has at least one key |
| Config.Lookup | src/config.py:56-63 | a walk of at least one step succeeds only from a dictionary holding the first key |
| Config.Get | src/config.py:51-63 | `get` on a tree that is not a dictionary answers the default; a path without a dot reads the top-level entry or the default |
| Config.LookupFailsIffStopped | src/config.py:56-63 | the walk fails exactly when some step meets a missing key or a non-dictionary |
| Config.GetFallsBack | src/config.py:51-63 | `get` never raises: it answers the default exactly when the walk stops, and the value reached otherwise |
| Config.Set | src/config.py:65-81 | a failed `set` leaves the tree unchanged |
| Config.Assign | src/config.py:65-81 | `set` raises on a tree that is not a dictionary, always succeeds on a dictionary for a one-key path, and on success adds only the first key to the top level |
| Config.GetAfterSet | src/config.py:51-78 | after a successful `set(p, v)`, `get(p)` returns v |
| Config.LookupAfterAssign | src/config.py:59-77 | the walk along the assigned keys reaches the assigned value |
| Config.AssignBuildsDicts | src/config.py:73-76 | after a successful `set`, every proper prefix of the path leads to a dictionary: missing ones are created |
| Config.AssignFailsIffNonDict | src/config.py:72-81 | `set` fails exactly when the walk meets an existing value that is not a dictionary |
| Config.EmptyDictAcceptsAll | src/config.py:73-77 | any path can be set below an empty dictionary |
| Config.PrefixOfTails | src/config.py:65-78 | two paths with the same first key are prefix-related exactly when their tails are |
| Config.AssignFrame | src/config.py:65-78 | an assignment leaves the walk of every path that is neither its prefix nor its extension unchanged |
| Config.GetUnaffectedBySet | src/config.py:51-78 | `set(p, v)` leaves `get(q)` unchanged for every q that is neither a prefix nor an extension of p |
| Config.SettingKeys | src/config.py:84-277 | every property's path has two keys, section and key |
| Config.KeysHaveNoDots | src/config.py:84-277 | no section or key of a property holds a dot |
| Config.PathOfSplits | src/config.py:84-277 | a property's dotted path splits back into its section and key |
| Config.ReadIsGet | src/config.py:84-277 | reading a property is `get` on its dotted path with its own default |
| Config.Read | src/config.py:84-277 | a property reads its default when its section is missing, and the stored entry when the section holds its key |
| Config.StoreIsSet | src/config.py:125-277 | a property's setter is `set` on its dotted path |
| Config.Store | src/config.py:125-277 | a setter that fails leaves the tree unchanged |
| Config.Write | src/config.py:125-277 | a property setter succeeds exactly when the root is a dictionary and the section is absent or a dictionary; it then reads back the value, and otherwise leaves the tree unchanged |
| Config.StoreSucceedsIffWritable | src/config.py:65-81 | storing a property succeeds exactly on a writable section, and then reads back |
| Config.DefaultOf | src/config.py:84-277 | every pin falls back to an integer, exactly the on/off switches to booleans, and exactly the gains and calibration points to floats |
| Config.DefaultConfig | src/config.py:279-329 | the default tree is a dictionary of exactly the six sections, each a dictionary |
| Config.SettingKeysInjective | src/config.py:84-277 | distinct properties live under distinct paths |
| Config.StoreIsolated | src/config.py:65-81 | storing one property changes no other property's value |
| Config.WriteIsolated | src/config.py:125-277 | a property setter changes no other property |
| Config.ReadAfterStore | src/config.py:51-81 | a property stored successfully reads back as the value stored |
| Config.SiblingAssignable | src/config.py:72-78 | a two-key path can be set whenever another two-key path under the same first key can be read |
| Config.SectionWritable | src/config.py:72-78 | once one property of a section can be read, every property of that section can be stored |
| Config.AssignTwoKeys | src/config.py:72-78 | below a dictionary root whose section is absent or a dictionary, a two-key set succeeds and keeps the section a dictionary |
| Config.StoreThenRead | src/config.py:65-81 | in a writable section a store succeeds, reads back and keeps the section writable |
| Config.StoreTwoInSection | src/config.py:65-81 | two stores to distinct properties of one writable section both read back |
| Config.DefaultSectionAt | src/config.py:279-329 | the default tree holds each section under its name |
| Config.LookupStepsInto | src/config.py:59-60 | a walk from a dictionary holding its first key continues from that entry |
| Config.DefaultTreeHoldsFallbacks | src/config.py:84-329 | the default tree stores, under each property's path except `calibration.enabled`, that property's fallback |
| Config.CalibrationDefaultsDisagree | src/config.py:234-329 | the default tree stores `true` at `calibration.enabled` while the property's fallback is `false` |
| Config.DefaultConfigMatchesFallbacks | src/config.py:84-329 | reading any property from the default tree gives its own fallback, except `calibration.enabled`, which reads `true` |
| Config.SetThenGetTestValue | test_structure.py:51-52 | `set('test.value', 42)` succeeds on a dictionary root and `get('test.value')` then returns 42 |
| Config.DefaultTreeHasNoTest | src/config.py:279-329 | the default tree has no `test` section, so the set above succeeds on it |
| Config.TestValueKeys | test_structure.py:51 | `test.value` splits into `test` and `value` |
| Buttons.ReadButton | src/menu.py:107-116 | a read counts as a press exactly when the debounce window of 200 ms has passed and the pin is low; only a press moves the last-press time, to now |
| Buttons.PressesAreSpaced | src/menu.py:107-116 | after a press, a read less than 200 ms later never counts |
| Buttons.ReleasedNeverCounts | src/menu.py:113-116 | a high pin never counts and leaves the debounce time alone |
| Buttons.Poll | src/menu.py:107-131 | with the clock read anew for each button, the poll moves the last-press time to the taken button's own tick exactly when some button is taken |
| Buttons.PollPicksFirstPressed | src/menu.py:107-131 | the poll takes a button exactly when its own read is outside the window with the button low, and no earlier read of the poll was accepted |
| Buttons.PollIgnoresBounce | src/menu.py:107-131 | when every read of the poll falls inside the debounce window, no button is taken and nothing changes |
| Buttons.LaterReadCanOpenWindow | src/menu.py:107-131 | with UP and DOWN held, UP read at 199 ms and DOWN at 200 ms after the last press, the poll takes DOWN |
| Bindings.Subscript | src/setup.py:168-187 | `v[key]` succeeds exactly on a dictionary holding the key, and gives its entry |
| Bindings.Networks | src/setup.py:168-187 | a list is iterated item by item; anything else iterated without raising yields nothing and is falsy |
| Bindings.Len | src/setup.py:177 | `len` is defined on strings, lists and dictionaries, and is a list's length |
| Bindings.Index | src/setup.py:177-178 | `known[i]` of a list and an in-range integer is the i-th entry |
| Bindings.SsidsOf | src/setup.py:171 | the names are defined exactly when every entry has one, and are listed in stored order |
| Bindings.KnownSsids | src/setup.py:168-171 | the stored names in order, or `["None"]` when the known list is falsy |
| Bindings.SelectedSsid | src/setup.py:173-179 | the name at the stored index when it is inside the known list, `"None"` otherwise |
| Bindings.FindSsid | src/setup.py:184-187 | the search stops at the first entry with the name, reports no match after passing every entry, and raises at the first entry without a name |
| Bindings.SetSelectedSsid | src/setup.py:181-187 | selecting raises when the known list cannot be iterated, never changes the known list, and changes the configuration only when the known list is a list |
| Bindings.SelectsFirstMatch | src/setup.py:181-187 | selecting a known name stores the index of its first entry |
| Bindings.FindSsidIsFirst | src/setup.py:184-187 | an entry with the name, preceded only by entries with other names, is the one found |
| Bindings.SelectingUnknownNameIsNoop | src/setup.py:181-187 | selecting a name no entry has leaves the configuration unchanged |
| Bindings.SelectThenGet | src/setup.py:173-187 | after selecting a known name, the selected name reads back as that name |
| Bindings.FieldRoundTrip | src/menu.py:54-65 | a field write that succeeds reads back, and no other property changes |
| Bindings.ReadBinding | src/menu.py:54-58 | a field or an unbound item never raises (an unbound one answers None); only the selected network can raise, and it answers `"None"` when no network is known |
| Bindings.WriteBinding | src/menu.py:60-65 | an unbound item changes nothing; a field write changes no other property and reads back when the store succeeds; only the selected network can raise, and it keeps the known list |
| Bindings.StoreMovesOnlyItsSetting | src/menu.py:60-65 | a field's setter changes no other property, and reads back when it succeeds |
| Menu.NewItem | src/menu.py:40-52 | a new item has bounds 0..100 with step 1, and no children, choices or action |
| Menu.Start | src/menu.py:80-94 | a new menu shows the root list at index 0, scroll 0, with an empty stack and without editing |
| Menu.StartIsValid | src/menu.py:80-94 | a new menu on a non-empty root satisfies the window invariant |
| Menu.Current | src/menu.py:135 | the current item exists exactly when the index is inside the list |
| Menu.RaiseLowerClamp | src/menu.py:139-194 | UP gives min(v + step, max) and DOWN gives max(v - step, min), so a value in [min, max] stays there |
| Menu.Raise | src/menu.py:139-141 | UP raises unless the value, step and maximum are numbers, and otherwise gives exactly the value plus the step, capped at the maximum |
| Menu.Lower | src/menu.py:185-187 | DOWN raises unless the value, step and minimum are numbers, and otherwise gives exactly the value minus the step, floored at the minimum |
| Menu.IndexOf | src/menu.py:152-207 | `index` answers the first position holding the value, and none exactly when it is absent |
| Menu.Cycle | src/menu.py:152-207 | a listed value moves by the step round the choices; an unlisted one resets to the first choice, or none when there are none |
| Menu.IndexOfDistinct | src/menu.py:152-207 | with distinct choices a choice's index is its position |
| Menu.CycleRoundTrip | src/menu.py:152-207 | with distinct choices UP then DOWN, or DOWN then UP, restores the value |
| Menu.StepsRoundTrip | src/menu.py:152-207 | a step back and a step forward modulo n cancel |
| Menu.ShowAll | src/menu.py:167 | each octet is written by `str` |
| Menu.ParseAll | src/menu.py:165 | the octets parse exactly when every piece is an integer, and then in order |
| Menu.OctetsRoundTrip | src/menu.py:165-167 | writing octets in dotted form and parsing them back gives the same octets |
| Menu.NudgeOctet | src/menu.py:162-214 | an IP edit succeeds only on a string and produces a string |
| Menu.NudgeOctetChangesOne | src/menu.py:162-214 | IP editing changes only the octet under the cursor, by one, clamped to [0, 255] |
| Menu.MoveCursor | src/menu.py:231-256 | the octet cursor is always one of the four positions |
| Menu.CursorRoundTrip | src/menu.py:231-256 | RIGHT then LEFT, or LEFT then RIGHT, restores the cursor, and four RIGHTs go round once |
| Menu.Edit | src/menu.py:137-214 | editing never moves the menu and fires nothing; it reports a change exactly for editable kinds and does nothing for the others |
| Menu.EditValue | src/menu.py:137-214 | a list edit always gives a choice; an IP edit works on a string and gives one; a number edit succeeds exactly on numbers and never passes the bound in its direction |
| Menu.HandleUp | src/menu.py:133-177 | UP raises only past the end of the list or when the edit raises; it fires nothing, in navigation writes no setting and keeps the stack, and while editing leaves the menu state alone |
| Menu.HandleDown | src/menu.py:179-223 | DOWN raises only past the end of the list or when the edit raises; it fires nothing, in navigation writes no setting and keeps the stack, and while editing leaves the menu state alone |
| Menu.HandleLeft | src/menu.py:225-245 | LEFT raises only past the end of the list, writes no setting, fires nothing, keeps the row while editing, and pops one level in navigation |
| Menu.HandleRight | src/menu.py:247-278 | RIGHT raises only past the end of the list, writes no setting, fires only the action of the selected action item outside editing, and stays in editing while editing |
| Menu.Dispatch | src/menu.py:118-131 | only RIGHT fires an action, and LEFT and RIGHT never write a setting |
| Menu.HandleInput | src/menu.py:118-131 | when every read of the poll falls inside the debounce window, input changes nothing |
| Menu.HandlersKeepValid | src/menu.py:133-278 | every button handler keeps the index inside the list and the visible window, and the stack entries valid |
| Menu.InputKeepsValid | src/menu.py:118-278 | `handle_input` keeps the menu valid |
| Menu.NavigationMovesByOne | src/menu.py:169-222 | in navigation UP and DOWN move the index by at most one, within the list, change only index and scroll, and report a change exactly when the index moved |
| Menu.EnterThenLeaveLevel | src/menu.py:242-266 | RIGHT on a non-empty level pushes the position and opens the level at 0; LEFT then restores exactly the state before |
| Menu.EnterThenLeaveEdit | src/menu.py:235-277 | RIGHT on an editable item starts editing at cursor 0; LEFT then leaves editing for every kind but IP |
| Menu.IpEditingNeverEnds | src/menu.py:137-256 | while an address is edited no button leaves editing; LEFT and RIGHT only move the cursor |
| Menu.ActionFires | src/menu.py:267-271 | RIGHT on an action fires it and changes nothing else |
| Menu.FieldWriteLands | src/menu.py:60-65 | a readable field can be written and reads back what was written |
| Menu.EditWritesSetting | src/menu.py:139-197 | an edit of a stored setting writes the edited value, and a boolean reads back true on UP and false on DOWN |
| Menu.RowText | src/menu.py:293-326 | a row is its marker, then the caption, then the value text |
| Menu.Truncate | src/menu.py:329-330 | a row is cut to its first 21 characters |
| Menu.Highlight | src/menu.py:315-317 | highlighting keeps one piece per octet |
| Menu.FormatValue | src/menu.py:299-320 | formatting raises exactly for two decimals of a non-number, and for a highlighted address that is not a string or has no piece at the cursor |
| Menu.HighlightMarksCursor | src/menu.py:315-318 | the highlighted address splits back into the address's pieces with only the one under the cursor in brackets |
| Menu.Suffix | src/menu.py:298-322 | a level shows ` >`, labels and actions nothing, and any other row raises exactly when reading its value or formatting it raises |
| Menu.Rows | src/menu.py:289-333 | one row per list position drawn, each non-empty, at most 21 wide and starting with its marker |
| Menu.RowsRaiseIff | src/menu.py:289-333 | drawing raises exactly when the value text of some drawn row raises, so every row whose value reads and formats is drawn |
| Menu.RowShape | src/menu.py:293-330 | a drawn row is non-empty, at most 21 wide, and starts with its marker |
| Menu.Render | src/menu.py:285-289 | at most five rows are drawn |
| Menu.RenderShowsSelection | src/menu.py:285-330 | in a valid menu the selected row is drawn, marked `>`, or `*` while editing a non-IP item; every other row starts with a space |
| Menu.RenderAfterExit | src/menu.py:285-289 | nothing is drawn once the list is emptied |
| Setup.BuildTree | src/setup.py:27-166 | the tree is built exactly when the known names can be read, and has seven root items |
| Setup.TreeShape | src/setup.py:27-166 | four non-empty levels, a separator and the two exit actions; the SSID item lists the known names; every number item of the levels is one of the five bounded items |
| Setup.NumberItemsKeepRange | src/setup.py:69-123 | Refresh stays in [50, 1000], Target in [0, 150] and P, I, D in [0.0, 10.0] under UP and DOWN from an in-range start |
| Setup.Start | src/setup.py:238-253 | the setup menu starts valid on the current configuration, with no exit requested |
| Setup.RunAction | src/setup.py:189-236 | both exit actions request the exit and empty the shown list, and only Save and Exit asks for a save; auto-tune changes nothing |
| Setup.Press | src/menu.py:341-343 | a poll raises exactly when the handler does, changes nothing inside the debounce window, never lets an action change the configuration, and requests the exit only through a fired exit action |
| Setup.RunMenu | src/menu.py:337-350 | the loop consumes at most the polls given and stops early only once the menu has exited |
| Setup.MenuRun | src/menu.py:337-350 | the screen is drawn before the first poll, so a start state that cannot be drawn raises; the loop uses at most the polls given and stops early only once the menu has exited |
| Setup.ExitActionEndsLoop | src/setup.py:219-236 | RIGHT on an exit action at the top level ends the loop on that poll with the configuration unchanged |
| Setup.OnlyExitActionsEndLoop | src/menu.py:337-350 | the menu loop only ends through an exit action |
| WebServer.FirstLine | src/web_server.py:133 | the first line is a prefix of the request, holds no line break, and ends at the first line break or the end |
| WebServer.PostBody | src/web_server.py:149-154 | the body is absent exactly when no empty line occurs; otherwise it is the text after the first one |
| WebServer.ParseRequest | src/web_server.py:133-156 | a request line with fewer than two words closes the connection; otherwise method and path are its first two words, and only a POST has a body, taken after the first empty line |
| WebServer.RequestLineStartsWithWords | src/web_server.py:139-145 | the method and path, joined by their space, begin the request line |
| WebServer.PostRoundTrip | src/web_server.py:133-154 | a POST built from a request line, plain header lines, an empty line and a body parses back to its method, path and body |
| WebServer.FirstLineOfBlock | src/web_server.py:133 | the first line of a header block is its first header line |
| WebServer.BlankLineEndsBlock | src/web_server.py:152 | the first empty line after plain header lines is the one ending them |
| WebServer.BodyAfterBlock | src/web_server.py:152-154 | the body of header lines, an empty line and a body is exactly that body |
| WebServer.Route | src/web_server.py:181-237 | a request is routed to 404 exactly when its path is not an endpoint or the endpoint does not answer its method, and to a static file exactly for the four file paths |
| WebServer.NotFoundIffUnlisted | src/web_server.py:193-237 | a request is routed to 404 exactly when its path is not an endpoint or the endpoint does not answer its method |
| WebServer.UnsupportedMethodsFallThrough | src/web_server.py:200-237 | `PUT /api/target` and `GET /api/wifi/save` get 404 |
| WebServer.StatusText | src/web_server.py:372-377 | 200, 400, 404 and 500 have their phrases and every other code reads "Unknown" |
| WebServer.FormatResponse | src/web_server.py:370-391 | a response ends with an empty line followed by exactly the body |
| WebServer.HeaderLinesArePlain | src/web_server.py:383-387 | no header line is empty or holds a carriage return |
| WebServer.ReadResponse | src/web_server.py:370-391 | a response reads back: the status line starts with HTTP/1.1 and the code, the body follows the first empty line, and Content-Length is its UTF-8 size |
| WebServer.StatusLineWords | src/web_server.py:383 | the status line's words are the protocol, the code and the phrase |
| WebServer.Contains | src/web_server.py:267-269 | `key in data` on an object tests its keys, and raises on numbers, booleans and null |
| WebServer.SetTargetFrom | src/web_server.py:263-273 | the answer is 200 or 400, a 400 leaves the configuration alone, and 200 comes exactly for a decoded object, or a decoded list or string that names neither `target` nor `active` |
| WebServer.WriteIfPresentIsolated | src/web_server.py:267-270 | a conditional write leaves every other property alone, and all properties when the key is absent |
| WebServer.WriteIfPresentStores | src/web_server.py:267-270 | a present key in a writable section is stored and reads back |
| WebServer.SetTargetWritesPresentKeys | src/web_server.py:266-270 | setting the target writes `target` and `active` only when present, and no other property |
| WebServer.TargetDocument | src/web_server.py:257-261 | the target document has exactly the names `target` and `active`, and shows their defaults for a tree that is not an object |
| WebServer.TwoWritesIsolated | src/web_server.py:267-270 | two conditional writes leave alone every property neither writes |
| WebServer.SetThenGetTarget | src/web_server.py:257-270 | after posting a target and active flag, `GET /api/target` shows the posted values and the old ones for keys not posted |
| WebServer.SetConfigFrom | src/web_server.py:279-288 | any decoded document replaces the whole tree with 200; a decode error gives 400 and no change |
| WebServer.Upsert | src/web_server.py:327-338 | an existing name gets the password at its first entry with length unchanged; otherwise one entry is appended and selected; the selected entry has the name and password; raises exactly when the search raises |
| WebServer.UpsertUpdatesFirstMatch | src/web_server.py:328-332 | a known name is updated at its first entry and selects that index |
| WebServer.UpsertKeepsSsidsUnique | src/web_server.py:327-335 | unique names before a save stay unique after it |
| WebServer.SaveNetworkFrom | src/web_server.py:313-343 | the answer is 200, 400 or 500; 400 comes exactly for an object without a truthy ssid; only 200 changes the configuration |
| WebServer.UpsertKnown | src/web_server.py:324-335 | the save succeeds only on a stored known list |
| WebServer.StoreNetworksReadsBack | src/web_server.py:337-338 | in a writable Wi-Fi section both the known list and the selected index read back as stored |
| WebServer.SelectedEntry | src/setup.py:173-179 | a stored index inside the stored list selects the name of that entry |
| WebServer.SaveThenSelected | src/web_server.py:313-343 | after a successful save the setup screen shows the saved network as selected |
| WebServer.SaveKeepsSsidsUnique | src/web_server.py:313-343 | a save keeps the stored known names unique |
| App.Start | src/app.py:33-79 | the loop starts with no readings, timers at 0, the laser low, and a buzzer exactly when the board has one |
| App.Due | src/app.py:118 | the due check fails exactly on a non-numeric interval, and is otherwise elapsed >= interval |
| App.ReadAndDisplay | src/app.py:152-162 | without a sensor nothing changes; otherwise both readings, missing ones included, and the tick are stored |
| App.Beep | src/app.py:252-260 | the buzzer ends low, or stays high exactly when an interrupt arrives in the pause and the bare `except:` swallows it; the laser is untouched |
| App.LaserLevel | src/app.py:225-234 | the laser pin is driven 0 or 1 |
| App.LaserDecisionTable | src/app.py:225-234 | the laser is lit exactly when it is enabled and the mode is Continue or the fire button reads low; disabled means off |
| App.ThermostatOk | src/app.py:236-250 | the thermostat hook raises only when there is an object reading and the target is not a number |
| App.ReadStep | src/app.py:113-126 | the reading step raises exactly in Continue mode with a non-numeric interval; it never touches the laser, changes no reading without a sensor, and does nothing in an unknown mode |
| App.WithLaser | src/app.py:225-234 | the laser is lit exactly when enabled and in Continue mode or with FIRE low, and nothing else changes |
| App.Pass | src/app.py:107-147 | an interrupt ends the pass untouched; a raising read fails it untouched; otherwise the laser is set, and the pass fails exactly when the active thermostat hook raises |
| App.ContinueReadsWhenDue | src/app.py:104-120 | in Continue mode a reading is taken and the display timer restarted exactly when the interval has elapsed |
| App.OnShootReadsOnPress | src/app.py:122-126 | in OnShoot mode a reading is taken exactly on a debounced FIRE press, which restarts the debounce window |
| App.ThermostatCommandsNothing | src/app.py:236-250 | the thermostat hook changes no state, and an inactive thermostat never fails a pass |
| App.Cleanup | src/app.py:273-285 | cleanup drives the laser and any buzzer low and changes nothing else |
| App.RunAsWritten | src/app.py:102-150 | the loop as written: a stop through the caught interrupt leaves laser and buzzer low; an interrupt in the back-off of a failed pass leaves the loop without cleanup |
| App.BackoffInterruptLeavesLaserOn | src/app.py:107-150 | with the laser enabled in Continue mode, an active thermostat whose target is `"abc"` and an object reading, an interrupt in the back-off leaves the loop with the laser at 1 |
| App.BackoffEscapeExample | src/app.py:107-150 | the concrete case: a pass 100 ms into a 500 ms interval with the configuration above ends outside the loop, laser at 1 |
| App.Run | src/app.py:102-150 | the loop with cleanup on every way out: it is never left without cleanup, and whenever it stops laser and buzzer are low |
| App.RunRepairsEscape | src/app.py:102-150 | the corrected loop agrees with the loop as written except where the latter escapes, and there stops with that state cleaned up |
| App.BeepInterruptKeepsBuzzerOn | src/app.py:122-126 | an interrupt in the beep's pause does not end the loop, and leaves the buzzer high |
| App.StopsOnlyOnInterrupt | src/app.py:107-150 | exceptions never end the loop: an interrupt inside a pass stops it, and it stops only on an interrupt inside a pass or in a back-off |

## Left out

- Sockets, `select`, chunked sending, `_send_string` and static file reads in the web server: network and file I/O. A static path routes to `StaticFile`, and the file's contents are not modelled.
- `_api_temp`, `_api_ambient`, `_api_status`, `_api_wifi_scan` and `_api_wifi_test`: they only call the sensor or the Wi-Fi manager and wrap the answer in JSON. Routing to them is modelled.
- `json.loads` and `json.dumps`: the decoded document is a parameter (`None` for a decode error), and response bodies are plain strings.
- Error message texts of the 400 and 500 answers: only the status and the configuration effect are modelled.
- Config `load`, `save`, `reload` and the singleton: file I/O. Saving is a `saveRequested` flag on the setup state.
- Display drawing (`fill`, `text`, `show`), `_display_temperatures`, `_show_splash` and `_show_ip`: the drawing code. `Menu.Render` produces the row texts.
- `time.ticks_ms` and `ticks_diff`: every elapsed time is an input, so the 32-bit tick wrap-around is not modelled. Each clock reading of a pass is its own input.
- `round(temp_c, 1)` in the sensor driver and `.2f`/`.1f` formatting: temperatures are exact hundredths, and PID arithmetic is over exact reals.
- Json.Add, Json.Sub: floats are exact reals, not binary doubles. So float settings and their menu editing carry no rounding: UP on a gain of 0.2 with step 0.1 stores exactly 0.3 here, where the firmware stores 0.30000000000000004 and `GET /api/config` shows that.
- Menu.Render: how a value is written by `str` or with two decimals is the parameter `show`. Which values make the formatting raise is modelled (`Menu.FormatValue`).
- Strings.ParseInt: accepts an optional `-` or `+` sign followed by ASCII digits only. `int()` also accepts surrounding whitespace and underscores between digits.
- Menu items with no getter and setter keep an internal `_value`. The setup screen never builds such items, so they are not modelled: every item is bound to a property or to the selected network.
- Python's cross-type equality (`1 == 1.0 == True`): values of different JSON kinds are unequal here.
- KeyboardInterrupt: it can arrive at any point of a pass. Three places are modelled: inside the `try` (a flag at the start of a pass, which is then left untouched), in the beep's pause, and in the back-off after a caught exception. An interrupt in the middle of a reading is taken at the start of the pass; both end in cleanup.
- The buzzer pulse and the sleeps: only the final pin level is modelled.
- PID auto-tune and PID-driven heating: no code for them exists. The thermostat hook is a placeholder that commands nothing.
- `MLX90614.__init__` probing the bus: a missing sensor is the `hasSensor` flag.
- The Wi-Fi manager, the Tapo client, the buzzer driver, `main.py` and `boot.py`: hardware and network code outside this model.

## Findings

| source | as written | input that shows it | evidently intended | confidence | as-written member | corrected member |
|---|---|---|---|---|---|---|
| src/app.py:143-150 | `time.sleep(1)` in `except Exception` lies outside the `try`, so an interrupt there leaves `run` without reaching `self.cleanup()`; `main` only prints | laser enabled, Continue mode, thermostat active, target `"abc"` (stored by `POST /api/target`), an object reading kept: the pass lights the laser, the `<` comparison raises, Ctrl-C in the back-off | cleanup on every way out of the loop, so the laser and buzzer end low | not executed | App.RunAsWritten (App.BackoffInterruptLeavesLaserOn, App.BackoffEscapeExample) | App.Run (App.RunRepairsEscape) |
