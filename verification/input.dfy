/** The keyboard front end: a key map from key codes to game actions and the
    auto-repeat state machine of the input handler. Signals are returned as a
    list instead of being emitted, and the repeat timer is a record of its
    state (active, single-shot, interval); its expiry is the `OnAutoRepeat`
    transition. */
module Input {

  /** The game actions; `ActionCount` doubles as "no action". */
  datatype Action =
    | MoveLeft | MoveRight | SoftDrop | HardDrop | RotateCW | RotateCCW
    | Hold | Pause | Restart | ActionCount

  predicate IsMove(a: Action) {
    a == MoveLeft || a == MoveRight
  }

  /** Qt key codes of the default bindings. */
  const KeyLeft: int := 0x0100_0012
  const KeyUp: int := 0x0100_0013
  const KeyRight: int := 0x0100_0014
  const KeyDown: int := 0x0100_0015
  const KeySpace: int := 0x20
  const KeyA: int := 0x41
  const KeyC: int := 0x43
  const KeyD: int := 0x44
  const KeyP: int := 0x50
  const KeyR: int := 0x52
  const KeyS: int := 0x53
  const KeyW: int := 0x57
  const KeyZ: int := 0x5a

  /** The key map with the delay before the first repeat and the interval
      between repeats, in milliseconds. */
  datatype InputConfig = InputConfig(keyMapping: map<int, Action>, autoRepeatDelay: int, autoRepeatInterval: int)

  /** `initializeDefaultMapping`: arrows and WASD move, rotate clockwise and
      soft drop; Space hard drops; Z rotates counter-clockwise; C holds; P
      pauses; R restarts. */
  function DefaultMapping(): (m: map<int, Action>)
    ensures m.Keys == {KeyLeft, KeyA, KeyRight, KeyD, KeyDown, KeyS, KeySpace, KeyUp, KeyW, KeyZ, KeyC, KeyP, KeyR}
    ensures m[KeyA] == m[KeyLeft] == MoveLeft && m[KeyD] == m[KeyRight] == MoveRight
    ensures m[KeyS] == m[KeyDown] == SoftDrop && m[KeyW] == m[KeyUp] == RotateCW
    ensures m[KeySpace] == HardDrop && m[KeyZ] == RotateCCW && m[KeyC] == Hold
    ensures m[KeyP] == Pause && m[KeyR] == Restart
    ensures forall k :: k in m ==> m[k] != ActionCount
    ensures forall k :: k in m ==> (IsMove(m[k]) <==> k in {KeyLeft, KeyA, KeyRight, KeyD})
    ensures forall a :: a != ActionCount ==> a in m.Values
  {
    var m := map k | k in DefaultKeys :: DefaultBinding(k);
    EveryActionBound(m);
    m
  }

  /** A map that gives every action at least one of the default keys has
      every action among its values. */
  lemma EveryActionBound(m: map<int, Action>)
    requires KeyLeft in m && m[KeyLeft] == MoveLeft && KeyRight in m && m[KeyRight] == MoveRight
    requires KeyDown in m && m[KeyDown] == SoftDrop && KeySpace in m && m[KeySpace] == HardDrop
    requires KeyUp in m && m[KeyUp] == RotateCW && KeyZ in m && m[KeyZ] == RotateCCW
    requires KeyC in m && m[KeyC] == Hold && KeyP in m && m[KeyP] == Pause && KeyR in m && m[KeyR] == Restart
    ensures forall a :: a != ActionCount ==> a in m.Values
  {
  }

  const DefaultKeys: set<int> := {KeyLeft, KeyA, KeyRight, KeyD, KeyDown, KeyS, KeySpace, KeyUp, KeyW, KeyZ, KeyC, KeyP, KeyR}

  /** One default binding per key; an unbound key gets `ActionCount`. */
  function DefaultBinding(k: int): Action {
    if k == KeyLeft || k == KeyA then MoveLeft
    else if k == KeyRight || k == KeyD then MoveRight
    else if k == KeyDown || k == KeyS then SoftDrop
    else if k == KeySpace then HardDrop
    else if k == KeyUp || k == KeyW then RotateCW
    else if k == KeyZ then RotateCCW
    else if k == KeyC then Hold
    else if k == KeyP then Pause
    else if k == KeyR then Restart
    else ActionCount
  }

  /** The keys a map binds to an action. */
  ghost function KeysFor(m: map<int, Action>, a: Action): set<int> {
    set k | k in m && m[k] == a
  }

  /** Read backwards, the default map binds each movement, soft drop and
      clockwise turn to its arrow key and its WASD letter, and every other
      action to exactly one key. */
  lemma DefaultKeysFor()
    ensures KeysFor(DefaultMapping(), MoveLeft) == {KeyLeft, KeyA}
    ensures KeysFor(DefaultMapping(), MoveRight) == {KeyRight, KeyD}
    ensures KeysFor(DefaultMapping(), SoftDrop) == {KeyDown, KeyS}
    ensures KeysFor(DefaultMapping(), RotateCW) == {KeyUp, KeyW}
    ensures KeysFor(DefaultMapping(), HardDrop) == {KeySpace}
    ensures KeysFor(DefaultMapping(), RotateCCW) == {KeyZ}
    ensures KeysFor(DefaultMapping(), Hold) == {KeyC}
    ensures KeysFor(DefaultMapping(), Pause) == {KeyP}
    ensures KeysFor(DefaultMapping(), Restart) == {KeyR}
    ensures KeysFor(DefaultMapping(), ActionCount) == {}
  {
  }

  /** The default configuration: the default map, 150 ms delay, 50 ms interval. */
  function DefaultConfig(): (c: InputConfig)
    ensures c.keyMapping == DefaultMapping() && c.autoRepeatDelay == 150 && c.autoRepeatInterval == 50
  {
    InputConfig(DefaultMapping(), 150, 50)
  }

  /** A QTimer's observable state. */
  datatype Timer = Timer(active: bool, singleShot: bool, interval: int)

  /** The handler's state: its configuration, the repeat timer, the action
      being repeated (`ActionCount` for none), whether a repeat is in progress,
      and the extra delay added before the first repeat. */
  datatype Handler = Handler(config: InputConfig, timer: Timer, current: Action, repeating: bool, extraDelay: int)

  datatype Signal = Triggered(action: Action) | Released(action: Action)

  datatype EventKind = KeyPress | KeyRelease | OtherEvent

  /** The answer to one key event: whether it was consumed, the new state and
      the signals emitted, in order. */
  datatype Reaction = Reaction(handled: bool, handler: Handler, signals: seq<Signal>)

  /** The constructor: nothing repeating, an idle timer, 200 ms extra delay,
      the default key map. */
  function NewHandler(): (h: Handler)
    ensures !h.repeating && h.current == ActionCount && !h.timer.active
    ensures h.extraDelay == 200 && h.config == DefaultConfig()
  {
    Handler(DefaultConfig(), Timer(false, false, 0), ActionCount, false, 200)
  }

  /** The consistency the handler keeps: a repeat is in progress exactly when
      there is a current action, and the timer runs only while a move is being
      repeated. */
  predicate Consistent(h: Handler) {
    && (h.repeating <==> h.current != ActionCount)
    && (h.timer.active ==> h.repeating && IsMove(h.current))
  }

  /** `setInputConfig`. The timer interval is set from the configuration in
      force before the assignment. */
  function SetInputConfig(h: Handler, config: InputConfig): (r: Handler)
    ensures r.config == config && r.timer.interval == h.config.autoRepeatInterval
    ensures r.timer.active == h.timer.active && r.timer.singleShot == h.timer.singleShot
    ensures r.current == h.current && r.repeating == h.repeating && r.extraDelay == h.extraDelay
  {
    h.(timer := h.timer.(interval := h.config.autoRepeatInterval), config := config)
  }

  /** `startAutoRepeat`: the action becomes current and the timer is started
      once, for the configured delay plus the extra delay. */
  function StartAutoRepeat(h: Handler, action: Action): (r: Handler)
    ensures r.repeating && r.current == action
    ensures r.timer == Timer(true, true, h.config.autoRepeatDelay + h.extraDelay)
    ensures r.config == h.config && r.extraDelay == h.extraDelay
  {
    h.(current := action, timer := Timer(true, true, h.config.autoRepeatDelay + h.extraDelay), repeating := true)
  }

  /** `stopAutoRepeat`: the timer stops and no action is current. */
  function StopAutoRepeat(h: Handler): (r: Handler)
    ensures !r.repeating && r.current == ActionCount && !r.timer.active
    ensures r.timer.interval == h.timer.interval && r.timer.singleShot == h.timer.singleShot
    ensures r.config == h.config && r.extraDelay == h.extraDelay
  {
    h.(timer := h.timer.(active := false), current := ActionCount, repeating := false)
  }

  /** `processKeyEvent`. An unmapped key, or an event that is neither a press
      nor a release, is not consumed. A press while nothing repeats emits its
      action; a move then starts auto-repeat and soft drop becomes the current
      action without a timer. A press while repeating emits its action unless
      it is a move, which is swallowed. A release of the current action stops
      the repeat; releasing soft drop always emits `Released`. */
  function ProcessKeyEvent(h: Handler, key: int, kind: EventKind): (r: Reaction)
    ensures r.handled <==> key in h.config.keyMapping && kind != OtherEvent
    ensures !r.handled ==> r.handler == h && r.signals == []
    ensures |r.signals| <= 1
    ensures r.handler.config == h.config && r.handler.extraDelay == h.extraDelay
  {
    if key !in h.config.keyMapping then Reaction(false, h, [])
    else
      var action := h.config.keyMapping[key];
      match kind
      case KeyPress =>
        if !h.repeating then
          if IsMove(action) then Reaction(true, StartAutoRepeat(h, action), [Triggered(action)])
          else if action == SoftDrop then
            Reaction(true, h.(current := action, repeating := true), [Triggered(action)])
          else Reaction(true, h, [Triggered(action)])
        else if !IsMove(action) then Reaction(true, h, [Triggered(action)])
        else Reaction(true, h, [])
      case KeyRelease =>
        var released := if action == SoftDrop then [Released(action)] else [];
        if h.repeating && action == h.current then Reaction(true, StopAutoRepeat(h), released)
        else Reaction(true, h, released)
      case OtherEvent => Reaction(false, h, [])
  }

  /** `onAutoRepeat`, run when the timer expires (a single-shot timer is
      inactive by then): while a repeat is in progress, emit the current
      action and restart the timer as periodic with the repeat interval. */
  function OnAutoRepeat(h: Handler): (r: (Handler, seq<Signal>))
    requires h.timer.active
    ensures h.repeating && h.current != ActionCount ==>
      r.1 == [Triggered(h.current)] && r.0.timer == Timer(true, false, h.config.autoRepeatInterval)
    ensures !(h.repeating && h.current != ActionCount) ==> r.1 == []
    ensures r.0.current == h.current && r.0.repeating == h.repeating
    ensures r.0.config == h.config && r.0.extraDelay == h.extraDelay
  {
    var expired := if h.timer.singleShot then h.timer.(active := false) else h.timer;
    if h.repeating && h.current != ActionCount then
      (h.(timer := Timer(true, false, h.config.autoRepeatInterval)), [Triggered(h.current)])
    else (h.(timer := expired), [])
  }

  /** `updateAutoRepeatDelay`: 20 ms less extra delay per level, from 200 ms,
      never below 0. */
  function UpdateAutoRepeatDelay(h: Handler, level: int): (r: Handler)
    ensures r.extraDelay >= 0
    ensures r.extraDelay > 0 <==> level < 10
    ensures level < 10 ==> r.extraDelay == 200 - 20 * level
    ensures r == h.(extraDelay := r.extraDelay)
  {
    h.(extraDelay := if 200 - 20 * level > 0 then 200 - 20 * level else 0)
  }

  // ---------------------------------------------------------------------------
  // Properties

  /** A key with no binding is not consumed and emits nothing. */
  lemma UnmappedIgnored(h: Handler, key: int, kind: EventKind)
    requires key !in h.config.keyMapping
    ensures ProcessKeyEvent(h, key, kind) == Reaction(false, h, [])
  {
  }

  /** A press while nothing repeats emits its action exactly once; a move
      then repeats with the timer started once for the delay plus the extra
      delay, soft drop becomes current with no timer, and any other action
      leaves the state alone. */
  lemma PressWhileIdle(h: Handler, key: int)
    requires key in h.config.keyMapping && !h.repeating
    ensures var a := h.config.keyMapping[key];
      var r := ProcessKeyEvent(h, key, KeyPress);
      && r.handled && r.signals == [Triggered(a)]
      && (IsMove(a) ==> r.handler.repeating && r.handler.current == a
                        && r.handler.timer == Timer(true, true, h.config.autoRepeatDelay + h.extraDelay))
      && (a == SoftDrop ==> r.handler.repeating && r.handler.current == SoftDrop && r.handler.timer == h.timer)
      && (!IsMove(a) && a != SoftDrop ==> r.handler == h)
  {
  }

  /** While repeating, a move press is swallowed, whatever its direction, and
      any other action is still emitted; the state does not change. */
  lemma PressWhileRepeating(h: Handler, key: int)
    requires key in h.config.keyMapping && h.repeating
    ensures var a := h.config.keyMapping[key];
      var r := ProcessKeyEvent(h, key, KeyPress);
      && r.handled && r.handler == h
      && (r.signals == [] <==> IsMove(a))
      && (!IsMove(a) ==> r.signals == [Triggered(a)])
  {
  }

  /** Releasing the current action ends the repeat; releasing any other key
      leaves the state alone. Releasing soft drop emits `Released(SoftDrop)`
      in both cases, and no other release emits anything. */
  lemma ReleaseEffect(h: Handler, key: int)
    requires key in h.config.keyMapping
    ensures var a := h.config.keyMapping[key];
      var r := ProcessKeyEvent(h, key, KeyRelease);
      && r.handled
      && (h.repeating && a == h.current ==>
            !r.handler.repeating && r.handler.current == ActionCount && !r.handler.timer.active)
      && (!(h.repeating && a == h.current) ==> r.handler == h)
      && (r.signals == [Released(SoftDrop)] <==> a == SoftDrop)
      && (a != SoftDrop ==> r.signals == [])
  {
  }

  /** Only presses emit `Triggered`, only releases emit `Released`. */
  lemma SignalKinds(h: Handler, key: int, kind: EventKind)
    ensures forall s :: s in ProcessKeyEvent(h, key, kind).signals ==>
      (s.Triggered? <==> kind == KeyPress) && (s.Released? <==> kind == KeyRelease)
  {
  }

  /** Press then release of the same move key, with no timeout in between,
      emits the move once and returns to the state before the press, apart
      from the stopped timer's settings. */
  lemma TapMove(h: Handler, key: int)
    requires Consistent(h) && !h.repeating
    requires key in h.config.keyMapping && IsMove(h.config.keyMapping[key])
    ensures var p := ProcessKeyEvent(h, key, KeyPress);
      var q := ProcessKeyEvent(p.handler, key, KeyRelease);
      && p.signals + q.signals == [Triggered(h.config.keyMapping[key])]
      && q.handler == h.(timer := q.handler.timer) && !q.handler.timer.active
  {
  }

  /** Holding a move key: the press emits it once, and every later timer
      expiry emits it again and keeps the timer periodic at the repeat interval. */
  lemma HoldMoveRepeats(h: Handler, key: int)
    requires Consistent(h) && !h.repeating
    requires key in h.config.keyMapping && IsMove(h.config.keyMapping[key])
    ensures var a := h.config.keyMapping[key];
      var p := ProcessKeyEvent(h, key, KeyPress).handler;
      var t1 := OnAutoRepeat(p);
      var t2 := OnAutoRepeat(t1.0);
      && t1.1 == [Triggered(a)] && t2.1 == [Triggered(a)]
      && t2.0 == t1.0 && t1.0.timer == Timer(true, false, h.config.autoRepeatInterval)
  {
  }

  /** Every transition keeps the handler consistent. */
  lemma ConsistentKept(h: Handler, key: int, kind: EventKind, level: int, config: InputConfig)
    requires Consistent(h)
    ensures Consistent(ProcessKeyEvent(h, key, kind).handler)
    ensures h.timer.active ==> Consistent(OnAutoRepeat(h).0)
    ensures Consistent(UpdateAutoRepeatDelay(h, level))
    ensures Consistent(SetInputConfig(h, config))
  {
  }

  /** The constructed handler is consistent, and so the soft-drop state never
      has a running timer: a held soft drop key is never auto-repeated. */
  lemma SoftDropNeverTimed(h: Handler)
    requires Consistent(h) && h.current == SoftDrop
    ensures !h.timer.active
  {
  }

  lemma NewHandlerConsistent()
    ensures Consistent(NewHandler())
  {
  }

  /** The extra delay never grows with the level and bottoms out at level 10. */
  lemma ExtraDelayMonotone(h: Handler, a: int, b: int)
    requires a <= b
    ensures UpdateAutoRepeatDelay(h, b).extraDelay <= UpdateAutoRepeatDelay(h, a).extraDelay
    ensures b >= 10 ==> UpdateAutoRepeatDelay(h, b).extraDelay == 0
  {
  }
}
