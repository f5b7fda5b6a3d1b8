/** The input relay of main.rs: the `INPUT_STATE` table the core queries
    through `retro_input_state`, and `handle_input`, which folds SDL
    joystick events into it and shuts the core down on quit. */
module Input {
  import opened Types

  /** The controller port the frontend writes (`PORT`). */
  const PORT: uint32 := 0
  /** libretro's RETRO_DEVICE_JOYPAD. */
  const DEVICE_JOYPAD: uint32 := 1
  /** libretro's joypad ids of the four directions. */
  const ID_UP: uint32 := 4
  const ID_DOWN: uint32 := 5
  const ID_LEFT: uint32 := 6
  const ID_RIGHT: uint32 := 7

  /** `(port, device, index, id)`, the key of the table. */
  datatype InputKey = InputKey(port: uint32, device: uint32, index: uint32, id: uint32)

  type Table = map<InputKey, int16>

  /** The key of joypad button `id` on the frontend's port. */
  function JoypadKey(id: uint32): InputKey
  {
    InputKey(PORT, DEVICE_JOYPAD, 0, id)
  }

  /** What `retro_input_state` answers for a key: the stored level, or 0. */
  function Lookup(t: Table, key: InputKey): int16
  {
    if key in t then t[key] else 0
  }

  /** A key never set reads 0; a key just set reads its new level; setting
      one key leaves every other key's level as it was. */
  lemma LookupAfterSet(t: Table, key: InputKey, level: int16, other: InputKey)
    ensures Lookup(map[], key) == 0
    ensures Lookup(t[key := level], key) == level
    ensures other != key ==> Lookup(t[key := level], other) == Lookup(t, other)
  {
  }

  predicate IsDirectionId(id: uint32)
  {
    ID_UP <= id <= ID_RIGHT
  }

  /** The four direction keys a hat event writes. */
  const DPAD_KEYS: set<InputKey> := {JoypadKey(ID_UP), JoypadKey(ID_DOWN), JoypadKey(ID_LEFT), JoypadKey(ID_RIGHT)}

  /** libretro ids of the eight SNES buttons that are not directions:
      B, Y, SELECT, START, A, X, L, R. */
  const BUTTON_IDS: set<uint32> := {0, 1, 2, 3, 8, 9, 10, 11}

  /** `sdl_to_snes`: an SDL joystick button index to a libretro joypad id. */
  function SdlToSnes(code: uint8): (id: uint32)
    ensures code < 8 ==> id in BUTTON_IDS && !IsDirectionId(id)
    ensures 8 <= code ==> id == code
  {
    match code
    case 0 => 0    // B
    case 1 => 8    // A
    case 2 => 1    // Y
    case 3 => 9    // X
    case 4 => 10   // L
    case 5 => 11   // R
    case 6 => 2    // SELECT
    case 7 => 3    // START
    case _ => code
  }

  /** Distinct SDL buttons 0..7 reach distinct SNES buttons ... */
  lemma SdlToSnesInjective(a: uint8, b: uint8)
    requires a < 8 && b < 8 && SdlToSnes(a) == SdlToSnes(b)
    ensures a == b
  {
  }

  /** ... and every SNES button is reached, so 0..7 is a bijection onto them. */
  lemma SdlToSnesOnto(id: uint32)
    requires id in BUTTON_IDS
    ensures exists code: uint8 :: code < 8 && SdlToSnes(code) == id
  {
    var code: uint8 :=
      if id == 0 then 0 else if id == 8 then 1 else if id == 1 then 2 else if id == 9 then 3
      else if id == 10 then 4 else if id == 11 then 5 else if id == 2 then 6 else 7;
    assert SdlToSnes(code) == id;
  }

  /** SDL's nine hat positions. */
  datatype HatState = Centered | Up | Down | Left | Right | RightUp | RightDown | LeftUp | LeftDown

  /** The compass components a hat position points along. */
  predicate PointsUp(s: HatState) { s.Up? || s.RightUp? || s.LeftUp? }
  predicate PointsDown(s: HatState) { s.Down? || s.RightDown? || s.LeftDown? }
  predicate PointsLeft(s: HatState) { s.Left? || s.LeftUp? || s.LeftDown? }
  predicate PointsRight(s: HatState) { s.Right? || s.RightUp? || s.RightDown? }

  predicate IsCardinal(s: HatState) { s.Up? || s.Down? || s.Left? || s.Right? }
  predicate IsDiagonal(s: HatState) { s.RightUp? || s.RightDown? || s.LeftUp? || s.LeftDown? }

  /** The levels of the up, down, left and right keys. */
  datatype Dpad = Dpad(up: int16, down: int16, left: int16, right: int16)

  function Level(pressed: bool): int16
  {
    if pressed then 1 else 0
  }

  /** How many of the four keys are non-zero. */
  function Pressed(d: Dpad): nat
  {
    (if d.up != 0 then 1 else 0) + (if d.down != 0 then 1 else 0)
    + (if d.left != 0 then 1 else 0) + (if d.right != 0 then 1 else 0)
  }

  /** The nine-state table of the `JoyHatMotion` arm. */
  function HatLevels(s: HatState): (d: Dpad)
    ensures d == Dpad(Level(PointsUp(s)), Level(PointsDown(s)), Level(PointsLeft(s)), Level(PointsRight(s)))
    ensures !(d.up == 1 && d.down == 1) && !(d.left == 1 && d.right == 1)
    ensures s.Centered? <==> Pressed(d) == 0
    ensures IsCardinal(s) <==> Pressed(d) == 1
    ensures IsDiagonal(s) <==> Pressed(d) == 2
  {
    match s
    case Centered => Dpad(0, 0, 0, 0)
    case Up => Dpad(1, 0, 0, 0)
    case Down => Dpad(0, 1, 0, 0)
    case Left => Dpad(0, 0, 1, 0)
    case Right => Dpad(0, 0, 0, 1)
    case RightUp => Dpad(1, 0, 0, 1)
    case RightDown => Dpad(0, 1, 0, 1)
    case LeftUp => Dpad(1, 0, 1, 0)
    case LeftDown => Dpad(0, 1, 1, 0)
  }

  /** The direction levels a table reports. */
  function DpadOf(t: Table): Dpad
  {
    Dpad(Lookup(t, JoypadKey(ID_UP)), Lookup(t, JoypadKey(ID_DOWN)),
         Lookup(t, JoypadKey(ID_LEFT)), Lookup(t, JoypadKey(ID_RIGHT)))
  }

  /** A hat event: all four direction keys are overwritten, no other key is. */
  function ApplyHat(t: Table, s: HatState): (t': Table)
    ensures t'.Keys == t.Keys + DPAD_KEYS
    ensures forall k | k in t && k !in DPAD_KEYS :: t'[k] == t[k]
    ensures DpadOf(t') == HatLevels(s)
  {
    var d := HatLevels(s);
    t[JoypadKey(ID_UP) := d.up][JoypadKey(ID_DOWN) := d.down]
     [JoypadKey(ID_LEFT) := d.left][JoypadKey(ID_RIGHT) := d.right]
  }

  /** A hat event wipes out every earlier hat event. */
  lemma HatOverwrites(t: Table, s1: HatState, s2: HatState)
    ensures ApplyHat(ApplyHat(t, s1), s2) == ApplyHat(t, s2)
  {
  }

  /** Applying the same hat event twice is applying it once. */
  lemma HatIdempotent(t: Table, s: HatState)
    ensures ApplyHat(ApplyHat(t, s), s) == ApplyHat(t, s)
  {
    HatOverwrites(t, s, s);
  }

  /** A button event: indices 0..7 set their SNES button, others are ignored. */
  function ApplyButton(t: Table, code: uint8, level: int16): (t': Table)
    ensures code < 8 ==> Lookup(t', JoypadKey(SdlToSnes(code))) == level
    ensures code < 8 ==> forall k | k != JoypadKey(SdlToSnes(code)) :: Lookup(t', k) == Lookup(t, k)
    ensures 8 <= code ==> t' == t
    ensures DpadOf(t') == DpadOf(t)
  {
    if code < 8 then t[JoypadKey(SdlToSnes(code)) := level] else t
  }

  /** SDL keycodes; only Escape matters here. */
  datatype Keycode = Escape | OtherKey(sym: int)

  /** The SDL events `handle_input` distinguishes; everything else is
      `OtherEvent`. */
  datatype Event =
    | Quit
    | KeyDown(keycode: Option<Keycode>)
    | JoyButtonDown(buttonIdx: uint8)
    | JoyButtonUp(buttonIdx: uint8)
    | JoyHatMotion(state: HatState)
    | OtherEvent

  /** A window close or a press of Escape. */
  predicate IsQuit(e: Event)
  {
    e.Quit? || e == KeyDown(Some(Escape))
  }

  predicate HasQuit(events: seq<Event>)
  {
    exists i | 0 <= i < |events| :: IsQuit(events[i])
  }

  /** The table after one event other than a quit. */
  function ApplyEvent(t: Table, e: Event): (t': Table)
    ensures !e.JoyHatMotion? ==> DpadOf(t') == DpadOf(t)
    ensures !e.JoyButtonDown? && !e.JoyButtonUp? && !e.JoyHatMotion? ==> t' == t
  {
    match e
    case JoyButtonDown(idx) => ApplyButton(t, idx, 1)
    case JoyButtonUp(idx) => ApplyButton(t, idx, 0)
    case JoyHatMotion(s) => ApplyHat(t, s)
    case _ => t
  }

  /** The table after a batch of events: applied in order up to, and not
      including, the first quit. */
  function ApplyEvents(t: Table, events: seq<Event>): Table
    decreases |events|
  {
    if events == [] || IsQuit(events[0]) then t
    else ApplyEvents(ApplyEvent(t, events[0]), events[1..])
  }

  /** Without a quit in `a`, a batch `a + b` is `a` followed by `b`. */
  lemma {:induction false} ApplyEventsAppend(t: Table, a: seq<Event>, b: seq<Event>)
    requires !HasQuit(a)
    ensures ApplyEvents(t, a + b) == ApplyEvents(ApplyEvents(t, a), b)
    decreases |a|
  {
    if a != [] {
      assert !IsQuit(a[0]);
      assert (a + b)[0] == a[0];
      assert (a + b)[1..] == a[1..] + b;
      assert !HasQuit(a[1..]) by {
        forall i | 0 <= i < |a[1..]|
          ensures !IsQuit(a[1..][i])
        {
          assert a[1..][i] == a[i + 1];
        }
      }
      ApplyEventsAppend(ApplyEvent(t, a[0]), a[1..], b);
    } else {
      assert a + b == b;
    }
  }

  /** Events after the first quit are never applied. */
  lemma QuitDiscardsRest(t: Table, a: seq<Event>, q: Event, b: seq<Event>)
    requires !HasQuit(a) && IsQuit(q)
    ensures ApplyEvents(t, a + [q] + b) == ApplyEvents(t, a)
  {
    assert a + [q] + b == a + ([q] + b);
    ApplyEventsAppend(t, a, [q] + b);
  }

  /** Events other than hat events leave the four direction levels alone. */
  lemma {:induction false} NonHatKeepsDpad(t: Table, events: seq<Event>)
    requires forall i | 0 <= i < |events| :: !events[i].JoyHatMotion?
    ensures DpadOf(ApplyEvents(t, events)) == DpadOf(t)
    decreases |events|
  {
    if events != [] && !IsQuit(events[0]) {
      assert !events[0].JoyHatMotion?;
      assert forall i | 0 <= i < |events[1..]| :: events[1..][i] == events[i + 1];
      NonHatKeepsDpad(ApplyEvent(t, events[0]), events[1..]);
    }
  }

  /** After a batch without a quit, the direction levels are those of the
      last hat event, whatever came before it. */
  lemma LastHatWins(t: Table, a: seq<Event>, s: HatState, b: seq<Event>)
    requires !HasQuit(a + [JoyHatMotion(s)] + b)
    requires forall i | 0 <= i < |b| :: !b[i].JoyHatMotion?
    ensures DpadOf(ApplyEvents(t, a + [JoyHatMotion(s)] + b)) == HatLevels(s)
  {
    var evs := a + [JoyHatMotion(s)] + b;
    assert !HasQuit(a) by {
      forall i | 0 <= i < |a|
        ensures !IsQuit(a[i])
      {
        assert evs[i] == a[i];
      }
    }
    assert evs == a + ([JoyHatMotion(s)] + b);
    ApplyEventsAppend(t, a, [JoyHatMotion(s)] + b);
    var mid := ApplyEvents(t, a);
    assert ([JoyHatMotion(s)] + b)[1..] == b;
    assert ApplyEvents(mid, [JoyHatMotion(s)] + b) == ApplyEvents(ApplyHat(mid, s), b);
    NonHatKeepsDpad(ApplyHat(mid, s), b);
  }

  /** The calls `handle_input` makes into the core. */
  datatype CoreCall = UnloadGame | Deinit

  /** `INPUT_STATE`, with the process-level effects of `handle_input`: the
      calls made into the core and the exit status once it has exited. */
  class InputTable {
    var table: Table
    ghost var coreCalls: seq<CoreCall>
    ghost var exitStatus: Option<int>

    constructor ()
      ensures table == map[] && coreCalls == [] && exitStatus == None
    {
      table := map[];
      coreCalls := [];
      exitStatus := None;
    }

    /** `retro_input_state`. */
    method State(port: uint32, device: uint32, index: uint32, id: uint32) returns (level: int16)
      ensures level == Lookup(table, InputKey(port, device, index, id))
      ensures InputKey(port, device, index, id) !in table ==> level == 0
    {
      var key := InputKey(port, device, index, id);
      level := if key in table then table[key] else 0;
    }

    /** `handle_input` over the events one pump delivers. */
    method HandleInput(events: seq<Event>)
      requires exitStatus == None
      modifies this
      ensures table == ApplyEvents(old(table), events)
      ensures HasQuit(events) ==> coreCalls == old(coreCalls) + [UnloadGame, Deinit] && exitStatus == Some(0)
      ensures !HasQuit(events) ==> coreCalls == old(coreCalls) && exitStatus == None
    {
      var i := 0;
      while i < |events|
        invariant 0 <= i <= |events|
        invariant !HasQuit(events[..i])
        invariant table == ApplyEvents(old(table), events[..i])
        invariant coreCalls == old(coreCalls) && exitStatus == None
      {
        var event := events[i];
        assert events[..i + 1] == events[..i] + [event];
        match event {
          case Quit | KeyDown(Some(Escape)) =>
            coreCalls := coreCalls + [UnloadGame];
            coreCalls := coreCalls + [Deinit];
            exitStatus := Some(0);
            assert events == events[..i] + [event] + events[i + 1..];
            QuitDiscardsRest(old(table), events[..i], event, events[i + 1..]);
            return;
          case JoyButtonDown(buttonIdx) =>
            if buttonIdx < 8 {
              table := table[JoypadKey(SdlToSnes(buttonIdx)) := 1];
            }
          case JoyButtonUp(buttonIdx) =>
            if buttonIdx < 8 {
              table := table[JoypadKey(SdlToSnes(buttonIdx)) := 0];
            }
          case JoyHatMotion(state) =>
            var d := HatLevels(state);
            table := table[JoypadKey(ID_UP) := d.up];
            table := table[JoypadKey(ID_DOWN) := d.down];
            table := table[JoypadKey(ID_LEFT) := d.left];
            table := table[JoypadKey(ID_RIGHT) := d.right];
          case _ =>
        }
        assert !IsQuit(event);
        ApplyEventsAppend(old(table), events[..i], [event]);
        i := i + 1;
      }
      assert events[..i] == events;
    }
  }
}
