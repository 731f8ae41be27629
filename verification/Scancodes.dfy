/** The Set 1 scancode decoder, one byte at a time, and what its modifier word means. */
module Scancodes {
  import opened Memory

  // Key codes number the keys in scancode order, so the main table is the identity where it is filled.
  const KEY_NONE := 0
  const KEY_LEFT_CTRL := 29
  const KEY_LEFT_SHIFT := 42
  const KEY_RIGHT_SHIFT := 54
  const KEY_LEFT_ALT := 56
  const KEY_CAPS_LOCK := 58
  const KEY_NUM_LOCK := 69
  const KEY_SCROLL_LOCK := 70
  const KEY_KP_DOT := 83
  const KEY_F11 := 84
  const KEY_F12 := 85
  const KEY_KP_ENTER := 86
  const KEY_RIGHT_CTRL := 87
  const KEY_KP_SLASH := 88
  const KEY_RIGHT_ALT := 89
  const KEY_HOME := 90
  const KEY_ARROW_UP := 91
  const KEY_PAGE_UP := 92
  const KEY_ARROW_LEFT := 93
  const KEY_ARROW_RIGHT := 94
  const KEY_END := 95
  const KEY_ARROW_DOWN := 96
  const KEY_PAGE_DOWN := 97
  const KEY_INSERT := 98
  const KEY_DELETE := 99

  type Mods = bv32
  const SHIFT: Mods := 0x01
  const CTRL: Mods := 0x02
  const ALT: Mods := 0x04
  const ALTGR: Mods := 0x08
  const CAPS: Mods := 0x10
  const NUM: Mods := 0x20
  const SCROLL: Mods := 0x40

  /** keymap_translate_keycode, left abstract. */
  datatype Translated = Translated(codepoint: nat, isText: bool)
  type Keymap = (nat, Mods) -> Translated

  datatype Event = Event(keycode: nat, pressed: bool, repeat: bool, mods: Mods, codepoint: nat, isText: bool)

  // ---------------------------------------------------------------- tables

  function MainKey(index: nat): (k: nat) {
    if 1 <= index <= KEY_KP_DOT then index
    else if index == 0x57 then KEY_F11
    else if index == 0x58 then KEY_F12
    else KEY_NONE
  }

  function ExtendedKey(index: nat): (k: nat) {
    match index
    case 0x1C => KEY_KP_ENTER
    case 0x1D => KEY_RIGHT_CTRL
    case 0x35 => KEY_KP_SLASH
    case 0x38 => KEY_RIGHT_ALT
    case 0x47 => KEY_HOME
    case 0x48 => KEY_ARROW_UP
    case 0x49 => KEY_PAGE_UP
    case 0x4B => KEY_ARROW_LEFT
    case 0x4D => KEY_ARROW_RIGHT
    case 0x4F => KEY_END
    case 0x50 => KEY_ARROW_DOWN
    case 0x51 => KEY_PAGE_DOWN
    case 0x52 => KEY_INSERT
    case 0x53 => KEY_DELETE
    case _ => KEY_NONE
  }

  /** keyboard_keycode_from_set1. */
  function Keycode(scancode: byte, extended: bool): (k: nat) {
    if extended then ExtendedKey(scancode % 0x80) else MainKey(scancode % 0x80)
  }

  /** The scancode of a key: the inverse of the tables. */
  function ScancodeOf(key: nat): (p: Press)
    requires 1 <= key <= KEY_DELETE
  {
    if key <= KEY_KP_DOT then Press(false, key)
    else if key == KEY_F11 then Press(false, 0x57)
    else if key == KEY_F12 then Press(false, 0x58)
    else if key == KEY_KP_ENTER then Press(true, 0x1C)
    else if key == KEY_RIGHT_CTRL then Press(true, 0x1D)
    else if key == KEY_KP_SLASH then Press(true, 0x35)
    else if key == KEY_RIGHT_ALT then Press(true, 0x38)
    else if key <= KEY_PAGE_UP then Press(true, 0x47 + (key - KEY_HOME))
    else if key == KEY_ARROW_LEFT then Press(true, 0x4B)
    else if key == KEY_ARROW_RIGHT then Press(true, 0x4D)
    else Press(true, 0x4F + (key - KEY_END))
  }

  /** Every key has exactly one scancode, and a release differs from a press only in the top bit. */
  lemma KeysAndScancodes(code: byte, extended: bool)
    ensures Keycode(code, extended) <= KEY_DELETE
    ensures Keycode(code, extended) != KEY_NONE ==>
      ScancodeOf(Keycode(code, extended)) == Press(extended, code % 0x80)
    ensures forall key {:trigger ScancodeOf(key)} :: 1 <= key <= KEY_DELETE ==>
      ScancodeOf(key).Down() && ScancodeOf(key).Key() == key
  {
  }

  function SetBit(m: Mods, bit: Mods, on: bool): (r: Mods) {
    if on then m | bit else m & !bit
  }

  function FlipBit(m: Mods, bit: Mods): (r: Mods) { m ^ bit }

  /** update_modifier. */
  function Updated(m: Mods, key: nat, pressed: bool): (r: Mods) {
    if key == KEY_LEFT_SHIFT || key == KEY_RIGHT_SHIFT then SetBit(m, SHIFT, pressed)
    else if key == KEY_LEFT_CTRL || key == KEY_RIGHT_CTRL then SetBit(m, CTRL, pressed)
    else if key == KEY_LEFT_ALT then SetBit(m, ALT, pressed)
    else if key == KEY_RIGHT_ALT then SetBit(m, ALTGR, pressed)
    else if key == KEY_CAPS_LOCK then (if pressed then FlipBit(m, CAPS) else m)
    else if key == KEY_NUM_LOCK then (if pressed then FlipBit(m, NUM) else m)
    else if key == KEY_SCROLL_LOCK then (if pressed then FlipBit(m, SCROLL) else m)
    else m
  }

  // ---------------------------------------------------------------- the decoder

  /** current_mods and pending_extended. */
  datatype State = State(mods: Mods, pending: bool)

  /** The event of a key, with the modifiers as they are after it. */
  function EventOf(layout: Keymap, key: nat, pressed: bool, mods: Mods): (ev: Event) {
    var t := layout(key, mods);
    Event(key, pressed, false, mods, t.codepoint, t.isText && pressed)
  }

  class Keyboard {
    const keymap: Keymap
    var currentMods: Mods
    var pendingExtended: bool

    constructor (keymap: Keymap)
      ensures this.keymap == keymap && View() == State(0, false)
    {
      this.keymap := keymap;
      currentMods, pendingExtended := 0, false;
    }

    function View(): (s: State)
      reads this
    {
      State(currentMods, pendingExtended)
    }

    /** keyboard_init: a prefix byte already received stays pending. */
    method Init()
      modifies `currentMods
      ensures View() == Initialised(old(View()))
    {
      currentMods := 0;
    }

    /** If the bits told the history of key events so far, they tell it with this event added. */
    method UpdateModifier(key: nat, pressed: bool)
      modifies `currentMods
      ensures currentMods == Updated(old(currentMods), key, pressed)
      ensures forall ps, p: Press :: p.Key() == key && p.Down() == pressed && Tells(old(currentMods), ps) ==>
        Tells(currentMods, ps + [p])
    {
      UpdateTells(currentMods, key, pressed);
      if key == KEY_LEFT_SHIFT || key == KEY_RIGHT_SHIFT {
        currentMods := SetBit(currentMods, SHIFT, pressed);
      } else if key == KEY_LEFT_CTRL || key == KEY_RIGHT_CTRL {
        currentMods := SetBit(currentMods, CTRL, pressed);
      } else if key == KEY_LEFT_ALT {
        currentMods := SetBit(currentMods, ALT, pressed);
      } else if key == KEY_RIGHT_ALT {
        currentMods := SetBit(currentMods, ALTGR, pressed);
      } else if key == KEY_CAPS_LOCK {
        if pressed { currentMods := FlipBit(currentMods, CAPS); }
      } else if key == KEY_NUM_LOCK {
        if pressed { currentMods := FlipBit(currentMods, NUM); }
      } else if key == KEY_SCROLL_LOCK {
        if pressed { currentMods := FlipBit(currentMods, SCROLL); }
      }
    }

    /** keyboard_handle_set1_scancode. */
    method HandleScancode(scancode: byte) returns (events: seq<Event>)
      modifies this
      ensures View() == Step(keymap, old(View()), scancode).state
      ensures events == Step(keymap, old(View()), scancode).events
    {
      if scancode == 0xE0 {
        pendingExtended := true;
        return [];
      }
      var extended := pendingExtended;
      pendingExtended := false;
      var pressed := scancode < 0x80;
      var key := Keycode(scancode, extended);
      if key == KEY_NONE { return []; }
      UpdateModifier(key, pressed);
      return [EventOf(keymap, key, pressed, currentMods)];
    }
  }

  datatype Outcome = Outcome(state: State, events: seq<Event>)

  /** keyboard_init on the state. */
  function Initialised(s: State): (r: State) { State(0, s.pending) }

  /** What one byte does. */
  function Step(layout: Keymap, s: State, b: byte): (r: Outcome) {
    if b == 0xE0 then Outcome(s.(pending := true), [])
    else
      var r := Pressed(layout, s.mods, Press(s.pending, b));
      Outcome(State(r.state.mods, false), r.events)
  }

  /** All bytes, one at a time. */
  function Run(layout: Keymap, s: State, bytes: seq<byte>): (r: Outcome)
    decreases |bytes|
  {
    if bytes == [] then Outcome(s, [])
    else
      var before := Run(layout, s, bytes[..|bytes| - 1]);
      var last := Step(layout, before.state, bytes[|bytes| - 1]);
      Outcome(last.state, before.events + last.events)
  }

  // ---------------------------------------------------------------- parse, then fold

  /** A scancode with or without the 0xE0 prefix. */
  datatype Press = Press(extended: bool, code: byte) {
    function Key(): (k: nat) { Keycode(code, extended) }
    predicate Down() { code < 0x80 }
  }

  function Presses(bytes: seq<byte>, pending: bool): (ps: seq<Press>) {
    if bytes == [] then []
    else if bytes[0] == 0xE0 then Presses(bytes[1..], true)
    else [Press(pending, bytes[0])] + Presses(bytes[1..], false)
  }

  function PendingAfter(bytes: seq<byte>, pending: bool): (p: bool) {
    if bytes == [] then pending else bytes[|bytes| - 1] == 0xE0
  }

  function Pressed(layout: Keymap, m: Mods, p: Press): (r: Outcome) {
    if p.Key() == KEY_NONE then Outcome(State(m, false), [])
    else
      var m' := Updated(m, p.Key(), p.Down());
      Outcome(State(m', false), [EventOf(layout, p.Key(), p.Down(), m')])
  }

  function Fold(layout: Keymap, m: Mods, ps: seq<Press>): (r: Outcome)
    decreases |ps|
  {
    if ps == [] then Outcome(State(m, false), [])
    else
      var before := Fold(layout, m, ps[..|ps| - 1]);
      var last := Pressed(layout, before.state.mods, ps[|ps| - 1]);
      Outcome(last.state, before.events + last.events)
  }

  lemma {:induction false} PressesOfLonger(bytes: seq<byte>, b: byte, pending: bool)
    ensures Presses(bytes + [b], pending)
         == Presses(bytes, pending) + (if b == 0xE0 then [] else [Press(PendingAfter(bytes, pending), b)])
    decreases |bytes|
  {
    var longer := bytes + [b];
    if bytes == [] {
      assert longer[1..] == [];
    } else {
      assert longer[0] == bytes[0] && longer[1..] == bytes[1..] + [b];
      var pending' := bytes[0] == 0xE0;
      PressesOfLonger(bytes[1..], b, pending');
      assert PendingAfter(bytes[1..], pending') == PendingAfter(bytes, pending);
    }
  }

  /** Decoding byte by byte is parsing into presses and folding over them: same modifiers, same events. */
  lemma {:induction false} RunIsParseThenFold(layout: Keymap, s: State, bytes: seq<byte>)
    ensures var r, f := Run(layout, s, bytes), Fold(layout, s.mods, Presses(bytes, s.pending));
      && r.state == State(f.state.mods, PendingAfter(bytes, s.pending))
      && r.events == f.events
    decreases |bytes|
  {
    if bytes != [] {
      var n := |bytes| - 1;
      var b, front := bytes[n], bytes[..n];
      assert bytes == front + [b];
      RunIsParseThenFold(layout, s, front);
      PressesOfLonger(front, b, s.pending);
      if b != 0xE0 {
        var ps, p := Presses(front, s.pending), Press(PendingAfter(front, s.pending), b);
        assert (ps + [p])[..|ps|] == ps;
      } else {
        var ps := Presses(front, s.pending);
        assert ps + [] == ps;
      }
    }
  }

  // ---------------------------------------------------------------- what the modifiers mean

  /** Whether the latest event of one of two keys was a press. */
  function LatestDown(ps: seq<Press>, k1: nat, k2: nat): (d: bool) {
    if ps == [] then false
    else
      var p := ps[|ps| - 1];
      if p.Key() == k1 || p.Key() == k2 then p.Down() else LatestDown(ps[..|ps| - 1], k1, k2)
  }

  /** How often a key was pressed. */
  function Count(ps: seq<Press>, k: nat): (n: nat) {
    if ps == [] then 0
    else Count(ps[..|ps| - 1], k) + if ps[|ps| - 1].Key() == k && ps[|ps| - 1].Down() then 1 else 0
  }

  /** The bits of a modifier word, and whether any other bit is set. */
  datatype Bits =
    Bits(shift: bool, ctrl: bool, alt: bool, altgr: bool, caps: bool, num: bool, scroll: bool, others: bool)

  function BitsOf(m: Mods): (b: Bits) {
    Bits(m & 0x01 != 0, m & 0x02 != 0, m & 0x04 != 0, m & 0x08 != 0, m & 0x10 != 0, m & 0x20 != 0, m & 0x40 != 0,
         m & !0x7F != 0)
  }

  /** What the bits should be after these presses. */
  function Expected(ps: seq<Press>): (b: Bits) {
    Bits(LatestDown(ps, KEY_LEFT_SHIFT, KEY_RIGHT_SHIFT), LatestDown(ps, KEY_LEFT_CTRL, KEY_RIGHT_CTRL),
         LatestDown(ps, KEY_LEFT_ALT, KEY_LEFT_ALT), LatestDown(ps, KEY_RIGHT_ALT, KEY_RIGHT_ALT),
         Count(ps, KEY_CAPS_LOCK) % 2 == 1, Count(ps, KEY_NUM_LOCK) % 2 == 1, Count(ps, KEY_SCROLL_LOCK) % 2 == 1,
         false)
  }

  lemma SetShift(m: Mods, on: bool)
    ensures BitsOf(SetBit(m, SHIFT, on)) == BitsOf(m).(shift := on)
  {
  }

  lemma SetCtrl(m: Mods, on: bool)
    ensures BitsOf(SetBit(m, CTRL, on)) == BitsOf(m).(ctrl := on)
  {
  }

  lemma SetAlt(m: Mods, on: bool)
    ensures BitsOf(SetBit(m, ALT, on)) == BitsOf(m).(alt := on)
  {
  }

  lemma SetAltgr(m: Mods, on: bool)
    ensures BitsOf(SetBit(m, ALTGR, on)) == BitsOf(m).(altgr := on)
  {
  }

  lemma FlipCaps(m: Mods)
    ensures BitsOf(FlipBit(m, CAPS)) == BitsOf(m).(caps := !BitsOf(m).caps)
  {
  }

  lemma FlipNum(m: Mods)
    ensures BitsOf(FlipBit(m, NUM)) == BitsOf(m).(num := !BitsOf(m).num)
  {
  }

  lemma FlipScroll(m: Mods)
    ensures BitsOf(FlipBit(m, SCROLL)) == BitsOf(m).(scroll := !BitsOf(m).scroll)
  {
  }

  /** What one key event does to the bits. */
  function BitsAfter(b: Bits, key: nat, on: bool): (r: Bits) {
    if key == KEY_LEFT_SHIFT || key == KEY_RIGHT_SHIFT then b.(shift := on)
    else if key == KEY_LEFT_CTRL || key == KEY_RIGHT_CTRL then b.(ctrl := on)
    else if key == KEY_LEFT_ALT then b.(alt := on)
    else if key == KEY_RIGHT_ALT then b.(altgr := on)
    else if key == KEY_CAPS_LOCK then b.(caps := b.caps != on)
    else if key == KEY_NUM_LOCK then b.(num := b.num != on)
    else if key == KEY_SCROLL_LOCK then b.(scroll := b.scroll != on)
    else b
  }

  lemma EachBit(b: Bits, key: nat, on: bool)
    ensures BitsAfter(b, key, on) == Bits(
      if key == KEY_LEFT_SHIFT || key == KEY_RIGHT_SHIFT then on else b.shift,
      if key == KEY_LEFT_CTRL || key == KEY_RIGHT_CTRL then on else b.ctrl,
      if key == KEY_LEFT_ALT then on else b.alt,
      if key == KEY_RIGHT_ALT then on else b.altgr,
      if key == KEY_CAPS_LOCK then b.caps != on else b.caps,
      if key == KEY_NUM_LOCK then b.num != on else b.num,
      if key == KEY_SCROLL_LOCK then b.scroll != on else b.scroll,
      b.others)
  {
  }

  lemma UpdatedBits(m: Mods, key: nat, on: bool)
    ensures BitsOf(Updated(m, key, on)) == BitsAfter(BitsOf(m), key, on)
  {
    if key == KEY_LEFT_SHIFT || key == KEY_RIGHT_SHIFT {
      SetShift(m, on);
    } else if key == KEY_LEFT_CTRL || key == KEY_RIGHT_CTRL {
      SetCtrl(m, on);
    } else if key == KEY_LEFT_ALT {
      SetAlt(m, on);
    } else if key == KEY_RIGHT_ALT {
      SetAltgr(m, on);
    } else if on {
      if key == KEY_CAPS_LOCK { FlipCaps(m); }
      if key == KEY_NUM_LOCK { FlipNum(m); }
      if key == KEY_SCROLL_LOCK { FlipScroll(m); }
    }
  }

  lemma LatestNext(ps: seq<Press>, p: Press, k1: nat, k2: nat)
    ensures LatestDown(ps + [p], k1, k2) == if p.Key() == k1 || p.Key() == k2 then p.Down() else LatestDown(ps, k1, k2)
  {
    assert (ps + [p])[..|ps|] == ps;
  }

  lemma ParityNext(ps: seq<Press>, p: Press, k: nat)
    ensures var odd, odd' := Count(ps, k) % 2 == 1, Count(ps + [p], k) % 2 == 1;
      odd' == if p.Key() == k then odd != p.Down() else odd
  {
    assert (ps + [p])[..|ps|] == ps;
  }

  lemma ExpectedNext(ps: seq<Press>, p: Press)
    ensures Expected(ps + [p]) == BitsAfter(Expected(ps), p.Key(), p.Down())
  {
    LatestNext(ps, p, KEY_LEFT_SHIFT, KEY_RIGHT_SHIFT);
    LatestNext(ps, p, KEY_LEFT_CTRL, KEY_RIGHT_CTRL);
    LatestNext(ps, p, KEY_LEFT_ALT, KEY_LEFT_ALT);
    LatestNext(ps, p, KEY_RIGHT_ALT, KEY_RIGHT_ALT);
    ParityNext(ps, p, KEY_CAPS_LOCK);
    ParityNext(ps, p, KEY_NUM_LOCK);
    ParityNext(ps, p, KEY_SCROLL_LOCK);
    EachBit(Expected(ps), p.Key(), p.Down());
  }

  /** The modifier word says what it should after these presses. */
  predicate Tells(m: Mods, ps: seq<Press>) { BitsOf(m) == Expected(ps) }

  lemma UpdateTellsNext(m: Mods, ps: seq<Press>, p: Press)
    requires Tells(m, ps)
    ensures Tells(Updated(m, p.Key(), p.Down()), ps + [p])
  {
    UpdatedBits(m, p.Key(), p.Down());
    ExpectedNext(ps, p);
  }

  lemma UpdateTells(m: Mods, key: nat, on: bool)
    ensures forall ps, p: Press :: p.Key() == key && p.Down() == on && Tells(m, ps) ==>
      Tells(Updated(m, key, on), ps + [p])
  {
    forall ps, p: Press | p.Key() == key && p.Down() == on && Tells(m, ps)
      ensures Tells(Updated(m, key, on), ps + [p])
    {
      UpdateTellsNext(m, ps, p);
    }
  }

  lemma {:induction false} FoldMeans(layout: Keymap, ps: seq<Press>)
    ensures Tells(Fold(layout, 0, ps).state.mods, ps)
    decreases |ps|
  {
    if ps != [] {
      var front, p := ps[..|ps| - 1], ps[|ps| - 1];
      FoldMeans(layout, front);
      UpdateTellsNext(Fold(layout, 0, front).state.mods, front, p);
      assert ps == front + [p];
    }
  }

  /** From reset, after any bytes: SHIFT and CTRL tell whether the latest event of the left or right key was
      a press, ALT and ALTGR the same for their one key, the locks the parity of their presses; no other
      bit is ever set. */
  lemma ModifiersMean(layout: Keymap, bytes: seq<byte>)
    ensures BitsOf(Run(layout, State(0, false), bytes).state.mods) == Expected(Presses(bytes, false))
  {
    RunIsParseThenFold(layout, State(0, false), bytes);
    FoldMeans(layout, Presses(bytes, false));
  }

  // ---------------------------------------------------------------- events

  /** The scancodes that have a key, without and with the prefix. */
  predicate HasKey(code: int, extended: bool) {
    if extended then
      code in {0x1C, 0x1D, 0x35, 0x38, 0x47, 0x48, 0x49, 0x4B, 0x4D, 0x4F, 0x50, 0x51, 0x52, 0x53}
    else 0x01 <= code <= 0x53 || code == 0x57 || code == 0x58
  }

  lemma KeyOrNone(code: byte, extended: bool)
    ensures Keycode(code, extended) != KEY_NONE <==> HasKey(code % 0x80, extended)
  {
  }

  /** The keys behind the prefix. */
  lemma ExtendedKeys()
    ensures Keycode(0x1C, true) == KEY_KP_ENTER && Keycode(0x35, true) == KEY_KP_SLASH
    ensures Keycode(0x47, true) == KEY_HOME && Keycode(0x4F, true) == KEY_END
    ensures Keycode(0x48, true) == KEY_ARROW_UP && Keycode(0x50, true) == KEY_ARROW_DOWN
    ensures Keycode(0x4B, true) == KEY_ARROW_LEFT && Keycode(0x4D, true) == KEY_ARROW_RIGHT
    ensures Keycode(0x49, true) == KEY_PAGE_UP && Keycode(0x51, true) == KEY_PAGE_DOWN
    ensures Keycode(0x52, true) == KEY_INSERT && Keycode(0x53, true) == KEY_DELETE
  {
  }

  /** The scancodes of the keys that change modifiers. */
  lemma ModifierKeys()
    ensures Keycode(0x2A, false) == KEY_LEFT_SHIFT && Keycode(0x36, false) == KEY_RIGHT_SHIFT
    ensures Keycode(0x1D, false) == KEY_LEFT_CTRL && Keycode(0x1D, true) == KEY_RIGHT_CTRL
    ensures Keycode(0x38, false) == KEY_LEFT_ALT && Keycode(0x38, true) == KEY_RIGHT_ALT
    ensures Keycode(0x3A, false) == KEY_CAPS_LOCK && Keycode(0x45, false) == KEY_NUM_LOCK
    ensures Keycode(0x46, false) == KEY_SCROLL_LOCK
  {
  }

  /** An event tells of a byte for the given key: pressed or released by its top bit, never a repeat, what the
      layout makes of the key under the modifiers reported, and text only if it is a press. */
  predicate TellsOf(ev: Event, layout: Keymap, key: nat, b: byte) {
    && ev.keycode == key && (ev.pressed <==> b < 0x80) && !ev.repeat
    && ev.codepoint == layout(key, ev.mods).codepoint
    && (ev.isText <==> layout(key, ev.mods).isText && b < 0x80)
  }

  /** One more byte: the prefix only becomes pending; any other byte adds one event if it has a key and none
      otherwise, and the event reports the modifiers as they are after it. */
  lemma StepEvents(layout: Keymap, s: State, b: byte)
    ensures var r := Step(layout, s, b); var key := Keycode(b, s.pending);
      && |r.events| == (if b != 0xE0 && HasKey(b % 0x80, s.pending) then 1 else 0)
      && (r.events != [] ==> TellsOf(r.events[0], layout, key, b) && r.events[0].mods == r.state.mods)
  {
    KeyOrNone(b, s.pending);
  }

  lemma RunLonger(layout: Keymap, s: State, bytes: seq<byte>, b: byte)
    ensures var r, r' := Run(layout, s, bytes), Run(layout, s, bytes + [b]);
      && r'.state == Step(layout, r.state, b).state && r'.events == r.events + Step(layout, r.state, b).events
  {
    assert (bytes + [b])[..|bytes|] == bytes;
  }

  /** From reset, after any bytes, one more: which event it adds, and what each of its fields says. */
  lemma ByteEvent(layout: Keymap, bytes: seq<byte>, b: byte)
    ensures var es := Run(layout, State(0, false), bytes).events;
      var es' := Run(layout, State(0, false), bytes + [b]).events;
      var extended := PendingAfter(bytes, false);
      && es <= es'
      && |es'| == |es| + (if b != 0xE0 && HasKey(b % 0x80, extended) then 1 else 0)
      && (|es'| > |es| ==>
           && TellsOf(es'[|es|], layout, Keycode(b, extended), b)
           && BitsOf(es'[|es|].mods) == Expected(Presses(bytes + [b], false)))
  {
    var s := Run(layout, State(0, false), bytes).state;
    RunLonger(layout, State(0, false), bytes, b);
    RunIsParseThenFold(layout, State(0, false), bytes);
    StepEvents(layout, s, b);
    ModifiersMean(layout, bytes + [b]);
  }

  // ---------------------------------------------------------------- whether a key is held

  /** A key is held if its own latest event was a press. */
  function Held(ps: seq<Press>, k: nat): (h: bool) { LatestDown(ps, k, k) }

  /** Event i releases one of two keys while the other is held. */
  predicate ReleaseAt(ps: seq<Press>, i: nat, k1: nat, k2: nat)
    requires i < |ps|
  {
    !ps[i].Down() && (if ps[i].Key() == k1 then Held(ps[..i], k2) else ps[i].Key() == k2 && Held(ps[..i], k1))
  }

  predicate Untouched(ps: seq<Press>, i: nat, k1: nat, k2: nat) {
    forall j :: i < j < |ps| ==> ps[j].Key() != k1 && ps[j].Key() != k2
  }

  /** One of two keys was released while the other was held, and neither was touched since. */
  ghost predicate ReleasedUnder(ps: seq<Press>, k1: nat, k2: nat) {
    exists i :: 0 <= i < |ps| && ReleaseAt(ps, i, k1, k2) && Untouched(ps, i, k1, k2)
  }

  lemma UnderNext(ps: seq<Press>, p: Press, ps': seq<Press>, k1: nat, k2: nat)
    requires ps' == ps + [p] && p.Key() != k1 && p.Key() != k2
    ensures ReleasedUnder(ps', k1, k2) <==> ReleasedUnder(ps, k1, k2)
  {
    forall i | 0 <= i < |ps|
      ensures ReleaseAt(ps', i, k1, k2) && Untouched(ps', i, k1, k2)
         <==> ReleaseAt(ps, i, k1, k2) && Untouched(ps, i, k1, k2)
    {
      assert ps'[..i] == ps[..i];
      assert forall j :: 0 <= j < |ps| ==> ps'[j] == ps[j];
    }
    assert !ReleaseAt(ps', |ps|, k1, k2);
  }

  lemma UnderLast(ps: seq<Press>, p: Press, ps': seq<Press>, k1: nat, k2: nat)
    requires ps' == ps + [p] && (p.Key() == k1 || p.Key() == k2)
    ensures ReleasedUnder(ps', k1, k2) <==> ReleaseAt(ps', |ps|, k1, k2)
  {
    assert ps'[|ps|] == p;
  }

  /** A bit shared by two keys is set only if one of them is held; it fails to be set although one is held
      exactly when the last event of the two released the other one. */
  lemma {:induction false} SharedBit(ps: seq<Press>, k1: nat, k2: nat)
    requires k1 != k2
    ensures LatestDown(ps, k1, k2) ==> Held(ps, k1) || Held(ps, k2)
    ensures LatestDown(ps, k1, k2) == (Held(ps, k1) || Held(ps, k2)) <==> !ReleasedUnder(ps, k1, k2)
    decreases |ps|
  {
    if ps != [] {
      var front, p := ps[..|ps| - 1], ps[|ps| - 1];
      assert ps == front + [p];
      if p.Key() == k1 || p.Key() == k2 {
        UnderLast(front, p, ps, k1, k2);
      } else {
        SharedBit(front, k1, k2);
        UnderNext(front, p, ps, k1, k2);
      }
    }
  }

  /** From reset, after any bytes: SHIFT tells whether a shift key is held exactly unless one was released
      while the other was held and neither was touched since; the same for CTRL. */
  lemma HeldExactly(layout: Keymap, bytes: seq<byte>)
    ensures var b, ps := BitsOf(Run(layout, State(0, false), bytes).state.mods), Presses(bytes, false);
      && (b.shift == (Held(ps, KEY_LEFT_SHIFT) || Held(ps, KEY_RIGHT_SHIFT))
          <==> !ReleasedUnder(ps, KEY_LEFT_SHIFT, KEY_RIGHT_SHIFT))
      && (b.ctrl == (Held(ps, KEY_LEFT_CTRL) || Held(ps, KEY_RIGHT_CTRL))
          <==> !ReleasedUnder(ps, KEY_LEFT_CTRL, KEY_RIGHT_CTRL))
  {
    ModifiersMean(layout, bytes);
    SharedBit(Presses(bytes, false), KEY_LEFT_SHIFT, KEY_RIGHT_SHIFT);
    SharedBit(Presses(bytes, false), KEY_LEFT_CTRL, KEY_RIGHT_CTRL);
  }

  function Other(shiftKey: nat): (k: nat) {
    if shiftKey == KEY_LEFT_SHIFT then KEY_RIGHT_SHIFT else KEY_LEFT_SHIFT
  }

  /** One more event of a shift key: after a press SHIFT is set and a shift key is held; after a release it
      is clear, and a shift key is held exactly when the other one was held before. */
  lemma ShiftEvent(ps: seq<Press>, p: Press)
    requires p.Key() == KEY_LEFT_SHIFT || p.Key() == KEY_RIGHT_SHIFT
    ensures Expected(ps + [p]).shift == p.Down()
    ensures var held := Held(ps + [p], KEY_LEFT_SHIFT) || Held(ps + [p], KEY_RIGHT_SHIFT);
      held <==> p.Down() || Held(ps, Other(p.Key()))
  {
    LatestNext(ps, p, KEY_LEFT_SHIFT, KEY_RIGHT_SHIFT);
    LatestNext(ps, p, KEY_LEFT_SHIFT, KEY_LEFT_SHIFT);
    LatestNext(ps, p, KEY_RIGHT_SHIFT, KEY_RIGHT_SHIFT);
  }

  /** The same for any bytes, and one more that belongs to a shift key. */
  lemma ShiftByte(layout: Keymap, before: seq<byte>, b: byte)
    requires !PendingAfter(before, false) && (b % 0x80 == 0x2A || b % 0x80 == 0x36)
    ensures var ps, bits := Presses(before + [b], false), BitsOf(Run(layout, State(0, false), before + [b]).state.mods);
      && bits.shift == (b < 0x80)
      && (bits.shift == (Held(ps, KEY_LEFT_SHIFT) || Held(ps, KEY_RIGHT_SHIFT))
          <==> b < 0x80 || !Held(Presses(before, false), Other(b % 0x80)))
  {
    ModifiersMean(layout, before + [b]);
    PressesOfLonger(before, b, false);
    ShiftEvent(Presses(before, false), Press(false, b));
  }

  /** Left shift down, right shift down, left shift up: right shift is held and SHIFT is clear. */
  lemma HeldButClear(layout: Keymap)
    ensures Held(Presses([0x2A, 0x36, 0xAA], false), KEY_RIGHT_SHIFT)
    ensures !BitsOf(Run(layout, State(0, false), [0x2A, 0x36, 0xAA]).state.mods).shift
  {
    var before: seq<byte> := [0x2A, 0x36];
    assert before + [0xAA] == [0x2A, 0x36, 0xAA];
    ShiftByte(layout, before, 0xAA);
    PressesOfLonger([0x2A], 0x36, false);
    assert [0x2A] + [0x36] == before;
    PressesOfLonger(before, 0xAA, false);
    var ps := Presses([0x2A], false);
    LatestNext(ps, Press(false, 0x36), KEY_RIGHT_SHIFT, KEY_RIGHT_SHIFT);
    LatestNext(ps + [Press(false, 0x36)], Press(false, 0xAA), KEY_RIGHT_SHIFT, KEY_RIGHT_SHIFT);
  }

  // ---------------------------------------------------------------- initialising again

  /** After keyboard_init everything is decoded as from reset exactly when no prefix byte was pending. */
  lemma InitForgets(layout: Keymap, s: State)
    ensures (forall bytes :: Run(layout, Initialised(s), bytes).events == Run(layout, State(0, false), bytes).events)
       <==> !s.pending
  {
    if s.pending { PrefixSurvives(layout, s); }
  }

  /** A prefix byte, keyboard_init, and 0x1C: the keypad's Enter, where a reset keyboard decodes the main one. */
  lemma PrefixSurvives(layout: Keymap, s: State)
    requires s.pending
    ensures var init, reset := Run(layout, Initialised(s), [0x1C]).events, Run(layout, State(0, false), [0x1C]).events;
      |init| == |reset| == 1 && init[0].keycode == KEY_KP_ENTER && reset[0].keycode == 0x1C
  {
    RunOne(layout, Initialised(s), 0x1C);
    RunOne(layout, State(0, false), 0x1C);
  }

  lemma RunOne(layout: Keymap, s: State, b: byte)
    requires b != 0xE0 && Keycode(b, s.pending) != KEY_NONE
    ensures var evs := Run(layout, s, [b]).events; |evs| == 1 && evs[0].keycode == Keycode(b, s.pending)
  {
    assert [b][..0] == [];
    assert Run(layout, s, []) == Outcome(s, []);
  }
}
