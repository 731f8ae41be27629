/** The keyboard ring buffer: the interrupt handler pushes, the reader pops, and a push may interrupt a
    pop between any two of its memory accesses. */
module KbdBuffer {

  const SIZE := 128

  /** g_buf, g_head and g_tail. */
  datatype Ring = Ring(buf: seq<char>, head: nat, tail: nat) {
    predicate InRange() { |buf| == SIZE && head < SIZE && tail < SIZE }
  }

  /** The slot k places after t. */
  function Slot(t: nat, k: nat): (i: nat)
    requires t < SIZE && k <= SIZE
    ensures i < SIZE && i == (t + k) % SIZE
  {
    if t + k < SIZE then t + k else t + k - SIZE
  }

  /** How far h is ahead of t, going round. */
  function Distance(t: nat, h: nat): (n: nat)
    requires t < SIZE && h < SIZE
    ensures n < SIZE && Slot(t, n) == h
  {
    if t <= h then h - t else h + SIZE - t
  }

  /** The characters from the tail up to the head. */
  function Unread(r: Ring): (s: seq<char>)
    requires r.InRange()
    ensures |s| < SIZE
  {
    seq(Distance(r.tail, r.head), k requires 0 <= k < Distance(r.tail, r.head) => r.buf[Slot(r.tail, k)])
  }

  // ---------------------------------------------------------------- the two functions, run alone

  class Buffer {
    const buf: array<char>
    var head: nat
    var tail: nat

    ghost predicate Valid()
      reads this, buf
    {
      View().InRange()
    }

    ghost function View(): (r: Ring)
      reads this, buf
    {
      Ring(buf[..], head, tail)
    }

    constructor ()
      ensures Valid() && Unread(View()) == [] && fresh(buf)
    {
      buf := new char[SIZE](_ => '\0');
      head, tail := 0, 0;
    }

    /** A full buffer drops the character; otherwise it becomes the last unread one. */
    method Push(c: char)
      requires Valid()
      modifies `head, buf
      ensures Valid() && View() == Pushed(old(View()), c)
      ensures Unread(View()) == if |old(Unread(View()))| == SIZE - 1 then old(Unread(View()))
                                else old(Unread(View())) + [c]
    {
      ghost var r := View();
      PushAppends(r, c);
      var next := (head + 1) % SIZE;
      if next == tail { return; }
      buf[head] := c;
      head := next;
    }

    /** Takes the first unread character, or reports that there is none. */
    method Pop() returns (ok: bool, out: char)
      requires Valid()
      modifies `tail
      ensures Valid()
      ensures ok <==> |old(Unread(View()))| > 0
      ensures ok ==> old(Unread(View())) == [out] + Unread(View())
      ensures !ok ==> View() == old(View())
    {
      if tail == head { return false, '\0'; }
      ghost var r := View();
      out := buf[tail];
      tail := (tail + 1) % SIZE;
      ok := true;
      AdvanceDrops(r);
    }
  }

  /** kbd_buffer_push as one step: it runs in the interrupt handler, so the reader cannot interleave. */
  function Pushed(r: Ring, c: char): (r': Ring)
    requires r.InRange()
    ensures r'.InRange() && r'.tail == r.tail
  {
    if (r.head + 1) % SIZE == r.tail then r
    else r.(buf := r.buf[r.head := c], head := (r.head + 1) % SIZE)
  }

  lemma PushAppends(r: Ring, c: char)
    requires r.InRange()
    ensures (r.head + 1) % SIZE == r.tail <==> |Unread(r)| == 127
    ensures Unread(Pushed(r, c)) == if |Unread(r)| == 127 then Unread(r) else Unread(r) + [c]
  {
    var n := Distance(r.tail, r.head);
    assert (r.head + 1) % SIZE == Slot(r.head, 1);
    if n < SIZE - 1 {
      assert Distance(r.tail, Slot(r.head, 1)) == n + 1;
    }
  }

  lemma AdvanceDrops(r: Ring)
    requires r.InRange() && r.tail != r.head
    ensures Unread(r) == [r.buf[r.tail]] + Unread(r.(tail := (r.tail + 1) % SIZE))
  {
    assert (r.tail + 1) % SIZE == Slot(r.tail, 1);
    var n := Distance(r.tail, r.head);
    assert Distance(Slot(r.tail, 1), r.head) == n - 1;
    forall k | 0 <= k < n - 1 ensures Slot(Slot(r.tail, 1), k) == Slot(r.tail, k + 1) { }
  }

  // ---------------------------------------------------------------- interrupted pops

  /** Where the reader is inside kbd_buffer_pop.  C does not order the two reads of the comparison, so
      both orders appear.  HeadRead also records how much was unread when the head was read. */
  datatype Point =
    | Idle
    | TailRead(t: nat)                 // g_tail read for the comparison
    | HeadRead(h: nat, unread: nat)    // g_head read for the comparison
    | Checked                          // found not empty
    | SlotKnown(t: nat)                // g_tail read for the index
    | CharRead(c: char)                // g_buf[g_tail] read
    | NextKnown(c: char, t: nat)       // g_tail read for the increment

  /** The shared memory, the reader's progress, and the history: characters accepted and popped so far. */
  datatype State = State(ring: Ring, at: Point, accepted: seq<char>, popped: seq<char>)

  datatype Event = Push(c: char) | Read(headFirst: bool)

  /** One access by the reader, or one whole interrupt. */
  function Step(s: State, e: Event): (s': State)
    requires s.ring.InRange() && PointInRange(s.at)
    ensures s'.ring.InRange() && PointInRange(s'.at)
  {
    match e
    case Push(c) =>
      var r := Pushed(s.ring, c);
      s.(ring := r, accepted := if r.head == s.ring.head then s.accepted else s.accepted + [c])
    case Read(headFirst) =>
      match s.at
      case Idle =>
        s.(at := if headFirst then HeadRead(s.ring.head, |Unread(s.ring)|) else TailRead(s.ring.tail))
      case TailRead(t) => s.(at := if t == s.ring.head then Idle else Checked)
      case HeadRead(h, _) => s.(at := if s.ring.tail == h then Idle else Checked)
      case Checked => s.(at := SlotKnown(s.ring.tail))
      case SlotKnown(t) => s.(at := CharRead(s.ring.buf[t]))
      case CharRead(c) => s.(at := NextKnown(c, s.ring.tail))
      case NextKnown(c, t) =>
        s.(ring := s.ring.(tail := (t + 1) % SIZE), at := Idle, popped := s.popped + [c])
  }

  predicate PointInRange(p: Point) {
    match p
    case TailRead(t) => t < SIZE
    case HeadRead(h, _) => h < SIZE
    case SlotKnown(t) => t < SIZE
    case NextKnown(_, t) => t < SIZE
    case _ => true
  }

  ghost predicate Inv(s: State) {
    && s.ring.InRange() && PointInRange(s.at)
    && s.accepted == s.popped + Unread(s.ring)
    && match s.at
       case Idle => true
       case TailRead(t) => t == s.ring.tail
       case HeadRead(h, n) => Distance(s.ring.tail, h) == n <= |Unread(s.ring)|
       case Checked => Unread(s.ring) != []
       case SlotKnown(t) => Unread(s.ring) != [] && t == s.ring.tail
       case CharRead(c) => Unread(s.ring) != [] && c == Unread(s.ring)[0]
       case NextKnown(c, t) => Unread(s.ring) != [] && c == Unread(s.ring)[0] && t == s.ring.tail
  }

  lemma StepInv(s: State, e: Event)
    requires Inv(s)
    ensures Inv(Step(s, e))
  {
    match e
    case Push(c) => PushInv(s, c);
    case Read(_) => ReadInv(s, e.headFirst);
  }

  lemma PushInv(s: State, c: char)
    requires Inv(s)
    ensures Inv(Step(s, Push(c)))
  {
    PushAppends(s.ring, c);
    assert s.popped + (Unread(s.ring) + [c]) == s.accepted + [c];
  }

  lemma ReadInv(s: State, headFirst: bool)
    requires Inv(s)
    ensures Inv(Step(s, Read(headFirst)))
  {
    match s.at
    case Idle => StartInv(s, headFirst);
    case TailRead(_) => CompareInv(s, headFirst);
    case HeadRead(_, _) => CompareInv(s, headFirst);
    case Checked =>
    case SlotKnown(_) => FirstUnread(s.ring);
    case CharRead(_) =>
    case NextKnown(_, _) => CommitInv(s, headFirst);
  }

  lemma FirstUnread(r: Ring)
    requires r.InRange() && Unread(r) != []
    ensures Unread(r)[0] == r.buf[r.tail]
  {
    assert Slot(r.tail, 0) == r.tail;
  }

  lemma StartInv(s: State, headFirst: bool)
    requires Inv(s) && s.at.Idle?
    ensures Inv(Step(s, Read(headFirst)))
  {
  }

  lemma CompareInv(s: State, headFirst: bool)
    requires Inv(s) && (s.at.TailRead? || s.at.HeadRead?)
    ensures Inv(Step(s, Read(headFirst)))
  {
  }

  lemma CommitInv(s: State, headFirst: bool)
    requires Inv(s) && s.at.NextKnown?
    ensures Inv(Step(s, Read(headFirst)))
  {
    var r := s.ring.(tail := (s.ring.tail + 1) % SIZE);
    assert s.accepted == s.popped + [s.at.c] + Unread(r) by {
      Committed(s.ring, r, s.accepted, s.popped, s.at.c);
    }
    assert Step(s, Read(headFirst)) == State(r, Idle, s.accepted, s.popped + [s.at.c]);
  }

  lemma Committed(r: Ring, r': Ring, accepted: seq<char>, popped: seq<char>, c: char)
    requires r.InRange() && r' == r.(tail := (r.tail + 1) % SIZE)
    requires Unread(r) != [] && c == Unread(r)[0] && accepted == popped + Unread(r)
    ensures accepted == popped + [c] + Unread(r')
  {
    FirstUnread(r);
    AdvanceDrops(r);
    Regroup(popped, c, Unread(r'));
  }

  lemma Regroup(a: seq<char>, c: char, b: seq<char>)
    ensures a + ([c] + b) == a + [c] + b
  {
  }

  function Run(s: State, events: seq<Event>): (s': State)
    requires s.ring.InRange() && PointInRange(s.at)
    ensures s'.ring.InRange() && PointInRange(s'.at)
    decreases |events|
  {
    if events == [] then s else Run(Step(s, events[0]), events[1..])
  }

  lemma {:induction false} RunInv(s: State, events: seq<Event>)
    requires Inv(s)
    ensures Inv(Run(s, events))
    decreases |events|
  {
    if events != [] {
      StepInv(s, events[0]);
      RunInv(Step(s, events[0]), events[1..]);
    }
  }

  function Start(buf: seq<char>): (s: State) {
    State(Ring(buf, 0, 0), Idle, [], [])
  }

  /** Under every interleaving: what was popped is a prefix of what was accepted, the rest is exactly what
      is in the ring, and at most 127 characters wait. */
  lemma PoppedIsPrefix(buf: seq<char>, events: seq<Event>)
    requires |buf| == SIZE
    ensures var s := Run(Start(buf), events);
      && s.popped <= s.accepted
      && s.accepted[|s.popped|..] == Unread(s.ring)
      && |s.accepted| - |s.popped| <= 127
  {
    RunInv(Start(buf), events);
  }

  /** Wherever the reader is, an interrupting push drops its character exactly when 127 are unread, never
      changes an unread slot, and in particular not the one the reader is about to read. */
  lemma InterruptIsSafe(buf: seq<char>, events: seq<Event>, c: char)
    requires |buf| == SIZE
    ensures var s := Run(Start(buf), events); var s' := Step(s, Push(c));
      && s'.accepted == (if |s.accepted| - |s.popped| == 127 then s.accepted else s.accepted + [c])
      && Unread(s.ring) <= Unread(s'.ring)
      && (s.at.SlotKnown? ==>
           |s.popped| < |s.accepted| && s'.ring.buf[s.at.t] == s.ring.buf[s.at.t] == s.accepted[|s.popped|])
  {
    var s := Run(Start(buf), events);
    RunInv(Start(buf), events);
    PushAppends(s.ring, c);
    assert s.at.SlotKnown? ==> Slot(s.at.t, 0) == s.at.t;
  }

  /** A pop reports an empty buffer exactly when nothing was unread at the moment it read the head, and
      it commits to a pop only of a character that is there. */
  lemma EmptyIsExact(buf: seq<char>, events: seq<Event>, headFirst: bool)
    requires |buf| == SIZE
    ensures var s := Run(Start(buf), events); var s' := Step(s, Read(headFirst));
      && (s.at.TailRead? ==> (s'.at.Idle? <==> Unread(s.ring) == []))
      && (s.at.HeadRead? ==> (s'.at.Idle? <==> s.at.unread == 0))
      && (s.at.NextKnown? ==> |s.popped| < |s.accepted| && s'.popped == s.popped + [s.accepted[|s.popped|]])
  {
    var s := Run(Start(buf), events);
    RunInv(Start(buf), events);
  }

  /** With no interrupt in between, the reader's accesses add up to Buffer.Pop. */
  lemma UninterruptedPop(s: State, headFirst: bool)
    requires Inv(s) && s.at.Idle?
    ensures var e := Read(headFirst);
      if Unread(s.ring) == [] then Step(Step(s, e), e) == s
      else Step(Step(Step(Step(Step(Step(s, e), e), e), e), e), e)
           == State(s.ring.(tail := (s.ring.tail + 1) % SIZE), Idle, s.accepted, s.popped + [Unread(s.ring)[0]])
  {
    var e := Read(headFirst);
    var s1 := Step(s, e);
    var s2 := Step(s1, e);
    if Unread(s.ring) != [] {
      assert s2 == s.(at := Checked);
      var s3 := Step(s2, e);
      var s4 := Step(s3, e);
      assert Slot(s.ring.tail, 0) == s.ring.tail;
      assert s4 == s.(at := CharRead(Unread(s.ring)[0]));
    }
  }
}
