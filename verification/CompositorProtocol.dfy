/** The messages of shared/compositor_protocol.h and userspace/sdk/compositor_protocol.h, and how they
    travel inside task events. */
module CompositorProtocol {
  import opened Basics
  import opened EventQueue

  const HELLO: nat := 1
  const CREATE_SURFACE: nat := 2
  const COMMIT_SURFACE: nat := 3
  const SET_FOCUS: nat := 4
  const FRAME_DONE: nat := 6

  const DONE_OK: nat := 0
  const DONE_TIMEOUT_RECOVERY: nat := 1

  const VERSION: int := 1
  const KEY_PRESS: nat := 3
  const WINDOW_DESTROYED: nat := 6
  const USER_MESSAGE: nat := 64
  const ESCAPE: nat := 27

  const WORD: nat := 0x1_0000_0000
  const HALF: nat := 0x8000_0000
  const TIMEOUT_MS: nat := 1500

  datatype Message = Message(kind: nat, arg0: int, arg1: int, arg2: nat, arg3: nat)

  function ToEvent(m: Message): OSEvent
  {
    OSEvent(USER_MESSAGE, m.arg0, m.arg1, m.kind, m.arg2, m.arg3)
  }

  function FromEvent(e: OSEvent): Option<Message>
  {
    if e.kind != USER_MESSAGE then None else Some(Message(e.buttons, e.dx, e.dy, e.scancode, e.ascii))
  }

  /** Messages survive the trip, and nothing but user messages decodes. */
  lemma RoundTrip(m: Message, e: OSEvent)
    ensures FromEvent(ToEvent(m)) == Some(m)
    ensures FromEvent(e) == Some(m) <==> ToEvent(m) == e
    ensures FromEvent(e) == None <==> forall x: Message :: ToEvent(x) != e
  {
    if e.kind == USER_MESSAGE {
      var x := Message(e.buttons, e.dx, e.dy, e.scancode, e.ascii);
      assert ToEvent(x) == e;
    }
  }

  /** (int32_t) of an unsigned 32-bit value. */
  function Signed(u: nat): int { if u < HALF then u else u - WORD }

  /** (uint32_t) of a signed 32-bit value. */
  function Unsigned(i: int): nat { i % WORD }

  lemma CastsInvert(u: nat)
    requires u < WORD
    ensures Unsigned(Signed(u)) == u
  {
  }

  /** The client a message claims to come from; zero stands for nobody. */
  function Sender(m: Message): nat { if m.arg0 > 0 then m.arg0 else 0 }

  /** The serial the server takes from a commit: arg1 is signed, and anything not positive makes the
      server number the frame itself. */
  function ServerSerial(arg1: int, commitCount: nat): nat
  {
    if arg1 > 0 then arg1 else (commitCount + 1) % WORD
  }

  /** The server sees the client's own serials exactly as long as they lie in 1 .. 2^31 - 1. */
  lemma SerialsAgreeBelowHalf(serial: nat)
    requires serial < WORD
    ensures (forall n: nat :: ServerSerial(Signed(serial), n) == serial) <==> 0 < serial < HALF
  {
    if !(0 < serial < HALF) {
      assert ServerSerial(Signed(serial), 0) == 1;
      assert ServerSerial(Signed(serial), 1) == 2;
    }
  }

  /** now - since on unsigned 64-bit clocks. */
  function Elapsed(now: nat, since: nat): int
  {
    if now >= since then now - since else now - since + 0x1_0000_0000_0000_0000
  }

  lemma ElapsedExactly(now: nat, since: nat)
    requires now < 0x1_0000_0000_0000_0000 && since < 0x1_0000_0000_0000_0000
    ensures Elapsed(now, since) == (now - since) % 0x1_0000_0000_0000_0000
  {
  }

  function Hello(pid: nat, width: nat, height: nat): OSEvent
  {
    ToEvent(Message(HELLO, Signed(pid), VERSION, width, height))
  }

  function CreateSurface(pid: nat, width: nat, height: nat): OSEvent
  {
    ToEvent(Message(CREATE_SURFACE, Signed(pid), 0, width, height))
  }

  function CommitSurface(pid: nat, serial: nat, width: nat, height: nat): OSEvent
  {
    ToEvent(Message(COMMIT_SURFACE, Signed(pid), Signed(serial), width, height))
  }

  function FrameDone(pid: nat, serial: nat, flags: nat): OSEvent
  {
    ToEvent(Message(FRAME_DONE, Signed(pid), Signed(serial), 0, flags))
  }
}
