/** Goroutines sharing one connection (writeMu in internal/executor/wsframe.go): the relay
    pump, pongs and close frames all go through writeFrame. */
module WsWriters {
  import opened Bits
  import opened WsFrame
  import opened Seqs

  datatype Packet = Packet(opcode: nat, payload: seq<byte>, m: Masking)

  ghost predicate Sendable(p: Packet) {
    p.opcode < 16 && |p.payload| <= MAX_FRAME && Valid(p.m)
  }

  ghost function FrameOf(p: Packet): Frame { Frame(true, p.opcode, p.payload) }

  ghost function Bytes(p: Packet): seq<byte>
    requires Sendable(p)
  {
    Encode(FrameOf(p), p.m)
  }

  type Thread = nat

  /** Unlocked, or the lock held by a thread that has put sent bytes of its frame out. */
  datatype Lock = Free | Held(holder: Thread, sent: nat)

  /** todo holds, for each thread, the calls it has yet to finish; done is the order in
      which calls released the lock. */
  datatype State = State(lock: Lock, wire: seq<byte>, todo: map<Thread, seq<Packet>>, done: seq<(Thread, Packet)>)

  ghost predicate Init(s: State, program: map<Thread, seq<Packet>>) {
    && s == State(Free, [], program, [])
    && forall t, p | t in program && p in program[t] :: Sendable(p)
  }

  ghost predicate Acquire(s: State, s': State, t: Thread) {
    && s.lock.Free? && t in s.todo && s.todo[t] != []
    && s' == s.(lock := Held(t, 0))
  }

  /** The holder's Write calls put its next n bytes on the wire: the header first, then
      the payload, in pieces of any size. */
  ghost predicate Emit(s: State, s': State, t: Thread, n: nat) {
    && s.lock.Held? && s.lock.holder == t && t in s.todo && s.todo[t] != []
    && Sendable(s.todo[t][0])
    && var b := Bytes(s.todo[t][0]);
    && n > 0 && s.lock.sent + n <= |b|
    && s' == s.(lock := Held(t, s.lock.sent + n), wire := s.wire + b[s.lock.sent..s.lock.sent + n])
  }

  ghost predicate Release(s: State, s': State, t: Thread) {
    && s.lock.Held? && s.lock.holder == t && t in s.todo && s.todo[t] != []
    && Sendable(s.todo[t][0]) && s.lock.sent == |Bytes(s.todo[t][0])|
    && s' == State(Free, s.wire, s.todo[t := s.todo[t][1..]], s.done + [(t, s.todo[t][0])])
  }

  ghost predicate Step(s: State, s': State, t: Thread) {
    Acquire(s, s', t) || Release(s, s', t) || exists n :: Emit(s, s', t, n)
  }

  ghost predicate Next(s: State, s': State) {
    exists t :: Step(s, s', t)
  }

  ghost predicate IsRun(states: seq<State>, program: map<Thread, seq<Packet>>) {
    && states != [] && Init(states[0], program)
    && forall i | 0 <= i < |states| - 1 :: Next(states[i], states[i + 1])
  }

  // ---- The invariant ----

  ghost function AllBytes(done: seq<(Thread, Packet)>): seq<byte>
    requires forall d | d in done :: Sendable(d.1)
  {
    if done == [] then [] else AllBytes(done[..|done| - 1]) + Bytes(done[|done| - 1].1)
  }

  /** The packets of one thread, in the order they were finished. */
  ghost function By(done: seq<(Thread, Packet)>, t: Thread): seq<Packet> {
    if done == [] then []
    else
      var d := done[|done| - 1];
      By(done[..|done| - 1], t) + (if d.0 == t then [d.1] else [])
  }

  /** The part of the holder's frame that is already out. */
  ghost function Partial(s: State): seq<byte>
    requires Sane(s)
  {
    if s.lock.Free? then [] else Bytes(s.todo[s.lock.holder][0])[..s.lock.sent]
  }

  ghost predicate Sane(s: State) {
    && (forall t, p | t in s.todo && p in s.todo[t] :: Sendable(p))
    && (forall d | d in s.done :: Sendable(d.1))
    && (s.lock.Held? ==>
          && s.lock.holder in s.todo && s.todo[s.lock.holder] != []
          && Sendable(s.todo[s.lock.holder][0]) && s.lock.sent <= |Bytes(s.todo[s.lock.holder][0])|)
  }

  ghost predicate Inv(s: State, program: map<Thread, seq<Packet>>) {
    && Sane(s)
    && s.wire == AllBytes(s.done) + Partial(s)
    && s.todo.Keys == program.Keys
    && forall t | t in program :: program[t] == By(s.done, t) + s.todo[t]
  }

  lemma AllBytesSnoc(done: seq<(Thread, Packet)>, d: (Thread, Packet))
    requires Sendable(d.1) && forall e | e in done :: Sendable(e.1)
    ensures forall e | e in done + [d] :: Sendable(e.1)
    ensures AllBytes(done + [d]) == AllBytes(done) + Bytes(d.1)
  {
    assert (done + [d])[..|done|] == done;
  }

  lemma BySnoc(done: seq<(Thread, Packet)>, d: (Thread, Packet), t: Thread)
    ensures By(done + [d], t) == By(done, t) + (if d.0 == t then [d.1] else [])
  {
    assert (done + [d])[..|done|] == done;
  }

  lemma EmitKeepsInv(s: State, s': State, program: map<Thread, seq<Packet>>, t: Thread, n: nat)
    requires Inv(s, program) && Emit(s, s', t, n)
    ensures Inv(s', program)
  {
    hide Bytes, AllBytes, By;
    var b, k := Bytes(s.todo[t][0]), s.lock.sent;
    Assoc(AllBytes(s.done), b[..k], b[k..k + n]);
    assert b[..k] + b[k..k + n] == b[..k + n];
  }

  lemma ReleaseKeepsInv(s: State, s': State, program: map<Thread, seq<Packet>>, t: Thread)
    requires Inv(s, program) && Release(s, s', t)
    ensures Inv(s', program)
  {
    hide Bytes, AllBytes, By;
    var d := (t, s.todo[t][0]);
    assert d.1 in s.todo[t];
    AllBytesSnoc(s.done, d);
    assert Bytes(d.1)[..s.lock.sent] == Bytes(d.1);
    assert AllBytes(s'.done) + [] == AllBytes(s'.done);
    forall u | u in program ensures program[u] == By(s'.done, u) + s'.todo[u] {
      BySnoc(s.done, d, u);
      if u == t {
        HeadTail(s.todo[t]);
        Assoc(By(s.done, t), [d.1], s.todo[t][1..]);
      }
    }
  }

  lemma NextKeepsInv(s: State, s': State, program: map<Thread, seq<Packet>>)
    requires Inv(s, program) && Next(s, s')
    ensures Inv(s', program)
  {
    var t :| Step(s, s', t);
    if Acquire(s, s', t) {
      assert s.todo[t][0] in s.todo[t];
      assert Partial(s') == [];
    } else if Release(s, s', t) {
      ReleaseKeepsInv(s, s', program, t);
    } else {
      var n :| Emit(s, s', t, n);
      EmitKeepsInv(s, s', program, t, n);
    }
  }

  /** Under every schedule the wire is the finished frames in lock order and at most one
      frame's beginning, and every thread's frames appear in the order it sent them. */
  lemma {:induction false} WritersNeverInterleave(states: seq<State>, program: map<Thread, seq<Packet>>)
    requires IsRun(states, program)
    ensures Inv(states[|states| - 1], program)
  {
    if |states| > 1 {
      var before := states[..|states| - 1];
      assert forall i | 0 <= i < |before| - 1 :: Next(before[i], before[i + 1]);
      WritersNeverInterleave(before, program);
      assert Next(states[|states| - 2], states[|states| - 1]);
      NextKeepsInv(states[|states| - 2], states[|states| - 1], program);
    } else {
      var s := states[0];
      assert Partial(s) == [] && s.wire == AllBytes(s.done) + Partial(s);
      assert forall t | t in program :: program[t] == [] + program[t];
    }
  }

  // ---- What the peer makes of it ----

  /** All whole frames at the front of a stream, and what follows them. */
  function ReadAll(s: seq<byte>): (r: (seq<Frame>, Read, seq<byte>))
    decreases |s|
  {
    match Parse(s)
    case (Got(f), rest) =>
      var (fs, stop, left) := ReadAll(rest);
      ([f] + fs, stop, left)
    case (stop, left) => ([], stop, left)
  }

  ghost function Frames(done: seq<(Thread, Packet)>): seq<Frame> {
    seq(|done|, i requires 0 <= i < |done| => FrameOf(done[i].1))
  }

  ghost function FrontBytes(done: seq<(Thread, Packet)>): seq<byte>
    requires forall d | d in done :: Sendable(d.1)
  {
    if done == [] then [] else Bytes(done[0].1) + FrontBytes(done[1..])
  }

  lemma {:induction false} FrontIsBack(done: seq<(Thread, Packet)>)
    requires forall d | d in done :: Sendable(d.1)
    ensures AllBytes(done) == FrontBytes(done)
  {
    if |done| == 1 {
      assert done[..0] == [] && done[1..] == [];
      assert [] + Bytes(done[0].1) == Bytes(done[0].1) + [];
    } else if |done| > 1 {
      var init, tail, n := done[..|done| - 1], done[1..], |done|;
      var last := done[n - 1].1;
      FrontIsBack(init);
      FrontIsBack(tail);
      FrontIsBack(init[1..]);
      assert init[1..] == tail[..n - 2] && init[0] == done[0] && tail[n - 2] == done[n - 1];
      hide Bytes;
      Assoc(Bytes(done[0].1), AllBytes(tail[..n - 2]), Bytes(last));
    }
  }

  lemma {:induction false} ReadsBack(done: seq<(Thread, Packet)>, left: seq<byte>)
    requires forall d | d in done :: Sendable(d.1)
    requires Parse(left) == (Short, [])
    ensures ReadAll(FrontBytes(done) + left) == (Frames(done), Short, [])
  {
    hide Parse, Bytes;
    if done == [] {
      assert [] + left == left;
    } else {
      var tail := done[1..];
      Assoc(Bytes(done[0].1), FrontBytes(tail), left);
      FirstReadsBack(done[0].1, FrontBytes(tail) + left);
      ReadsBack(tail, left);
      assert [FrameOf(done[0].1)] + Frames(tail) == Frames(done);
    }
  }

  lemma FirstReadsBack(p: Packet, rest: seq<byte>)
    requires Sendable(p)
    ensures Parse(Bytes(p) + rest) == (Got(FrameOf(p)), rest)
  {
    ParseOfEncode(FrameOf(p), p.m, rest);
  }

  /** At every moment of every schedule the peer reads exactly the finished frames, in lock
      order (and the holder's, once all its bytes are out), and nothing else. */
  lemma PeerReadsFinishedFrames(states: seq<State>, program: map<Thread, seq<Packet>>)
    requires IsRun(states, program)
    ensures var s := states[|states| - 1];
            && Sane(s)
            && var out := if s.lock.Held? && s.lock.sent == |Bytes(s.todo[s.lock.holder][0])|
                          then s.done + [(s.lock.holder, s.todo[s.lock.holder][0])] else s.done;
            && ReadAll(s.wire) == (Frames(out), Short, [])
  {
    WritersNeverInterleave(states, program);
    var s := states[|states| - 1];
    assert Parse([]) == (Short, []);
    if s.lock.Held? && s.lock.sent == |Bytes(s.todo[s.lock.holder][0])| {
      var d := (s.lock.holder, s.todo[s.lock.holder][0]);
      AllBytesSnoc(s.done, d);
      assert Bytes(d.1)[..s.lock.sent] == Bytes(d.1);
      FrontIsBack(s.done + [d]);
      assert s.wire + [] == s.wire;
      ReadsBack(s.done + [d], []);
    } else {
      if s.lock.Held? {
        var p := s.todo[s.lock.holder][0];
        ParseOfPrefix(FrameOf(p), p.m, s.lock.sent);
      }
      FrontIsBack(s.done);
      ReadsBack(s.done, Partial(s));
    }
  }
}
