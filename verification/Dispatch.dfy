/** From events to datagrams: seal once, send, and hand the exact bytes back to the ring. */
module DispatchSpec {
  import opened Types
  import opened SenderSpec

  datatype Direction = ToSink | ToTap
  datatype SeqClass = DataClass | ControlClass

  /** One use of the cipher: the inputs its nonce is built from. */
  datatype Seal = Seal(dir: Direction, cls: SeqClass, counter: nat)

  /** The sending half with its socket: every datagram that left, in order, and every seal
      performed. */
  datatype Tap = Tap(snd: Send, sent: seq<Datagram>, seals: seq<Seal>)

  datatype Dispatched = Dispatched(tap: Tap, left: nat, ok: bool)

  /** `encode_body` accepts the body. */
  predicate FitsWire(b: Body)
  {
    match b
    case Data(_, payload) => |payload| <= MAX_PAYLOAD
    case Nack(missing) => |missing| <= MAX_NACK_ENTRIES
    case _ => true
  }

  function ClassOf(b: Body): (c: SeqClass)
  {
    if b.Data? then DataClass else ControlClass
  }

  /** `left` is how many socket sends will still succeed; the one after that fails, and a
      failure abandons the rest of the call. */
  function DispatchOne(t: Tap, ev: SendEvent, left: nat): (r: Dispatched)
  {
    match ev
    case Emit(seqNo, body) =>
      if !FitsWire(body) then Dispatched(t, left, false)
      else
        var d := Datagram(seqNo, body);
        var sealed := t.(seals := t.seals + [Seal(ToSink, ClassOf(body), seqNo)]);
        if left == 0 then Dispatched(sealed, 0, false)
        else Dispatched(sealed.(sent := t.sent + [d],
                                snd := if body.Data? then RecordSealed(t.snd, seqNo, d) else t.snd),
                        left - 1, true)
    case Resend(ds) =>
      var k := if |ds| <= left then |ds| else left;
      Dispatched(t.(sent := t.sent + ds[..k]), left - k, |ds| <= left)
    case Completed => Dispatched(t, left, true)
    case Failed(_) => Dispatched(t, left, false)
  }

  function DispatchAll(t: Tap, evs: seq<SendEvent>, left: nat): (r: Dispatched)
    decreases |evs|
  {
    if evs == [] then Dispatched(t, left, true)
    else
      var r := DispatchOne(t, evs[0], left);
      if r.ok then DispatchAll(r.tap, evs[1..], r.left) else r
  }

  /** The event can be turned into datagrams: it encodes and does not report a failure. */
  predicate Sendable(ev: SendEvent)
  {
    !ev.Failed? && (ev.Emit? ==> FitsWire(ev.body))
  }

  function WireOf(ev: SendEvent): (ds: seq<Datagram>)
  {
    match ev
    case Emit(seqNo, body) => [Datagram(seqNo, body)]
    case Resend(ds) => ds
    case _ => []
  }

  /** The datagrams of the events before the first that cannot be sent. */
  function WireUpTo(evs: seq<SendEvent>): (ds: seq<Datagram>)
    decreases |evs|
  {
    if evs == [] || !Sendable(evs[0]) then [] else WireOf(evs[0]) + WireUpTo(evs[1..])
  }

  /** What leaves the socket: the datagrams of the events in order, up to the first event that
      cannot be sent and as many as the socket takes. The call succeeds if and only if every
      event can be sent and the socket takes everything. */
  lemma {:induction false} DispatchExact(t: Tap, evs: seq<SendEvent>, left: nat)
    ensures var r, w := DispatchAll(t, evs, left), WireUpTo(evs);
            var n := if |w| <= left then |w| else left;
            && r.tap.sent == t.sent + w[..n] && r.left == left - n
            && (r.ok <==> (forall i :: 0 <= i < |evs| ==> Sendable(evs[i])) && |w| <= left)
    decreases |evs|
  {
    if evs != [] {
      var one := DispatchOne(t, evs[0], left);
      OneExact(t, evs[0], left);
      if one.ok {
        DispatchExact(one.tap, evs[1..], one.left);
        var w, w' := WireOf(evs[0]), WireUpTo(evs[1..]);
        var n' := if |w'| <= one.left then |w'| else one.left;
        assert (w + w')[..|w| + n'] == w + w'[..n'];
        assert forall i :: 0 < i < |evs| ==> evs[i] == evs[1..][i - 1];
      } else if Sendable(evs[0]) {
        assert (WireOf(evs[0]) + WireUpTo(evs[1..]))[..left] == WireOf(evs[0])[..left];
      }
    }
  }

  lemma OneExact(t: Tap, ev: SendEvent, left: nat)
    ensures var r, w := DispatchOne(t, ev, left), if Sendable(ev) then WireOf(ev) else [];
            var n := if |w| <= left then |w| else left;
            && r.tap.sent == t.sent + w[..n] && r.left == left - n
            && (r.ok <==> Sendable(ev) && |w| <= left)
  {
  }

  /** Events are dispatched one after the other: a list in two parts is the first part and then,
      if it succeeded, the second. */
  lemma {:induction false} DispatchSplit(t: Tap, a: seq<SendEvent>, b: seq<SendEvent>, left: nat)
    ensures var r := DispatchAll(t, a, left);
            DispatchAll(t, a + b, left) == if r.ok then DispatchAll(r.tap, b, r.left) else r
    decreases |a|
  {
    if a == [] {
      assert a + b == b;
    } else {
      var one := DispatchOne(t, a[0], left);
      assert (a + b)[1..] == a[1..] + b;
      if one.ok {
        DispatchSplit(one.tap, a[1..], b, one.left);
      }
    }
  }

  // ----- the sink's half -----

  datatype Sealed = Sealed(bodies: seq<Body>, seals: seq<Seal>, next: nat)

  /** Each reply takes the next control number; one that does not encode is dropped after
      its number has been taken. */
  function SealReplies(c: nat, bs: seq<Body>): (r: Sealed)
    decreases |bs|
  {
    if bs == [] then Sealed([], [], c)
    else
      var rest := SealReplies(NextControl(c), bs[1..]);
      if FitsWire(bs[0])
      then Sealed([bs[0]] + rest.bodies, [Seal(ToTap, ControlClass, c)] + rest.seals, rest.next)
      else rest
  }

  /** The packet an event asks for. `occupancy` is what the buffer feedback reports. */
  function ReplyTo(e: RecvEvent, occupancy: nat): (b: Option<Body>)
  {
    match e
    case SendNack(missing) => Some(Nack(missing))
    case SendAck(contiguous, highest, _) => Some(Ack(contiguous, highest, occupancy))
    case SendEndAck => Some(EndAck)
    case _ => None
  }

  function RepliesTo(evs: seq<RecvEvent>, occupancy: nat): (bs: seq<Body>)
    decreases |evs|
  {
    if evs == [] then []
    else
      var b := ReplyTo(evs[0], occupancy);
      (if b.Some? then [b.value] else []) + RepliesTo(evs[1..], occupancy)
  }

  function Copied(e: RecvEvent): (fs: seq<Frame>)
  {
    if e.Reliable? then [e.frame] else []
  }

  /** The frames of the `Reliable` events. */
  function ReliableIn(evs: seq<RecvEvent>): (fs: seq<Frame>)
    decreases |evs|
  {
    if evs == [] then []
    else Copied(evs[0]) + ReliableIn(evs[1..])
  }

  function PlayedIn(evs: seq<RecvEvent>): (fs: seq<Frame>)
    decreases |evs|
  {
    if evs == [] then []
    else (if evs[0].Unreliable? then [evs[0].frame] else []) + PlayedIn(evs[1..])
  }

  function FirstOutcome(evs: seq<RecvEvent>): (v: Option<RelOutcome>)
    decreases |evs|
  {
    if evs == [] then None
    else if evs[0].RelFinished? then Some(evs[0].outcome)
    else FirstOutcome(evs[1..])
  }

  lemma {:induction false} ReliableAppend(a: seq<RecvEvent>, b: seq<RecvEvent>)
    ensures ReliableIn(a + b) == ReliableIn(a) + ReliableIn(b)
    decreases |a|
  {
    if a == [] {
      assert a + b == b;
    } else {
      assert (a + b)[1..] == a[1..] + b;
      ReliableAppend(a[1..], b);
      assert ReliableIn(a + b) == Copied(a[0]) + (ReliableIn(a[1..]) + ReliableIn(b));
    }
  }

  lemma {:induction false} RepliesAppend(a: seq<RecvEvent>, b: seq<RecvEvent>, occ: nat)
    ensures RepliesTo(a + b, occ) == RepliesTo(a, occ) + RepliesTo(b, occ)
    decreases |a|
  {
    if a == [] {
      assert a + b == b;
    } else {
      assert (a + b)[1..] == a[1..] + b;
      RepliesAppend(a[1..], b, occ);
      var r := ReplyTo(a[0], occ);
      var head := if r.Some? then [r.value] else [];
      assert RepliesTo(a + b, occ) == head + (RepliesTo(a[1..], occ) + RepliesTo(b, occ));
    }
  }

  lemma {:induction false} OutcomeAppend(a: seq<RecvEvent>, b: seq<RecvEvent>)
    ensures FirstOutcome(a + b) == if FirstOutcome(a).Some? then FirstOutcome(a) else FirstOutcome(b)
    decreases |a|
  {
    if a == [] {
      assert a + b == b;
    } else {
      assert (a + b)[1..] == a[1..] + b;
      OutcomeAppend(a[1..], b);
    }
  }

  lemma {:induction false} OutcomeIn(tr: seq<RecvEvent>)
    ensures FirstOutcome(tr).Some? ==> RelFinished(FirstOutcome(tr).value) in tr
    decreases |tr|
  {
    if tr != [] {
      OutcomeIn(tr[1..]);
    }
  }

  /** What an endpoint keeps per transfer: the next control number and every seal performed, the
      frames handed to the playback and to the cache channel, how many playback frames found
      their channel full, the outcome once sent, and the newest timestamp. */
  datatype Sink = Sink(controlSeq: nat, seals: seq<Seal>, played: seq<Frame>, dropped: nat,
                       cached: seq<Frame>, outcome: Option<RelOutcome>, newestMs: nat)

  datatype Applied = Applied(sink: Sink, out: seq<Body>, room: nat)

  function Newest(k: Sink, f: Frame): (ms: nat)
  {
    if k.newestMs < f.ts then f.ts else k.newestMs
  }

  /** `room` is how many more frames the playback channel takes. */
  function ApplyOne(k: Sink, e: RecvEvent, occupancy: nat, room: nat): (r: Applied)
  {
    match e
    case Unreliable(f) =>
      var k' := k.(newestMs := Newest(k, f));
      if room > 0 then Applied(k'.(played := k.played + [f]), [], room - 1)
      else Applied(k'.(dropped := k.dropped + 1), [], 0)
    case Reliable(f) => Applied(k.(newestMs := Newest(k, f), cached := k.cached + [f]), [], room)
    case RelFinished(v) =>
      Applied(if k.outcome.None? then k.(outcome := Some(v)) else k, [], room)
    case Closed => Applied(k, [], room)
    case _ =>
      var b := ReplyTo(e, occupancy).value;
      var k' := k.(controlSeq := NextControl(k.controlSeq));
      if FitsWire(b)
      then Applied(k'.(seals := k.seals + [Seal(ToTap, ControlClass, k.controlSeq)]), [b], room)
      else Applied(k', [], room)
  }

  function ApplyAll(k: Sink, evs: seq<RecvEvent>, occupancy: nat, room: nat): (r: Applied)
    decreases |evs|
  {
    if evs == [] then Applied(k, [], room)
    else
      var one := ApplyOne(k, evs[0], occupancy, room);
      var rest := ApplyAll(one.sink, evs[1..], occupancy, one.room);
      rest.(out := one.out + rest.out)
  }

  /** The replies the events ask for, in order, numbered on from the last one. */
  ghost predicate RepliesSealed(k: Sink, evs: seq<RecvEvent>, occupancy: nat, r: Applied)
  {
    var z := SealReplies(k.controlSeq, RepliesTo(evs, occupancy));
    r.out == z.bodies && r.sink.controlSeq == z.next && r.sink.seals == k.seals + z.seals
  }

  /** Playback got the first `room` frames and the others were counted. */
  ghost predicate PlaybackFed(k: Sink, evs: seq<RecvEvent>, room: nat, r: Applied)
  {
    var fs := PlayedIn(evs);
    var n := if |fs| < room then |fs| else room;
    r.sink.played == k.played + fs[..n] && r.sink.dropped == k.dropped + (|fs| - n) && r.room == room - n
  }

  /** The cache got every `Reliable` frame, and the first outcome. */
  ghost predicate CacheFed(k: Sink, evs: seq<RecvEvent>, r: Applied)
  {
    && r.sink.cached == k.cached + ReliableIn(evs)
    && r.sink.outcome == if k.outcome.Some? then k.outcome else FirstOutcome(evs)
  }

  lemma SealCons(c: nat, b: Body, bs: seq<Body>)
    ensures var rest := SealReplies(NextControl(c), bs);
            SealReplies(c, [b] + bs) ==
              if FitsWire(b) then Sealed([b] + rest.bodies, [Seal(ToTap, ControlClass, c)] + rest.seals, rest.next)
              else rest
  {
    assert ([b] + bs)[1..] == bs;
  }

  lemma {:induction false} ApplySeals(k: Sink, evs: seq<RecvEvent>, occupancy: nat, room: nat)
    ensures RepliesSealed(k, evs, occupancy, ApplyAll(k, evs, occupancy, room))
    decreases |evs|
  {
    if evs != [] {
      var one := ApplyOne(k, evs[0], occupancy, room);
      ApplySeals(one.sink, evs[1..], occupancy, one.room);
      var b := ReplyTo(evs[0], occupancy);
      var rest := RepliesTo(evs[1..], occupancy);
      if b.Some? {
        SealCons(k.controlSeq, b.value, rest);
        assert RepliesTo(evs, occupancy) == [b.value] + rest;
      } else {
        assert RepliesTo(evs, occupancy) == rest;
      }
    }
  }

  lemma {:induction false} ApplyPlays(k: Sink, evs: seq<RecvEvent>, occupancy: nat, room: nat)
    ensures PlaybackFed(k, evs, room, ApplyAll(k, evs, occupancy, room))
    decreases |evs|
  {
    if evs != [] {
      var one := ApplyOne(k, evs[0], occupancy, room);
      ApplyPlays(one.sink, evs[1..], occupancy, one.room);
    }
  }

  lemma {:induction false} ApplyCaches(k: Sink, evs: seq<RecvEvent>, occupancy: nat, room: nat)
    ensures CacheFed(k, evs, ApplyAll(k, evs, occupancy, room))
    decreases |evs|
  {
    if evs != [] {
      var one := ApplyOne(k, evs[0], occupancy, room);
      ApplyCaches(one.sink, evs[1..], occupancy, one.room);
    }
  }

  /** The newest timestamp is the largest of the old one and those of the frames handled. */
  lemma {:induction false} ApplyNewest(k: Sink, evs: seq<RecvEvent>, occupancy: nat, room: nat)
    ensures var ms, fs := ApplyAll(k, evs, occupancy, room).sink.newestMs, PlayedIn(evs) + ReliableIn(evs);
            && k.newestMs <= ms && (forall f :: f in fs ==> f.ts <= ms)
            && (ms == k.newestMs || exists f :: f in fs && f.ts == ms)
    decreases |evs|
  {
    if evs != [] {
      var one := ApplyOne(k, evs[0], occupancy, room);
      ApplyNewest(one.sink, evs[1..], occupancy, one.room);
      var fs, rest := PlayedIn(evs) + ReliableIn(evs), PlayedIn(evs[1..]) + ReliableIn(evs[1..]);
      assert forall f :: f in fs <==> f in rest || ((evs[0].Unreliable? || evs[0].Reliable?) && f == evs[0].frame);
    }
  }
}

module Dispatch {
  import opened Types
  import opened DispatchSpec
  import opened Sender
  import P = SenderSpec

  class TapSender {
    const state: XferSender
    var sent: seq<Datagram>
    var seals: seq<Seal>

    ghost function View(): (t: Tap)
      reads this, state, state.ring
    {
      Tap(state.View(), sent, seals)
    }

    constructor (cfg: SenderConfig)
      ensures fresh(state) && fresh(state.ring) && View() == Tap(P.Init(cfg), [], [])
    {
      state := new XferSender(cfg);
      sent, seals := [], [];
    }

    method SendAll(ds: seq<Datagram>, budget: nat) returns (left: nat, ok: bool)
      modifies `sent
      ensures var k := if |ds| <= budget then |ds| else budget;
              sent == old(sent) + ds[..k] && left == budget - k && ok == (|ds| <= budget)
    {
      left, ok := budget, true;
      var i := 0;
      while i < |ds|
        invariant 0 <= i <= |ds| && i <= budget && left == budget - i
        invariant sent == old(sent) + ds[..i]
      {
        if left == 0 {
          ok := false;
          return;
        }
        assert ds[..i + 1] == ds[..i] + [ds[i]];
        sent := sent + [ds[i]];
        left := left - 1;
        i := i + 1;
      }
    }

    method DispatchEvent(ev: P.SendEvent, budget: nat) returns (left: nat, ok: bool)
      modifies this, state.ring
      ensures DispatchOne(old(View()), ev, budget) == Dispatched(View(), left, ok)
    {
      left, ok := budget, true;
      match ev {
        case Emit(seqNo, body) =>
          if !FitsWire(body) {
            return left, false;
          }
          var sealed := Datagram(seqNo, body);
          seals := seals + [Seal(ToSink, ClassOf(body), seqNo)];
          if left == 0 {
            return left, false;
          }
          sent := sent + [sealed];
          left := left - 1;
          if body.Data? {
            state.RecordSealed(seqNo, sealed);
          }
        case Resend(ds) =>
          left, ok := SendAll(ds, left);
        case Completed =>
        case Failed(_) =>
          ok := false;
      }
    }

    method Dispatch(evs: seq<P.SendEvent>, budget: nat) returns (left: nat, ok: bool)
      modifies this, state.ring
      ensures DispatchAll(old(View()), evs, budget) == Dispatched(View(), left, ok)
      ensures var w := WireUpTo(evs);
              && sent == old(sent) + w[..if |w| <= budget then |w| else budget]
              && (ok <==> (forall j :: 0 <= j < |evs| ==> Sendable(evs[j])) && |w| <= budget)
    {
      DispatchExact(View(), evs, budget);
      left, ok := budget, true;
      var i := 0;
      assert evs[0..] == evs;
      while i < |evs|
        invariant 0 <= i <= |evs| && ok
        invariant DispatchAll(old(View()), evs, budget) == DispatchAll(View(), evs[i..], left)
      {
        assert evs[i..][0] == evs[i] && evs[i..][1..] == evs[i + 1..];
        left, ok := DispatchEvent(evs[i], left);
        if !ok {
          return;
        }
        i := i + 1;
      }
    }
  }

  /** The sink's half: one transfer's entry at an endpoint. */
  class SinkEntry {
    var controlSeq: nat
    var seals: seq<Seal>
    var played: seq<Frame>
    var dropped: nat
    var cached: seq<Frame>
    var outcome: Option<RelOutcome>
    var newestMs: nat

    ghost function View(): (k: Sink)
      reads this
    {
      Sink(controlSeq, seals, played, dropped, cached, outcome, newestMs)
    }

    constructor ()
      ensures View() == Sink(0, [], [], 0, [], None, 0)
    {
      controlSeq, seals, played, dropped, cached, outcome, newestMs := 0, [], [], 0, [], None, 0;
    }

    method SealReply(b: Body) returns (sealed: Option<Body>)
      modifies `controlSeq, `seals
      ensures controlSeq == P.NextControl(old(controlSeq))
      ensures FitsWire(b) ==>
                sealed == Some(b) && seals == old(seals) + [Seal(ToTap, ControlClass, old(controlSeq))]
      ensures !FitsWire(b) ==> sealed == None && seals == old(seals)
    {
      var c := controlSeq;
      controlSeq := P.NextControl(c);
      if !FitsWire(b) {
        return None;
      }
      seals := seals + [Seal(ToTap, ControlClass, c)];
      sealed := Some(b);
    }

    method ApplyEvent(e: RecvEvent, occupancy: nat, room: nat) returns (out: seq<Body>, left: nat)
      modifies this
      ensures ApplyOne(old(View()), e, occupancy, room) == Applied(View(), out, left)
    {
      out, left := [], room;
      match e {
        case Unreliable(f) =>
          if newestMs < f.ts {
            newestMs := f.ts;
          }
          if left > 0 {
            played := played + [f];
            left := left - 1;
          } else {
            dropped := dropped + 1;
          }
        case Reliable(f) =>
          if newestMs < f.ts {
            newestMs := f.ts;
          }
          cached := cached + [f];
        case RelFinished(v) =>
          if outcome.None? {
            outcome := Some(v);
          }
        case Closed =>
        case _ =>
          var sealed := SealReply(ReplyTo(e, occupancy).value);
          if sealed.Some? {
            out := [sealed.value];
          }
      }
    }

    method Apply(evs: seq<RecvEvent>, occupancy: nat, room: nat) returns (out: seq<Body>, left: nat)
      modifies this
      ensures RepliesSealed(old(View()), evs, occupancy, Applied(View(), out, left))
      ensures PlaybackFed(old(View()), evs, room, Applied(View(), out, left))
      ensures CacheFed(old(View()), evs, Applied(View(), out, left))
      ensures ApplyAll(old(View()), evs, occupancy, room) == Applied(View(), out, left)
    {
      out, left := [], room;
      var i := 0;
      assert evs[0..] == evs;
      while i < |evs|
        invariant 0 <= i <= |evs|
        invariant var all, rest := ApplyAll(old(View()), evs, occupancy, room), ApplyAll(View(), evs[i..], occupancy, left);
                  all == rest.(out := out + rest.out)
      {
        assert evs[i..][0] == evs[i] && evs[i..][1..] == evs[i + 1..];
        var sealed: seq<Body>;
        sealed, left := ApplyEvent(evs[i], occupancy, left);
        out := out + sealed;
        i := i + 1;
      }
      assert evs[i..] == [] && out + [] == out;
      ApplySeals(old(View()), evs, occupancy, room);
      ApplyPlays(old(View()), evs, occupancy, room);
      ApplyCaches(old(View()), evs, occupancy, room);
    }
  }
}
