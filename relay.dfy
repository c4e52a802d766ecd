/**
 * The relay loop of `TCPServer::run`: a registry of sockets headed by the
 * listener (`master`), and one readiness cycle that accepts new peers,
 * drops peers whose read fails, and fans a received buffer out to every
 * other peer with an acknowledgement to its sender, decoding it into the
 * device sink on the way. Sends are recorded in a trace.
 */
module Relay {
  import opened Wrappers
  import opened Splitting
  import opened DeviceSink

  type SocketId = nat

  /** Bytes on the wire, one `char` each. */
  type Bytes = seq<char>

  const MAX_BUFFER_SIZE := 4096

  /** Winsock's default capacity of an `fd_set`. */
  const FD_SETSIZE := 64

  /** The welcome text and the acknowledgement, each sent with its NUL terminator. */
  const WELCOME: Bytes := "Welcome to VRPN Server.\n" + ['\0']
  const ACK: Bytes := "\n\nChataigne : Message delivered to vrpn Server.\n" + ['\0']

  const DELIMITER: string := "|"


  /** One call of `send`: the socket and the bytes handed to it. */
  datatype Send = Send(to: SocketId, bytes: Bytes)

  predicate NoDup(ms: seq<SocketId>) {
    forall i, j :: 0 <= i < j < |ms| ==> ms[i] != ms[j]
  }

  // ---------------------------------------------------------------------
  // The registry: Winsock's FD_SET and FD_CLR on an ordered fd_array.
  // ---------------------------------------------------------------------

  /** `FD_SET`: append the socket unless it is already present or the set is full. */
  function FdSet(ms: seq<SocketId>, s: SocketId): (r: seq<SocketId>)
    ensures |ms| <= |r| <= |ms| + 1 && r[..|ms|] == ms
    ensures s in r <==> s in ms || |ms| < FD_SETSIZE
    ensures forall y :: y != s ==> (y in r <==> y in ms)
    ensures NoDup(ms) ==> NoDup(r)
    ensures |ms| <= FD_SETSIZE ==> |r| <= FD_SETSIZE
  {
    if s in ms || |ms| >= FD_SETSIZE then ms else ms + [s]
  }

  /** `FD_CLR`: remove the first occurrence, shifting the rest down. */
  function FdClr(ms: seq<SocketId>, s: SocketId): (r: seq<SocketId>)
    ensures |r| == if s in ms then |ms| - 1 else |ms|
    ensures forall y :: y in r ==> y in ms
  {
    if ms == [] then []
    else if ms[0] == s then ms[1..]
    else [ms[0]] + FdClr(ms[1..], s)
  }

  /** Removing a socket the set does not hold changes nothing. */
  lemma {:induction false} FdClrAbsent(ms: seq<SocketId>, s: SocketId)
    requires s !in ms
    ensures FdClr(ms, s) == ms
  {
    if ms != [] {
      FdClrAbsent(ms[1..], s);
      assert ms == [ms[0]] + ms[1..];
    }
  }

  /** `FD_CLR` removes exactly the given socket and keeps the others in order. */
  lemma {:induction false} FdClrRemovesAt(ms: seq<SocketId>, s: SocketId, k: nat)
    requires k < |ms| && ms[k] == s && s !in ms[..k]
    ensures FdClr(ms, s) == ms[..k] + ms[k + 1..]
  {
    if k > 0 {
      assert ms[1..][..k - 1] == ms[1..k];
      assert ms[1..][k - 1] == s;
      assert s !in ms[1..][..k - 1];
      FdClrRemovesAt(ms[1..], s, k - 1);
      assert ms[1..][k..] == ms[k + 1..];
      assert ms[..k] == [ms[0]] + ms[1..k];
    }
  }

  lemma NoDupWithout(ms: seq<SocketId>, k: nat)
    requires NoDup(ms) && k < |ms|
    ensures NoDup(ms[..k] + ms[k + 1..]) && ms[k] !in ms[..k] + ms[k + 1..]
  {
    var r := ms[..k] + ms[k + 1..];
    forall i, j | 0 <= i < j < |r|
      ensures r[i] != r[j]
    {
      var i' := if i < k then i else i + 1;
      var j' := if j < k then j else j + 1;
      assert r[i] == ms[i'] && r[j] == ms[j'];
    }
    forall i | 0 <= i < |r|
      ensures r[i] != ms[k]
    {
      assert r[i] == ms[if i < k then i else i + 1];
    }
  }

  /** On a registry without duplicates, `FD_CLR` keeps it duplicate-free and
   *  keeps its first element unless that is the socket removed. */
  lemma FdClrKeepsRegistry(ms: seq<SocketId>, s: SocketId)
    requires NoDup(ms)
    ensures NoDup(FdClr(ms, s)) && s !in FdClr(ms, s)
    ensures |ms| > 0 && ms[0] != s ==> |FdClr(ms, s)| > 0 && FdClr(ms, s)[0] == ms[0]
    ensures forall y :: y != s ==> (y in FdClr(ms, s) <==> y in ms)
  {
    if s in ms {
      var k :| 0 <= k < |ms| && ms[k] == s;
      assert s !in ms[..k];
      FdClrRemovesAt(ms, s, k);
      NoDupWithout(ms, k);
      forall y | y != s && y in ms
        ensures y in FdClr(ms, s)
      {
        var j :| 0 <= j < |ms| && ms[j] == y;
        assert j != k;
        if j < k {
          assert (ms[..k] + ms[k + 1..])[j] == y;
        } else {
          assert (ms[..k] + ms[k + 1..])[j - 1] == y;
        }
      }
      if |ms| > 0 && ms[0] != s {
        assert k > 0;
        assert (ms[..k] + ms[k + 1..])[0] == ms[0];
      }
    } else {
      FdClrAbsent(ms, s);
    }
  }

  // ---------------------------------------------------------------------
  // The receive buffer.
  // ---------------------------------------------------------------------

  /** `buf` after `ZeroMemory` and a `recv` that delivered `data`. */
  function Received(data: Bytes): (b: Bytes)
    requires |data| <= MAX_BUFFER_SIZE
    ensures |b| == MAX_BUFFER_SIZE && b[..|data|] == data
    ensures forall k :: |data| <= k < MAX_BUFFER_SIZE ==> b[k] == '\0'
  {
    data + seq(MAX_BUFFER_SIZE - |data|, _ => '\0')
  }

  /** `buf` after `ZeroMemory` alone. */
  const ZEROED: Bytes := Received([])

  /** The buffer read as a C string: the bytes before the first NUL (all of
   *  them when there is none). */
  function CString(b: Bytes): (r: Bytes)
    ensures '\0' !in r && |r| <= |b| && r == b[..|r|]
    ensures |r| == |b| || b[|r|] == '\0'
  {
    if b == [] || b[0] == '\0' then [] else [b[0]] + CString(b[1..])
  }

  // ---------------------------------------------------------------------
  // The fan-out loop, as written and as intended.
  // ---------------------------------------------------------------------

  /**
   * The fan-out loop as written comes to an end: when the button loop
   * leaves `num_buttons` in the shared index, the sender sits at or before
   * that index, so the resumed walk from `num_buttons + 1` never meets it
   * again.
   */
  predicate FanOutEnds(ms: seq<SocketId>, sender: SocketId, resume: Option<int>) {
    resume.Some? ==> resume.value >= 0 && forall j :: resume.value < j < |ms| ==> ms[j] != sender
  }

  /**
   * The sends of the fan-out loop from index `i` on. The listener is
   * skipped, the sender gets the acknowledgement, every other socket the
   * payload. `resume` is the value the button loop leaves in the shared
   * index at the sender (`num_buttons` after a successful button update),
   * from which the loop's `i++` continues.
   */
  function FanOut(ms: seq<SocketId>, listener: SocketId, sender: SocketId, payload: Bytes,
                  resume: Option<int>, i: nat): (r: seq<Send>)
    requires FanOutEnds(ms, sender, resume)
    ensures forall k :: 0 <= k < |r| ==>
      r[k].to in ms && r[k].to != listener && r[k].bytes == (if r[k].to == sender then ACK else payload)
    decreases |ms| - i
  {
    if i >= |ms| then []
    else if ms[i] == listener then FanOut(ms, listener, sender, payload, resume, i + 1)
    else if ms[i] == sender then
      [Send(sender, ACK)] + FanOut(ms, listener, sender, payload, resume,
                                   if resume.Some? then resume.value + 1 else i + 1)
    else [Send(ms[i], payload)] + FanOut(ms, listener, sender, payload, resume, i + 1)
  }

  lemma AppendAssoc<T>(a: seq<T>, b: seq<T>, c: seq<T>)
    ensures a + (b + c) == (a + b) + c
  {
  }

  /** What the fan-out loop sends at index `i`. */
  function SendAt(ms: seq<SocketId>, listener: SocketId, sender: SocketId, payload: Bytes, i: nat): seq<Send>
    requires i < |ms|
  {
    if ms[i] == listener then []
    else if ms[i] == sender then [Send(sender, ACK)]
    else [Send(ms[i], payload)]
  }

  /** One iteration of the fan-out loop: what it sends at index `i`, then
   *  the rest of the walk from the index it moves on to. */
  lemma FanOutUnfold(ms: seq<SocketId>, listener: SocketId, sender: SocketId, payload: Bytes,
                     resume: Option<int>, i: nat)
    requires FanOutEnds(ms, sender, resume) && i < |ms| && sender != listener
    ensures FanOut(ms, listener, sender, payload, resume, i)
         == SendAt(ms, listener, sender, payload, i)
          + FanOut(ms, listener, sender, payload, resume, NextIndex(ms, sender, resume, i))
  {
  }

  /**
   * The sink state each send of the fan-out loop from index `i` happens
   * in: `now` until the sender is reached (its acknowledgement is sent
   * before the decode), `later` from then on.
   */
  function FanOutSeen(ms: seq<SocketId>, listener: SocketId, sender: SocketId, resume: Option<int>, i: nat,
                      now: SinkState, later: SinkState): seq<SinkState>
    requires FanOutEnds(ms, sender, resume)
    decreases |ms| - i
  {
    if i >= |ms| then []
    else if ms[i] == listener then FanOutSeen(ms, listener, sender, resume, i + 1, now, later)
    else if ms[i] == sender then
      [now] + FanOutSeen(ms, listener, sender, resume, if resume.Some? then resume.value + 1 else i + 1, later, later)
    else [now] + FanOutSeen(ms, listener, sender, resume, i + 1, now, later)
  }

  /** The sink state of what the fan-out loop sends at index `i`. */
  function SeenAt(ms: seq<SocketId>, listener: SocketId, i: nat, now: SinkState): seq<SinkState>
    requires i < |ms|
  {
    if ms[i] == listener then [] else [now]
  }

  lemma FanOutSeenUnfold(ms: seq<SocketId>, listener: SocketId, sender: SocketId, resume: Option<int>, i: nat,
                         now: SinkState, later: SinkState)
    requires FanOutEnds(ms, sender, resume) && i < |ms| && sender != listener
    ensures FanOutSeen(ms, listener, sender, resume, i, now, later)
         == SeenAt(ms, listener, i, now)
          + FanOutSeen(ms, listener, sender, resume, NextIndex(ms, sender, resume, i),
                       if ms[i] == sender then later else now, later)
  {
  }

  /** With no change of state left to come, every send sees the same sink. */
  lemma {:induction false} FanOutSeenConst(ms: seq<SocketId>, listener: SocketId, sender: SocketId, payload: Bytes,
                                           resume: Option<int>, i: nat, s: SinkState)
    requires FanOutEnds(ms, sender, resume) && sender != listener
    ensures var seen := FanOutSeen(ms, listener, sender, resume, i, s, s);
      |seen| == |FanOut(ms, listener, sender, payload, resume, i)| && forall k :: 0 <= k < |seen| ==> seen[k] == s
    decreases |ms| - i
  {
    if i < |ms| {
      var next := NextIndex(ms, sender, resume, i);
      FanOutUnfold(ms, listener, sender, payload, resume, i);
      FanOutSeenUnfold(ms, listener, sender, resume, i, s, s);
      FanOutSeenConst(ms, listener, sender, payload, resume, next, s);
      assert |SeenAt(ms, listener, i, s)| == |SendAt(ms, listener, sender, payload, i)|;
    }
  }

  /** The loop as written, up to the sender at slot `k`: the intended sends
   *  over the members ahead of it, then the acknowledgement. */
  lemma {:induction false} FanOutUpToSender(ms: seq<SocketId>, listener: SocketId, sender: SocketId,
                                            payload: Bytes, resume: Option<int>, i: nat, k: nat)
    requires FanOutEnds(ms, sender, resume)
    requires i <= k < |ms| && ms[k] == sender && sender != listener
    requires forall j :: i <= j < k ==> ms[j] != sender
    ensures FanOut(ms, listener, sender, payload, resume, i)
         == IntendedSends(ms[i..k], listener, sender, payload) + [Send(sender, ACK)]
          + FanOut(ms, listener, sender, payload, resume, NextIndex(ms, sender, resume, k))
    decreases k - i
  {
    if i == k {
      assert ms[i..k] == [];
    } else {
      FanOutUpToSender(ms, listener, sender, payload, resume, i + 1, k);
      assert ms[i..k][1..] == ms[i + 1..k];
      var head := SendAt(ms, listener, sender, payload, i);
      var rest := IntendedSends(ms[i + 1..k], listener, sender, payload);
      var after := FanOut(ms, listener, sender, payload, resume, NextIndex(ms, sender, resume, k));
      FanOutUnfold(ms, listener, sender, payload, resume, i);
      assert IntendedSends(ms[i..k], listener, sender, payload) == head + rest;
      AppendAssoc(head, rest + [Send(sender, ACK)], after);
      AppendAssoc(head, rest, [Send(sender, ACK)]);
    }
  }

  /** Up to the sender at slot `k`, every send of the loop sees the sink
   *  `now`; every send after the sender's acknowledgement sees `later`. */
  lemma {:induction false} FanOutSeenSplits(ms: seq<SocketId>, listener: SocketId, sender: SocketId,
                                            payload: Bytes, resume: Option<int>, i: nat, k: nat,
                                            now: SinkState, later: SinkState)
    requires FanOutEnds(ms, sender, resume)
    requires i <= k < |ms| && ms[k] == sender && sender != listener
    requires forall j :: i <= j < k ==> ms[j] != sender
    ensures var seen := FanOutSeen(ms, listener, sender, resume, i, now, later);
      var upTo := |IntendedSends(ms[i..k], listener, sender, payload)| + 1;
      |seen| == |FanOut(ms, listener, sender, payload, resume, i)| && upTo <= |seen|
      && (forall p :: 0 <= p < upTo ==> seen[p] == now)
      && (forall p :: upTo <= p < |seen| ==> seen[p] == later)
    decreases k - i
  {
    if i == k {
      assert ms[i..k] == [];
      FanOutSeenConst(ms, listener, sender, payload, resume, NextIndex(ms, sender, resume, k), later);
    } else {
      FanOutSeenSplits(ms, listener, sender, payload, resume, i + 1, k, now, later);
      assert ms[i..k][1..] == ms[i + 1..k];
    }
  }

  /**
   * The decode happens after the members ahead of the sender are served:
   * the loop sends the payload to every member before slot `k` and the
   * acknowledgement to the sender while the sink is still `now`, and
   * everything after that while it is `later`.
   */
  lemma DecodeAfterEarlierMembers(ms: seq<SocketId>, listener: SocketId, sender: SocketId,
                                  payload: Bytes, resume: Option<int>, k: nat, x: SocketId,
                                  now: SinkState, later: SinkState)
    requires NoDup(ms) && FanOutEnds(ms, sender, resume)
    requires k < |ms| && ms[k] == sender && sender != listener
    ensures var sends := FanOut(ms, listener, sender, payload, resume, 0);
      var seen := FanOutSeen(ms, listener, sender, resume, 0, now, later);
      var before := IntendedSends(ms[..k], listener, sender, payload);
      |before| < |sends| == |seen| && sends[..|before| + 1] == before + [Send(sender, ACK)]
      && ReceivedBy(before, x) == (if x in ms[..k] && x != listener then [payload] else [])
      && (forall p :: 0 <= p <= |before| ==> seen[p] == now)
      && (forall p :: |before| < p < |seen| ==> seen[p] == later)
  {
    forall j | 0 <= j < k ensures ms[j] != sender { }
    FanOutUpToSender(ms, listener, sender, payload, resume, 0, k);
    FanOutSeenSplits(ms, listener, sender, payload, resume, 0, k, now, later);
    assert ms[0..k] == ms[..k];
    assert NoDup(ms[..k]);
    IntendedDelivery(ms[..k], listener, sender, payload, x);
  }

  /** One iteration of the fan-out loop keeps the trace and its log of sink
   *  states on course for the whole walk. */
  lemma TraceStep(ms: seq<SocketId>, listener: SocketId, sender: SocketId, payload: Bytes,
                  resume: Option<int>, i: nat, start: SinkState, target: SinkState,
                  sent0: seq<Send>, sentBefore: seq<Send>, sentAfter: seq<Send>,
                  seen0: seq<SinkState>, seenBefore: seq<SinkState>, seenAfter: seq<SinkState>,
                  now: SinkState, nowAfter: SinkState)
    requires FanOutEnds(ms, sender, resume) && i < |ms| && sender != listener
    requires sent0 + FanOut(ms, listener, sender, payload, resume, 0)
          == sentBefore + FanOut(ms, listener, sender, payload, resume, i)
    requires seen0 + FanOutSeen(ms, listener, sender, resume, 0, start, target)
          == seenBefore + FanOutSeen(ms, listener, sender, resume, i, now, target)
    requires sentAfter == sentBefore + SendAt(ms, listener, sender, payload, i)
    requires seenAfter == seenBefore + SeenAt(ms, listener, i, now)
    requires nowAfter == if ms[i] == sender then target else now
    ensures sent0 + FanOut(ms, listener, sender, payload, resume, 0)
         == sentAfter + FanOut(ms, listener, sender, payload, resume, NextIndex(ms, sender, resume, i))
    ensures seen0 + FanOutSeen(ms, listener, sender, resume, 0, start, target)
         == seenAfter + FanOutSeen(ms, listener, sender, resume, NextIndex(ms, sender, resume, i), nowAfter, target)
  {
    var next := NextIndex(ms, sender, resume, i);
    FanOutUnfold(ms, listener, sender, payload, resume, i);
    FanOutSeenUnfold(ms, listener, sender, resume, i, now, target);
    AppendAssoc(sentBefore, SendAt(ms, listener, sender, payload, i), FanOut(ms, listener, sender, payload, resume, next));
    AppendAssoc(seenBefore, SeenAt(ms, listener, i, now), FanOutSeen(ms, listener, sender, resume, next, nowAfter, target));
  }

  /** The broadcast the loop is meant to perform: every registered socket
   *  in order, the listener skipped, the sender acknowledged, every other
   *  socket sent the payload. */
  function IntendedSends(ms: seq<SocketId>, listener: SocketId, sender: SocketId, payload: Bytes): seq<Send> {
    if ms == [] then []
    else
      (if ms[0] == listener then []
       else if ms[0] == sender then [Send(sender, ACK)]
       else [Send(ms[0], payload)])
      + IntendedSends(ms[1..], listener, sender, payload)
  }

  /** The bytes sent to socket `x`, in order. */
  function ReceivedBy(sends: seq<Send>, x: SocketId): seq<Bytes> {
    if sends == [] then []
    else (if sends[0].to == x then [sends[0].bytes] else []) + ReceivedBy(sends[1..], x)
  }

  /** The sockets sent to, in order. */
  function Recipients(sends: seq<Send>): seq<SocketId> {
    if sends == [] then [] else [sends[0].to] + Recipients(sends[1..])
  }

  lemma {:induction false} ReceivedByAppend(a: seq<Send>, b: seq<Send>, x: SocketId)
    ensures ReceivedBy(a + b, x) == ReceivedBy(a, x) + ReceivedBy(b, x)
  {
    if a != [] {
      assert (a + b)[1..] == a[1..] + b;
      ReceivedByAppend(a[1..], b, x);
    } else {
      assert a + b == b;
    }
  }

  lemma {:induction false} RecipientsAppend(a: seq<Send>, b: seq<Send>)
    ensures Recipients(a + b) == Recipients(a) + Recipients(b)
  {
    if a != [] {
      assert (a + b)[1..] == a[1..] + b;
      RecipientsAppend(a[1..], b);
    } else {
      assert a + b == b;
    }
  }

  /** Where the sender is not met again (always so without a resumed
   *  index) the loop performs the intended broadcast. */
  lemma {:induction false} FanOutIsIntended(ms: seq<SocketId>, listener: SocketId, sender: SocketId,
                                            payload: Bytes, resume: Option<int>, i: nat)
    requires FanOutEnds(ms, sender, resume) && i <= |ms|
    requires resume.None? || forall j :: i <= j < |ms| ==> ms[j] != sender
    ensures FanOut(ms, listener, sender, payload, resume, i) == IntendedSends(ms[i..], listener, sender, payload)
    decreases |ms| - i
  {
    if i < |ms| {
      FanOutIsIntended(ms, listener, sender, payload, resume, i + 1);
      assert ms[i..][1..] == ms[i + 1..];
    }
  }

  /**
   * With a resumed index the loop jumps from the sender to
   * `num_buttons + 1`: the sockets up to the sender get the intended
   * sends, those after it up to `num_buttons` get nothing, and only those
   * past `num_buttons` get the payload.
   */
  lemma {:induction false} FanOutResumes(ms: seq<SocketId>, listener: SocketId, sender: SocketId,
                                         payload: Bytes, nb: nat, i: nat, k: nat)
    requires FanOutEnds(ms, sender, Some(nb))
    requires i <= k < |ms| && ms[k] == sender && sender != listener
    requires forall j :: i <= j < k ==> ms[j] != sender
    ensures FanOut(ms, listener, sender, payload, Some(nb), i)
         == IntendedSends(ms[i..k + 1], listener, sender, payload)
          + IntendedSends(ms[if nb + 1 < |ms| then nb + 1 else |ms|..], listener, sender, payload)
    decreases k - i
  {
    var rest := if nb + 1 < |ms| then nb + 1 else |ms|;
    if i == k {
      assert ms[k..k + 1] == [sender];
      assert IntendedSends(ms[k..k + 1], listener, sender, payload) == [Send(sender, ACK)];
      if nb + 1 < |ms| {
        FanOutIsIntended(ms, listener, sender, payload, Some(nb), nb + 1);
      } else {
        assert ms[rest..] == [];
      }
    } else {
      FanOutResumes(ms, listener, sender, payload, nb, i + 1, k);
      assert ms[i..k + 1][1..] == ms[i + 1..k + 1];
      var head := SendAt(ms, listener, sender, payload, i);
      var upTo := IntendedSends(ms[i + 1..k + 1], listener, sender, payload);
      FanOutUnfold(ms, listener, sender, payload, Some(nb), i);
      assert IntendedSends(ms[i..k + 1], listener, sender, payload) == head + upTo;
      AppendAssoc(head, upTo, IntendedSends(ms[rest..], listener, sender, payload));
    }
  }

  /**
   * In the intended broadcast over a registry without duplicates, the
   * listener and unregistered sockets get nothing, the sender exactly one
   * acknowledgement and every other member exactly one copy of the payload.
   */
  lemma {:induction false} IntendedDelivery(ms: seq<SocketId>, listener: SocketId, sender: SocketId,
                                            payload: Bytes, x: SocketId)
    requires NoDup(ms)
    ensures ReceivedBy(IntendedSends(ms, listener, sender, payload), x)
         == if x !in ms || x == listener then []
            else if x == sender then [ACK]
            else [payload]
  {
    if ms != [] {
      var head := if ms[0] == listener then []
                  else if ms[0] == sender then [Send(sender, ACK)]
                  else [Send(ms[0], payload)];
      ReceivedByAppend(head, IntendedSends(ms[1..], listener, sender, payload), x);
      assert NoDup(ms[1..]);
      IntendedDelivery(ms[1..], listener, sender, payload, x);
      assert ms[0] !in ms[1..];
      assert x in ms <==> x == ms[0] || x in ms[1..];
      assert ReceivedBy(head, x) == if x == ms[0] && x != listener
        then [if x == sender then ACK else payload] else [];
    }
  }

  /** The intended broadcast addresses the registry in its order, listener left out. */
  lemma {:induction false} IntendedOrder(ms: seq<SocketId>, listener: SocketId, sender: SocketId, payload: Bytes)
    requires NoDup(ms)
    ensures Recipients(IntendedSends(ms, listener, sender, payload)) == FdClr(ms, listener)
  {
    if ms != [] {
      var head := if ms[0] == listener then []
                  else if ms[0] == sender then [Send(sender, ACK)]
                  else [Send(ms[0], payload)];
      RecipientsAppend(head, IntendedSends(ms[1..], listener, sender, payload));
      assert NoDup(ms[1..]);
      IntendedOrder(ms[1..], listener, sender, payload);
      if ms[0] == listener {
        assert listener !in ms[1..];
        FdClrAbsent(ms[1..], listener);
      }
    }
  }

  /** The index the fan-out loop moves to after index `i`, as written. */
  function NextIndex(ms: seq<SocketId>, sender: SocketId, resume: Option<int>, i: nat): nat
    requires resume.Some? ==> resume.value >= 0
  {
    if i < |ms| && ms[i] == sender && resume.Some? then resume.value + 1 else i + 1
  }

  /** The loop index after `steps` iterations from `i`. */
  function Walk(ms: seq<SocketId>, sender: SocketId, resume: Option<int>, i: nat, steps: nat): nat
    requires resume.Some? ==> resume.value >= 0
    decreases steps
  {
    if steps == 0 then i else Walk(ms, sender, resume, NextIndex(ms, sender, resume, i), steps - 1)
  }

  lemma {:induction false} WalkToSender(ms: seq<SocketId>, sender: SocketId, nb: nat, i: nat, k: nat)
    requires i <= k < |ms| && ms[k] == sender
    requires forall j :: i <= j < k ==> ms[j] != sender
    ensures Walk(ms, sender, Some(nb), i, k - i) == k
    decreases k - i
  {
    if i < k {
      WalkToSender(ms, sender, nb, i + 1, k);
    }
  }

  /**
   * As written, when the button count is small enough that the resumed
   * index `num_buttons + 1` is not past the sender, the loop comes back to
   * the sender after `k - num_buttons` iterations, every index on the way
   * inside the registry: the loop never ends.
   */
  lemma ButtonResumeRevisitsSender(ms: seq<SocketId>, sender: SocketId, nb: nat, k: nat)
    requires NoDup(ms) && k < |ms| && ms[k] == sender && nb + 1 <= k
    ensures Walk(ms, sender, Some(nb), k, k - nb) == k
  {
    assert NextIndex(ms, sender, Some(nb), k) == nb + 1;
    WalkToSender(ms, sender, nb, nb + 1, k);
  }

  // ---------------------------------------------------------------------
  // The server state and one readiness cycle.
  // ---------------------------------------------------------------------

  /** The relay's state as values: registry, send trace, sink, receive buffer. */
  datatype ServerState = ServerState(master: seq<SocketId>, sent: seq<Send>, sink: SinkState, buf: Bytes)

  /**
   * What every cycle keeps: the listener heads a duplicate-free registry
   * that fits an `fd_set`, the sink is well formed and the buffer has its
   * fixed size.
   */
  predicate Consistent(listener: SocketId, st: ServerState) {
    1 <= |st.master| <= FD_SETSIZE && st.master[0] == listener && NoDup(st.master)
    && st.sink.Valid() && |st.buf| == MAX_BUFFER_SIZE
  }

  /** One socket `select` reported ready, with what the calls the loop makes
   *  on it return: the socket `accept` gives, the count `recv` returns and
   *  the bytes it delivers. */
  datatype Ready = Ready(sock: SocketId, accepted: SocketId, bytesReceived: int, data: Bytes)

  /** `recv` returns at most the buffer size and delivers that many bytes. */
  predicate RecvOk(ev: Ready) {
    ev.bytesReceived <= MAX_BUFFER_SIZE && (ev.bytesReceived > 0 ==> |ev.data| == ev.bytesReceived)
  }

  /** The listener was ready: register the accepted socket and welcome it. */
  function Admit(st: ServerState, client: SocketId): (r: ServerState)
    ensures r.sink == st.sink && r.buf == st.buf && |r.sent| == |st.sent| + 1 && r.sent[..|st.sent|] == st.sent
    ensures ReceivedBy(r.sent[|st.sent|..], client) == [WELCOME]
    ensures forall x :: x != client ==> ReceivedBy(r.sent[|st.sent|..], x) == []
    ensures 1 <= |st.master| <= FD_SETSIZE && NoDup(st.master) ==>
      1 <= |r.master| <= FD_SETSIZE && r.master[0] == st.master[0] && NoDup(r.master)
    ensures client in r.master <==> client in st.master || |st.master| < FD_SETSIZE
  {
    st.(master := FdSet(st.master, client), sent := st.sent + [Send(client, WELCOME)])
  }

  /** A read returned nothing: drop the socket. */
  function Drop(st: ServerState, sock: SocketId): (r: ServerState)
    ensures r.sent == st.sent && r.sink == st.sink && r.buf == st.buf
    ensures NoDup(st.master) ==>
      NoDup(r.master) && sock !in r.master && forall y :: y != sock ==> (y in r.master <==> y in st.master)
  {
    var ms := FdClr(st.master, sock);
    assert NoDup(st.master) ==>
      NoDup(ms) && sock !in ms && forall y :: y != sock ==> (y in ms <==> y in st.master) by {
      if NoDup(st.master) {
        FdClrKeepsRegistry(st.master, sock);
      }
    }
    st.(master := ms)
  }

  /** The pieces of the received buffer read as a C string. */
  function Pieces(buf: Bytes): (r: seq<string>)
    ensures |r| >= 1
  {
    Split(CString(buf), DELIMITER)
  }

  /** A read returned `n` bytes in `st.buf`: fan them out; the sink is updated
   *  when the loop reaches the sender. */
  function Forward(listener: SocketId, atof: string -> Value, st: ServerState, sock: SocketId, n: nat): (r: ServerState)
    requires Consistent(listener, st) && sock != listener && n <= MAX_BUFFER_SIZE
    requires FanOutEnds(st.master, sock, IndexAfterDispatch(st.sink, Pieces(st.buf)))
    ensures Consistent(listener, r)
    ensures r.master == st.master && r.buf == st.buf && |st.sent| <= |r.sent| && r.sent[..|st.sent|] == st.sent
    ensures forall k :: |st.sent| <= k < |r.sent| ==> r.sent[k].to in st.master && r.sent[k].to != listener
    ensures sock !in st.master ==> r.sink == st.sink
    ensures sock !in st.master || IndexAfterDispatch(st.sink, Pieces(st.buf)).None? ==>
      r.sent[|st.sent|..] == IntendedSends(st.master, listener, sock, st.buf[..n])
  {
    var resume := IndexAfterDispatch(st.sink, Pieces(st.buf));
    var payload := st.buf[..n];
    assert sock !in st.master || resume.None? ==>
      FanOut(st.master, listener, sock, payload, resume, 0) == IntendedSends(st.master, listener, sock, payload) by {
      if sock !in st.master || resume.None? {
        FanOutIsIntended(st.master, listener, sock, payload, resume, 0);
        assert st.master[0..] == st.master;
      }
    }
    st.(sent := st.sent + FanOut(st.master, listener, sock, payload, resume, 0),
        sink := if sock in st.master then Apply(st.sink, Pieces(st.buf), atof) else st.sink)
  }

  /** Handling `ev` comes to an end: a positive read does not send the
   *  fan-out loop back to its sender. */
  predicate Ends(st: ServerState, ev: Ready)
    requires RecvOk(ev)
  {
    ev.bytesReceived > 0 ==> FanOutEnds(st.master, ev.sock, IndexAfterDispatch(st.sink, Pieces(Received(ev.data))))
  }

  /** The handling of one ready socket. */
  function Handle(listener: SocketId, atof: string -> Value, st: ServerState, ev: Ready): (r: ServerState)
    requires Consistent(listener, st) && RecvOk(ev) && Ends(st, ev)
    ensures Consistent(listener, r)
  {
    if ev.sock == listener then
      Admit(st, ev.accepted)
    else if ev.bytesReceived <= 0 then
      assert Consistent(listener, Drop(st.(buf := ZEROED), ev.sock)) by { FdClrKeepsRegistry(st.master, ev.sock); }
      Drop(st.(buf := ZEROED), ev.sock)
    else
      Forward(listener, atof, st.(buf := Received(ev.data)), ev.sock, ev.bytesReceived)
  }

  /** Every ready socket of a cycle is handled to the end, each in the
   *  state its predecessors leave. */
  predicate CycleEnds(listener: SocketId, atof: string -> Value, st: ServerState, ready: seq<Ready>)
    requires Consistent(listener, st) && forall k :: 0 <= k < |ready| ==> RecvOk(ready[k])
    decreases |ready|
  {
    ready == [] ||
    (Ends(st, ready[0]) && CycleEnds(listener, atof, Handle(listener, atof, st, ready[0]), ready[1..]))
  }

  /** The handling of the ready sockets of one cycle, in the order reported. */
  function Cycle(listener: SocketId, atof: string -> Value, st: ServerState, ready: seq<Ready>): (r: ServerState)
    requires Consistent(listener, st) && forall k :: 0 <= k < |ready| ==> RecvOk(ready[k])
    requires CycleEnds(listener, atof, st, ready)
    ensures Consistent(listener, r)
    decreases |ready|
  {
    if ready == [] then st else Cycle(listener, atof, Handle(listener, atof, st, ready[0]), ready[1..])
  }

  /**
   * Accepting: the new socket joins the registry (when the `fd_set` has
   * room), the welcome with its NUL goes to it and to no one else, and the
   * sink is untouched.
   */
  lemma AcceptWelcomesNewSocketOnly(listener: SocketId, atof: string -> Value, st: ServerState, ev: Ready, x: SocketId)
    requires Consistent(listener, st) && RecvOk(ev) && ev.sock == listener
    ensures var r := Handle(listener, atof, st, ev);
      r.master == FdSet(st.master, ev.accepted) && r.sink == st.sink
      && ReceivedBy(r.sent, x) == ReceivedBy(st.sent, x) + (if x == ev.accepted then [WELCOME] else [])
      && |WELCOME| == 25
  {
    ReceivedByAppend(st.sent, [Send(ev.accepted, WELCOME)], x);
    assert ReceivedBy([Send(ev.accepted, WELCOME)], x) == if x == ev.accepted then [WELCOME] else [];
  }

  /**
   * A failed or empty read removes exactly that socket from the registry,
   * keeps the others in order with the listener first, sends nothing and
   * leaves the sink alone.
   */
  lemma DisconnectRemovesOnlySender(listener: SocketId, atof: string -> Value, st: ServerState, ev: Ready, k: nat)
    requires Consistent(listener, st) && RecvOk(ev)
    requires ev.sock != listener && ev.bytesReceived <= 0
    requires k < |st.master| && st.master[k] == ev.sock
    ensures var r := Handle(listener, atof, st, ev);
      r.master == st.master[..k] + st.master[k + 1..] && r.master[0] == listener
      && r.sent == st.sent && r.sink == st.sink
  {
    assert ev.sock !in st.master[..k];
    FdClrRemovesAt(st.master, ev.sock, k);
  }

  /**
   * A positive read whose content is not a successful button update: the
   * sender gets one acknowledgement, the listener nothing, every other
   * member exactly one verbatim copy of the bytes received, in registry
   * order; the sink gets the decoded update.
   */
  lemma RelayDeliversOnce(listener: SocketId, atof: string -> Value, st: ServerState, ev: Ready, x: SocketId)
    requires Consistent(listener, st) && RecvOk(ev)
    requires ev.sock != listener && ev.bytesReceived > 0 && ev.sock in st.master
    requires IndexAfterDispatch(st.sink, Pieces(Received(ev.data))).None?
    ensures var r := Handle(listener, atof, st, ev);
      r.sent == st.sent + IntendedSends(st.master, listener, ev.sock, ev.data)
      && ReceivedBy(r.sent, x) == ReceivedBy(st.sent, x)
           + (if x !in st.master || x == listener then []
              else if x == ev.sock then [ACK]
              else [ev.data])
      && Recipients(r.sent[|st.sent|..]) == FdClr(st.master, listener)
      && r.sink == Apply(st.sink, Pieces(Received(ev.data)), atof)
  {
    var buf := Received(ev.data);
    assert buf[..ev.bytesReceived] == ev.data;
    FanOutIsIntended(st.master, listener, ev.sock, ev.data, None, 0);
    assert st.master[0..] == st.master;
    var sends := IntendedSends(st.master, listener, ev.sock, ev.data);
    ReceivedByAppend(st.sent, sends, x);
    IntendedDelivery(st.master, listener, ev.sock, ev.data, x);
    IntendedOrder(st.master, listener, ev.sock, ev.data);
    assert (st.sent + sends)[|st.sent|..] == sends;
  }

  /**
   * The resumed fan-out, socket by socket: past the sender, a member gets
   * one copy of the payload when its index exceeds `num_buttons`, and
   * nothing otherwise.
   */
  lemma ResumedDelivery(ms: seq<SocketId>, listener: SocketId, sender: SocketId, payload: Bytes,
                        nb: nat, k: nat, j: nat)
    requires NoDup(ms) && |ms| > 0 && ms[0] == listener
    requires FanOutEnds(ms, sender, Some(nb))
    requires k < j < |ms| && ms[k] == sender && sender != listener
    ensures ReceivedBy(FanOut(ms, listener, sender, payload, Some(nb), 0), ms[j])
         == if j > nb then [payload] else []
  {
    var rest := if nb + 1 < |ms| then nb + 1 else |ms|;
    forall i | 0 <= i < k ensures ms[i] != sender { }
    FanOutResumes(ms, listener, sender, payload, nb, 0, k);
    assert ms[0..k + 1] == ms[..k + 1];
    var before := IntendedSends(ms[..k + 1], listener, sender, payload);
    var after := IntendedSends(ms[rest..], listener, sender, payload);
    var x := ms[j];
    ReceivedByAppend(before, after, x);
    assert NoDup(ms[..k + 1]) && NoDup(ms[rest..]);
    assert x !in ms[..k + 1];
    IntendedDelivery(ms[..k + 1], listener, sender, payload, x);
    IntendedDelivery(ms[rest..], listener, sender, payload, x);
    assert x != listener && x != sender;
    if j > nb {
      assert ms[rest..][j - rest] == x;
    } else {
      assert x !in ms[rest..];
    }
  }

  /**
   * A positive read that is a successful button update: after the
   * sender's acknowledgement the fan-out resumes at `num_buttons + 1`, so
   * the members after the sender up to index `num_buttons` get nothing and
   * only those past it get the bytes (none, for a registry shorter than
   * the button count).
   */
  lemma RelaySkipsPeersAfterButtonUpdate(listener: SocketId, atof: string -> Value, st: ServerState, ev: Ready, k: nat)
    requires Consistent(listener, st) && RecvOk(ev) && Ends(st, ev)
    requires ev.sock != listener && ev.bytesReceived > 0
    requires k < |st.master| && st.master[k] == ev.sock
    requires IndexAfterDispatch(st.sink, Pieces(Received(ev.data))).Some?
    ensures var r := Handle(listener, atof, st, ev);
      forall j :: k < j < |st.master| ==>
        ReceivedBy(r.sent, st.master[j])
        == ReceivedBy(st.sent, st.master[j]) + (if j > st.sink.numButtons then [ev.data] else [])
  {
    var buf := Received(ev.data);
    assert buf[..ev.bytesReceived] == ev.data;
    var ms := st.master;
    var nb := st.sink.numButtons;
    var sends := FanOut(ms, listener, ev.sock, ev.data, Some(nb), 0);
    assert Handle(listener, atof, st, ev).sent == st.sent + sends;
    forall j | k < j < |ms|
      ensures ReceivedBy(st.sent + sends, ms[j]) == ReceivedBy(st.sent, ms[j]) + (if j > nb then [ev.data] else [])
    {
      ReceivedByAppend(st.sent, sends, ms[j]);
      ResumedDelivery(ms, listener, ev.sock, ev.data, nb, k, j);
    }
  }

  /** A concrete case: registry [listener 1, sender 2, peer 3]; peer 3 gets
   *  nothing when sender 2's message is a successful button update. */
  lemma ButtonUpdateSkipsLaterPeerExample(payload: Bytes)
    ensures FanOut([1, 2, 3], 1, 2, payload, Some(255), 0) == [Send(2, ACK)]
  {
  }

  // ---------------------------------------------------------------------
  // The server object.
  // ---------------------------------------------------------------------

  class Server {
    const listener: SocketId
    /** The C library's `atof`, left uninterpreted. */
    const atof: string -> Value
    const sink: Sink
    const buf: array<char>
    var master: seq<SocketId>
    var sent: seq<Send>
    /** The sink state at the moment of each entry of `sent`. */
    ghost var seen: seq<SinkState>

    ghost predicate Valid()
      reads this, buf, sink, sink.pos, sink.dQuat, sink.channel, sink.buttons
    {
      sink.Valid() && buf.Length == MAX_BUFFER_SIZE && Consistent(listener, State())
    }

    function State(): ServerState
      reads this, buf, sink, sink.pos, sink.dQuat, sink.channel, sink.buttons
    {
      ServerState(master, sent, sink.State(), buf[..])
    }

    /** TCPServer.cpp lines 125-128: the registry starts with the listener alone. */
    constructor (listeningSocket: SocketId, atof: string -> Value, sink: Sink)
      requires sink.Valid()
      ensures Valid() && fresh(buf)
      ensures this.sink == sink && this.atof == atof && listener == listeningSocket
      ensures State() == ServerState([listeningSocket], [], old(sink.State()), ZEROED) && seen == []
    {
      listener := listeningSocket;
      this.atof := atof;
      this.sink := sink;
      buf := new char[MAX_BUFFER_SIZE](_ => '\0');
      master := [listeningSocket];
      sent := [];
      seen := [];
    }

    /** `send`: recorded in the trace. */
    method SendTo(to: SocketId, bytes: Bytes)
      modifies this`sent, this`seen
      ensures sent == old(sent) + [Send(to, bytes)] && seen == old(seen) + [sink.State()]
    {
      sent := sent + [Send(to, bytes)];
      seen := seen + [sink.State()];
    }

    /** TCPServer.cpp lines 139-145. */
    method Accept(client: SocketId)
      requires Valid()
      modifies this`master, this`sent, this`seen
      ensures Valid() && State() == Admit(old(State()), client)
    {
      master := FdSet(master, client);
      SendTo(client, WELCOME);
    }

    /** TCPServer.cpp lines 150-151: clear the buffer, then let `recv` fill it. */
    method Recv(ev: Ready) returns (bytesReceived: int)
      requires Valid() && RecvOk(ev)
      modifies buf
      ensures bytesReceived == ev.bytesReceived
      ensures buf[..] == if bytesReceived > 0 then Received(ev.data) else ZEROED
    {
      forall k | 0 <= k < buf.Length {
        buf[k] := '\0';
      }
      bytesReceived := ev.bytesReceived;
      if bytesReceived > 0 {
        forall k | 0 <= k < |ev.data| {
          buf[k] := ev.data[k];
        }
        assert buf[..] == Received(ev.data);
      } else {
        assert buf[..] == ZEROED;
      }
    }

    /** TCPServer.cpp lines 153-156. */
    method Close(sock: SocketId)
      requires Valid() && sock != listener
      modifies this`master
      ensures Valid() && State() == Drop(old(State()), sock)
    {
      FdClrKeepsRegistry(master, sock);
      master := FdClr(master, sock);
    }

    /**
     * TCPServer.cpp lines 159-277: walk the registry; skip the listener,
     * acknowledge the sender and decode its buffer into the sink there,
     * copy the first `n` bytes of the buffer to everyone else. The button
     * loop writes the same index `i`, so after a successful button update
     * the walk resumes at `num_buttons + 1`.
     */
    method Broadcast(sock: SocketId, n: nat)
      requires sink.Valid() && buf.Length == MAX_BUFFER_SIZE && sock != listener && n <= MAX_BUFFER_SIZE
      requires NoDup(master) && FanOutEnds(master, sock, IndexAfterDispatch(sink.State(), Pieces(buf[..])))
      modifies this`sent, this`seen, sink.pos, sink.dQuat, sink.channel, sink.buttons,
               sink`analogReadFlag, sink`buttonReadFlag
      ensures sink.Valid()
      ensures sent == old(sent) + FanOut(master, listener, sock, buf[..n],
                                         IndexAfterDispatch(old(sink.State()), Pieces(buf[..])), 0)
      ensures sink.State() == if sock in master then Apply(old(sink.State()), Pieces(buf[..]), atof)
                              else old(sink.State())
      ensures seen == old(seen) + FanOutSeen(master, listener, sock,
                                             IndexAfterDispatch(old(sink.State()), Pieces(buf[..])), 0,
                                             old(sink.State()), Apply(old(sink.State()), Pieces(buf[..]), atof))
    {
      ghost var sent0 := sent;
      ghost var seen0 := seen;
      ghost var sink0 := sink.State();
      ghost var pieces := Pieces(buf[..]);
      ghost var resume := IndexAfterDispatch(sink0, pieces);
      ghost var target := Apply(sink0, pieces, atof);
      ghost var payload := buf[..n];
      ghost var ms := master;
      ghost var visited := false;
      var i: nat := 0;
      while i < |master|
        invariant master == ms && buf[..n] == payload && sink.Valid()
        invariant sent0 + FanOut(ms, listener, sock, payload, resume, 0)
               == sent + FanOut(ms, listener, sock, payload, resume, i)
        invariant seen0 + FanOutSeen(ms, listener, sock, resume, 0, sink0, target)
               == seen + FanOutSeen(ms, listener, sock, resume, i, sink.State(), target)
        invariant !visited ==> i <= |ms| && (forall j :: 0 <= j < i ==> ms[j] != sock) && sink.State() == sink0
        invariant visited ==> sock in ms && sink.State() == target
        invariant visited ==> forall j :: i <= j < |ms| ==> ms[j] != sock
        decreases |ms| - i
      {
        ghost var sentBefore, seenBefore, now := sent, seen, sink.State();
        ghost var next := NextIndex(ms, sock, resume, i);
        var index := Visit(sock, n, i);
        if ms[i] == sock {
          assert !visited && index == resume;
          assert forall j :: i < j < |ms| ==> ms[j] != sock;
          visited := true;
        } else {
          assert index == None;
          assert !visited ==> forall j :: 0 <= j < i + 1 ==> ms[j] != sock;
        }
        TraceStep(ms, listener, sock, payload, resume, i, sink0, target, sent0, sentBefore, sent,
                  seen0, seenBefore, seen, now, sink.State());
        if index.Some? {
          i := index.value;
        }
        i := i + 1;
        assert i == next;
      }
      assert !visited ==> sock !in ms;
      assert sent0 + FanOut(ms, listener, sock, payload, resume, 0) == sent + [];
      assert seen0 + FanOutSeen(ms, listener, sock, resume, 0, sink0, target) == seen + [];
    }

    /**
     * One iteration of the fan-out loop at index `i`: the listener is
     * skipped, the sender is acknowledged and its buffer decoded into the
     * sink, any other socket is sent the first `n` bytes of the buffer. The
     * result is what the button loop leaves in the shared index.
     */
    method Visit(sock: SocketId, n: nat, i: nat) returns (index: Option<int>)
      requires sink.Valid() && buf.Length == MAX_BUFFER_SIZE && sock != listener && n <= MAX_BUFFER_SIZE && i < |master|
      modifies this`sent, this`seen, sink.pos, sink.dQuat, sink.channel, sink.buttons,
               sink`analogReadFlag, sink`buttonReadFlag
      ensures sink.Valid()
      ensures sent == old(sent) + SendAt(master, listener, sock, buf[..n], i)
      ensures seen == old(seen) + SeenAt(master, listener, i, old(sink.State()))
      ensures master[i] == sock ==>
        sink.State() == Apply(old(sink.State()), Pieces(buf[..]), atof)
        && index == IndexAfterDispatch(old(sink.State()), Pieces(buf[..]))
      ensures master[i] != sock ==> sink.State() == old(sink.State()) && index == None
    {
      index := None;
      var outSock := master[i];
      if outSock != listener {
        if outSock == sock {
          index := Acknowledge(sock);
        } else {
          SendTo(outSock, buf[..n]);
        }
      }
    }

    /** TCPServer.cpp lines 164-267: acknowledge the sender, split the
     *  buffer read as a C string on `"|"` and dispatch it into the sink. */
    method Acknowledge(sock: SocketId) returns (index: Option<int>)
      requires sink.Valid()
      modifies this`sent, this`seen, sink.pos, sink.dQuat, sink.channel, sink.buttons,
               sink`analogReadFlag, sink`buttonReadFlag
      ensures sink.Valid()
      ensures sent == old(sent) + [Send(sock, ACK)] && seen == old(seen) + [old(sink.State())]
      ensures sink.State() == Apply(old(sink.State()), Pieces(buf[..]), atof)
      ensures index == IndexAfterDispatch(old(sink.State()), Pieces(buf[..]))
    {
      SendTo(sock, ACK);
      var pieces := GlobalSplit(CString(buf[..]), DELIMITER);
      index := sink.Dispatch(pieces, atof);
    }

    /** TCPServer.cpp lines 137-287: the handling of one ready socket. */
    method Service(ev: Ready)
      requires Valid() && RecvOk(ev) && Ends(State(), ev)
      modifies this`master, this`sent, this`seen, buf, sink.pos, sink.dQuat, sink.channel, sink.buttons,
               sink`analogReadFlag, sink`buttonReadFlag
      ensures Valid() && State() == Handle(listener, atof, old(State()), ev)
    {
      if ev.sock == listener {
        Accept(ev.accepted);
      } else {
        var bytesReceived := Recv(ev);
        if bytesReceived <= 0 {
          Close(ev.sock);
        } else {
          Broadcast(ev.sock, bytesReceived);
          assert State() == Forward(listener, atof, old(State()).(buf := buf[..]), ev.sock, bytesReceived);
        }
      }
    }

    /** TCPServer.cpp lines 132-288: one cycle of the relay loop over the
     *  sockets `select` reported ready, in the order reported. */
    method Step(ready: seq<Ready>)
      requires Valid() && forall k :: 0 <= k < |ready| ==> RecvOk(ready[k])
      requires CycleEnds(listener, atof, State(), ready)
      modifies this`master, this`sent, this`seen, buf, sink.pos, sink.dQuat, sink.channel, sink.buttons,
               sink`analogReadFlag, sink`buttonReadFlag
      ensures Valid() && State() == Cycle(listener, atof, old(State()), ready)
    {
      for k := 0 to |ready|
        invariant Valid() && CycleEnds(listener, atof, State(), ready[k..])
        invariant Cycle(listener, atof, State(), ready[k..]) == Cycle(listener, atof, old(State()), ready)
      {
        assert ready[k..][1..] == ready[k + 1..];
        Service(ready[k]);
      }
    }
  }
}
