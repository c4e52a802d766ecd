/**
 * The device-state sink that the relay writes decoded packets into: the
 * first tracker (`pos`, `d_quat`), the first analog source (`num_channel`,
 * `channel`, `readFlag`) and the first button source (`num_buttons`,
 * `buttons`, `readFlag`) of the generic server object, together with how
 * many devices of each kind it has.
 */
module DeviceSink {
  import opened Wrappers
  import opened Numerals

  /** A `vrpn_float64`. The model never computes with one: values only come
   *  from the `atof` argument or are the literal 0 written into `d_quat[3]`. */
  type Value = real

  const TRACKER_PKT := 100
  const ANALOG_PKT := 101
  const BUTTON_PKT := 102

  /** The sink's fields as values. */
  datatype SinkState = SinkState(
    numTrackers: int, pos: seq<Value>, dQuat: seq<Value>,
    numMouses: int, numChannel: int, channel: seq<Value>, analogReadFlag: bool,
    numKeyboards: int, numButtons: int, buttons: seq<int>, buttonReadFlag: bool)
  {
    /** Three position and four quaternion components; the configured
     *  channel and button counts fit their arrays. */
    predicate Valid() {
      |pos| == 3 && |dQuat| == 4 && numChannel <= |channel| && numButtons <= |buttons|
    }
  }

  /** The counts the relay only reads. */
  predicate SameShape(a: SinkState, b: SinkState) {
    a.numTrackers == b.numTrackers && a.numMouses == b.numMouses && a.numKeyboards == b.numKeyboards
    && a.numChannel == b.numChannel && a.numButtons == b.numButtons
    && |a.channel| == |b.channel| && |a.buttons| == |b.buttons|
  }

  /** The guard of the tracker branch (tag 100). */
  predicate TrackerApplies(s: SinkState, pieces: seq<string>) {
    s.numTrackers > 0 && |pieces| >= 7
  }

  /** The guards of the analog branch (tag 101): a device, at least four
   *  pieces, and exactly one piece per configured channel after the tag. */
  predicate AnalogApplies(s: SinkState, pieces: seq<string>) {
    s.numMouses > 0 && |pieces| >= 4 && s.numChannel == |pieces| - 1
  }

  /** The guards of the button branch (tag 102). */
  predicate ButtonApplies(s: SinkState, pieces: seq<string>) {
    s.numKeyboards > 0 && |pieces| >= 2 && s.numButtons == |pieces| - 1
  }

  /**
   * The array `dst` after its first `count` slots are overwritten with the
   * conversions of the pieces after the tag, slot `i` from piece `i + 1`.
   */
  function WriteFields<T>(dst: seq<T>, count: nat, pieces: seq<string>, conv: string -> T): (r: seq<T>)
    requires count <= |dst| && count < |pieces|
    ensures |r| == |dst|
    ensures forall i :: 0 <= i < count ==> r[i] == conv(pieces[i + 1])
    ensures forall i :: count <= i < |dst| ==> r[i] == dst[i]
  {
    seq(count, i requires 0 <= i < count => conv(pieces[i + 1])) + dst[count..]
  }

  function UpdateTracker(s: SinkState, pieces: seq<string>, atof: string -> Value): (r: SinkState)
    requires s.Valid()
    ensures r.Valid() && SameShape(r, s)
    ensures TrackerApplies(s, pieces) ==>
      (forall k :: 0 <= k < 3 ==> r.pos[k] == atof(pieces[k + 1]) && r.dQuat[k] == atof(pieces[k + 4]))
      && r.dQuat[3] == 0.0
    ensures r.(pos := s.pos, dQuat := s.dQuat) == s
    ensures !TrackerApplies(s, pieces) ==> r == s
  {
    if TrackerApplies(s, pieces) then
      s.(pos := [atof(pieces[1]), atof(pieces[2]), atof(pieces[3])],
         dQuat := [atof(pieces[4]), atof(pieces[5]), atof(pieces[6]), 0.0])
    else s
  }

  function UpdateAnalog(s: SinkState, pieces: seq<string>, atof: string -> Value): (r: SinkState)
    requires s.Valid()
    ensures r.Valid() && SameShape(r, s)
    ensures AnalogApplies(s, pieces) ==>
      r.analogReadFlag
      && (forall i :: 0 <= i < s.numChannel ==> r.channel[i] == atof(pieces[i + 1]))
      && (forall i :: s.numChannel <= i < |s.channel| ==> r.channel[i] == s.channel[i])
    ensures r.(channel := s.channel, analogReadFlag := s.analogReadFlag) == s
    ensures !AnalogApplies(s, pieces) ==> r == s
  {
    if AnalogApplies(s, pieces) then
      s.(channel := WriteFields(s.channel, s.numChannel, pieces, atof), analogReadFlag := true)
    else s
  }

  function UpdateButtons(s: SinkState, pieces: seq<string>): (r: SinkState)
    requires s.Valid()
    ensures r.Valid() && SameShape(r, s)
    ensures ButtonApplies(s, pieces) ==>
      r.buttonReadFlag
      && (forall i :: 0 <= i < s.numButtons ==> r.buttons[i] == Atoi(pieces[i + 1]))
      && (forall i :: s.numButtons <= i < |s.buttons| ==> r.buttons[i] == s.buttons[i])
    ensures r.(buttons := s.buttons, buttonReadFlag := s.buttonReadFlag) == s
    ensures !ButtonApplies(s, pieces) ==> r == s
  {
    if ButtonApplies(s, pieces) then
      s.(buttons := WriteFields(s.buttons, s.numButtons, pieces, Atoi), buttonReadFlag := true)
    else s
  }

  /**
   * The sink after the `switch` on the packet type `atoi(pieces[0])`: one of
   * the three updates, and no change at all for any other tag.
   */
  function Apply(s: SinkState, pieces: seq<string>, atof: string -> Value): (r: SinkState)
    requires s.Valid() && |pieces| >= 1
    ensures r.Valid() && SameShape(r, s)
    ensures Atoi(pieces[0]) !in {TRACKER_PKT, ANALOG_PKT, BUTTON_PKT} ==> r == s
    ensures Atoi(pieces[0]) == TRACKER_PKT ==> r == UpdateTracker(s, pieces, atof)
    ensures Atoi(pieces[0]) == ANALOG_PKT ==> r == UpdateAnalog(s, pieces, atof)
    ensures Atoi(pieces[0]) == BUTTON_PKT ==> r == UpdateButtons(s, pieces)
  {
    var packetType := Atoi(pieces[0]);
    if packetType == TRACKER_PKT then UpdateTracker(s, pieces, atof)
    else if packetType == ANALOG_PKT then UpdateAnalog(s, pieces, atof)
    else if packetType == BUTTON_PKT then UpdateButtons(s, pieces)
    else s
  }

  /**
   * The button loop reuses the caller's index variable: after a successful
   * button update it is left at `num_buttons`; otherwise it is untouched.
   */
  function IndexAfterDispatch(s: SinkState, pieces: seq<string>): (r: Option<int>)
    requires |pieces| >= 1
    ensures r.Some? <==> Atoi(pieces[0]) == BUTTON_PKT && ButtonApplies(s, pieces)
    ensures r.Some? ==> r.value == s.numButtons
  {
    if Atoi(pieces[0]) == BUTTON_PKT && ButtonApplies(s, pieces) then Some(s.numButtons) else None
  }

  /** A tag outside {100, 101, 102} leaves every field of the sink unchanged. */
  lemma UnknownTagIsNoOp(s: SinkState, pieces: seq<string>, atof: string -> Value)
    requires s.Valid() && |pieces| >= 1
    requires Atoi(pieces[0]) !in {TRACKER_PKT, ANALOG_PKT, BUTTON_PKT}
    ensures Apply(s, pieces, atof) == s
  {
  }

  /** Non-numeric tag text reads as 0, which is no known tag. */
  lemma NonNumericTagIsNoOp(s: SinkState, pieces: seq<string>, atof: string -> Value)
    requires s.Valid() && |pieces| >= 1
    requires forall i :: 0 <= i < |pieces[0]| ==> !IsDigit(pieces[0][i])
    ensures Apply(s, pieces, atof) == s
  {
    AtoiWithoutDigits(pieces[0]);
  }

  /** The sink fields of the relay's generic server object. */
  class Sink {
    var numTrackers: int
    const pos: array<Value>
    const dQuat: array<Value>
    var numMouses: int
    var numChannel: int
    const channel: array<Value>
    var analogReadFlag: bool
    var numKeyboards: int
    var numButtons: int
    const buttons: array<int>
    var buttonReadFlag: bool

    ghost predicate Valid()
      reads this
    {
      pos.Length == 3 && dQuat.Length == 4
      && numChannel <= channel.Length && numButtons <= buttons.Length
      && pos != dQuat && pos != channel && dQuat != channel
    }

    function State(): (s: SinkState)
      reads this, pos, dQuat, channel, buttons
    {
      SinkState(numTrackers, pos[..], dQuat[..],
                numMouses, numChannel, channel[..], analogReadFlag,
                numKeyboards, numButtons, buttons[..], buttonReadFlag)
    }

    /** A sink with the given device counts and array capacities, all values zero. */
    constructor (trackers: int, mouses: int, channels: int, channelCapacity: nat,
                 keyboards: int, buttonCount: int, buttonCapacity: nat)
      requires channels <= channelCapacity && buttonCount <= buttonCapacity
      ensures Valid() && State().Valid()
      ensures fresh(pos) && fresh(dQuat) && fresh(channel) && fresh(buttons)
      ensures State() == SinkState(trackers, [0.0, 0.0, 0.0], [0.0, 0.0, 0.0, 0.0],
                                   mouses, channels, seq(channelCapacity, _ => 0.0), false,
                                   keyboards, buttonCount, seq(buttonCapacity, _ => 0), false)
    {
      numTrackers, numMouses, numChannel := trackers, mouses, channels;
      numKeyboards, numButtons := keyboards, buttonCount;
      pos := new Value[3](_ => 0.0);
      dQuat := new Value[4](_ => 0.0);
      channel := new Value[channelCapacity](_ => 0.0);
      buttons := new int[buttonCapacity](_ => 0);
      analogReadFlag, buttonReadFlag := false, false;
    }

    /**
     * TCPServer.cpp lines 175-267: take the packet type from the first
     * piece and apply the matching update. The returned value is what the
     * button loop leaves in the index variable it shares with its caller.
     */
    method Dispatch(pieces: seq<string>, atof: string -> Value) returns (index: Option<int>)
      requires Valid() && |pieces| >= 1
      modifies pos, dQuat, channel, buttons, this`analogReadFlag, this`buttonReadFlag
      ensures Valid()
      ensures State() == Apply(old(State()), pieces, atof)
      ensures index == IndexAfterDispatch(old(State()), pieces)
    {
      var packetType := Atoi(pieces[0]);
      index := None;
      if packetType == TRACKER_PKT {
        WriteTracker(pieces, atof);
      } else if packetType == ANALOG_PKT {
        WriteAnalog(pieces, atof);
      } else if packetType == BUTTON_PKT {
        index := WriteButtons(pieces);
      }
    }

    /** The tracker branch: three position and three orientation values,
     *  the fourth orientation component forced to 0. */
    method WriteTracker(pieces: seq<string>, atof: string -> Value)
      requires Valid()
      modifies pos, dQuat
      ensures Valid()
      ensures State() == UpdateTracker(old(State()), pieces, atof)
    {
      if numTrackers > 0 && |pieces| >= 7 {
        pos[0] := atof(pieces[1]);
        pos[1] := atof(pieces[2]);
        pos[2] := atof(pieces[3]);
        dQuat[0] := atof(pieces[4]);
        dQuat[1] := atof(pieces[5]);
        dQuat[2] := atof(pieces[6]);
        dQuat[3] := 0.0;
        assert pos[..] == [atof(pieces[1]), atof(pieces[2]), atof(pieces[3])];
        assert dQuat[..] == [atof(pieces[4]), atof(pieces[5]), atof(pieces[6]), 0.0];
      }
    }

    /** The analog branch: on an exact channel count, lower the flag, write
     *  every configured channel, raise the flag. */
    method WriteAnalog(pieces: seq<string>, atof: string -> Value)
      requires Valid()
      modifies channel, this`analogReadFlag
      ensures Valid()
      ensures State() == UpdateAnalog(old(State()), pieces, atof)
    {
      ghost var before := State();
      if numMouses > 0 && |pieces| >= 4 {
        if numChannel != |pieces| - 1 {
          return;
        }
        analogReadFlag := false;
        var i := 0;
        while i < numChannel
          modifies channel
          invariant 0 <= i <= numChannel
          invariant forall k :: 0 <= k < i ==> channel[k] == atof(pieces[k + 1])
          invariant forall k :: i <= k < channel.Length ==> channel[k] == old(channel[k])
        {
          channel[i] := atof(pieces[i + 1]);
          i := i + 1;
        }
        analogReadFlag := true;
        ghost var written := WriteFields(before.channel, numChannel, pieces, atof);
        assert channel[..] == written;
        assert State() == before.(channel := written, analogReadFlag := true);
      }
    }

    /** The button branch: on an exact button count, lower the flag, write
     *  every button with `atoi`, raise the flag; the loop index is returned. */
    method WriteButtons(pieces: seq<string>) returns (index: Option<int>)
      requires Valid()
      modifies buttons, this`buttonReadFlag
      ensures Valid()
      ensures State() == UpdateButtons(old(State()), pieces)
      ensures index == (if ButtonApplies(old(State()), pieces) then Some(numButtons) else None)
    {
      index := None;
      ghost var before := State();
      if numKeyboards > 0 && |pieces| >= 2 {
        if numButtons != |pieces| - 1 {
          return;
        }
        buttonReadFlag := false;
        var i := 0;
        while i < numButtons
          modifies buttons
          invariant 0 <= i <= numButtons
          invariant forall k :: 0 <= k < i ==> buttons[k] == Atoi(pieces[k + 1])
          invariant forall k :: i <= k < buttons.Length ==> buttons[k] == old(buttons[k])
        {
          buttons[i] := Atoi(pieces[i + 1]);
          i := i + 1;
        }
        buttonReadFlag := true;
        index := Some(i);
        ghost var written := WriteFields(before.buttons, numButtons, pieces, Atoi);
        assert buttons[..] == written;
        assert State() == before.(buttons := written, buttonReadFlag := true);
      }
    }
  }
}
