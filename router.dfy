/** The inbound-message router `callback` and the runtime display state it updates. */
module Router {
  import opened Types
  import opened Message

  /** Topic whose messages set the display brightness. */
  const BrightnessTopic: string := "beer/display/brightness"
  /** Topic whose messages choose the watched topic. */
  const TopicUpdate: string := "beer/display/topic"

  /** The arguments of one `setBrightness(brightness, on)` call on the display. */
  datatype Brightness = Brightness(level: byte, on: bool)

  /** A call the router makes on the display driver. */
  datatype DisplayCall =
    | SetBrightness(brightness: Brightness)
    | ShowNumber(value: int32)

  /** The runtime display state: `displayNumber`, `display_topic_value` and the last brightness handed over. */
  datatype Runtime = Runtime(displayNumber: int32, displayTopic: string, brightness: Option<Brightness>)

  /** The state at start-up: a zero number, an empty watched topic, no brightness call yet. */
  const Initial: Runtime := Runtime(0, "", None)

  /** The new state and the display calls, in order, of one dispatch. */
  datatype Outcome = Outcome(state: Runtime, calls: seq<DisplayCall>)

  /** `(int)payload[0] - '0'`: the brightness computed from the first payload byte. */
  function LevelOf(first: byte): (level: int)
    ensures -48 <= level <= 207
    ensures 0 <= level <= 9 <==> '0' as int <= first <= '9' as int
  {
    first - '0' as int
  }

  /** A message the router can dispatch: on the brightness topic the first payload byte is read. */
  predicate Dispatchable(topic: string, payload: seq<byte>)
  {
    topic == BrightnessTopic ==> payload != []
  }

  /** The first clause: a brightness message sets the brightness, "off" switches the display off. */
  function BrightnessClause(s: Runtime, topic: string, payload: seq<byte>): (o: Outcome)
    requires Dispatchable(topic, payload)
    ensures o.state.displayNumber == s.displayNumber && o.state.displayTopic == s.displayTopic
    ensures |o.calls| == (if topic == BrightnessTopic then 1 else 0)
    ensures topic != BrightnessTopic ==> o == Outcome(s, [])
    ensures topic == BrightnessTopic ==> o.state.brightness.Some? && o.calls == [SetBrightness(o.state.brightness.value)]
  {
    if topic != BrightnessTopic then Outcome(s, [])
    else
      var b := if PayloadText(payload) == "off" then Brightness(0, false)
               else Brightness(ToByte(LevelOf(payload[0])), true);
      Outcome(s.(brightness := Some(b)), [SetBrightness(b)])
  }

  /** `callback`: the three clauses in source order, then one render of the number shown. */
  function Dispatch(s: Runtime, topic: string, payload: seq<byte>, toFloatTimes100: string -> int32): (o: Outcome)
    requires Dispatchable(topic, payload)
    ensures o.calls != [] && o.calls[|o.calls| - 1] == ShowNumber(o.state.displayNumber)
    ensures o.state.displayTopic == if topic == TopicUpdate then PayloadText(payload) else s.displayTopic
  {
    var message := PayloadText(payload);
    var first := BrightnessClause(s, topic, payload);
    var s1 := first.state;
    var s2 := if topic == s1.displayTopic then s1.(displayNumber := toFloatTimes100(message)) else s1;
    var s3 := if topic == TopicUpdate then s2.(displayTopic := message, displayNumber := 0) else s2;
    Outcome(s3, first.calls + [ShowNumber(s3.displayNumber)])
  }

  /** The number after a dispatch's first two clauses: re-parsed when the topic is the watched one. */
  function Watched(s: Runtime, topic: string, payload: seq<byte>, toFloatTimes100: string -> int32): int32
  {
    if topic == s.displayTopic then toFloatTimes100(PayloadText(payload)) else s.displayNumber
  }

  lemma DispatchOff(s: Runtime, topic: string, payload: seq<byte>, toFloatTimes100: string -> int32)
    requires topic == BrightnessTopic && PayloadText(payload) == "off"
    ensures Dispatchable(topic, payload)
    ensures var o := Dispatch(s, topic, payload, toFloatTimes100);
      var n := Watched(s, topic, payload, toFloatTimes100);
      o.state == Runtime(n, s.displayTopic, Some(Brightness(0, false))) &&
      o.calls == [SetBrightness(Brightness(0, false)), ShowNumber(n)]
  {
  }

  lemma DispatchLevel(s: Runtime, topic: string, payload: seq<byte>, toFloatTimes100: string -> int32)
    requires topic == BrightnessTopic && payload != [] && payload != [111, 102, 102]
    ensures var o := Dispatch(s, topic, payload, toFloatTimes100);
      var n := Watched(s, topic, payload, toFloatTimes100);
      var b := Brightness(ToByte(payload[0] - '0' as int), true);
      o.state == Runtime(n, s.displayTopic, Some(b)) &&
      o.calls == [SetBrightness(b), ShowNumber(n)]
  {
    MessageIsOff(payload);
  }

  /** "7xyz" sets brightness 7; "Off" (capital O) is not "off" and sets 'O' - '0' == 31. */
  lemma LevelExamples(s: Runtime, toFloatTimes100: string -> int32)
    ensures Dispatch(s, BrightnessTopic, [55, 120, 121, 122], toFloatTimes100).calls[0] == SetBrightness(Brightness(7, true))
    ensures Dispatch(s, BrightnessTopic, [79, 102, 102], toFloatTimes100).calls[0] == SetBrightness(Brightness(31, true))
  {
    DispatchLevel(s, BrightnessTopic, [55, 120, 121, 122], toFloatTimes100);
    DispatchLevel(s, BrightnessTopic, [79, 102, 102], toFloatTimes100);
  }

  /** A topic update stores the message and blanks the number, even when the update topic is itself watched. */
  lemma DispatchTopicUpdate(s: Runtime, payload: seq<byte>, toFloatTimes100: string -> int32)
    ensures var o := Dispatch(s, TopicUpdate, payload, toFloatTimes100);
      o.state == s.(displayNumber := 0, displayTopic := PayloadText(payload)) &&
      o.calls == [ShowNumber(0)]
  {
  }

  /** A message on the watched topic shows its value times 100; nothing else changes. */
  lemma DispatchWatched(s: Runtime, topic: string, payload: seq<byte>, toFloatTimes100: string -> int32)
    requires topic == s.displayTopic && topic != TopicUpdate && topic != BrightnessTopic
    ensures var o := Dispatch(s, topic, payload, toFloatTimes100);
      var n := toFloatTimes100(PayloadText(payload));
      o.state == s.(displayNumber := n) && o.calls == [ShowNumber(n)]
  {
  }

  /** A message no clause matches changes no state and only re-renders the current number. */
  lemma DispatchUnmatched(s: Runtime, topic: string, payload: seq<byte>, toFloatTimes100: string -> int32)
    requires topic != BrightnessTopic && topic != s.displayTopic && topic != TopicUpdate
    ensures var o := Dispatch(s, topic, payload, toFloatTimes100);
      o.state == s && o.calls == [ShowNumber(s.displayNumber)]
  {
  }

  /** Every dispatch renders exactly once, last, with the final number, after at most one brightness call. */
  lemma DispatchRendersOnce(s: Runtime, topic: string, payload: seq<byte>, toFloatTimes100: string -> int32)
    requires Dispatchable(topic, payload)
    ensures var o := Dispatch(s, topic, payload, toFloatTimes100);
      1 <= |o.calls| <= 2 &&
      o.calls[|o.calls| - 1] == ShowNumber(o.state.displayNumber) &&
      (forall i :: 0 <= i < |o.calls| - 1 ==> o.calls[i].SetBrightness?) &&
      (|o.calls| == 2 <==> topic == BrightnessTopic)
  {
  }

  /**
   * One inbound broker message. The topic is the C string handed to `callback`, given one character
   * per byte (as `PayloadText` turns payload bytes into characters), so that topics and stored
   * messages compare byte for byte.
   */
  datatype Inbound = Inbound(topic: string, payload: seq<byte>)

  predicate AllDispatchable(msgs: seq<Inbound>)
  {
    forall i :: 0 <= i < |msgs| ==> Dispatchable(msgs[i].topic, msgs[i].payload)
  }

  /** The state after dispatching `msgs` in order, starting from `s`. */
  function Run(s: Runtime, msgs: seq<Inbound>, toFloatTimes100: string -> int32): (r: Runtime)
    requires AllDispatchable(msgs)
    ensures r.displayTopic != s.displayTopic ==> exists i :: 0 <= i < |msgs| && msgs[i].topic == TopicUpdate
  {
    if msgs == [] then s
    else
      var n := |msgs| - 1;
      Dispatch(Run(s, msgs[..n], toFloatTimes100), msgs[n].topic, msgs[n].payload, toFloatTimes100).state
  }

  /** Reference definition of the watched topic: the text of the last topic-update message, if any. */
  function LastTopicUpdate(watched: string, msgs: seq<Inbound>): string
  {
    if msgs == [] then watched
    else
      var n := |msgs| - 1;
      if msgs[n].topic == TopicUpdate then PayloadText(msgs[n].payload) else LastTopicUpdate(watched, msgs[..n])
  }

  lemma {:induction false} RunWatchesLastUpdate(s: Runtime, msgs: seq<Inbound>, toFloatTimes100: string -> int32)
    requires AllDispatchable(msgs)
    ensures Run(s, msgs, toFloatTimes100).displayTopic == LastTopicUpdate(s.displayTopic, msgs)
  {
    if msgs != [] {
      RunWatchesLastUpdate(s, msgs[..|msgs| - 1], toFloatTimes100);
    }
  }

  /** Until a topic update arrives, no (non-empty) topic matches the empty watched topic, so 0 stays shown. */
  lemma {:induction false} NothingShownUntilConfigured(msgs: seq<Inbound>, toFloatTimes100: string -> int32)
    requires AllDispatchable(msgs)
    requires forall i :: 0 <= i < |msgs| ==> msgs[i].topic != [] && msgs[i].topic != TopicUpdate
    ensures Run(Initial, msgs, toFloatTimes100).displayNumber == 0
    ensures Run(Initial, msgs, toFloatTimes100).displayTopic == ""
  {
    if msgs != [] {
      NothingShownUntilConfigured(msgs[..|msgs| - 1], toFloatTimes100);
    }
  }

  /** A number shown is 0 or the scaled value of some message on the topic now watched. */
  predicate Explained(r: Runtime, msgs: seq<Inbound>, toFloatTimes100: string -> int32)
  {
    r.displayNumber == 0 ||
    exists i :: 0 <= i < |msgs| && msgs[i].topic == r.displayTopic &&
      r.displayNumber == toFloatTimes100(PayloadText(msgs[i].payload))
  }

  lemma {:induction false} RunShowsOnlyWatchedValues(msgs: seq<Inbound>, toFloatTimes100: string -> int32)
    requires AllDispatchable(msgs)
    ensures Explained(Run(Initial, msgs, toFloatTimes100), msgs, toFloatTimes100)
  {
    if msgs != [] {
      var n := |msgs| - 1;
      var prefix := msgs[..n];
      RunShowsOnlyWatchedValues(prefix, toFloatTimes100);
      var before := Run(Initial, prefix, toFloatTimes100);
      var after := Run(Initial, msgs, toFloatTimes100);
      if after.displayNumber != 0 {
        if msgs[n].topic == before.displayTopic && msgs[n].topic != TopicUpdate {
          assert after.displayTopic == msgs[n].topic;
        } else {
          var i :| 0 <= i < n && prefix[i].topic == before.displayTopic &&
            before.displayNumber == toFloatTimes100(PayloadText(prefix[i].payload));
          assert msgs[i] == prefix[i];
        }
      }
    }
  }

  /** The sketch's globals `displayNumber` and `display_topic_value`, with the display driver's brightness. */
  class DisplayController {
    var displayNumber: int32
    var displayTopic: string
    var brightness: Option<Brightness>
    /** Every call made on the display driver, oldest first. */
    ghost var calls: seq<DisplayCall>

    function Snapshot(): Runtime
      reads this
    {
      Runtime(displayNumber, displayTopic, brightness)
    }

    constructor ()
      ensures Snapshot() == Initial && calls == []
    {
      displayNumber := 0;
      displayTopic := "";
      brightness := None;
      calls := [];
    }

    /** `updateDisplay`: show the current number. */
    method UpdateDisplay()
      modifies this`calls
      ensures calls == old(calls) + [ShowNumber(displayNumber)]
    {
      calls := calls + [ShowNumber(displayNumber)];
    }

    /** `display.setBrightness(level, on)`. */
    method SetBrightness(b: Brightness)
      modifies this`brightness, this`calls
      ensures brightness == Some(b) && calls == old(calls) + [DisplayCall.SetBrightness(b)]
    {
      brightness := Some(b);
      calls := calls + [DisplayCall.SetBrightness(b)];
    }

    /** `callback(topic, payload, length)`, with `String::toFloat() * 100` truncated to `int` as a parameter. */
    method Callback(topic: string, payload: seq<byte>, toFloatTimes100: string -> int32)
      requires Dispatchable(topic, payload)
      modifies this
      ensures Snapshot() == Dispatch(old(Snapshot()), topic, payload, toFloatTimes100).state
      ensures calls == old(calls) + Dispatch(old(Snapshot()), topic, payload, toFloatTimes100).calls
    {
      var message := BuildMessage(payload);
      if topic == BrightnessTopic {
        if message == "off" {
          SetBrightness(Brightness(0, false));
        } else {
          var level := payload[0] - '0' as int;
          SetBrightness(Brightness(ToByte(level), true));
        }
      }
      if topic == displayTopic {
        displayNumber := toFloatTimes100(message);
      }
      if topic == TopicUpdate {
        displayTopic := message;
        displayNumber := 0;
      }
      UpdateDisplay();
    }
  }
}
