/** The interval check of `loop` and the telemetry message it publishes. */
module Telemetry {
  import opened Types

  /** `INTERVAL`, in milliseconds. */
  const Interval: u32 := 1000
  /** `MQTT_TOPIC`, where readings are published. */
  const ReadingTopic: string := "beer/temp/reading"

  const TempPrefix: string := "{ \"temp\":"
  const IdPrefix: string := ", \"deviceId\": \""
  const IdSuffix: string := ".esp8266\"}"

  /** The telemetry text around the library's text of the mean temperature and the MAC address. */
  function TelemetryPayload(tempText: string, mac: string): (payload: string)
    ensures |payload| == |TempPrefix| + |tempText| + |IdPrefix| + |mac| + |IdSuffix|
    ensures payload[..|TempPrefix|] == TempPrefix
    ensures payload[|payload| - |IdSuffix|..] == IdSuffix
  {
    TempPrefix + tempText + IdPrefix + mac + IdSuffix
  }

  /** The temperature text and the MAC address can be read back from a payload (given the temperature text's length). */
  lemma TelemetryFields(tempText: string, mac: string)
    ensures var p := TelemetryPayload(tempText, mac);
      var t := |TempPrefix| + |tempText|;
      p[|TempPrefix|..t] == tempText &&
      p[t..t + |IdPrefix|] == IdPrefix &&
      p[t + |IdPrefix|..|p| - |IdSuffix|] == mac
  {
  }

  lemma TelemetryPayloadInjective(t1: string, m1: string, t2: string, m2: string)
    requires |t1| == |t2|
    requires TelemetryPayload(t1, m1) == TelemetryPayload(t2, m2)
    ensures t1 == t2 && m1 == m2
  {
    TelemetryFields(t1, m1);
    TelemetryFields(t2, m2);
  }

  /** Readings of 18.00 degrees from device AA:BB:CC:DD:EE:FF (the expected text is split in two literals). */
  lemma TelemetryExample()
    ensures TelemetryPayload("18.00", "AA:BB:CC:DD:EE:FF") ==
      "{ \"temp\":18.00, \"deviceId\": \"AA:BB" + ":CC:DD:EE:FF.esp8266\"}"
  {
  }

  /** The condition of `loop` as written: `currentMillis > previousMillis + INTERVAL` on `unsigned long`. */
  predicate Fires(previousMillis: u32, currentMillis: u32)
    ensures Fires(previousMillis, currentMillis) ==> currentMillis > 0
  {
    currentMillis > WrapAdd(previousMillis, Interval)
  }

  /** Away from the wrap-around, the check fires once more than INTERVAL ms have passed since `previousMillis`. */
  lemma FiresWithoutWrap(previousMillis: u32, currentMillis: u32)
    requires previousMillis < 0x1_0000_0000 - Interval
    ensures Fires(previousMillis, currentMillis) <==> currentMillis - previousMillis > Interval
  {
  }

  /** When the sum wraps, the check fires at once for almost every `currentMillis`. */
  lemma FiresWhenSumWraps(previousMillis: u32, currentMillis: u32)
    requires previousMillis >= 0x1_0000_0000 - Interval
    ensures Fires(previousMillis, currentMillis) <==> currentMillis > previousMillis + Interval - 0x1_0000_0000
  {
  }

  /** With `previousMillis == 2^32 - 1001` the sum is 2^32 - 1, which no `unsigned long` exceeds. */
  lemma NeverFiresAgain(currentMillis: u32)
    ensures !Fires(0x1_0000_0000 - Interval - 1, currentMillis)
  {
  }

  /** The wrap-safe check `currentMillis - previousMillis > INTERVAL`, the subtraction taken modulo 2^32. */
  predicate ElapsedFires(previousMillis: u32, currentMillis: u32)
  {
    (currentMillis - previousMillis) % 0x1_0000_0000 > Interval
  }

  /** The wrap-safe check fires exactly when more than INTERVAL ms have passed, whatever `previousMillis` is. */
  lemma ElapsedFiresAfter(previousMillis: u32, elapsed: nat)
    requires elapsed < 0x1_0000_0000
    ensures ElapsedFires(previousMillis, WrapAdd(previousMillis, elapsed)) <==> elapsed > Interval
  {
  }

  /** Where the sum does not wrap and the clock has not wrapped, the two checks agree. */
  lemma ElapsedFiresAgrees(previousMillis: u32, currentMillis: u32)
    requires previousMillis < 0x1_0000_0000 - Interval && previousMillis <= currentMillis
    ensures ElapsedFires(previousMillis, currentMillis) <==> Fires(previousMillis, currentMillis)
  {
  }

  /** One message handed to `client.publish`. */
  datatype Publish = Publish(topic: string, payload: string)

  /** The global `previousMillis` with the messages `loop` has published. */
  class Scheduler {
    var previousMillis: u32
    ghost var published: seq<Publish>

    /** The initialiser `millis() + INTERVAL`, evaluated when the clock reads `bootMillis`. */
    constructor (bootMillis: u32)
      ensures previousMillis == WrapAdd(bootMillis, Interval) && published == []
    {
      previousMillis := WrapAdd(bootMillis, Interval);
      published := [];
    }

    /**
     * The timed part of `loop` with the clock at `currentMillis`; `tempText` is the library's text of
     * the mean temperature and `mac` the text of the link's hardware address.
     */
    method Loop(currentMillis: u32, tempText: string, mac: string) returns (sent: Option<Publish>)
      modifies this
      ensures sent.Some? == Fires(old(previousMillis), currentMillis)
      ensures sent.Some? ==> sent.value == Publish(ReadingTopic, TelemetryPayload(tempText, mac))
      ensures previousMillis == if sent.Some? then currentMillis else old(previousMillis)
      ensures published == old(published) + if sent.Some? then [sent.value] else []
    {
      if currentMillis > WrapAdd(previousMillis, Interval) {
        previousMillis := currentMillis;
        sent := Some(Publish(ReadingTopic, TelemetryPayload(tempText, mac)));
        published := published + [sent.value];
      } else {
        sent := None;
      }
    }
  }
}
