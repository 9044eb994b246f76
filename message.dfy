/** The inbound payload as text: `String message` built byte by byte in `callback`. */
module Message {
  import opened Types

  /** The text whose i-th character is `(char)payload[i]`. */
  function PayloadText(payload: seq<byte>): (message: string)
    ensures |message| == |payload|
  {
    if payload == [] then []
    else PayloadText(payload[..|payload| - 1]) + [payload[|payload| - 1] as char]
  }

  lemma {:induction false} PayloadTextAt(payload: seq<byte>, i: nat)
    requires i < |payload|
    ensures PayloadText(payload)[i] == payload[i] as char
  {
    var n := |payload| - 1;
    if i < n {
      PayloadTextAt(payload[..n], i);
    }
  }

  /** Text made only of characters that fit in one byte. */
  predicate IsByteText(s: string)
  {
    forall i :: 0 <= i < |s| ==> s[i] as int < 0x100
  }

  /** The bytes of a one-byte-per-character text; the inverse of PayloadText. */
  function TextBytes(s: string): (payload: seq<byte>)
    requires IsByteText(s)
    ensures |payload| == |s|
  {
    if s == [] then []
    else TextBytes(s[..|s| - 1]) + [s[|s| - 1] as int]
  }

  lemma {:induction false} PayloadTextRoundTrip(payload: seq<byte>)
    ensures IsByteText(PayloadText(payload))
    ensures TextBytes(PayloadText(payload)) == payload
  {
    if payload != [] {
      var n := |payload| - 1;
      PayloadTextRoundTrip(payload[..n]);
      forall i | 0 <= i < |payload| ensures PayloadText(payload)[i] as int < 0x100 {
        PayloadTextAt(payload, i);
      }
      var s := PayloadText(payload);
      assert s[..n] == PayloadText(payload[..n]);
      assert payload[..n] + [payload[n]] == payload;
    }
  }

  lemma {:induction false} TextBytesRoundTrip(s: string)
    requires IsByteText(s)
    ensures PayloadText(TextBytes(s)) == s
  {
    if s != [] {
      var n := |s| - 1;
      assert IsByteText(s[..n]);
      TextBytesRoundTrip(s[..n]);
      var p := TextBytes(s);
      assert p[..n] == TextBytes(s[..n]);
      assert s[..n] + [s[n]] == s;
    }
  }

  /** Distinct payloads give distinct messages. */
  lemma PayloadTextInjective(p: seq<byte>, q: seq<byte>)
    requires PayloadText(p) == PayloadText(q)
    ensures p == q
  {
    PayloadTextRoundTrip(p);
    PayloadTextRoundTrip(q);
  }

  /** The message equals "off" exactly when the payload is the three bytes 'o', 'f', 'f'. */
  lemma MessageIsOff(payload: seq<byte>)
    ensures PayloadText(payload) == "off" <==> payload == [111, 102, 102]
  {
    var off: seq<byte> := [111, 102, 102];
    assert PayloadText(off) == "off" by {
      PayloadTextAt(off, 0);
      PayloadTextAt(off, 1);
      PayloadTextAt(off, 2);
    }
    if PayloadText(payload) == "off" {
      PayloadTextInjective(payload, off);
    }
  }

  /** The append loop of `callback`: one character per payload byte, in order. */
  method BuildMessage(payload: seq<byte>) returns (message: string)
    ensures |message| == |payload|
    ensures forall i :: 0 <= i < |payload| ==> message[i] == payload[i] as char
    ensures message == PayloadText(payload)
  {
    message := "";
    var i := 0;
    while i < |payload|
      invariant 0 <= i <= |payload|
      invariant message == PayloadText(payload[..i])
    {
      assert payload[..i + 1][..i] == payload[..i];
      message := message + [payload[i] as char];
      i := i + 1;
    }
    assert payload[..|payload|] == payload;
    forall k | 0 <= k < |payload| ensures message[k] == payload[k] as char {
      PayloadTextAt(payload, k);
    }
  }
}
