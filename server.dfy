/** The serial side of server/src/index.ts: the check `isMessage` applies to a parsed
    WebSocket message, and `PrepareBuffer`, which lays colours out in the byte frame
    `'M' 'G' n r0 g0 b0 ... '!'` written to the LED controller. */
module Server {
  import opened Colors
  import opened Outcome

  /** A value `JSON.parse` can produce. Numbers are kept to integers. */
  datatype Json =
    | JNull
    | JBool(truth: bool)
    | JNumber(number: int)
    | JString(str: string)
    | JArray(items: seq<Json>)
    | JObject(fields: map<string, Json>)

  /** `isMessage`: `hasOwnProperty('type')`, `hasOwnProperty('colors')` and
      `Array.isArray(colors)`. Calling `hasOwnProperty` throws a `TypeError` on `null`, and
      on an object whose own `hasOwnProperty` key (a JSON value, never a function) hides the
      inherited method; booleans, numbers, strings and arrays own neither property. */
  function IsMessage(message: Json): (r: Result<bool>)
    ensures r.Thrown? <==> message == JNull || (message.JObject? && "hasOwnProperty" in message.fields)
    ensures r.Thrown? ==> r.error == TypeError
    ensures r == Ok(true) <==>
              && message.JObject? && "hasOwnProperty" !in message.fields
              && "type" in message.fields && "colors" in message.fields
              && message.fields["colors"].JArray?
  {
    match message
    case JNull => Thrown(TypeError)
    case JObject(fields) =>
      if "hasOwnProperty" in fields then Thrown(TypeError)
      else Ok("type" in fields && "colors" in fields && fields["colors"].JArray?)
    case _ => Ok(false)
  }

  /** The value of `type` is never looked at: any value, `'SetLeds'` or not, is accepted. */
  lemma TypeNotChecked(fields: map<string, Json>, t1: Json, t2: Json)
    ensures IsMessage(JObject(fields["type" := t1])) == IsMessage(JObject(fields["type" := t2]))
  {
  }

  /** A colour of the message: three JavaScript numbers (integers here). */
  datatype Color = Color(r: int, g: int, b: int)

  /** Storing a number in a `Buffer` element keeps it modulo 256. */
  function ToUint8(x: int): (b: Byte)
    ensures (x - b) % 256 == 0
  {
    x % 256
  }

  const MarkM: Byte := 77   // 'M'
  const MarkG: Byte := 71   // 'G'
  const MarkEnd: Byte := 33 // '!'

  /** The layout `PrepareBuffer` promises for `colors`. */
  predicate FrameLayout(colors: seq<Color>, bytes: seq<Byte>) {
    && |bytes| == 3 * |colors| + 4
    && bytes[0] == MarkM && bytes[1] == MarkG
    && bytes[2] == ToUint8(|colors|)
    && bytes[|bytes| - 1] == MarkEnd
    && forall i :: 0 <= i < |colors| ==>
         && bytes[3 * i + 3] == ToUint8(colors[i].r)
         && bytes[3 * i + 4] == ToUint8(colors[i].g)
         && bytes[3 * i + 5] == ToUint8(colors[i].b)
  }

  /** `PrepareBuffer`: allocate `3n + 4` bytes, write the header and the terminator, then
      each colour's channels at `3i + 3`, `3i + 4`, `3i + 5`. */
  method PrepareBuffer(colors: seq<Color>) returns (bytes: seq<Byte>)
    ensures FrameLayout(colors, bytes)
  {
    var count := |colors| * 3 + 4;
    var buffer := new Byte[count];
    buffer[0] := MarkM;
    buffer[1] := MarkG;
    buffer[2] := ToUint8(|colors|);
    buffer[count - 1] := MarkEnd;
    var i := 0;
    while i < |colors|
      invariant 0 <= i <= |colors|
      invariant buffer[0] == MarkM && buffer[1] == MarkG && buffer[2] == ToUint8(|colors|)
      invariant buffer[count - 1] == MarkEnd
      invariant forall k :: 0 <= k < i ==>
                  && buffer[3 * k + 3] == ToUint8(colors[k].r)
                  && buffer[3 * k + 4] == ToUint8(colors[k].g)
                  && buffer[3 * k + 5] == ToUint8(colors[k].b)
    {
      var j := i * 3 + 3;
      buffer[j] := ToUint8(colors[i].r);
      buffer[j + 1] := ToUint8(colors[i].g);
      buffer[j + 2] := ToUint8(colors[i].b);
      i := i + 1;
    }
    bytes := buffer[..];
  }

  /** The channels of each colour as the frame carries them, in order. */
  function Payload(colors: seq<Color>): (p: seq<Byte>)
    decreases |colors|
  {
    if colors == [] then []
    else [ToUint8(colors[0].r), ToUint8(colors[0].g), ToUint8(colors[0].b)] + Payload(colors[1..])
  }

  /** The frame as a concatenation: header, payload, terminator. */
  function Encode(colors: seq<Color>): seq<Byte> {
    [MarkM, MarkG, ToUint8(|colors|)] + Payload(colors) + [MarkEnd]
  }

  lemma {:induction false} PayloadAt(colors: seq<Color>, i: int)
    requires 0 <= i < |colors|
    ensures |Payload(colors)| == 3 * |colors|
    ensures Payload(colors)[3 * i] == ToUint8(colors[i].r)
    ensures Payload(colors)[3 * i + 1] == ToUint8(colors[i].g)
    ensures Payload(colors)[3 * i + 2] == ToUint8(colors[i].b)
    decreases |colors|
  {
    if i > 0 {
      PayloadAt(colors[1..], i - 1);
    } else if |colors| > 1 {
      PayloadAt(colors[1..], 0);
    }
  }

  lemma {:induction false} PayloadLength(colors: seq<Color>)
    ensures |Payload(colors)| == 3 * |colors|
  {
    if colors != [] {
      PayloadLength(colors[1..]);
    }
  }

  /** The layout pins the frame down completely: it is the header, the payload and the
      terminator, nothing else. */
  lemma LayoutIsEncoding(colors: seq<Color>, bytes: seq<Byte>)
    ensures FrameLayout(colors, bytes) <==> bytes == Encode(colors)
  {
    var e := Encode(colors);
    PayloadLength(colors);
    forall i | 0 <= i < |colors|
      ensures e[3 * i + 3] == ToUint8(colors[i].r)
      ensures e[3 * i + 4] == ToUint8(colors[i].g)
      ensures e[3 * i + 5] == ToUint8(colors[i].b)
    {
      PayloadAt(colors, i);
    }
    assert |e| == 3 * |colors| + 4;
    assert e[0] == MarkM && e[1] == MarkG && e[2] == ToUint8(|colors|) && e[|e| - 1] == MarkEnd;
    assert FrameLayout(colors, e);
    if FrameLayout(colors, bytes) {
      forall k | 0 <= k < |bytes|
        ensures bytes[k] == e[k]
      {
        if 3 <= k < |bytes| - 1 {
          var i := (k - 3) / 3;
          assert 0 <= i < |colors|;
          var c := colors[i];
          assert bytes[3 * i + 3] == ToUint8(c.r) == e[3 * i + 3];
          assert bytes[3 * i + 4] == ToUint8(c.g) == e[3 * i + 4];
          assert bytes[3 * i + 5] == ToUint8(c.b) == e[3 * i + 5];
          assert k == 3 * i + 3 || k == 3 * i + 4 || k == 3 * i + 5;
        } else {
          assert k < 3 || k == |e| - 1;
        }
      }
    }
  }

  /** With no colours the frame is `M G 0 !`. */
  lemma EmptyFrame(bytes: seq<Byte>)
    requires FrameLayout([], bytes)
    ensures bytes == [77, 71, 0, 33]
  {
  }

  /** How a receiver reads a frame back: header, a count that matches the length, the
      terminator, then the channels three by three. */
  function Decode(bytes: seq<Byte>): (r: Option<seq<Rgb>>)
  {
    if |bytes| < 4 || (|bytes| - 4) % 3 != 0 then None
    else if bytes[0] != MarkM || bytes[1] != MarkG || bytes[|bytes| - 1] != MarkEnd then None
    else if bytes[2] != (|bytes| - 4) / 3 then None
    else Some(Triples(bytes[3..|bytes| - 1]))
  }

  function Triples(p: seq<Byte>): seq<Rgb>
    requires |p| % 3 == 0
    decreases |p|
  {
    if |p| == 0 then [] else [Rgb(p[0], p[1], p[2])] + Triples(p[3..])
  }

  /** The colours as the frame stores them: every channel modulo 256. */
  function Stored(colors: seq<Color>): (s: seq<Rgb>)
    ensures |s| == |colors|
  {
    seq(|colors|, i requires 0 <= i < |colors| =>
      Rgb(ToUint8(colors[i].r), ToUint8(colors[i].g), ToUint8(colors[i].b)))
  }

  lemma {:induction false} TriplesOfPayload(colors: seq<Color>)
    ensures |Payload(colors)| % 3 == 0
    ensures Triples(Payload(colors)) == Stored(colors)
    decreases |colors|
  {
    PayloadLength(colors);
    if colors != [] {
      TriplesOfPayload(colors[1..]);
      var p := Payload(colors);
      assert p[3..] == Payload(colors[1..]);
    }
  }

  /** Round trip: a frame of fewer than 256 colours reads back as the colours, each
      channel modulo 256. */
  lemma DecodeEncode(colors: seq<Color>)
    requires |colors| < 256
    ensures Decode(Encode(colors)) == Some(Stored(colors))
  {
    var e := Encode(colors);
    PayloadLength(colors);
    TriplesOfPayload(colors);
    assert e[3..|e| - 1] == Payload(colors);
  }

  /** From 256 colours on, the count byte wraps and no longer matches the frame's length. */
  lemma CountWraps(colors: seq<Color>)
    requires |colors| >= 256
    ensures Decode(Encode(colors)) == None
  {
    PayloadLength(colors);
  }
}
