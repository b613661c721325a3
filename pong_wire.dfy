/** The NetPong state packet: the server writes five integers with
    `"%d,%d,%d,%d,%d\n"` into a 256-byte buffer (ex2/p_server.c) and the
    client reads them back with `sscanf(buffer, "%d,%d,%d,%d,%d")`
    (ex2/p_client.c). */
module PongWire {
  import opened CText
  import opened Decimal

  const PACKET_SIZE := 256

  /** The five values a packet carries, in packet order. */
  datatype Snapshot = Snapshot(ballX: int, ballY: int, penalty: int, paddle2X: int, penalty2: int)

  predicate IsInt32(i: int)
  {
    -0x8000_0000 <= i < 0x8000_0000
  }

  /** Every field fits a C `int`. */
  predicate Int32Fields(s: Snapshot)
  {
    IsInt32(s.ballX) && IsInt32(s.ballY) && IsInt32(s.penalty) && IsInt32(s.paddle2X) && IsInt32(s.penalty2)
  }

  /** The four values the format writes with `%d,`. */
  function Leading(s: Snapshot): seq<int>
  {
    [s.ballX, s.ballY, s.penalty, s.paddle2X]
  }

  /** The text `printf` writes for `values`, each followed by ','. */
  function Fields(values: seq<int>): string
    decreases |values|
  {
    if values == [] then [] else IntToString(values[0]) + "," + Fields(values[1..])
  }

  /** The text `"%d,%d,%d,%d,%d\n"` produces: four values each followed by
      ',', then the fifth and a newline. */
  function Format(s: Snapshot): string
  {
    Fields(Leading(s)) + IntToString(s.penalty2) + "\n"
  }

  /** What `snprintf` leaves in the 256-byte buffer. */
  function Packet(s: Snapshot): string
  {
    Snprintf(Format(s), PACKET_SIZE)
  }

  /** C `int` values take at most 12 characters each with their ','. */
  lemma {:induction false} FieldsLength(values: seq<int>)
    requires forall k :: 0 <= k < |values| ==> IsInt32(values[k])
    ensures |Fields(values)| <= 12 * |values|
    decreases |values|
  {
    if values != [] {
      Int32Length(values[0]);
      FieldsLength(values[1..]);
    }
  }

  /** With C `int` fields the packet is never cut: at most 5 * 11 characters and 5 separators. */
  lemma PacketIsWhole(s: Snapshot)
    requires Int32Fields(s)
    ensures Packet(s) == Format(s) && |Packet(s)| <= 60
  {
    FieldsLength(Leading(s));
    Int32Length(s.penalty2);
  }

  /** A `%d` conversion followed by the literal ',' of the format. */
  function ScanField(text: string): (r: Option<(int, string)>)
    ensures r.Some? ==> |r.value.1| < |text|
  {
    match ScanInt(text)
    case None => None
    case Some((v, rest)) => if rest != [] && rest[0] == ',' then Some((v, rest[1..])) else None
  }

  /** `count` conversions `%d,` in a row: the values read and the text after the last ','. */
  function ScanFields(text: string, count: nat): (r: Option<(seq<int>, string)>)
    ensures r.Some? ==> |r.value.0| == count
    decreases count
  {
    if count == 0 then Some(([], text))
    else
      match ScanField(text)
      case None => None
      case Some((v, rest)) =>
        match ScanFields(rest, count - 1)
        case None => None
        case Some((vs, after)) => Some(([v] + vs, after))
  }

  /** `sscanf(text, "%d,%d,%d,%d,%d") == 5`: the five values, whatever follows the fifth. */
  function Decode(text: string): Option<Snapshot>
  {
    match ScanFields(text, 4)
    case None => None
    case Some((vs, rest)) =>
      match ScanInt(rest)
      case None => None
      case Some((e, _)) => Some(Snapshot(vs[0], vs[1], vs[2], vs[3], e))
  }

  lemma ScanFieldOf(v: int, rest: string)
    ensures ScanField(IntToString(v) + "," + rest) == Some((v, rest))
  {
    AppendAssoc(IntToString(v), ",", rest);
    ScanIntToString(v, "," + rest);
    assert ("," + rest)[1..] == rest;
  }

  /** One more `%d,` in front of text that already reads back `count` values. */
  lemma ScanFieldsCons(v: int, vs: seq<int>, tail: string, rest: string, count: nat)
    requires ScanFields(tail + rest, count) == Some((vs, rest))
    ensures ScanFields(IntToString(v) + "," + tail + rest, count + 1) == Some(([v] + vs, rest))
  {
    AppendAssoc(IntToString(v) + ",", tail, rest);
    ScanFieldOf(v, tail + rest);
  }

  lemma {:induction false} ScanFieldsOf(values: seq<int>, rest: string)
    ensures ScanFields(Fields(values) + rest, |values|) == Some((values, rest))
    decreases |values|, 1
  {
    if values == [] {
      assert Fields(values) + rest == rest;
    } else {
      ScanFieldsStep(values, rest);
    }
  }

  /** The induction step of `ScanFieldsOf`. */
  lemma {:induction false} ScanFieldsStep(values: seq<int>, rest: string)
    requires values != []
    ensures ScanFields(Fields(values) + rest, |values|) == Some((values, rest))
    decreases |values|, 0
  {
    ScanFieldsOf(values[1..], rest);
    ScanFieldsFront(values, rest);
  }

  /** One more `%d,` in front of fields that already read back. */
  lemma ScanFieldsFront(values: seq<int>, rest: string)
    requires values != []
    ensures ScanFields(Fields(values[1..]) + rest, |values[1..]|) == Some((values[1..], rest)) ==>
      ScanFields(Fields(values) + rest, |values|) == Some((values, rest))
  {
    if ScanFields(Fields(values[1..]) + rest, |values[1..]|) == Some((values[1..], rest)) {
      ScanFieldsCons(values[0], values[1..], Fields(values[1..]), rest, |values| - 1);
      HeadTail(values);
    }
  }

  /** Decoding what the format string wrote gives back the five values in
      order, whatever arrives after the packet in the same buffer. */
  lemma DecodeFormat(s: Snapshot, after: string)
    ensures Decode(Format(s) + after) == Some(s)
  {
    var fields, last := Fields(Leading(s)), IntToString(s.penalty2);
    AppendAssoc(fields + last, "\n", after);
    AppendAssoc(fields, last, "\n" + after);
    ScanFieldsOf(Leading(s), last + ("\n" + after));
    ScanIntToString(s.penalty2, "\n" + after);
  }

  /** The client recovers every packet the server sends. */
  lemma DecodePacket(s: Snapshot, after: string)
    requires Int32Fields(s)
    ensures Decode(Packet(s) + after) == Some(s)
  {
    PacketIsWhole(s);
    DecodeFormat(s, after);
  }

  lemma {:induction false} FieldsHaveNoNul(values: seq<int>)
    ensures '\0' !in Fields(values)
    decreases |values|
  {
    if values != [] {
      FieldsHaveNoNul(values[1..]);
      var head := IntToString(values[0]);
      assert '\0' !in head;
      assert Fields(values) == head + ("," + Fields(values[1..]));
    }
  }

  /** A packet holds no NUL, so the client's C string of it is all of it,
      and it ends in a newline. */
  lemma PacketHasNoNul(s: Snapshot)
    ensures '\0' !in Format(s) && Format(s)[|Format(s)| - 1] == '\n'
  {
    FieldsHaveNoNul(Leading(s));
    var last := IntToString(s.penalty2);
    assert '\0' !in last;
  }
}
