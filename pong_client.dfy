/** The NetPong client (ex2/p_client.c): `receive_data` reads state packets
    from the server into the shared game values, `send_data` steers the
    bottom paddle with the arrow keys and sends its position after every key. */
module PongClient {
  import opened CText
  import opened Socket
  import opened PongControls
  import opened PongWire
  import PongServer

  /** `recv` into `char buffer[256]` reads at most 255 bytes, leaving room for the NUL. */
  const RECV_SIZE := PACKET_SIZE - 1

  /** The texts `receive_data` parses, one per `recv` of at most 255 bytes
      up to the end of the stream: what the buffer holds as a C string once
      the NUL is written after the bytes received. */
  function Messages(inbox: seq<string>): (m: seq<string>)
    ensures Pending(inbox) == [] <==> m == []
    ensures forall k :: 0 <= k < |m| ==> '\0' !in m[k] && |m[k]| <= RECV_SIZE
    decreases |Pending(inbox)|
  {
    var r := Receive(inbox, RECV_SIZE);
    if r.0 == [] then [] else [CString(r.0)] + Messages(r.1)
  }

  /** One parsed text: five integers replace all five values, anything else none. */
  function Apply(view: Snapshot, text: string): (v: Snapshot)
    ensures v == view || Decode(text) == Some(v)
    ensures Decode(text).Some? ==> v == Decode(text).value
    ensures Decode(text).None? ==> v == view
  {
    match Decode(text)
    case Some(s) => s
    case None => view
  }

  /** The values shown after the texts `msgs`, parsed in order. */
  function Shown(view: Snapshot, msgs: seq<string>): (v: Snapshot)
    ensures v == view || exists k :: 0 <= k < |msgs| && Decode(msgs[k]) == Some(v)
    decreases |msgs|
  {
    if msgs == [] then view
    else
      var before := msgs[..|msgs| - 1];
      var v := Apply(Shown(view, before), msgs[|msgs| - 1]);
      assert v == view || exists k :: 0 <= k < |msgs| && Decode(msgs[k]) == Some(v) by {
        if v != view && v == Shown(view, before) {
          var k :| 0 <= k < |before| && Decode(before[k]) == Some(v);
          assert Decode(msgs[k]) == Some(v);
        }
      }
      v
  }

  /** What one parsed text adds to the warnings: itself unless it holds five integers. */
  function Report(text: string): (w: seq<string>)
    ensures w == [] || w == [text]
  {
    if Decode(text).None? then [text] else []
  }

  /** The texts printed as malformed, in order. */
  function Malformed(msgs: seq<string>): (w: seq<string>)
    ensures |w| <= |msgs|
    decreases |msgs|
  {
    if msgs == [] then [] else Malformed(msgs[..|msgs| - 1]) + Report(msgs[|msgs| - 1])
  }

  /** Only texts that do not hold five integers are reported. */
  lemma {:induction false} ReportedAreMalformed(msgs: seq<string>)
    ensures forall k :: 0 <= k < |Malformed(msgs)| ==> Decode(Malformed(msgs)[k]).None?
    decreases |msgs|
  {
    if msgs != [] {
      ReportedAreMalformed(msgs[..|msgs| - 1]);
    }
  }

  lemma LastOfSnoc<T>(a: seq<T>, x: T)
    ensures (a + [x])[..|a|] == a && (a + [x])[|a|] == x
  {
  }

  /** One more text parsed: it is applied last and reported last. */
  lemma ParsedSnoc(view: Snapshot, msgs: seq<string>, text: string)
    ensures Shown(view, msgs + [text]) == Apply(Shown(view, msgs), text)
    ensures Malformed(msgs + [text]) == Malformed(msgs) + Report(text)
  {
    LastOfSnoc(msgs, text);
  }

  /** A `recv` that returns data yields the first text. */
  lemma MessagesStep(inbox: seq<string>)
    requires Receive(inbox, RECV_SIZE).0 != []
    ensures var r := Receive(inbox, RECV_SIZE);
            Messages(inbox) == [CString(r.0)] + Messages(r.1)
  {
  }

  /** Texts of which none holds five integers change no value. */
  lemma {:induction false} MalformedKeepView(view: Snapshot, msgs: seq<string>)
    requires forall k :: 0 <= k < |msgs| ==> Decode(msgs[k]).None?
    ensures Shown(view, msgs) == view
    decreases |msgs|
  {
    if msgs != [] {
      var before := msgs[..|msgs| - 1];
      assert forall k :: 0 <= k < |before| ==> before[k] == msgs[k];
      MalformedKeepView(view, before);
    }
  }

  /** Texts of which none holds five integers are all reported, in order. */
  lemma {:induction false} MalformedAllReported(msgs: seq<string>)
    requires forall k :: 0 <= k < |msgs| ==> Decode(msgs[k]).None?
    ensures Malformed(msgs) == msgs
    decreases |msgs|
  {
    if msgs != [] {
      var before := msgs[..|msgs| - 1];
      assert forall k :: 0 <= k < |before| ==> before[k] == msgs[k];
      var last := msgs[|msgs| - 1];
      MalformedAllReported(before);
      assert Report(last) == [last];
      assert Malformed(msgs) == Malformed(before) + Report(last);
      FrontLast(msgs);
    }
  }

  /** The arrivals of a server that sends `packets`, each in one piece. */
  function Stream(packets: seq<Snapshot>): (r: seq<string>)
    ensures |r| == |packets| && forall k :: 0 <= k < |packets| ==> r[k] == Packet(packets[k])
  {
    seq(|packets|, k requires 0 <= k < |packets| => Packet(packets[k]))
  }

  /** Each packet the server sends arrives whole and is parsed as it is. */
  lemma {:induction false} MessagesOfStream(packets: seq<Snapshot>)
    requires forall k :: 0 <= k < |packets| ==> Int32Fields(packets[k])
    ensures Messages(Stream(packets)) == Stream(packets)
    decreases |packets|
  {
    var inbox := Stream(packets);
    if packets != [] {
      var p := Packet(packets[0]);
      PacketIsWhole(packets[0]);
      PacketHasNoNul(packets[0]);
      CStringOfPlain(p);
      assert p != [] by {
        assert p[|p| - 1] == '\n';
      }
      assert Receive(inbox, RECV_SIZE) == (p, inbox[1..]);
      assert inbox[1..] == Stream(packets[1..]);
      MessagesOfStream(packets[1..]);
    } else {
      assert Pending(inbox) == [];
    }
  }

  /** Packets are decoded in order: after them the client shows the last
      state sent, or what it had if nothing was sent. */
  lemma ShownStream(view: Snapshot, packets: seq<Snapshot>)
    requires forall k :: 0 <= k < |packets| ==> Int32Fields(packets[k])
    ensures Shown(view, Stream(packets)) == (if packets == [] then view else packets[|packets| - 1])
  {
    if packets != [] {
      var last := packets[|packets| - 1];
      assert Packet(last) + [] == Packet(last);
      DecodePacket(last, []);
    }
  }

  /** Texts that all hold five integers are never reported. */
  lemma {:induction false} WellFormedNotReported(msgs: seq<string>)
    requires forall k :: 0 <= k < |msgs| ==> Decode(msgs[k]).Some?
    ensures Malformed(msgs) == []
    decreases |msgs|
  {
    if msgs != [] {
      var before := msgs[..|msgs| - 1];
      assert forall k :: 0 <= k < |before| ==> before[k] == msgs[k];
      WellFormedNotReported(before);
    }
  }

  /** No packet the server sends is reported as malformed. */
  lemma NoPacketMalformed(packets: seq<Snapshot>)
    requires forall k :: 0 <= k < |packets| ==> Int32Fields(packets[k])
    ensures Malformed(Stream(packets)) == []
  {
    var st := Stream(packets);
    forall k | 0 <= k < |st|
      ensures Decode(st[k]).Some?
    {
      assert Packet(packets[k]) + [] == Packet(packets[k]);
      DecodePacket(packets[k], []);
    }
    WellFormedNotReported(st);
  }

  /** The client shows the server's last state and reports nothing. */
  lemma ClientShowsServer(view: Snapshot, packets: seq<Snapshot>)
    requires forall k :: 0 <= k < |packets| ==> Int32Fields(packets[k])
    ensures Shown(view, Messages(Stream(packets))) == (if packets == [] then view else packets[|packets| - 1])
    ensures Malformed(Messages(Stream(packets))) == []
  {
    MessagesOfStream(packets);
    ShownStream(view, packets);
    NoPacketMalformed(packets);
  }

  /** A connection the server has closed yields no text: nothing is shown
      and nothing is reported. */
  lemma ClosedStreamChangesNothing(view: Snapshot, inbox: seq<string>)
    requires Pending(inbox) == []
    ensures Messages(inbox) == [] && Shown(view, Messages(inbox)) == view
    ensures Malformed(Messages(inbox)) == []
  {
  }

  /** The client's shared game values. */
  class Client {
    var ballX: int
    var ballY: int
    var paddleX: int
    var penalty: int
    var paddle2X: int
    var penalty2: int
    /** The texts printed as "malformed data" warnings, oldest first. */
    var warnings: seq<string>
    /** The paddle positions written to the server, oldest first. */
    var sent: seq<int>

    /** The five values a packet carries, in packet order. */
    function View(): Snapshot
      reads this
    {
      Snapshot(ballX, ballY, penalty, paddle2X, penalty2)
    }

    /** The globals as the program starts: both paddles at 45, everything else 0. */
    constructor()
      ensures View() == Snapshot(0, 0, 0, 45, 0) && paddleX == 45
      ensures warnings == [] && sent == []
    {
      ballX, ballY, paddleX, penalty, paddle2X, penalty2 := 0, 0, 45, 0, 45, 0;
      warnings, sent := [], [];
    }

    /** The five assignments `receive_data` makes once `sscanf` has read five integers. */
    method SetView(s: Snapshot)
      modifies this
      ensures View() == s
      ensures warnings == old(warnings) && paddleX == old(paddleX) && sent == old(sent)
    {
      ballX, ballY, penalty, paddle2X, penalty2 := s.ballX, s.ballY, s.penalty, s.paddle2X, s.penalty2;
    }

    /** The "malformed data" warning: the text is recorded, no value changes. */
    method Warn(text: string)
      modifies this
      ensures View() == old(View())
      ensures warnings == old(warnings) + [text] && paddleX == old(paddleX) && sent == old(sent)
    {
      warnings := warnings + [text];
    }

    /** The body of `receive_data`'s loop after a successful `recv`: the
        buffer is NUL-terminated and parsed; all five values are committed
        together, or none and the text is reported. */
    method Commit(buffer: string)
      modifies this
      ensures View() == Apply(old(View()), CString(buffer))
      ensures warnings == old(warnings) + Report(CString(buffer))
      ensures paddleX == old(paddleX) && sent == old(sent)
    {
      var text := CString(buffer);
      var parsed := Decode(text);
      if parsed.Some? {
        SetView(parsed.value);
        assert warnings + [] == warnings;
      } else {
        Warn(text);
      }
    }

    /** `receive_data`: reads until the server closes the connection, which
        ends the client with exit status 0. */
    method ReceiveData(inbox: seq<string>) returns (exit: int)
      modifies this
      ensures View() == Shown(old(View()), Messages(inbox))
      ensures warnings == old(warnings) + Malformed(Messages(inbox))
      ensures paddleX == old(paddleX) && sent == old(sent)
      ensures exit == 0
    {
      var rest := inbox;
      ghost var parsed: seq<string> := [];
      while true
        invariant Messages(inbox) == parsed + Messages(rest)
        invariant View() == Shown(old(View()), parsed)
        invariant warnings == old(warnings) + Malformed(parsed)
        invariant paddleX == old(paddleX) && sent == old(sent)
        decreases |Pending(rest)|
      {
        var r := Receive(rest, RECV_SIZE);
        if r.0 == [] {
          assert parsed + [] == parsed;
          return 0;
        }
        var text := CString(r.0);
        MessagesStep(rest);
        ParsedSnoc(old(View()), parsed, text);
        Commit(r.0);
        AppendAssoc(parsed, [text], Messages(r.1));
        AppendAssoc(old(warnings), Malformed(parsed), Report(text));
        parsed := parsed + [text];
        rest := r.1;
      }
    }

    /** `send_data`: for each key up to the first 'q' the paddle is steered
        and its new position written to the server; 'q' closes the
        connection and ends the client with status 0, writing nothing. */
    method SendData(keys: seq<int>) returns (exit: Option<int>)
      modifies this
      ensures sent == old(sent) + Trace(ClientControls, old(paddleX), keys)
      ensures paddleX == Final(ClientControls, old(paddleX), keys)
      ensures exit == (if KEY_QUIT in keys then Some(0) else None)
      ensures View() == old(View()) && warnings == old(warnings)
    {
      var i := 0;
      exit := None;
      while i < |keys|
        invariant 0 <= i <= |keys|
        invariant forall k :: 0 <= k < i ==> keys[k] != KEY_QUIT
        invariant View() == old(View()) && warnings == old(warnings)
        invariant old(sent) + Trace(ClientControls, old(paddleX), keys) == sent + Trace(ClientControls, paddleX, keys[i..])
        invariant Final(ClientControls, old(paddleX), keys) == Final(ClientControls, paddleX, keys[i..])
      {
        var key, x := keys[i], paddleX;
        if key == KEY_LEFT && paddleX > MIN_X {
          paddleX := paddleX - 1;
        } else if key == KEY_RIGHT && paddleX < MAX_X {
          paddleX := paddleX + 1;
        } else if key == KEY_QUIT {
          FinalAtQuit(ClientControls, x, keys, i);
          assert sent + [] == sent;
          exit := Some(0);
          return;
        }
        assert paddleX == Steer(ClientControls, x, key);
        FinalFrom(ClientControls, x, keys, i);
        AppendAssoc(sent, [paddleX], Trace(ClientControls, paddleX, keys[i + 1..]));
        sent := sent + [paddleX];
        i := i + 1;
      }
      assert sent + [] == sent;
    }
  }

  /** Every position the client writes keeps the paddle on the field. */
  lemma SentInRange(keys: seq<int>)
    ensures forall k :: 0 <= k < |Trace(ClientControls, 45, keys)| ==> InRange(Trace(ClientControls, 45, keys)[k])
  {
  }

  /** The server's bottom paddle follows the client's: once the client has
      written its positions for `keys` (no 'q' among them), the server's
      `paddle.x` is the client's `paddle_x`. */
  lemma ServerFollowsClient(serverPaddle: int, clientPaddle: int, keys: seq<int>)
    requires KEY_QUIT !in keys && keys != []
    ensures PongServer.Receive(serverPaddle, PongServer.Positions(Trace(ClientControls, clientPaddle, keys))).0
            == Final(ClientControls, clientPaddle, keys)
  {
    PongServer.ReceivePositions(serverPaddle, Trace(ClientControls, clientPaddle, keys));
  }
}
