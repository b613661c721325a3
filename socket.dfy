/** A connected stream socket as the network delivers it, shared by the
    sync client and the Pong client: a list of arrivals, where an empty
    arrival (or the end of the list) is the peer closing the connection. */
module Socket {

  /** The bytes that will arrive before the connection closes. */
  function Pending(inbox: seq<string>): string
    decreases |inbox|
  {
    if inbox == [] || inbox[0] == [] then [] else inbox[0] + Pending(inbox[1..])
  }

  /** `recv(sock, buf, n, 0)`: at most `n` bytes of the first arrival (the
      rest of it stays queued); nothing once the connection is closed. */
  function Receive(inbox: seq<string>, n: nat): (r: (string, seq<string>))
    requires n > 0
    ensures |r.0| <= n
    ensures r.0 + Pending(r.1) == Pending(inbox)
    ensures r.0 == [] <==> Pending(inbox) == []
    ensures r.0 == [] ==> r.1 == inbox
    ensures r.0 != [] ==> |r.0| == n || r.0 == inbox[0]
  {
    if inbox == [] || inbox[0] == [] then ([], inbox)
    else if |inbox[0]| <= n then (inbox[0], inbox[1..])
    else
      var head, tail := inbox[0][..n], inbox[0][n..];
      assert Pending([tail] + inbox[1..]) == tail + Pending(inbox[1..]) by {
        assert ([tail] + inbox[1..])[1..] == inbox[1..];
      }
      assert head + tail == inbox[0];
      (head, [tail] + inbox[1..])
  }

}
