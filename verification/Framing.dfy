/** The loop that collects a storage server's reply until its end token arrives. */
module Framing {
  import opened Text

  const END_TOKEN := "__SS_END__"
  const RESPONSE_LEN := 4096

  predicate TokenAt(s: string, i: nat) { i + |END_TOKEN| <= |s| && s[i..i + |END_TOKEN|] == END_TOKEN }

  function FirstFrom(s: string, i: nat): (r: Option<nat>)
    requires i <= |s|
    ensures r.Some? ==> i <= r.value && TokenAt(s, r.value) && forall j :: i <= j < r.value ==> !TokenAt(s, j)
    ensures r.None? ==> forall j :: i <= j ==> !TokenAt(s, j)
    decreases |s| - i
  {
    if TokenAt(s, i) then Some(i) else if i == |s| then None else FirstFrom(s, i + 1)
  }

  /** strstr for the end token. */
  function First(s: string): (r: Option<nat>)
    ensures r.Some? ==> TokenAt(s, r.value) && forall j :: 0 <= j < r.value ==> !TokenAt(s, j)
    ensures r.None? ==> forall j: nat :: !TokenAt(s, j)
  {
    FirstFrom(s, 0)
  }

  /** What the name server makes of a stream: the text before the token, if the token ends within the buffer. */
  function Reply(stream: string): Option<string> {
    var head := if |stream| < RESPONSE_LEN then stream else stream[..RESPONSE_LEN - 1];
    match First(head)
    case None => None
    case Some(i) => Some(head[..i])
  }

  /** A connection that delivers its stream in pieces of sizes the receiver does not choose. */
  class Socket {
    var incoming: string
    var sizes: seq<nat>

    constructor (stream: string, sizes: seq<nat>)
      ensures incoming == stream
    {
      incoming, this.sizes := stream, sizes;
    }

    /** recv: some bytes while there are any and room for them, none at the end of the stream or with no room. */
    method Recv(room: nat) returns (chunk: string)
      modifies this
      ensures |chunk| <= room && old(incoming) == chunk + incoming
      ensures chunk == [] ==> room == 0 || old(incoming) == []
    {
      var most := if |incoming| < room then |incoming| else room;
      if most == 0 { return []; }
      var n := most;
      if sizes != [] {
        n := 1 + sizes[0] % most;
        sizes := sizes[1..];
      }
      chunk := incoming[..n];
      incoming := incoming[n..];
    }
  }

  /** The receive loop of connect_and_send_to_ss: however the stream is divided, the reply is the same. */
  method ReceiveReply(sock: Socket) returns (reply: Option<string>)
    modifies sock
    ensures reply == Reply(old(sock.incoming))
  {
    var response := "";
    ghost var stream := sock.incoming;
    assert First(response) == None;
    while true
      invariant stream == response + sock.incoming && |response| < RESPONSE_LEN && First(response) == None
      decreases |sock.incoming|
    {
      ghost var before := response;
      var chunk := sock.Recv(RESPONSE_LEN - |response| - 1);
      response := response + chunk;
      assert stream == response + sock.incoming;
      if chunk == [] {
        HeadIs(stream, before);
        return None;
      }
      var found := First(response);
      if found.Some? {
        TokenInHead(stream, response);
        return Some(response[..found.value]);
      }
    }
  }

  lemma HeadIs(stream: string, response: string)
    requires response <= stream && |response| < RESPONSE_LEN
    requires |response| == RESPONSE_LEN - 1 || response == stream
    requires First(response) == None
    ensures Reply(stream) == None
  {
    var head := if |stream| < RESPONSE_LEN then stream else stream[..RESPONSE_LEN - 1];
    assert head == response;
  }

  lemma TokenInHead(stream: string, response: string)
    requires response <= stream && |response| < RESPONSE_LEN && First(response).Some?
    ensures Reply(stream) == Some(response[..First(response).value])
  {
    var head := if |stream| < RESPONSE_LEN then stream else stream[..RESPONSE_LEN - 1];
    assert response <= head;
    FirstOfPrefix(response, head);
    var i := First(response).value;
    assert head[..i] == response[..i];
  }

  lemma FirstOfPrefix(a: string, b: string)
    requires a <= b && First(a).Some?
    ensures First(b) == First(a)
  {
    var i := First(a).value;
    forall j | 0 <= j <= i ensures TokenAt(b, j) <==> TokenAt(a, j) {
      assert b[j..j + |END_TOKEN|] == a[j..j + |END_TOKEN|];
    }
  }

  /** A payload followed by the first token in the stream comes back exactly, if both fit the buffer, and only then:
      a longer one is reported as no reply. */
  lemma PayloadReturned(payload: string, rest: string)
    requires First(payload + "__SS_END__") == Some(|payload|)
    ensures Reply(payload + "__SS_END__" + rest) == if |payload| + 10 <= 4095 then Some(payload) else None
  {
    var stream, framed := payload + END_TOKEN + rest, payload + END_TOKEN;
    assert framed <= stream;
    if |framed| < RESPONSE_LEN {
      TokenInHead(stream, framed);
      assert framed[..|payload|] == payload;
    } else {
      var head := stream[..RESPONSE_LEN - 1];
      if First(head).Some? {
        assert head <= framed by {
          assert stream[..|framed|] == framed;
          assert head == framed[..|head|];
        }
        FirstOfPrefix(head, framed);
      }
    }
  }

  lemma TokenCut(s: string, n: nat, i: nat)
    requires n <= |s|
    ensures TokenAt(s[..n], i) <==> i + 10 <= n && s[i..i + 10] == "__SS_END__"
    ensures i + 10 <= |s| && s[i..i + 10] == "__SS_END__" ==> s == s[..i] + "__SS_END__" + s[i + 10..]
  {
    if i + 10 <= n { assert s[..n][i..i + 10] == s[i..i + 10]; }
  }

  lemma TokenBetween(a: string, b: string)
    ensures var s := a + "__SS_END__" + b; s[|a|..|a| + 10] == "__SS_END__"
  {
  }

  /** There is a reply exactly when a token ends within the first 4095 bytes of the stream. */
  lemma ReplyNeedsToken(stream: string)
    ensures Reply(stream).Some? <==> exists a, b :: stream == a + "__SS_END__" + b && |a| + 10 <= 4095
  {
    hide TokenAt;
    var n := if |stream| < RESPONSE_LEN then |stream| else RESPONSE_LEN - 1;
    assert Reply(stream).Some? <==> First(stream[..n]).Some? by { assert stream[..|stream|] == stream; }
    if First(stream[..n]).Some? { TokenCut(stream, n, First(stream[..n]).value); }
    if a, b :| stream == a + "__SS_END__" + b && |a| + 10 <= 4095 {
      TokenBetween(a, b);
      TokenCut(stream, n, |a|);
    }
  }
}
