/** The greeter service: a unary handler and three streaming handlers. A
    stream is modelled as the requests the caller sends (each a greeter
    name) followed by how the inbound side ended, and a transport that
    delivers some number of outbound messages before a send fails. */
module Greeter {
  import opened Text
  import Greeting
  import opened Users

  /** How Recv ends the inbound stream: io.EOF, or any other error. */
  datatype Close = EOF | RecvError(reason: string)

  datatype Inbound = Inbound(names: seq<string>, close: Close)

  /** The outbound side: every Send succeeds, or the first `delivered` do
      and the next one fails. */
  datatype Outbound = Unlimited | FailsAfter(delivered: nat, reason: string)

  /** Whether a Send succeeds when `sent` messages have gone out already. */
  predicate Accepts(out: Outbound, sent: nat)
  {
    out.Unlimited? || sent < out.delivered
  }

  /** A call returns nil (Closed) or an error (Aborted). */
  datatype Status = Closed | Aborted(error: Error)

  /** What the caller received, and how the call ended. */
  datatype Call = Call(sent: seq<string>, status: Status)

  /** The greeting for one stored user, in that user's language. */
  function Greet(u: User): string
  {
    Greeting.SayHello(u.lastName, u.language)
  }

  /** The status a handler returns when Recv ends the stream and there is
      nothing more to send. */
  function EndStatus(close: Close): Status
  {
    match close
    case EOF => Closed
    case RecvError(reason) => Aborted(Transport(reason))
  }

  // ---------------------------------------------------------------------
  // Unary

  /** SayHello: the greeting for the named user, or NotFound with no
      response. */
  function SayHello(store: UserStore, greeterName: string): (r: Result<string>)
    reads store
    ensures r.Ok? <==> greeterName in store.entries
    ensures r.Ok? ==> r.value == Greeting.SayHello(store.entries[greeterName].lastName, store.entries[greeterName].language)
    ensures r.Err? ==> r.error == NotFound(greeterName)
  {
    match FindUser(store.entries, greeterName)
    case Err(e) => Err(e)
    case Ok(u) => Ok(Greet(u))
  }

  // ---------------------------------------------------------------------
  // Client streaming

  /** The client-streaming handler once `greeters` holds the last names
      collected so far and `names` are still to arrive. */
  function ClientStreamFrom(users: map<string, User>, names: seq<string>, close: Close, out: Outbound,
                            greeters: seq<string>): Call
    decreases |names|
  {
    if names == [] then
      match close
      case RecvError(reason) => Call([], Aborted(Transport(reason)))
      case EOF =>
        if Accepts(out, 0) then Call([Greeting.SayHello(Join(greeters, ", "), Greeting.English)], Closed)
        else Call([], Aborted(Transport(out.reason)))
    else
      match FindUser(users, names[0])
      case Err(e) => Call([], Aborted(e))
      case Ok(u) => ClientStreamFrom(users, names[1..], close, out, greeters + [u.lastName])
  }

  function ClientStream(users: map<string, User>, inbound: Inbound, out: Outbound): Call
  {
    ClientStreamFrom(users, inbound.names, inbound.close, out, [])
  }

  /** The last names of the named users, in the order the names come. */
  function LastNames(users: map<string, User>, names: seq<string>): (r: seq<string>)
    requires forall j :: 0 <= j < |names| ==> names[j] in users
    ensures |r| == |names|
    ensures forall j :: 0 <= j < |names| ==> r[j] == users[names[j]].lastName
  {
    if names == [] then [] else [users[names[0]].lastName] + LastNames(users, names[1..])
  }

  /** Receiving names that all resolve only extends the collected last
      names. */
  lemma {:induction false} ClientStreamFromCollects(users: map<string, User>, names: seq<string>, close: Close,
                                                    out: Outbound, greeters: seq<string>)
    requires forall j :: 0 <= j < |names| ==> names[j] in users
    ensures ClientStreamFrom(users, names, close, out, greeters)
         == ClientStreamFrom(users, [], close, out, greeters + LastNames(users, names))
  {
    if names == [] {
      assert greeters + LastNames(users, names) == greeters;
    } else {
      var u := users[names[0]];
      ClientStreamFromCollects(users, names[1..], close, out, greeters + [u.lastName]);
      assert greeters + [u.lastName] + LastNames(users, names[1..]) == greeters + LastNames(users, names);
    }
  }

  /** When every name resolves and the caller ends with EOF, exactly one
      response goes out: the English greeting of the last names joined by
      ", " in arrival order. */
  lemma ClientStreamGreetsAll(users: map<string, User>, inbound: Inbound, out: Outbound)
    requires forall j :: 0 <= j < |inbound.names| ==> inbound.names[j] in users
    requires inbound.close == EOF && Accepts(out, 0)
    ensures ClientStream(users, inbound, out)
         == Call([Greeting.SayHello(Join(LastNames(users, inbound.names), ", "), Greeting.English)], Closed)
  {
    ClientStreamFromCollects(users, inbound.names, EOF, out, []);
    assert [] + LastNames(users, inbound.names) == LastNames(users, inbound.names);
  }

  lemma {:induction false} ClientStreamFromMissing(users: map<string, User>, names: seq<string>, close: Close,
                                                   out: Outbound, greeters: seq<string>, i: nat)
    requires i < |names| && names[i] !in users
    requires forall j :: 0 <= j < i ==> names[j] in users
    ensures ClientStreamFrom(users, names, close, out, greeters) == Call([], Aborted(NotFound(names[i])))
  {
    if i > 0 {
      ClientStreamFromMissing(users, names[1..], close, out, greeters + [users[names[0]].lastName], i - 1);
    }
  }

  /** The first name that does not resolve aborts the call with NotFound
      for that name, and nothing is sent. */
  lemma ClientStreamFirstMissing(users: map<string, User>, inbound: Inbound, out: Outbound, i: nat)
    requires i < |inbound.names| && inbound.names[i] !in users
    requires forall j :: 0 <= j < i ==> inbound.names[j] in users
    ensures ClientStream(users, inbound, out) == Call([], Aborted(NotFound(inbound.names[i])))
  {
    ClientStreamFromMissing(users, inbound.names, inbound.close, out, [], i);
  }

  /** A Recv error after names that all resolve aborts with that error,
      and nothing is sent. */
  lemma ClientStreamRecvError(users: map<string, User>, inbound: Inbound, out: Outbound)
    requires forall j :: 0 <= j < |inbound.names| ==> inbound.names[j] in users
    requires inbound.close.RecvError?
    ensures ClientStream(users, inbound, out) == Call([], Aborted(Transport(inbound.close.reason)))
  {
    ClientStreamFromCollects(users, inbound.names, inbound.close, out, []);
  }

  /** The greeting of the example where the names resolve to "A" and "B". */
  lemma ClientStreamTwoNames(users: map<string, User>, a: string, b: string)
    requires a in users && b in users
    requires users[a].lastName == "A" && users[b].lastName == "B"
    ensures ClientStream(users, Inbound([a, b], EOF), Unlimited) == Call(["Hello, A, B!"], Closed)
  {
    ClientStreamGreetsAll(users, Inbound([a, b], EOF), Unlimited);
    assert LastNames(users, [a, b]) == ["A", "B"];
    assert ["A", "B"][1..] == ["B"];
    assert Join(["A", "B"], ", ") == "A, B";
    assert Greeting.SayHello("A, B", Greeting.English) == "Hello, A, B!";
  }

  /** SayHelloClientStream: collects the last names of the requests as
      they arrive; at EOF sends the one aggregate greeting and closes. */
  method SayHelloClientStream(store: UserStore, inbound: Inbound, out: Outbound) returns (call: Call)
    ensures call == ClientStream(store.entries, inbound, out)
  {
    var greeters: seq<string> := [];
    var i := 0;
    while i < |inbound.names|
      invariant 0 <= i <= |inbound.names|
      invariant ClientStreamFrom(store.entries, inbound.names[i..], inbound.close, out, greeters) == ClientStream(store.entries, inbound, out)
    {
      var user := FindUser(store.entries, inbound.names[i]);
      if user.Err? {
        return Call([], Aborted(user.error));
      }
      assert inbound.names[i..][1..] == inbound.names[i + 1..];
      greeters := greeters + [user.value.lastName];
      i := i + 1;
    }
    assert inbound.names[i..] == [];
    match inbound.close
    case RecvError(reason) =>
      call := Call([], Aborted(Transport(reason)));
    case EOF =>
      if Accepts(out, 0) {
        call := Call([Greeting.SayHello(Join(greeters, ", "), Greeting.English)], Closed);
      } else {
        call := Call([], Aborted(Transport(out.reason)));
      }
  }

  // ---------------------------------------------------------------------
  // Server streaming

  /** Message number i of the server stream, for greeting base. */
  function Numbered(base: string, i: nat): string
  {
    base + ". I greet " + DecimalString(i) + " times."
  }

  /** Reads the counter back out of a message of the server stream for
      base; None when the message does not have that shape. */
  function CounterOf(base: string, message: string): Option<nat>
  {
    var lead, tail := base + ". I greet ", " times.";
    if |message| >= |lead| + |tail| && message[..|lead|] == lead && message[|message| - |tail|..] == tail
       && AllDigits(message[|lead|..|message| - |tail|])
    then Some(ParseDecimal(message[|lead|..|message| - |tail|]))
    else None
  }

  lemma NumberedCounter(base: string, i: nat)
    ensures CounterOf(base, Numbered(base, i)) == Some(i)
  {
    var lead, tail, d := base + ". I greet ", " times.", DecimalString(i);
    var m := Numbered(base, i);
    assert m == lead + d + tail;
    assert m[..|lead|] == lead;
    assert m[|m| - |tail|..] == tail;
    assert m[|lead|..|m| - |tail|] == d;
    DecimalRoundTrip(i);
  }

  /** The messages the server stream can send before the transport fails. */
  function Deliverable(out: Outbound, n: nat): nat
  {
    if out.Unlimited? || n <= out.delivered then n else out.delivered
  }

  /** SayHelloServerStream's result for a stream of n messages (n stands for
      the random draw from 1..5). */
  function ServerStream(users: map<string, User>, greeterName: string, n: nat, out: Outbound): Call
  {
    match FindUser(users, greeterName)
    case Err(e) => Call([], Aborted(e))
    case Ok(u) =>
      var base, k := Greet(u), Deliverable(out, n);
      Call(seq(k, j requires 0 <= j => Numbered(base, j + 1)), if k == n then Closed else Aborted(Transport(out.reason)))
  }

  /** A missing user aborts before any message; otherwise, with a transport
      that keeps accepting, exactly n messages go out, message j carrying
      counter j + 1, so the counters rise strictly from 1. */
  lemma ServerStreamMessages(users: map<string, User>, greeterName: string, n: nat, out: Outbound)
    requires 1 <= n <= 5
    ensures greeterName !in users ==> ServerStream(users, greeterName, n, out) == Call([], Aborted(NotFound(greeterName)))
    ensures greeterName in users && Accepts(out, n - 1) ==>
              var call, base := ServerStream(users, greeterName, n, out), Greet(users[greeterName]);
              && call.status == Closed
              && 1 <= |call.sent| == n <= 5
              && forall j :: 0 <= j < n ==>
                   call.sent[j] == Greet(users[greeterName]) + ". I greet " + DecimalString(j + 1) + " times."
                   && CounterOf(base, call.sent[j]) == Some(j + 1)
  {
    if greeterName in users && Accepts(out, n - 1) {
      var call, base := ServerStream(users, greeterName, n, out), Greet(users[greeterName]);
      assert |call.sent| == n;
      forall j | 0 <= j < n
        ensures call.sent[j] == Greet(users[greeterName]) + ". I greet " + DecimalString(j + 1) + " times."
        ensures CounterOf(base, call.sent[j]) == Some(j + 1)
      {
        NumberedCounter(base, j + 1);
      }
    }
  }

  /** SayHelloServerStream: looks the user up once, then sends n numbered
      copies of the greeting, stopping at the first failed send. */
  method SayHelloServerStream(store: UserStore, greeterName: string, n: nat, out: Outbound) returns (call: Call)
    requires 1 <= n <= 5
    ensures call == ServerStream(store.entries, greeterName, n, out)
  {
    var user := FindUser(store.entries, greeterName);
    if user.Err? {
      return Call([], Aborted(user.error));
    }
    var message := Greet(user.value);
    var sent: seq<string> := [];
    var i := 0;
    while i < n
      invariant 0 <= i <= n && i <= Deliverable(out, n)
      invariant sent == seq(i, j requires 0 <= j => Numbered(message, j + 1))
    {
      if !Accepts(out, i) {
        return Call(sent, Aborted(Transport(out.reason)));
      }
      sent := sent + [Numbered(message, i + 1)];
      i := i + 1;
    }
    return Call(sent, Closed);
  }

  // ---------------------------------------------------------------------
  // Bidirectional streaming

  /** The bidi handler once `sent` responses have gone out and `names` are
      still to arrive. */
  function BidiFrom(users: map<string, User>, names: seq<string>, close: Close, out: Outbound, sent: nat): Call
    decreases |names|
  {
    if names == [] then Call([], EndStatus(close))
    else
      match FindUser(users, names[0])
      case Err(e) => Call([], Aborted(e))
      case Ok(u) =>
        if !Accepts(out, sent) then Call([], Aborted(Transport(out.reason)))
        else
          var rest := BidiFrom(users, names[1..], close, out, sent + 1);
          Call([Greet(u)] + rest.sent, rest.status)
  }

  /** One step of the bidi handler: a request that resolves, with a send
      that succeeds, puts its greeting in front of what follows. */
  lemma BidiFromStep(users: map<string, User>, names: seq<string>, close: Close, out: Outbound, sent: nat)
    requires names != [] && names[0] in users && Accepts(out, sent)
    ensures var rest := BidiFrom(users, names[1..], close, out, sent + 1);
            BidiFrom(users, names, close, out, sent) == Call([Greet(users[names[0]])] + rest.sent, rest.status)
  {
  }

  function Bidi(users: map<string, User>, inbound: Inbound, out: Outbound): Call
  {
    BidiFrom(users, inbound.names, inbound.close, out, 0)
  }

  lemma {:induction false} BidiFromOneToOne(users: map<string, User>, names: seq<string>, close: Close,
                                            out: Outbound, sent: nat)
    ensures var call := BidiFrom(users, names, close, out, sent);
            && |call.sent| <= |names|
            && (forall j :: 0 <= j < |call.sent| ==> names[j] in users && call.sent[j] == Greet(users[names[j]]))
            && (call.status == Closed <==> |call.sent| == |names| && close == EOF)
  {
    if names != [] && names[0] in users && Accepts(out, sent) {
      BidiFromOneToOne(users, names[1..], close, out, sent + 1);
      BidiFromStep(users, names, close, out, sent);
      var call, rest := BidiFrom(users, names, close, out, sent), BidiFrom(users, names[1..], close, out, sent + 1);
      forall j | 0 <= j < |call.sent| ensures names[j] in users && call.sent[j] == Greet(users[names[j]]) {
        if j > 0 {
          assert call.sent[j] == rest.sent[j - 1] && names[1..][j - 1] == names[j];
        }
      }
    }
  }

  /** Responses correspond one to one with requests, in request order, each
      the greeting of that request's user in that user's language; the call
      closes normally exactly when every request was answered and the
      caller ended with EOF. */
  lemma BidiOneToOne(users: map<string, User>, inbound: Inbound, out: Outbound)
    ensures var call := Bidi(users, inbound, out);
            && |call.sent| <= |inbound.names|
            && (forall j :: 0 <= j < |call.sent| ==> inbound.names[j] in users && call.sent[j] == Greet(users[inbound.names[j]]))
            && (call.status == Closed <==> |call.sent| == |inbound.names| && inbound.close == EOF)
  {
    BidiFromOneToOne(users, inbound.names, inbound.close, out, 0);
  }

  lemma {:induction false} BidiFromMissing(users: map<string, User>, names: seq<string>, close: Close,
                                           out: Outbound, sent: nat, i: nat)
    requires i < |names| && names[i] !in users
    requires forall j :: 0 <= j < i ==> names[j] in users
    requires out.Unlimited? || sent + i <= out.delivered
    ensures var call := BidiFrom(users, names, close, out, sent);
            call.status == Aborted(NotFound(names[i])) && |call.sent| == i
  {
    if i > 0 {
      assert names[1..][i - 1] == names[i];
      forall j | 0 <= j < i - 1 ensures names[1..][j] in users {
        assert names[1..][j] == names[j + 1];
      }
      BidiFromMissing(users, names[1..], close, out, sent + 1, i - 1);
    }
  }

  /** The first request whose name does not resolve stops the stream with
      NotFound; what went out before is exactly the greetings for the
      requests before it (when the transport accepted them). */
  lemma BidiFirstMissing(users: map<string, User>, inbound: Inbound, out: Outbound, i: nat)
    requires i < |inbound.names| && inbound.names[i] !in users
    requires forall j :: 0 <= j < i ==> inbound.names[j] in users
    requires out.Unlimited? || i <= out.delivered
    ensures var call := Bidi(users, inbound, out);
            && call.status == Aborted(NotFound(inbound.names[i]))
            && |call.sent| == i
            && forall j :: 0 <= j < i ==> call.sent[j] == Greet(users[inbound.names[j]])
  {
    BidiFromMissing(users, inbound.names, inbound.close, out, 0, i);
    BidiOneToOne(users, inbound, out);
  }

  /** The bidi loop's invariant: `sent` went out for the first i requests,
      and the rest of the call is what the handler does from request i on. */
  ghost predicate BidiProgress(users: map<string, User>, inbound: Inbound, out: Outbound, sent: seq<string>, i: nat)
  {
    && i <= |inbound.names| && |sent| == i
    && var rest := BidiFrom(users, inbound.names[i..], inbound.close, out, i);
       Bidi(users, inbound, out) == Call(sent + rest.sent, rest.status)
  }

  lemma BidiProgressStep(users: map<string, User>, inbound: Inbound, out: Outbound, sent: seq<string>, i: nat)
    requires BidiProgress(users, inbound, out, sent, i) && i < |inbound.names|
    requires inbound.names[i] in users && Accepts(out, i)
    ensures BidiProgress(users, inbound, out, sent + [Greet(users[inbound.names[i]])], i + 1)
  {
    // The steps below are not needed for the proof to go through, but they keep it well
    // inside the resource limit on every solver seed.
    var names, greeting := inbound.names, Greet(users[inbound.names[i]]);
    assert names[i..][1..] == names[i + 1..];
    BidiFromStep(users, names[i..], inbound.close, out, i);
    var rest := BidiFrom(users, names[i + 1..], inbound.close, out, i + 1);
    assert sent + ([greeting] + rest.sent) == (sent + [greeting]) + rest.sent;
  }

  /** SayHelloBidiStream: answers each request as it arrives; EOF closes
      the call with no further sends. */
  method SayHelloBidiStream(store: UserStore, inbound: Inbound, out: Outbound) returns (call: Call)
    ensures call == Bidi(store.entries, inbound, out)
  {
    var users, names := store.entries, inbound.names;
    var sent: seq<string> := [];
    var i := 0;
    assert names[0..] == names;
    while i < |names|
      invariant BidiProgress(users, inbound, out, sent, i)
    {
      var user := FindUser(users, names[i]);
      if user.Err? {
        assert sent + [] == sent;
        return Call(sent, Aborted(user.error));
      }
      if !Accepts(out, i) {
        assert sent + [] == sent;
        return Call(sent, Aborted(Transport(out.reason)));
      }
      BidiProgressStep(users, inbound, out, sent, i);
      sent := sent + [Greet(user.value)];
      i := i + 1;
    }
    assert names[i..] == [];
    assert sent + [] == sent;
    return Call(sent, EndStatus(inbound.close));
  }
}
