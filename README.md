# Greeter and user service, modelled in Dafny

This project models `main.go` of the gophercon-2018 demo server. The server holds a small
in-memory user store, and two gRPC services are built on it:

- **UserService** creates, lists, gets and deletes users.
- **GreeterService** greets stored users through the four gRPC call shapes: unary,
  client-streaming, server-streaming and bidirectional streaming.

The files:

- `text.dfy` (module `Text`): the two library helpers the service relies on for text.
  `Join` is `strings.Join`; `DecimalString` is what fmt's `%d` writes for a counter, and
  `ParseDecimal` is its inverse.
- `greeting.dfy` (module `Greeting`): the `Language` enum and the `sayHello` formatter.
- `users.dfy` (module `Users`): the `User` record and the `NotFound`/`Transport` error.
  It also holds `findUser`; `StoreAll`, the meaning of a batch of puts; and the class
  `UserStore`. That class holds the store as a `map<string, User>` field, and
  `CreateUsers`, `ListUsers`, `GetUser` and `DeleteUser` are its methods. The invariant
  `Valid()` says every record is stored under its own `name`. `CreateUsers` and
  `DeleteUser` keep it. The method `CreateGetDelete` chains the contracts into the round
  trip: a created record is found under its key, deleting it twice leaves the store as
  after one delete, and afterwards the key is NotFound.
- `greeter.dfy` (module `Greeter`): the four handlers. A stream is the list of greeter
  names the caller sends, plus how `Recv` ended: `EOF` or `RecvError`. The outbound side
  is a transport that either accepts every `Send`, or accepts the first `delivered` sends
  and fails on the next one. A handler's result is a `Call`: the messages the caller
  received, and whether the call returned nil (`Closed`) or an error (`Aborted`). Each
  streaming handler is a method with the source's loop. Its result is proved equal to a
  recursive or closed-form definition (`ClientStream`, `ServerStream`, `Bidi`), and
  lemmas state what the source promises about that definition.

Keys are derived as `FirstName + "_" + LastName`, which is what the code does. The record
store is passed to the handlers as an object instead of being a process-wide variable.

## Model

| member | source | states |
|---|---|---|
| `Greeting.SayHelloShape` | main.go:158-169 | `sayHello` is total, with no failure case. Every greeting is the chosen format's opening text, then the name, then its closing text, and the name can be read back from between them. |
| `Greeting.SayHelloForms` | main.go:160-167 | ENGLISH gives `"Hello, " + name + "!"`. JAPANESE gives `"こんにちは、" + name + "！"`. Any other language gives the English form. |
| `Greeting.SayHelloInjective` | main.go:158-169 | Two different names never give the same greeting in one language. |
| `Text.JoinSnoc` | main.go:100 | `strings.Join` agrees with left-to-right accumulation. Adding an element appends the separator and that element. |
| `Text.DecimalString` | main.go:126 | The `%d` rendering of a counter is a non-empty string of digits, with no leading zero unless the number is 0. |
| `Text.DecimalRoundTrip` | main.go:126 | Parsing the rendered digits gives the number back. |
| `Text.DecimalInjective` | main.go:126 | Different counters render differently. |
| `Users.ErrorMessage` | main.go:174 | The NotFound status message ends with the missing key. A transport error is passed on with its own text. |
| `Users.FindUser` | main.go:171-177 | Ok with the stored record exactly when the key is present. Otherwise NotFound carrying that key. |
| `Users.StoreAllLastWins` | main.go:32-41 | After a batch of puts, a record that no later record collides with is stored under its name, and `findUser` returns it. This is last-writer-wins, and `GetUser` after `CreateUsers` completes the round trip. |
| `Users.StoreAllUntouched` | main.go:32-41 | A key that no record in the batch uses keeps its old record, or stays absent. |
| `Users.StoreAllKeys` | main.go:32-41 | After the batch, the keys are the old keys plus the names stored. |
| `Users.UnderscoreKeysCollide` | main.go:34-39 | The derived key is not injective. ("a_b", "c") and ("a", "b_c") share the key "a_b_c", and the later record replaces the earlier one. |
| `Users.UserStore.constructor` | main.go:26 | The store starts empty and valid. |
| `Users.UserStore.CreateUsers` | main.go:30-45 | Returns one record per input, in input order. Each record's name is FirstName + "_" + LastName, and it copies FirstName, LastName and Language. The new store is the old one with the records put in order. The key invariant is kept. |
| `Users.UserStore.ListUsers` | main.go:47-56 | Returns as many records as there are keys. Every listed record is stored, and every stored record is listed. Paired with the keys in the order the scan visits them, no key appears twice and every key appears, so each record is listed exactly once. An empty store gives an empty list. |
| `Users.UserStore.GetUser` | main.go:58-71 | The scan for an exact key returns what `findUser`'s direct load returns: the stored record, or NotFound with the key. In a valid store, a record found under a key carries that key as its name. |
| `Users.UserStore.DeleteUser` | main.go:73-76 | Never fails. Afterwards the key is absent and `findUser` reports NotFound. Every other key keeps its record, so a second call changes nothing. |
| `Greeter.SayHello` | main.go:82-91 | The unary handler gives the greeting of the user's last name in the user's language. A missing user gives NotFound with the key and no response. |
| `Greeter.LastNames` | main.go:107-112 | The collected last names correspond one to one with the requests, in arrival order. |
| `Greeter.ClientStreamGreetsAll` | main.go:95-101 | If every name resolves, the stream ends with EOF, and the transport accepts the send, exactly one response is sent: the English greeting of the last names joined by ", ". The call then closes normally. |
| `Greeter.ClientStreamFirstMissing` | main.go:107-110 | The first name that does not resolve aborts the call with NotFound for that name. No response is sent. |
| `Greeter.ClientStreamRecvError` | main.go:103-105 | A Recv error after names that all resolve aborts the call with that error. No response is sent. |
| `Greeter.ClientStreamTwoNames` | main.go:98-101 | Names that resolve to last names "A" and "B", when the stream ends with EOF and the transport accepts the send, give exactly one response, "Hello, A, B!", and a normal close. |
| `Greeter.SayHelloClientStream` | main.go:93-114 | The handler's loop produces exactly the client-streaming result defined by `ClientStream`. |
| `Greeter.NumberedCounter` | main.go:126 | The counter can be read back from a numbered message. |
| `Greeter.ServerStreamMessages` | main.go:116-133 | A missing user aborts with NotFound before any send. Otherwise, with a transport that takes every send, exactly n messages go out (between 1 and 5). Message j is the greeting + ". I greet " + (j+1) + " times.", so the counters rise strictly from 1. |
| `Greeter.SayHelloServerStream` | main.go:116-133 | The handler's loop produces exactly `ServerStream`: n numbered copies of one greeting, cut short where a send fails. |
| `Greeter.BidiOneToOne` | main.go:135-156 | Responses correspond one to one with requests, in request order. Each is the greeting of that request's user, in that user's language. The call closes normally exactly when every request was answered and the stream ended with EOF. |
| `Greeter.BidiFirstMissing` | main.go:145-148 | With a transport that accepts the sends for the earlier requests, the first request whose name does not resolve stops the call with NotFound. What went out before it is exactly the greetings for the earlier requests. |
| `Greeter.SayHelloBidiStream` | main.go:135-156 | The handler's loop produces exactly `Bidi`. It answers each request as it arrives and sends nothing after EOF. |

## Left out

- `main` (main.go:179-198) is left out. It covers the TCP listener, the pprof HTTP
  server, gRPC server registration and logging, which are all I/O and bootstrap.
- The concurrency of `sync.Map` is left out. The store is a plain sequential map, and
  each handler sees it unchanged for the whole call. Weakly consistent scans under
  concurrent writes are not modelled.
- `Other(code)` stands only for Language wire values outside the known ones (ENGLISH,
  JAPANESE). The model does not rule out a code that equals a known value's number;
  such a value is not what the enum decodes to, and the model does not capture it.
- `rand.Intn(5) + 1` becomes the parameter `n`, with `requires 1 <= n <= 5`.
- `time.Sleep` only paces the sends, so it is dropped.
- `ctx` is ignored, as the code ignores it. Cancellation is seen only through a failing
  `Recv` or `Send`.
- gRPC stream objects become sequences. `status.Errorf(codes.NotFound, ...)` becomes
  `NotFound(key)`, and any other stream error becomes `Transport(reason)`, which is
  returned as is.
- The generated protobuf types are replaced by `User`, `UserInput` and `Language`.
  `UserInput` holds only the fields `CreateUsers` reads. Unknown wire values of the
  Language enum are `Other(code)`.
- Stored records are values, not shared `*api.User` pointers. Aliasing between the
  returned slice and the store is not modelled; nothing in the service mutates a record
  after storing it.
- Greeter.ServerStreamMessages: it states the message count and contents only for a
  transport that accepts all n sends. When a send fails earlier, the result is given by
  `ServerStream`, which `SayHelloServerStream` is proved equal to: the messages sent
  before the failure, then the transport error.
- A display-name key policy, where a caller-supplied name is the key, is not modelled.
  The code derives every key from the first and last name.
