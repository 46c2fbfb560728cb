# protohackers, modelled in Dafny

A model of the per-connection logic of five network services from a Rust
solution set to the Protohackers exercises, and proofs of what that logic
does. Tokio's sockets, tasks and channels are left out. Each service is
modelled as the loop or function that turns what it reads into what it
writes, over sequences of characters or bytes:

- **Budget chat** (`budget_chat.dfy`, module `BudgetChat`). A session greets
  the peer and reads a name, which must be 1 to 32 ASCII letters or digits.
  It then joins the room, or ends with an error line. Once joined, each line
  it reads is published as `[name] line`. Each bus line is handed to the peer
  unless the line contains the peer's name. At the end of the stream the
  session announces that the peer left and removes its name from the room's
  list. The room's list and its published lines are fields of a `Room`
  class, which the `Turn`, `Loop` and `Handler` methods update in place.
  They are proved equal to the pure `Step`, `Run` and `Session` functions.
- **Mob in the middle** (`mob_in_the_middle.dfy`, module `MobInTheMiddle`).
  `replace_message` splits a line on single spaces and swaps every
  Boguscoin-address-shaped token for a fixed address: such a token starts
  with `7`, has 26 to 35 characters, all letters or digits. It then joins the
  tokens again. Each forwarding loop pops the last character of every line
  read (the newline, or a real character on an unterminated last line),
  rewrites the line and writes it back with a newline.
- **Prime time** (`prime_time.dfy`, module `PrimeTime`). The model covers
  the trial-division primality check, the decision made on a deserialised
  request, and the framing of replies: a JSON line, or the bare text
  `error` with no newline.
- **Unusual database** (`unusual_db.dfy`, module `UnusualDb`). The handler
  of one datagram works over a string-to-string map. A datagram with `=`
  inserts, split at the first `=`. Any other datagram retrieves `key=value`.
  The key `version` can never be written and always reads `version=1.0.0`.
- **Means to an end** (`means_to_an_end.dfy`, module `MeansToAnEnd`). The
  model covers the 9-byte message format (an opcode, then two big-endian
  two's-complement 32-bit integers) and the session over an ordered map from
  timestamp to price. `I` inserts a price. `Q` writes the mean over an
  inclusive range: the 64-bit sum divided by the count, truncated toward
  zero, or 0 when nothing is in range or the range is inverted. Any other
  opcode ends the session.

Shared pieces:

- `text.dfy` (module `Text`) holds Rust's `split`, `join`, `contains`,
  `position`, `pop` and `read_line` framing over strings.
  - `Text.Responses` is what a loop writes when it answers each line it
    reads.
- `numeric.dfy` (module `Numeric`) holds the fixed-width integer types.
- `wrappers.dfy` (module `Wrappers`) holds `Option` and `Result`.

Behaviours of the code that a reader might expect otherwise, and that the
model keeps as written:

- A read error on a chat peer leaves the session loop through `?`, so the
  session returns before the leave code. A joined client whose read fails
  is never announced as gone and stays in the room's list
  (`ReadErrorSkipsLeave`).
- The chat's own-name filter is a substring test, not an identity test.
  Every bus line that contains the client's name anywhere is dropped. A
  client named `al` is not handed a line mentioning `alice`
  (`MentionExample`). A client that is still identifying itself has the
  empty name, which every line contains, so it is handed nothing
  (`IdentifyingHearsNothing`).
- The proxy's rewriter splits on every single space and joins with single
  spaces. Empty parts survive, so runs of spaces, leading spaces and
  trailing spaces come out as they went in; nothing is collapsed
  (`ReplaceMessageIdentity`).
- The chat never checks that a name is free. A second client may join
  under a name already on the list, and the name is pushed again. When
  either client leaves, `retain` removes every copy, so the other client's
  name goes too (`DuplicateNameExample`).
- The `pop` that is meant to remove the newline removes the last character
  whatever it is. On a last line sent without a newline, a real character is
  lost. The proxy forwards `ab` at the end of a stream as `a` and a newline
  (`UnterminatedLastLine`, `UnterminatedExample`). A chat client that sends
  `alice` without a newline and then closes its stream joins, is announced
  and leaves as `alic` (`UnterminatedNameExample`).

Other behaviours kept as written:

- In means to an end, `read_exact` fails whenever fewer than 9 bytes are
  left, including a clean end of stream exactly at a message boundary. Such
  an end closes the session with an error and skips the final flush and
  shutdown. `Session` records it as the `ReadError` ending. Only an unknown
  opcode reaches the flush and shutdown.
- In prime time, the `error` reply has no newline and the connection stays
  open. The next reply follows it on the same line (`ErrorReplyHasNoNewline`).

## Model

| member | source | states |
|---|---|---|
| Text.AllAsciiAlphanumeric | src/budget_chat.rs:127 | true exactly when every character is an ASCII letter or digit |
| Text.DropLast | src/budget_chat.rs:70 | `pop`: the last character is removed and the rest kept; an empty text stays empty |
| Text.Contains | src/budget_chat.rs:97 | true exactly when the pattern starts at some position of the text, so the empty pattern is found in every text |
| Text.IndexOf | src/unusual_db.rs:51 | `position(...).unwrap()` on a text holding the character: an index holding it with no occurrence before it |
| Text.IndexOfFirst | src/unusual_db.rs:51 | an occurrence with none before it is the position found |
| Text.Join | src/mob_in_the_middle.rs:104 | `join`: the parts with the separator between each two; `SplitJoin` and `Split`'s contract state that it undoes and is undone by `split` |
| Text.Split | src/mob_in_the_middle.rs:88-89 | `split(' ')`: at least one part, no part holds the separator, and joining the parts with the separator gives back the text |
| Text.SplitNoSeparator | src/mob_in_the_middle.rs:88-89 | a text without the separator splits into itself alone |
| Text.SplitAfterPart | src/mob_in_the_middle.rs:88-89 | a separator-free part, the separator and a rest split into the part followed by the parts of the rest |
| Text.SplitJoin | src/mob_in_the_middle.rs:88-104 | splitting separator-free parts joined by the separator gives back exactly those parts |
| Text.LineLength | src/mob_in_the_middle.rs:50 | `read_line`/`read_until` take up to and including the first newline, or everything left when there is none |
| Text.Unlines | src/prime_time.rs:22 | a stream made of lines, each followed by the newline `read_until` stops at; `UnlinesFirstLine` states that the first read takes the first line |
| Text.Responses | src/prime_time.rs:20-37 | what a loop that reads a line, answers it and reads again writes: the answers to the successive lines in order, the last possibly unterminated; `ResponsesLines` and `ResponsesLastLine` state it |
| Text.UnlinesFirstLine | src/prime_time.rs:22 | on newline-terminated lines the first read is the first line and its newline, and the rest is the other lines |
| Text.ResponsesLines | src/prime_time.rs:20-37 | a loop answering each line read answers a newline-terminated stream line by line, in order |
| Text.ResponsesLastLine | src/prime_time.rs:22 | a last line without a newline is read and answered whole |
| MobInTheMiddle.IsAddress | src/mob_in_the_middle.rs:91-94 | a Boguscoin address: starts with `7`, 26 to 35 characters, all letters or digits; `NearMissesAreKept` and `ExampleAddress` check the bounds |
| MobInTheMiddle.RewriteToken | src/mob_in_the_middle.rs:90-100 | an address-shaped token becomes the replacement, any other token stays; `ReplaceMessageTokens` states it per token |
| MobInTheMiddle.ReplaceMessage | src/mob_in_the_middle.rs:87-105 | `replace_message`: split on spaces, rewrite each token, join with spaces; `ReplaceMessageTokens`, `ReplaceMessageIdentity` and `ReplaceMessageIdempotent` state what it does |
| MobInTheMiddle.RewrittenTokens | src/mob_in_the_middle.rs:88-102 | one rewritten token per part of the split |
| MobInTheMiddle.ReplaceMessageTokens | src/mob_in_the_middle.rs:87-105 | the rewritten line has as many space-separated tokens as the input, and token i is the replacement exactly when input token i is address-shaped, else unchanged |
| MobInTheMiddle.ReplaceMessageIdentity | src/mob_in_the_middle.rs:87-105 | a line with no address-shaped token comes back unchanged, runs of spaces included |
| MobInTheMiddle.ReplaceMessageIdempotent | src/mob_in_the_middle.rs:87-105 | rewriting twice equals rewriting once when the replacement has no space |
| MobInTheMiddle.NearMissesAreKept | src/mob_in_the_middle.rs:91-94 | tokens starting with `7` that are too short (25), too long (36) or hold a non-alphanumeric character are kept |
| MobInTheMiddle.ExampleAddress | src/mob_in_the_middle.rs:197 | the address in the test line is address-shaped |
| MobInTheMiddle.PaymentRequestRewritten | src/mob_in_the_middle.rs:196-206 | the test's payment request ending in any address-shaped token has only that token replaced |
| MobInTheMiddle.RelayExample | src/mob_in_the_middle.rs:196-206 | the test line is rewritten to the expected line with the fixed address |
| MobInTheMiddle.Forward | src/mob_in_the_middle.rs:53-57 | one line read: its last character popped, the rest rewritten and written with a newline |
| MobInTheMiddle.Relay | src/mob_in_the_middle.rs:48-60 | everything one forwarding direction writes for the stream it reads; `RelayLines`, `RelayIdentity` and `UnterminatedLastLine` state it |
| MobInTheMiddle.ForwardLine | src/mob_in_the_middle.rs:49-58 | one loop turn: what it writes, followed by the relay of the rest, is the relay of the whole stream, and the stream shrinks |
| MobInTheMiddle.ForwardLines | src/mob_in_the_middle.rs:48-60 | the forwarding loop writes exactly `Relay` of everything it reads |
| MobInTheMiddle.ForwardEachLine | src/mob_in_the_middle.rs:53-57 | popping the newline, rewriting and appending a newline, line by line, writes the rewritten lines each with a newline |
| MobInTheMiddle.RelayLines | src/mob_in_the_middle.rs:48-60 | a stream of newline-terminated lines is relayed as the rewritten lines, each newline-terminated |
| MobInTheMiddle.RelayIdentity | src/mob_in_the_middle.rs:48-60 | lines without address-shaped tokens pass through the relay byte for byte |
| MobInTheMiddle.UnterminatedLastLine | src/mob_in_the_middle.rs:50-57 | a last line without a newline loses its last character to `pop`, and the rest is rewritten and written with a newline |
| MobInTheMiddle.UnterminatedExample | src/mob_in_the_middle.rs:50-57 | `ab` at the end of a stream is forwarded as `a` and a newline |
| BudgetChat.NameIsValid | src/budget_chat.rs:122-128 | `name_is_valid`: not empty, at most 32 characters, each an ASCII letter or digit; `NameIsValidMeans` states it as one condition |
| BudgetChat.EnteredLine | src/budget_chat.rs:81 | the line published when a client joins: `* name has entered the room` |
| BudgetChat.LeftLine | src/budget_chat.rs:113 | the line published when a joined client leaves: `* name has left the room` |
| BudgetChat.ChatLine | src/budget_chat.rs:89 | the line published for a joined client's line: `[name] ` then the line as read |
| BudgetChat.NameIsValidMeans | src/budget_chat.rs:122-128 | a name is valid exactly when it has 1 to 32 characters, all ASCII letters or digits |
| BudgetChat.RejectedNameExamples | src/budget_chat.rs:243-251 | the empty name, a space, `John Doe 123` and a 33-digit name are rejected |
| BudgetChat.AcceptedNameExamples | src/budget_chat.rs:243-251 | `John`, a 16-digit name and `LargeNewbie639` are accepted |
| BudgetChat.Deliver | src/budget_chat.rs:95-105 | a bus line is dropped exactly when it contains the client's name; otherwise it is written newline-terminated, unchanged when it already ends in a newline |
| BudgetChat.Without | src/budget_chat.rs:116 | `retain`: the name is gone and every other name keeps its number of copies |
| BudgetChat.WithoutAppend | src/budget_chat.rs:116 | removing from a concatenation removes from each side |
| BudgetChat.WithoutAbsent | src/budget_chat.rs:116 | removing a name nobody holds leaves the list as it was |
| BudgetChat.Step | src/budget_chat.rs:62-107 | one loop turn: reads a name (invalid: error line and break; valid: join, roster, push) or a chat line, delivers a bus line through `Deliver`, or stops on end of stream or a read error; `StepKeepsConsistent` and `Turn` are tied to it |
| BudgetChat.Leave | src/budget_chat.rs:110-117 | the code after the loop: for a non-empty name, publish the leave line and `retain` the name out of the list; `EndOfStreamLeaves` and `NeverJoinedChangesNothing` state both cases |
| BudgetChat.Run | src/budget_chat.rs:61-107 | the loop: steps until the first break or error; `RunAppend`, `RunStops` and `RunKeepsConsistent` state how it composes, and `Loop` is tied to it |
| BudgetChat.Session | src/budget_chat.rs:61-120 | the session after the welcome line: the loop, then the leave code only when the loop broke; `Handler` is tied to it |
| BudgetChat.RunAppend | src/budget_chat.rs:61-108 | the loop over two stretches of events is the loop over the first, then, if it went on, the loop over the second from the state it reached |
| BudgetChat.RunExtend | src/budget_chat.rs:61-108 | one more event after a prefix on which the loop went on gives that event's step after the prefix's effects |
| BudgetChat.RunSnoc | src/budget_chat.rs:61-108 | the loop over events and one more is the loop over the events followed by that event's step |
| BudgetChat.RunStops | src/budget_chat.rs:61-108 | once the loop has stopped, later events change nothing |
| BudgetChat.Room.constructor | src/budget_chat.rs:22 | the room starts with no participants and nothing published |
| BudgetChat.Turn | src/budget_chat.rs:62-107 | one pass of the loop body updates the room's list and published lines, the client, the output and the flow exactly as `Step` says |
| BudgetChat.Loop | src/budget_chat.rs:61-108 | the session loop leaves the room, client, output and flow exactly as `Run` says |
| BudgetChat.Handler | src/budget_chat.rs:48-120 | the welcome line, then the loop, then the leave code on `break`: the output, the room's list, its published lines and the flow are `Session`'s |
| BudgetChat.StepKeepsConsistent | src/budget_chat.rs:79-80 | every step keeps a client joined exactly when its name is non-empty |
| BudgetChat.RunKeepsConsistent | src/budget_chat.rs:61-117 | the loop and the leave code keep a client joined exactly when its name is non-empty |
| BudgetChat.IdentifyingHearsNothing | src/budget_chat.rs:97-98 | a client still identifying itself is handed no bus line |
| BudgetChat.OwnLinesNotDelivered | src/budget_chat.rs:97-98 | a client is never handed its own announcement or chat line |
| BudgetChat.MentionSuppressesDelivery | src/budget_chat.rs:97-98 | any chat line whose text mentions the client's name is withheld from it, whoever sent it |
| BudgetChat.MentionExample | src/budget_chat.rs:97-98 | `al` is not handed `[bob] hi alice` |
| BudgetChat.InvalidNameEndsSession | src/budget_chat.rs:70-76 | an invalid first line writes only the error line and ends the session with the client, list and bus unchanged and no leave message |
| BudgetChat.ReadErrorSkipsLeave | src/budget_chat.rs:64 | a read error ends the session at once, with no output, no leave message and the list unchanged |
| BudgetChat.EndOfStreamLeaves | src/budget_chat.rs:110-117 | the end of a joined client's stream publishes its leave line and removes its name from the list |
| BudgetChat.JoinedKeepsClient | src/budget_chat.rs:89 | once joined, a client's name and status stay as they are for the rest of the loop |
| BudgetChat.NeverJoinedChangesNothing | src/budget_chat.rs:110-117 | a session that ends without its client ever joining publishes nothing, leaves the list as it was, and the leave code does nothing |
| BudgetChat.ChatterKeepsState | src/budget_chat.rs:89-105 | a joined client that only chats and listens keeps its state and the room's list, the loop goes on, and everything it publishes is a chat line under its own name |
| BudgetChat.JoinThenLeaveRestoresList | src/budget_chat.rs:78-117 | joining under a fresh name, chatting and closing the stream leaves the room's list as it was |
| BudgetChat.RosterExamples | src/budget_chat.rs:83-84 | the roster line of an empty room and of a room holding `alice` |
| BudgetChat.JoinSpeakLeave | src/budget_chat.rs:78-117 | joining, one chat line and the end of stream give the roster output, the list and the entered, chat and left lines in order |
| BudgetChat.FedericoSession | src/budget_chat.rs:136-240 | the test's second client sees the roster with `alice`, publishes its entered, chat and left lines, and the list ends as it began |
| BudgetChat.Terminated | src/budget_chat.rs:101 | the written bus line ends in a newline and starts with the bus line; it equals the bus line exactly when that already ended in a newline, and is the bus line plus exactly one newline otherwise |
| BudgetChat.JoinedHearsAll | src/budget_chat.rs:95-105 | a joined client is handed, in order, every bus line that does not mention its name, and nothing else changes |
| BudgetChat.JoinThenListen | src/budget_chat.rs:69-105 | a client joining and then only listening writes the roster followed by every bus line not mentioning it |
| BudgetChat.AliceSession | src/budget_chat.rs:136-240 | the test's first client, hearing federico's three lines, writes the empty roster and then those lines in order |
| BudgetChat.AliceReads | src/budget_chat.rs:221-239 | the lines `alice` reads are federico's entered, chat and left lines, each newline-terminated |
| BudgetChat.UnterminatedNameExample | src/budget_chat.rs:63-117 | `alice` sent without a newline before the end of the stream loses its last character: the client joins, is announced and leaves as `alic`, and the list ends empty |
| BudgetChat.DuplicateNameExample | src/budget_chat.rs:78-116 | a name already on the list is accepted and pushed again; when its client leaves, `retain` removes every copy, the other client's included |
| MeansToAnEnd.FromBeBytes | src/means_to_an_end.rs:16 | `i32::from_be_bytes`: four bytes, most significant first, as two's complement; the round trips and `ByteOrderExamples` state it |
| MeansToAnEnd.ToBeBytes | src/means_to_an_end.rs:31 | a 32-bit integer is written as exactly 4 bytes |
| MeansToAnEnd.ByteOrderExamples | src/means_to_an_end.rs:31 | the wire order is most significant byte first, with negative numbers in two's complement: 101, 0x01020304, -1 and the least 32-bit integer have the expected bytes, and so does 12345 when read back |
| MeansToAnEnd.FromToBeBytes | src/means_to_an_end.rs:16 | decoding the big-endian bytes of an integer gives it back |
| MeansToAnEnd.ToFromBeBytes | src/means_to_an_end.rs:16 | encoding the integer read from 4 bytes gives those bytes back |
| MeansToAnEnd.Decode | src/means_to_an_end.rs:10-27 | a 9-byte message is an insert exactly when its opcode is `I`, a query exactly when it is `Q`, and otherwise unknown with that opcode |
| MeansToAnEnd.Encode | src/means_to_an_end.rs:10-27 | every message is 9 bytes |
| MeansToAnEnd.DecodeEncode | src/means_to_an_end.rs:10-27 | decoding an encoded message gives it back |
| MeansToAnEnd.EncodeDecode | src/means_to_an_end.rs:10-27 | re-encoding a decoded insert or query gives the same 9 bytes |
| MeansToAnEnd.Sum | src/means_to_an_end.rs:40-45 | the sum of the prices at the given timestamps; `SumRemove` shows the visiting order does not matter and `SumBounds` bounds it |
| MeansToAnEnd.Mean | src/means_to_an_end.rs:29-47 | the answer to a query: 0 for an inverted range or no prices, else the sum truncated-divided by the count; `MeanWithin`, `MeanOfNothing` and `MeanOfOne` state it |
| MeansToAnEnd.Selected | src/means_to_an_end.rs:35-38 | the timestamps in range are stored timestamps |
| MeansToAnEnd.SumRemove | src/means_to_an_end.rs:40-45 | the sum of prices is one price plus the sum of the others, in any order |
| MeansToAnEnd.SumBounds | src/means_to_an_end.rs:40-45 | the sum lies between count times the lowest and count times the highest price |
| MeansToAnEnd.RangeCardinality | src/means_to_an_end.rs:40-45 | a set of integers within an interval has no more members than the interval's width |
| MeansToAnEnd.TimestampCount | src/means_to_an_end.rs:40-45 | there are at most 2^32 timestamps, so the 64-bit sum and count cannot overflow |
| MeansToAnEnd.DivTrunc | src/means_to_an_end.rs:47 | 64-bit `/`: the quotient truncated toward zero, with the remainder on the dividend's side |
| MeansToAnEnd.DivTruncWithin | src/means_to_an_end.rs:47-48 | a sum between n times low and n times high divided by n lies between low and high |
| MeansToAnEnd.MeanWithin | src/means_to_an_end.rs:47-48 | the mean lies between the lowest and highest price in range, so the 32-bit conversion never fails |
| MeansToAnEnd.MeanOfNothing | src/means_to_an_end.rs:29-47 | an inverted range or one with no prices has mean 0 |
| MeansToAnEnd.MeanOfOne | src/means_to_an_end.rs:35-48 | a range holding one price has that price as its mean |
| MeansToAnEnd.AddToSum | src/means_to_an_end.rs:42-45 | adding one more price to the running sum gives the sum over one more timestamp, still within 64 bits |
| MeansToAnEnd.MeanFromSum | src/means_to_an_end.rs:47 | the sum divided by the count, or 0 with no prices, is the mean |
| MeansToAnEnd.SumPrices | src/means_to_an_end.rs:40-45 | the loop over the range yields the 64-bit sum of the prices and their count |
| MeansToAnEnd.RangeMean | src/means_to_an_end.rs:29-48 | the written answer is the mean of the range |
| MeansToAnEnd.Session | src/means_to_an_end.rs:3-57 | the session: 9-byte messages read in turn, inserts and queries answered, ended by an unknown opcode or by fewer than 9 bytes left; `InsertStep`, `QueryStep` and `UnknownStops` state each turn |
| MeansToAnEnd.Handler | src/means_to_an_end.rs:3-57 | the session writes `Session`'s output and ends as it says |
| MeansToAnEnd.InsertStep | src/means_to_an_end.rs:14-22 | an insert writes nothing and sets the price at the timestamp, overwriting any earlier one |
| MeansToAnEnd.QueryStep | src/means_to_an_end.rs:23-49 | a query writes the 4 bytes of the mean and leaves the prices unchanged |
| MeansToAnEnd.UnknownStops | src/means_to_an_end.rs:50 | an unknown opcode ends the session with nothing more written |
| MeansToAnEnd.ExampleSession | src/means_to_an_end.rs:110-152 | inserting 101 at 12345 and querying 12288 to 16384 answers 101 |
| MeansToAnEnd.InvertedRangeSession | src/means_to_an_end.rs:65-107 | a query whose start is after its end answers 0 |
| PrimeTime.IsPrime | src/prime_time.rs:58-70 | trial division answers true exactly for primes: numbers of at least 2 divisible only by 1 and themselves |
| PrimeTime.Validate | src/prime_time.rs:45-56 | an error exactly for an unparsable line or another method, always the text `error`; true exactly for a prime u64; a negative or non-integer number gives false |
| PrimeTime.SuccessReplyIsOneLine | src/prime_time.rs:26-32 | a success reply ends in its only newline, and the two answers differ |
| PrimeTime.ErrorReplyHasNoNewline | src/prime_time.rs:34 | the error reply is exactly `error`, with no newline |
| PrimeTime.ReplyExamples | src/prime_time.rs:26-32 | the replies are exactly the JSON lines the tests expect |
| PrimeTime.Decision | src/prime_time.rs:45-56 | `validate`: an unparsable line or another method is the error `error`, a 64-bit unsigned number is answered by primality, any other number `false`; `Validate` states it as iffs |
| PrimeTime.ResponseBody | src/prime_time.rs:26-30 | the serialised response object `{"method":"isPrime","prime":…}`; `ReplyExamples` gives its bytes |
| PrimeTime.Reply | src/prime_time.rs:25-34 | the bytes written for a decision: the response object and a newline, or the bare error text; `SuccessReplyIsOneLine` and `ErrorReplyHasNoNewline` state both |
| PrimeTime.Serve | src/prime_time.rs:20-37 | everything the handler writes: one reply per line read, in order; `HandlerExamples` and `Handler` are tied to it |
| PrimeTime.WriteReply | src/prime_time.rs:25-34 | the handler writes the serialised response and a newline, or the error text |
| PrimeTime.ServeLine | src/prime_time.rs:21-35 | one loop turn: what it writes, followed by the replies to the rest, is the replies to the whole stream |
| PrimeTime.Handler | src/prime_time.rs:15-43 | the handler writes one reply per line read, in order, until the stream ends |
| PrimeTime.ElevenIsPrime | src/prime_time.rs:79-82 | 11 is prime |
| PrimeTime.TenIsNotPrime | src/prime_time.rs:79-82 | 10 is not prime |
| PrimeTime.OneTwentyThreeIsNotPrime | src/prime_time.rs:113-128 | 123 is not prime |
| PrimeTime.HandlerExamples | src/prime_time.rs:84-228 | a request for 123 with a newline gets the false line, one for 11 without a newline the true line, one for method `aaaa` the text `error` |
| UnusualDb.Parse | src/unusual_db.rs:50-51 | a datagram with `=` is an insert whose key has no `=` and that reads back as key, `=`, value; any other datagram is a retrieve of itself |
| UnusualDb.Format | src/unusual_db.rs:50-51 | the datagram for a request: key, `=`, value for an insert, the key alone for a retrieve; `ParseFormat` and `FormatParse` make it the inverse of `Parse` |
| UnusualDb.ParseFormat | src/unusual_db.rs:50-51 | a request whose key has no `=` is read back from its datagram unchanged |
| UnusualDb.FormatParse | src/unusual_db.rs:50-51 | every datagram is the datagram of what it is read as |
| UnusualDb.Execute | src/unusual_db.rs:44-77 | a reply is sent exactly for datagrams without `=`; a retrieve leaves the store unchanged; whether `version` is stored never changes |
| UnusualDb.OnlyOwnKeyChanges | src/unusual_db.rs:50-59 | a datagram changes nothing under any key but its own |
| UnusualDb.InsertStores | src/unusual_db.rs:55-57 | an insert under any key but `version` stores the value after the first `=` under that key |
| UnusualDb.InsertKey | src/unusual_db.rs:55-58 | key, `=` and value for a key without `=` other than `version` stores that value and sends no reply |
| UnusualDb.InsertOverwrites | src/unusual_db.rs:57 | a second insert under a key replaces the first one's value |
| UnusualDb.VersionIsReadOnly | src/unusual_db.rs:52-53 | an insert under `version` changes nothing and sends no reply |
| UnusualDb.VersionReplyAlways | src/unusual_db.rs:63-64 | retrieving `version` answers `version=1.0.0` whatever is stored |
| UnusualDb.RetrieveReply | src/unusual_db.rs:65-70 | retrieving another key answers key, `=` and the stored value, or nothing after `=` when absent |
| UnusualDb.InsertThenRetrieve | src/unusual_db.rs:50-70 | a retrieve after an insert reads back what was inserted |
| UnusualDb.Store.constructor | src/unusual_db.rs:5 | the store starts empty |
| UnusualDb.Store.DoIt | src/unusual_db.rs:44-77 | `do_it` never fails, and updates the map and replies exactly as `Execute` says |
| UnusualDb.InsertExample | src/unusual_db.rs:115-120 | `foo=bar` stores `bar` under `foo` |
| UnusualDb.InsertSplitsAtFirst | src/unusual_db.rs:121-126 | `foo=bar=f` stores `bar=f` under `foo` |
| UnusualDb.InsertEqualsExamples | src/unusual_db.rs:127-138 | `foo===` stores `==` and `foo=` stores the empty value |
| UnusualDb.InsertKeyExamples | src/unusual_db.rs:139-150 | `=bar` stores `bar` under the empty key, and `version=111` stores nothing |
| UnusualDb.RetrieveStoredExample | src/unusual_db.rs:85-95 | `foo` after `foo=bar` answers `foo=bar` |
| UnusualDb.RetrieveVersionExample | src/unusual_db.rs:97-100 | `version` answers `version=1.0.0` |
| UnusualDb.RetrieveAbsentExample | src/unusual_db.rs:102-110 | an absent `aaa` answers `aaa=` |
| UnusualDb.UpdateExample | src/unusual_db.rs:153-163 | `foo=bar2` after `foo=bar` leaves `bar2` under `foo` |

## Left out

- Sockets, listeners, `tokio::spawn`, `tokio::select!` and the Ctrl-C handler are left out. A session's input is a sequence of events, characters or bytes, and its output is the sequence it writes. The interleaving of a chat session's peer reads and bus messages is a given event order.
- The broadcast channel's capacity of 100 is left out, and so are its lag errors, which the chat handler ignores. The bus is the sequence of published lines, and each session is handed the lines given to it as events.
- The `Arc<Mutex<...>>` around the chat's participant list is left out. Sessions run one at a time over the `Room` object.
- serde JSON parsing and serialisation are left out. A request line's deserialisation is a function parameter, and the success reply is the text serde writes for the response object.
- `String::from_utf8` and `from_utf8_lossy` are left out. Bytes and characters are one to one, as for ASCII input.
- The relay tests `char::is_alphanumeric` and byte length. The model uses ASCII letters and digits, where character count and byte length agree.
- Write failures, `flush` and `shutdown` are left out. A failed write ends a session in the code. The model assumes every write succeeds.
- A read error ends the relay's loop as the end of the stream does. In prime time it ends the handler early with an error. In both, a partly read line is thrown away: the model's input is the lines read in full before the error.
- The unusual database receives into a 1024-byte buffer, so longer datagrams are truncated. The model takes the datagram as received.
- Logging (`tracing`, `println!`) is left out.
- The program entry point and exercise selection are not part of this model. The same goes for the raw echo service and the unrelated `graphite-demo` HTTP server.
- MeansToAnEnd.SumPrices: the source visits the range in ascending timestamp order. The model visits the selected timestamps in any order, which gives the same sum.
- The relay's connection to the upstream server is left out, and so is the concurrency of its two directions. Each direction is one `ForwardLines` run.
