/** The relay between a chat client and the upstream chat server: every line
    crossing it, in either direction, has each Boguscoin-address-shaped token
    replaced by a fixed address. */
module MobInTheMiddle {
  import opened Text

  /** A token that starts with `7`, is 26 to 35 characters long and consists of
      letters and digits only. */
  predicate IsAddress(token: string)
  {
    && 26 <= |token| <= 35
    && token[0] == '7'
    && AllAsciiAlphanumeric(token)
  }

  /** The `map` step: an address-shaped token becomes the replacement, any other
      token is kept. */
  function RewriteToken(token: string, boguscoin: string): string
  {
    if IsAddress(token) then boguscoin else token
  }

  /** The tokens of `msg` between single spaces, each passed through
      `RewriteToken`, in order. */
  function RewrittenTokens(msg: string, boguscoin: string): (r: seq<string>)
    ensures |r| == |Split(msg, ' ')|
  {
    var parts := Split(msg, ' ');
    seq(|parts|, i requires 0 <= i < |parts| => RewriteToken(parts[i], boguscoin))
  }

  /** `replace_message`: split on single spaces, rewrite every token, join
      again with single spaces. */
  function ReplaceMessage(msg: string, boguscoin: string): string
  {
    Join(RewrittenTokens(msg, boguscoin), " ")
  }

  /** When the replacement holds no space, the output splits into exactly as many
      tokens as the input, and token i of the output is the replacement if token
      i of the input is address-shaped and token i of the input otherwise. */
  lemma ReplaceMessageTokens(msg: string, boguscoin: string)
    requires ' ' !in boguscoin
    ensures var input := Split(msg, ' ');
            var output := Split(ReplaceMessage(msg, boguscoin), ' ');
            && |output| == |input|
            && forall i :: 0 <= i < |input| ==>
                 output[i] == (if IsAddress(input[i]) then boguscoin else input[i])
  {
    var parts := RewrittenTokens(msg, boguscoin);
    SplitJoin(parts, ' ');
  }

  /** A line without an address-shaped token is forwarded unchanged, runs of
      spaces and empty tokens included. */
  lemma ReplaceMessageIdentity(msg: string, boguscoin: string)
    requires forall i :: 0 <= i < |Split(msg, ' ')| ==> !IsAddress(Split(msg, ' ')[i])
    ensures ReplaceMessage(msg, boguscoin) == msg
  {
    assert RewrittenTokens(msg, boguscoin) == Split(msg, ' ');
  }

  /** Rewriting a rewritten line changes nothing more, as long as the
      replacement holds no space. */
  lemma ReplaceMessageIdempotent(msg: string, boguscoin: string)
    requires ' ' !in boguscoin
    ensures ReplaceMessage(ReplaceMessage(msg, boguscoin), boguscoin) == ReplaceMessage(msg, boguscoin)
  {
    var once := ReplaceMessage(msg, boguscoin);
    var parts := RewrittenTokens(msg, boguscoin);
    SplitJoin(parts, ' ');
    assert Split(once, ' ') == parts;
    assert RewrittenTokens(once, boguscoin) == parts;
  }

  /** Tokens that start with `7` but miss the shape are left alone: too short,
      too long, or holding a character that is not a letter or digit. */
  lemma NearMissesAreKept(boguscoin: string)
    ensures RewriteToken("7xyz", boguscoin) == "7xyz"
    ensures RewriteToken("7" + "abcdefghijklmnopqrstuvwx", boguscoin) == "7" + "abcdefghijklmnopqrstuvwx"
    ensures RewriteToken("7" + "abcdefghijklmnopqrstuvwxyz012345678", boguscoin)
         == "7" + "abcdefghijklmnopqrstuvwxyz012345678"
    ensures RewriteToken("7abcdefghijklmnopqrstuvwxy_", boguscoin) == "7abcdefghijklmnopqrstuvwxy_"
  {
    var tooShort := "7" + "abcdefghijklmnopqrstuvwx";
    assert |tooShort| == 25;
    var tooLong := "7" + "abcdefghijklmnopqrstuvwxyz012345678";
    assert |tooLong| == 36;
    var badChar := "7abcdefghijklmnopqrstuvwxy_";
    assert !IsAsciiAlphanumeric(badChar[26]);
  }

  /** The last words of the relay's own test line, joined by single spaces. */
  lemma ExampleJoinTail(last: string)
    ensures Join(["pay", "100$", "to", last], " ") == "pay 100$ to " + last
  {
    JoinCons("to", [last], " ");
    JoinCons("100$", ["to", last], " ");
    JoinCons("pay", ["100$", "to", last], " ");
  }

  /** The words of the relay's own test line, joined by single spaces. */
  lemma ExampleJoin(last: string)
    ensures Join(["Hi", "alice,", "please", "pay", "100$", "to", last], " ")
         == "Hi alice, please pay 100$ to " + last
  {
    ExampleJoinTail(last);
    JoinCons("please", ["pay", "100$", "to", last], " ");
    JoinCons("alice,", ["please", "pay", "100$", "to", last], " ");
    JoinCons("Hi", ["alice,", "please", "pay", "100$", "to", last], " ");
  }

  /** The payment request of the relay's own test, with any address-shaped
      token at its end: the token is swapped for the replacement and the rest of
      the line is kept. */
  lemma PaymentRequestRewritten(address: string, boguscoin: string)
    requires IsAddress(address)
    ensures ReplaceMessage("Hi alice, please pay 100$ to " + address, boguscoin)
         == "Hi alice, please pay 100$ to " + boguscoin
  {
    var words := ["Hi", "alice,", "please", "pay", "100$", "to"];
    ExampleJoin(address);
    ExampleJoin(boguscoin);
    assert words + [address] == ["Hi", "alice,", "please", "pay", "100$", "to", address];
    assert words + [boguscoin] == ["Hi", "alice,", "please", "pay", "100$", "to", boguscoin];
    var parts := words + [address];
    assert forall i :: 0 <= i < |parts| ==> ' ' !in parts[i];
    SplitJoin(parts, ' ');
    assert RewrittenTokens("Hi alice, please pay 100$ to " + address, boguscoin) == words + [boguscoin];
  }

  /** The address of the relay's own test is address-shaped. */
  lemma ExampleAddress()
    ensures IsAddress("7iKDZEwPZSqIvDnHvVN2r0hUWXD5rHX")
  {
    var address := "7iKDZEwPZSqIvDnHvVN2r0hUWXD5rHX";
    assert forall i :: 0 <= i < |address| ==> IsAsciiAlphanumeric(address[i]);
  }

  /** The relay's own test vector. */
  lemma RelayExample()
    ensures ReplaceMessage("Hi alice, please pay 100$ to " + "7iKDZEwPZSqIvDnHvVN2r0hUWXD5rHX",
                           "7YWHMfk9JZe0LM0g1ZauHuiSxhI")
         == "Hi alice, please pay 100$ to " + "7YWHMfk9JZe0LM0g1ZauHuiSxhI"
  {
    ExampleAddress();
    PaymentRequestRewritten("7iKDZEwPZSqIvDnHvVN2r0hUWXD5rHX", "7YWHMfk9JZe0LM0g1ZauHuiSxhI");
  }

  /** Each line passed through `ReplaceMessage`. */
  function RewrittenLines(lines: seq<string>, boguscoin: string): (r: seq<string>)
    ensures |r| == |lines|
  {
    seq(|lines|, i requires 0 <= i < |lines| => ReplaceMessage(lines[i], boguscoin))
  }

  /** The forwarding loops' per-line transform: pop the last character (the
      newline `read_line` kept), rewrite the rest, and append a newline. */
  function Forward(line: string, boguscoin: string): string
  {
    ReplaceMessage(DropLast(line), boguscoin) + "\n"
  }

  /** `Forward` with the replacement fixed. */
  function Forwarder(boguscoin: string): string -> string
  {
    line => Forward(line, boguscoin)
  }

  /** What one forwarding direction writes for the whole stream it reads. */
  function Relay(input: string, boguscoin: string): string
  {
    Responses(input, Forwarder(boguscoin))
  }

  /** One turn of a forwarding loop on a stream that has not ended: read a
      line, pop its last character, rewrite it, write it and a newline. What
      is written, followed by the relay of what is left, is the relay of the
      whole stream. */
  method ForwardLine(rest: string, boguscoin: string) returns (written: string, next: string)
    requires |rest| > 0
    ensures |next| < |rest|
    ensures written + Relay(next, boguscoin) == Relay(rest, boguscoin)
  {
    var n := LineLength(rest);
    var line := rest[..n];
    next := rest[n..];
    line := DropLast(line);
    var resp := ReplaceMessage(line, boguscoin);
    written := resp;
    written := written + "\n";
    assert written == Forwarder(boguscoin)(rest[..n]);
  }

  /** One forwarding loop (client to server or server to client; both run the
      same body), until `read_line` reads nothing. */
  method ForwardLines(input: string, boguscoin: string) returns (output: string)
    ensures output == Relay(input, boguscoin)
  {
    output := "";
    var rest := input;
    while true
      invariant output + Relay(rest, boguscoin) == Relay(input, boguscoin)
      decreases |rest|
    {
      if |rest| == 0 {
        break;
      }
      var written;
      written, rest := ForwardLine(rest, boguscoin);
      output := output + written;
    }
  }

  /** Forwarding newline-terminated lines one by one writes the rewritten
      lines, each followed by a newline. */
  lemma {:induction false} ForwardEachLine(lines: seq<string>, boguscoin: string)
    ensures ResponsesToLines(lines, Forwarder(boguscoin)) == Unlines(RewrittenLines(lines, boguscoin))
    decreases |lines|
  {
    if |lines| > 0 {
      var out := RewrittenLines(lines, boguscoin);
      assert DropLast(lines[0] + "\n") == lines[0];
      assert Forwarder(boguscoin)(lines[0] + "\n") == out[0] + "\n";
      ForwardEachLine(lines[1..], boguscoin);
      assert out[1..] == RewrittenLines(lines[1..], boguscoin);
    }
  }

  /** A stream of newline-terminated lines is relayed line by line: the output
      is the rewritten lines, each followed by a newline. */
  lemma RelayLines(lines: seq<string>, boguscoin: string)
    requires forall i :: 0 <= i < |lines| ==> '\n' !in lines[i]
    ensures Relay(Unlines(lines), boguscoin) == Unlines(RewrittenLines(lines, boguscoin))
  {
    ResponsesLines(lines, Forwarder(boguscoin));
    ForwardEachLine(lines, boguscoin);
  }

  /** Newline-terminated lines without an address-shaped token pass through the
      relay byte for byte. */
  lemma RelayIdentity(lines: seq<string>, boguscoin: string)
    requires forall i :: 0 <= i < |lines| ==> '\n' !in lines[i]
    requires forall i, j :: 0 <= i < |lines| && 0 <= j < |Split(lines[i], ' ')| ==> !IsAddress(Split(lines[i], ' ')[j])
    ensures Relay(Unlines(lines), boguscoin) == Unlines(lines)
  {
    RelayLines(lines, boguscoin);
    forall i | 0 <= i < |lines|
      ensures ReplaceMessage(lines[i], boguscoin) == lines[i]
    {
      ReplaceMessageIdentity(lines[i], boguscoin);
    }
    assert RewrittenLines(lines, boguscoin) == lines;
  }

  /** A last line the client never terminated still has its last character
      popped: that character is lost, and a newline is written in its place. */
  lemma UnterminatedLastLine(line: string, boguscoin: string)
    requires |line| > 0 && '\n' !in line
    ensures Relay(line, boguscoin) == ReplaceMessage(line[..|line| - 1], boguscoin) + "\n"
  {
    ResponsesLastLine(line, Forwarder(boguscoin));
  }

  /** `ab` at the end of a stream is forwarded as `a` and a newline. */
  lemma UnterminatedExample(boguscoin: string)
    ensures Relay("ab", boguscoin) == "a\n"
  {
    UnterminatedLastLine("ab", boguscoin);
    assert "ab"[..1] == "a";
    SplitNoSeparator("a", ' ');
    ReplaceMessageIdentity("a", boguscoin);
  }
}
