/** The chat room: each connection first names itself, then exchanges lines
    with every other joined connection through a shared broadcast bus; the room
    keeps the list of joined names. One session is modelled as a sequence of
    events (a line from its peer, a line from the bus, the peer's end of stream
    or a read error), in the order the session's loop observes them. */
module BudgetChat {
  import opened Text
  import opened Wrappers

  datatype Status = Identification | Joined

  /** The per-connection state. The name stays empty until the client joins. */
  datatype Client = Client(name: string, status: Status)
  {
    /** A client is joined exactly when it has a name. */
    predicate Consistent()
    {
      (status == Joined) <==> name != ""
    }
  }

  /** The state every connection starts in. */
  const Fresh: Client := Client("", Identification)

  const Welcome: string := "Welcome to budgetchat! What shall I call you?\n"
  const NameError: string := "error: name is empty\n"

  /** `name_is_valid`: 1 to 32 characters, each an ASCII letter or digit. */
  predicate NameIsValid(name: string)
  {
    if |name| == 0 || |name| > 32 then false
    else AllAsciiAlphanumeric(name)
  }

  function EnteredLine(name: string): string
  {
    "* " + name + " has entered the room"
  }

  function LeftLine(name: string): string
  {
    "* " + name + " has left the room"
  }

  function ChatLine(name: string, line: string): string
  {
    "[" + name + "] " + line
  }

  function RoomContains(names: seq<string>): string
  {
    "* The room contains: " + Join(names, ", ") + "\n"
  }

  /** A bus line as a session writes it: with a newline added unless it
      already ends in one. */
  function Terminated(msg: string): (r: string)
    ensures EndsWith(r, '\n') && IsPrefix(msg, r)
    ensures EndsWith(msg, '\n') <==> r == msg
    ensures !EndsWith(msg, '\n') ==> r == msg + "\n"
  {
    if EndsWith(msg, '\n') then msg else msg + "\n"
  }

  /** What a session writes to its peer for a line from the bus: nothing when
      the line contains the session's own name anywhere, otherwise the line with
      a newline added unless it already ends in one. */
  function Deliver(name: string, msg: string): (r: Option<string>)
    ensures r.None? <==> Contains(msg, name)
    ensures r.Some? ==> EndsWith(r.value, '\n') && IsPrefix(msg, r.value) && |r.value| <= |msg| + 1
    ensures r.Some? && EndsWith(msg, '\n') ==> r.value == msg
  {
    if Contains(msg, name) then None else Some(Terminated(msg))
  }

  /** `retain(|n| n != name)`: the list with every copy of `name` removed. */
  function Without(names: seq<string>, name: string): (r: seq<string>)
    ensures name !in r
    ensures forall n :: n != name ==> multiset(r)[n] == multiset(names)[n]
    decreases |names|
  {
    if |names| == 0 then []
    else
      assert names == [names[0]] + names[1..];
      if names[0] == name then Without(names[1..], name)
      else [names[0]] + Without(names[1..], name)
  }

  /** Removing from a concatenation removes from each side: together with the
      one-element cases this fixes the order of what is kept. */
  lemma {:induction false} WithoutAppend(a: seq<string>, b: seq<string>, name: string)
    ensures Without(a + b, name) == Without(a, name) + Without(b, name)
    decreases |a|
  {
    if |a| > 0 {
      assert (a + b)[1..] == a[1..] + b;
      WithoutAppend(a[1..], b, name);
    } else {
      assert a + b == b;
    }
  }

  /** Removing a name nobody holds changes nothing. */
  lemma {:induction false} WithoutAbsent(names: seq<string>, name: string)
    requires name !in names
    ensures Without(names, name) == names
    decreases |names|
  {
    if |names| > 0 {
      WithoutAbsent(names[1..], name);
      assert names == [names[0]] + names[1..];
    }
  }

  /** What the session loop observes next. */
  datatype Event =
    | PeerLine(raw: string)    // `read_until` returned these characters: a line with its newline, or the tail of the stream
    | BusMessage(msg: string)  // the bus handed over a published line
    | PeerClosed               // `read_until` returned 0: end of stream
    | PeerFailed               // `read_until` returned an error

  /** How the loop goes on: next iteration, `break` to the leave code, or
      returning the error at once. */
  datatype Flow = Continue | Break | Fail

  /** The state after some events, with what was written to the peer and
      published on the bus meanwhile. */
  datatype Effects = Effects(client: Client, participants: seq<string>, written: string,
                             published: seq<string>, flow: Flow)

  /** One iteration of the session loop. */
  function Step(client: Client, participants: seq<string>, event: Event): Effects
  {
    match event
    case PeerLine(raw) =>
      (match client.status
       case Identification =>
         var name := DropLast(raw);
         if !NameIsValid(name) then Effects(client, participants, NameError, [], Break)
         else Effects(Client(name, Joined), participants + [name], RoomContains(participants),
                      [EnteredLine(name)], Continue)
       case Joined =>
         Effects(client, participants, "", [ChatLine(client.name, raw)], Continue))
    case BusMessage(msg) =>
      (match Deliver(client.name, msg)
       case None => Effects(client, participants, "", [], Continue)
       case Some(out) => Effects(client, participants, out, [], Continue))
    case PeerClosed => Effects(client, participants, "", [], Break)
    case PeerFailed => Effects(client, participants, "", [], Fail)
  }

  /** The code after the loop: a client that has a name announces that it left
      and takes every copy of its name off the list. */
  function Leave(e: Effects): Effects
  {
    if e.client.name == "" then e
    else e.(participants := Without(e.participants, e.client.name),
            published := e.published + [LeftLine(e.client.name)])
  }

  /** `e` preceded by output written and lines published before it. */
  function After(written: string, published: seq<string>, e: Effects): Effects
  {
    e.(written := written + e.written, published := published + e.published)
  }

  /** The session loop fed `events`: steps while the loop continues and stops
      at the first `break` or error, before the leave code. When the events run
      out first the loop is still running (`Continue`). */
  function Run(client: Client, participants: seq<string>, events: seq<Event>): Effects
    decreases |events|
  {
    if |events| == 0 then Effects(client, participants, "", [], Continue)
    else
      var s := Step(client, participants, events[0]);
      if s.flow == Continue then After(s.written, s.published, Run(s.client, s.participants, events[1..]))
      else s
  }

  /** A whole session after the greeting: the loop, then the leave code when
      the loop broke; an error returns before the leave code. */
  function Session(client: Client, participants: seq<string>, events: seq<Event>): Effects
  {
    var r := Run(client, participants, events);
    if r.flow == Break then Leave(r) else r
  }

  lemma AfterAfter(w: string, pub: seq<string>, w1: string, pub1: seq<string>, e: Effects)
    ensures After(w, pub, After(w1, pub1, e)) == After(w + w1, pub + pub1, e)
  {
  }

  /** The loop fed two stretches of events one after the other: the second
      stretch is looked at only when the loop still runs after the first. */
  lemma {:induction false} RunAppend(client: Client, participants: seq<string>,
                                     first: seq<Event>, second: seq<Event>)
    ensures var a := Run(client, participants, first);
            Run(client, participants, first + second)
            == if a.flow == Continue then After(a.written, a.published, Run(a.client, a.participants, second))
               else a
    decreases |first|
  {
    if |first| == 0 {
      assert first + second == second;
    } else {
      var s := Step(client, participants, first[0]);
      assert (first + second)[0] == first[0];
      assert (first + second)[1..] == first[1..] + second;
      if s.flow == Continue {
        RunAppend(s.client, s.participants, first[1..], second);
        var b := Run(s.client, s.participants, first[1..]);
        if b.flow == Continue {
          AfterAfter(s.written, s.published, b.written, b.published, Run(b.client, b.participants, second));
        }
      }
    }
  }

  /** The loop over a prefix of the events, one event further: the prefix
      grows while the loop continues, and once it stops the rest of the events
      are never looked at. */
  lemma RunExtend(start: Client, p0: seq<string>, events: seq<Event>, i: nat,
                  client: Client, participants: seq<string>, written: string, published: seq<string>)
    requires i < |events|
    requires Run(start, p0, events[..i]) == Effects(client, participants, written, published, Continue)
    ensures var s := Step(client, participants, events[i]);
            var next := Effects(s.client, s.participants, written + s.written, published + s.published, s.flow);
            && (s.flow == Continue ==> Run(start, p0, events[..i + 1]) == next)
            && (s.flow != Continue ==> Run(start, p0, events) == next)
  {
    RunSnoc(start, p0, events[..i], events[i]);
    assert events[..i] + [events[i]] == events[..i + 1];
    var s := Step(client, participants, events[i]);
    if s.flow != Continue {
      RunStops(start, p0, events[..i + 1], events[i + 1..]);
      assert events[..i + 1] + events[i + 1..] == events;
    }
  }

  /** The loop after one more event. */
  lemma RunSnoc(client: Client, participants: seq<string>, events: seq<Event>, event: Event)
    requires Run(client, participants, events).flow == Continue
    ensures var a := Run(client, participants, events);
            var s := Step(a.client, a.participants, event);
            Run(client, participants, events + [event]) == After(a.written, a.published, s)
  {
    RunAppend(client, participants, events, [event]);
    assert [event][1..] == [];
  }

  /** Once the loop has stopped, later events are never looked at. */
  lemma RunStops(client: Client, participants: seq<string>, events: seq<Event>, later: seq<Event>)
    requires Run(client, participants, events).flow != Continue
    ensures Run(client, participants, events + later) == Run(client, participants, events)
  {
    RunAppend(client, participants, events, later);
  }

  /** The room's shared state: the list of joined names and every line
      published on the bus so far, in publishing order. */
  class Room {
    var participants: seq<string>
    var published: seq<string>

    constructor ()
      ensures participants == [] && published == []
    {
      participants := [];
      published := [];
    }
  }

  /** One pass through the body of the session loop: reacts to one event,
      updating the room's list and bus in place. */
  method Turn(room: Room, client: Client, event: Event) returns (next: Client, out: string, flow: Flow)
    modifies room
    ensures var s := Step(client, old(room.participants), event);
            && next == s.client && out == s.written && flow == s.flow
            && room.participants == s.participants
            && room.published == old(room.published) + s.published
  {
    next, out, flow := client, "", Continue;
    match event
    case PeerClosed =>
      flow := Break;
    case PeerFailed =>
      flow := Fail;
    case PeerLine(raw) =>
      match client.status {
      case Identification =>
        var name := DropLast(raw);
        if !NameIsValid(name) {
          out := NameError;
          flow := Break;
        } else {
          next := next.(status := Joined);
          next := next.(name := name);
          room.published := room.published + [EnteredLine(name)];
          out := RoomContains(room.participants);
          room.participants := room.participants + [name];
        }
      case Joined =>
        room.published := room.published + [ChatLine(client.name, raw)];
      }
    case BusMessage(msg) =>
      if !Contains(msg, client.name) {
        out := Terminated(msg);
      }
  }

  /** The session loop of `handler` from a given client state, up to the first
      `break` or error. */
  method Loop(room: Room, start: Client, events: seq<Event>) returns (client: Client, written: string, flow: Flow)
    modifies room
    ensures var r := Run(start, old(room.participants), events);
            && client == r.client
            && written == r.written
            && room.participants == r.participants
            && room.published == old(room.published) + r.published
            && flow == r.flow
  {
    client := start;
    written := "";
    ghost var pub := [];
    ghost var p0 := room.participants;
    var i := 0;
    flow := Continue;
    while i < |events|
      invariant 0 <= i <= |events|
      invariant room.published == old(room.published) + pub
      invariant Run(start, p0, events[..i]) == Effects(client, room.participants, written, pub, Continue)
      invariant flow == Continue
      decreases |events| - i
    {
      ghost var s := Step(client, room.participants, events[i]);
      RunExtend(start, p0, events, i, client, room.participants, written, pub);
      var out;
      client, out, flow := Turn(room, client, events[i]);
      written := written + out;
      pub := pub + s.published;
      if flow != Continue {
        return;
      }
      i := i + 1;
    }
    assert events[..i] == events;
  }

  /** `handler`: greet the peer, run the session loop from the fresh state,
      and after a `break` let a client that has a name leave the room. */
  method Handler(room: Room, events: seq<Event>) returns (written: string, flow: Flow)
    modifies room
    ensures var r := Session(Fresh, old(room.participants), events);
            && written == Welcome + r.written
            && room.participants == r.participants
            && room.published == old(room.published) + r.published
            && flow == r.flow
  {
    written := Welcome;
    var client, rest;
    client, rest, flow := Loop(room, Fresh, events);
    written := written + rest;
    if flow == Break && client.name != "" {
      room.published := room.published + [LeftLine(client.name)];
      room.participants := Without(room.participants, client.name);
    }
  }

  /** A name is valid exactly when it has 1 to 32 characters, all ASCII
      letters or digits. */
  lemma NameIsValidMeans(name: string)
    ensures NameIsValid(name) <==> 1 <= |name| <= 32 && forall i :: 0 <= i < |name| ==> IsAsciiAlphanumeric(name[i])
  {
  }

  /** The names the unit tests reject: empty, a space, a space inside, and
      33 characters. */
  lemma RejectedNameExamples()
    ensures !NameIsValid("")
    ensures !NameIsValid(" ")
    ensures !NameIsValid("John Doe 123")
    ensures !NameIsValid("123456789012345678901234567890123")
  {
    assert !IsAsciiAlphanumeric(" "[0]);
    assert !IsAsciiAlphanumeric("John Doe 123"[4]);
    assert |"123456789012345678901234567890123"| == 33;
  }

  /** The names the unit tests accept. */
  lemma AcceptedNameExamples()
    ensures NameIsValid("John")
    ensures NameIsValid("1234567890123456")
    ensures NameIsValid("LargeNewbie639")
  {
    var a, b, c := "John", "1234567890123456", "LargeNewbie639";
    assert forall i :: 0 <= i < |a| ==> IsAsciiAlphanumeric(a[i]);
    assert forall i :: 0 <= i < |b| ==> IsAsciiAlphanumeric(b[i]);
    assert forall i :: 0 <= i < |c| ==> IsAsciiAlphanumeric(c[i]);
  }

  /** Every step keeps a client joined exactly when it has a name. */
  lemma StepKeepsConsistent(client: Client, participants: seq<string>, event: Event)
    requires client.Consistent()
    ensures Step(client, participants, event).client.Consistent()
  {
  }

  /** So does the whole loop, and the leave code does not touch the client. */
  lemma {:induction false} RunKeepsConsistent(client: Client, participants: seq<string>, events: seq<Event>)
    requires client.Consistent()
    ensures Run(client, participants, events).client.Consistent()
    ensures Session(client, participants, events).client.Consistent()
    decreases |events|
  {
    if |events| > 0 {
      var s := Step(client, participants, events[0]);
      StepKeepsConsistent(client, participants, events[0]);
      RunKeepsConsistent(s.client, s.participants, events[1..]);
    }
  }

  /** A client still identifying itself has the empty name, which every line
      contains: it is handed no line from the bus. */
  lemma IdentifyingHearsNothing(msg: string)
    ensures Deliver(Fresh.name, msg) == None
  {
    assert IsPrefix("", msg[0..]);
  }

  /** A joined client is never handed back its own announcement or chat line. */
  lemma OwnLinesNotDelivered(name: string, raw: string)
    ensures Deliver(name, EnteredLine(name)) == None
    ensures Deliver(name, ChatLine(name, raw)) == None
  {
    assert EnteredLine(name)[2..][..|name|] == name;
    assert ChatLine(name, raw)[1..][..|name|] == name;
  }

  /** The own-name filter looks for the name anywhere in the line: a chat line
      from anybody that mentions the name, even inside a longer word, is not
      handed to its holder. */
  lemma MentionSuppressesDelivery(name: string, sender: string, line: string)
    requires Contains(line, name)
    ensures Deliver(name, ChatLine(sender, line)) == None
  {
    var k :| 0 <= k <= |line| && IsPrefix(name, line[k..]);
    var chat := ChatLine(sender, line);
    var off := |sender| + 3;
    assert chat[off..] == line;
    assert chat[off + k..] == line[k..];
  }

  /** The substring check of the filter in action: `al` is not handed a line
      in which someone greets `alice`. */
  lemma MentionExample()
    ensures Deliver("al", ChatLine("bob", "hi alice\n")) == None
  {
    assert IsPrefix("al", "hi alice\n"[3..]);
    MentionSuppressesDelivery("al", "bob", "hi alice\n");
  }

  /** An invalid name ends the session with the error line alone: nothing is
      published, the list is untouched, later events are never looked at. */
  lemma InvalidNameEndsSession(participants: seq<string>, raw: string, later: seq<Event>)
    requires !NameIsValid(DropLast(raw))
    ensures Session(Fresh, participants, [PeerLine(raw)] + later) == Effects(Fresh, participants, NameError, [], Break)
  {
    var events := [PeerLine(raw)] + later;
    assert events[0] == PeerLine(raw);
  }

  /** A read error returns before the leave code: a joined client's name
      stays on the list and no leave line is published. */
  lemma ReadErrorSkipsLeave(client: Client, participants: seq<string>, later: seq<Event>)
    ensures Session(client, participants, [PeerFailed] + later) == Effects(client, participants, "", [], Fail)
  {
    var events := [PeerFailed] + later;
    assert events[0] == PeerFailed;
  }

  /** The end of the peer's stream lets a joined client leave: its name comes
      off the list and the leave line is published. */
  lemma EndOfStreamLeaves(client: Client, participants: seq<string>)
    requires client.status == Joined && client.Consistent()
    ensures Session(client, participants, [PeerClosed])
         == Effects(client, Without(participants, client.name), "", [LeftLine(client.name)], Break)
  {
  }

  /** A joined client keeps its name and status for the rest of the loop:
      only identification changes the client. */
  lemma {:induction false} JoinedKeepsClient(client: Client, participants: seq<string>, events: seq<Event>)
    requires client.status == Joined
    ensures Run(client, participants, events).client == client
    decreases |events|
  {
    if |events| > 0 {
      var s := Step(client, participants, events[0]);
      JoinedKeepsClient(s.client, s.participants, events[1..]);
    }
  }

  /** A connection that ends without ever having joined leaves no trace: the
      leave code does nothing for the empty name, nothing was published and
      the list is as it was. */
  lemma {:induction false} NeverJoinedChangesNothing(participants: seq<string>, events: seq<Event>)
    requires Run(Fresh, participants, events).client.name == ""
    ensures var r := Run(Fresh, participants, events);
            && Session(Fresh, participants, events) == r
            && r.client == Fresh && r.participants == participants && r.published == []
    decreases |events|
  {
    if |events| > 0 {
      var s := Step(Fresh, participants, events[0]);
      if s.flow == Continue {
        if s.client.status == Joined {
          JoinedKeepsClient(s.client, s.participants, events[1..]);
          assert false;
        } else {
          NeverJoinedChangesNothing(participants, events[1..]);
        }
      }
    }
  }

  /** Events that never end the loop of a joined client. */
  predicate Chatter(events: seq<Event>)
  {
    forall i :: 0 <= i < |events| ==> events[i].PeerLine? || events[i].BusMessage?
  }

  /** Every one of `published` is a chat line of `name`. */
  ghost predicate OwnChat(name: string, published: seq<string>)
  {
    forall i :: 0 <= i < |published| ==> exists raw :: published[i] == ChatLine(name, raw)
  }

  /** A joined client that only chats and listens keeps its state and the
      list; everything it publishes is its own chat lines. */
  lemma {:induction false} ChatterKeepsState(client: Client, participants: seq<string>, events: seq<Event>)
    requires client.status == Joined
    requires Chatter(events)
    ensures var r := Run(client, participants, events);
            && r.client == client && r.participants == participants && r.flow == Continue
            && OwnChat(client.name, r.published)
    decreases |events|
  {
    if |events| > 0 {
      assert events[0].PeerLine? || events[0].BusMessage?;
      assert Chatter(events[1..]) by {
        forall i | 0 <= i < |events[1..]|
          ensures events[1..][i].PeerLine? || events[1..][i].BusMessage?
        {
          assert events[1..][i] == events[i + 1];
        }
      }
      ChatterKeepsState(client, participants, events[1..]);
      var s := Step(client, participants, events[0]);
      var rest := Run(client, participants, events[1..]);
      var published := s.published + rest.published;
      assert OwnChat(client.name, s.published) by {
        if events[0].PeerLine? {
          assert s.published[0] == ChatLine(client.name, events[0].raw);
        }
      }
      forall i | 0 <= i < |published|
        ensures exists raw :: published[i] == ChatLine(client.name, raw)
      {
        if i < |s.published| {
          assert published[i] == s.published[i];
        } else {
          assert published[i] == rest.published[i - |s.published|];
        }
      }
      assert Run(client, participants, events).published == published;
    }
  }

  /** A client that joins under a name nobody holds, chats, and closes its
      stream leaves the list exactly as it found it. */
  lemma JoinThenLeaveRestoresList(participants: seq<string>, name: string, chatter: seq<Event>)
    requires NameIsValid(name) && name !in participants
    requires Chatter(chatter)
    ensures Session(Fresh, participants, [PeerLine(name + "\n")] + chatter + [PeerClosed]).participants == participants
  {
    var joined := Client(name, Joined);
    var first := [PeerLine(name + "\n")];
    assert DropLast(name + "\n") == name;
    assert Run(Fresh, participants, first).client == joined by {
      assert first[1..] == [];
    }
    RunAppend(Fresh, participants, first, chatter);
    ChatterKeepsState(joined, participants + [name], chatter);
    RunAppend(Fresh, participants, first + chatter, [PeerClosed]);
    assert [PeerClosed][1..] == [];
    WithoutAppend(participants, [name], name);
    WithoutAbsent(participants, name);
  }

  /** A name cannot be found in a line that lacks one of its characters. */
  lemma MissingCharacter(msg: string, name: string, c: char)
    requires c in name && c !in msg
    ensures !Contains(msg, name)
  {
    var j :| 0 <= j < |name| && name[j] == c;
    forall k | 0 <= k <= |msg| && |name| <= |msg| - k
      ensures msg[k..][..|name|] != name
    {
      assert msg[k..][..|name|][j] == msg[k + j];
    }
  }

  /** A name cannot be found where no character of the line starting it is
      followed by the rest of it. */
  lemma NoOccurrence(msg: string, name: string)
    requires |name| > 1
    requires forall k :: 0 <= k < |msg| - 1 && msg[k] == name[0] ==> msg[k + 1] != name[1]
    ensures !Contains(msg, name)
  {
    forall k | 0 <= k <= |msg| && |name| <= |msg| - k
      ensures msg[k..][..|name|] != name
    {
      assert msg[k..][..|name|][0] == msg[k] && msg[k..][..|name|][1] == msg[k + 1];
    }
  }

  /** The room as the rosters of the session test show it: empty, then with
      one name. */
  lemma RosterExamples()
    ensures RoomContains([]) == "* The room contains: " + "\n"
    ensures RoomContains(["alice"]) == "* The room contains: " + "alice" + "\n"
  {
    assert Join([], ", ") == "";
    assert Join(["alice"], ", ") == "alice";
  }

  /** A client joins under a fresh name, says one line and closes its stream:
      it is shown the room as it was, publishes its arrival, its line and its
      departure, and leaves the list as it found it. */
  lemma JoinSpeakLeave(participants: seq<string>, name: string, line: string)
    requires NameIsValid(name) && name !in participants
    ensures Session(Fresh, participants, [PeerLine(name + "\n"), PeerLine(line), PeerClosed])
         == Effects(Client(name, Joined), participants, RoomContains(participants),
                    [EnteredLine(name), ChatLine(name, line), LeftLine(name)], Break)
  {
    var events := [PeerLine(name + "\n"), PeerLine(line), PeerClosed];
    var joined := Client(name, Joined);
    var inside := participants + [name];
    assert DropLast(name + "\n") == name;
    assert Step(Fresh, participants, events[0])
        == Effects(joined, inside, RoomContains(participants), [EnteredLine(name)], Continue);
    assert events[1..] == [PeerLine(line), PeerClosed] && events[1..][1..] == [PeerClosed];
    var closing := Run(joined, inside, [PeerClosed]);
    assert closing == Effects(joined, inside, "", [], Break);
    var speaking := Run(joined, inside, events[1..]);
    assert speaking == Effects(joined, inside, "", [ChatLine(name, line)], Break);
    assert Run(Fresh, participants, events)
        == Effects(joined, inside, RoomContains(participants), [EnteredLine(name), ChatLine(name, line)], Break);
    WithoutAppend(participants, [name], name);
    WithoutAbsent(participants, name);
  }

  /** The second client of the session test: `federico` joins a room holding
      `alice`, says one line and disconnects. */
  lemma FedericoSession()
    ensures var r := Session(Fresh, ["alice"], [PeerLine("federico\n"), PeerLine("Just one more thing\n"), PeerClosed]);
            && r.written == "* The room contains: " + "alice" + "\n"
            && r.published == [EnteredLine("federico"), ChatLine("federico", "Just one more thing\n"), LeftLine("federico")]
            && r.participants == ["alice"]
  {
    var name := "federico";
    assert forall i :: 0 <= i < |name| ==> IsAsciiAlphanumeric(name[i]);
    assert name != "alice";
    assert name + "\n" == "federico\n";
    RosterExamples();
    JoinSpeakLeave(["alice"], name, "Just one more thing\n");
  }

  /** The bus handing over each of `msgs`, in order. */
  function Hearing(msgs: seq<string>): (r: seq<Event>)
    ensures |r| == |msgs|
  {
    seq(|msgs|, i requires 0 <= i < |msgs| => BusMessage(msgs[i]))
  }

  /** The lines written for `msgs` when every one of them is handed over. */
  function Handed(msgs: seq<string>): string
  {
    if |msgs| == 0 then "" else Terminated(msgs[0]) + Handed(msgs[1..])
  }

  /** A joined client writes, in order, every bus line that does not mention
      its name, and nothing else changes. */
  lemma {:induction false} JoinedHearsAll(client: Client, participants: seq<string>, msgs: seq<string>)
    requires client.status == Joined
    requires forall i :: 0 <= i < |msgs| ==> !Contains(msgs[i], client.name)
    ensures Run(client, participants, Hearing(msgs)) == Effects(client, participants, Handed(msgs), [], Continue)
    decreases |msgs|
  {
    if |msgs| > 0 {
      var events := Hearing(msgs);
      assert events[0] == BusMessage(msgs[0]);
      assert events[1..] == Hearing(msgs[1..]);
      JoinedHearsAll(client, participants, msgs[1..]);
    }
  }

  /** A client that joins under a valid name and then only listens is shown
      the room, announces itself, is added to the list, and writes every bus
      line that does not mention it. */
  lemma JoinThenListen(participants: seq<string>, name: string, msgs: seq<string>)
    requires NameIsValid(name)
    requires forall i :: 0 <= i < |msgs| ==> !Contains(msgs[i], name)
    ensures Session(Fresh, participants, [PeerLine(name + "\n")] + Hearing(msgs))
         == Effects(Client(name, Joined), participants + [name], RoomContains(participants) + Handed(msgs),
                    [EnteredLine(name)], Continue)
  {
    var events := [PeerLine(name + "\n")] + Hearing(msgs);
    assert DropLast(name + "\n") == name;
    assert events[0] == PeerLine(name + "\n") && events[1..] == Hearing(msgs);
    JoinedHearsAll(Client(name, Joined), participants + [name], msgs);
  }

  lemma AliceIsValid()
    ensures NameIsValid("alice") && "alice" + "\n" == "alice\n"
  {
    var name := "alice";
    assert forall i :: 0 <= i < |name| ==> IsAsciiAlphanumeric(name[i]);
  }

  lemma EnteredLacksAlice()
    ensures !Contains(EnteredLine("federico"), "alice")
  {
    MissingCharacter(EnteredLine("federico"), "alice", 'l');
  }

  lemma ChatLacksAlice()
    ensures !Contains(ChatLine("federico", "Just one more thing\n"), "alice")
  {
    MissingCharacter(ChatLine("federico", "Just one more thing\n"), "alice", 'l');
  }

  lemma LeftLacksAlice()
    ensures !Contains(LeftLine("federico"), "alice")
  {
    NoOccurrence(LeftLine("federico"), "alice");
  }

  /** The first client of the session test: `alice` joins the empty room and
      is then handed `federico`'s arrival, line and departure. */
  lemma AliceSession()
    ensures var msgs := [EnteredLine("federico"), ChatLine("federico", "Just one more thing\n"), LeftLine("federico")];
            var r := Session(Fresh, [], [PeerLine("alice\n")] + Hearing(msgs));
            && r.written == RoomContains([]) + Handed(msgs)
            && r.published == [EnteredLine("alice")]
            && r.participants == ["alice"]
            && r.flow == Continue
  {
    var msgs := [EnteredLine("federico"), ChatLine("federico", "Just one more thing\n"), LeftLine("federico")];
    AliceIsValid();
    forall i | 0 <= i < |msgs|
      ensures !Contains(msgs[i], "alice")
    {
      if i == 0 {
        EnteredLacksAlice();
      } else if i == 1 {
        ChatLacksAlice();
      } else {
        LeftLacksAlice();
      }
    }
    JoinThenListen([], "alice", msgs);
    assert [] + ["alice"] == ["alice"];
  }

  /** What `alice` reads after the roster: each of `federico`'s lines ending
      in a newline. */
  lemma AliceReads()
    ensures Handed([EnteredLine("federico"), ChatLine("federico", "Just one more thing\n"), LeftLine("federico")])
         == EnteredLine("federico") + "\n" + ChatLine("federico", "Just one more thing\n") + LeftLine("federico") + "\n"
  {
    var e, c, l := EnteredLine("federico"), ChatLine("federico", "Just one more thing\n"), LeftLine("federico");
    var msgs := [e, c, l];
    assert !EndsWith(e, '\n') && EndsWith(c, '\n') && !EndsWith(l, '\n');
    assert msgs[1..] == [c, l] && msgs[1..][1..] == [l] && msgs[1..][1..][1..] == [];
  }

  /** A name sent without a newline just before the end of the stream loses
      its last character to the `pop` meant for the newline: `alice` joins,
      is announced and leaves as `alic`. */
  lemma UnterminatedNameExample()
    ensures var r := Session(Fresh, [], [PeerLine("alice"), PeerClosed]);
            && r.client == Client("alic", Joined)
            && r.participants == []
            && r.published == [EnteredLine("alic"), LeftLine("alic")]
  {
    var name := "alic";
    assert DropLast("alice") == name;
    assert forall i :: 0 <= i < |name| ==> IsAsciiAlphanumeric(name[i]);
    var events := [PeerLine("alice"), PeerClosed];
    assert events[1..] == [PeerClosed];
    assert events[1..][1..] == [];
  }

  /** Nothing stops a second client from joining under a name already on
      the list: it is pushed again. When that client leaves, `retain` takes
      every copy off the list, the other client's included. */
  lemma DuplicateNameExample()
    ensures Run(Fresh, ["bob"], [PeerLine("bob\n")]).participants == ["bob", "bob"]
    ensures var r := Session(Fresh, ["bob"], [PeerLine("bob\n"), PeerClosed]);
            && r.participants == []
            && r.published == [EnteredLine("bob"), LeftLine("bob")]
  {
    var name := "bob";
    assert DropLast("bob\n") == name;
    assert forall i :: 0 <= i < |name| ==> IsAsciiAlphanumeric(name[i]);
    assert [PeerLine("bob\n")][1..] == [];
    var events := [PeerLine("bob\n"), PeerClosed];
    assert events[1..] == [PeerClosed];
    assert events[1..][1..] == [];
  }
}
