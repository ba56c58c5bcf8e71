/** The session logic of tinymudserver.cpp as values: the player list is a sequence
    of connection records, a player is named by its position in that list, and every
    operation of the login dialog, the command dispatcher and the registry is a
    function from the old list to the new one.  The classes in Server.dfy are proved
    to compute exactly these functions. */
module Session {
  import opened Wrappers
  import opened Text
  import Outbound
  import Framing

  // The message catalogue (the #defines of tinymudserver.cpp), already formatted.

  const InitialString: string := "\nWelcome to the Tiny MUD Server version 1.0\n"
  const FinalString: string := "See you next time!\n"
  const TellName: string := "Enter your name ...  "
  const TellPassword: string := "Enter your password ... "
  const PasswordIncorrect: string := "That password is incorrect.\n"
  const LookString: string := "You are standing in a large, sombre room, with no exits.\n"
  const InTheRoom: string := "You also see "
  const SayWhat: string := "Say what?\n"
  const TellWhom: string := "Tell whom?\n"
  const NotSelf: string := "You cannot do that to yourself\n"
  const Huh: string := "Huh?\n"
  const TickMessage: string := "You hear creepy noises ...\n"

  function AlreadyConnected(name: string): string { name + " is already connected.\n" }
  function Welcome(name: string): string { "Welcome back, " + name + "!\n\n" }
  function YouSay(what: string): string { "You say, \"" + what + "\"\n" }
  function SomeoneSays(name: string, what: string): string { name + " says, \"" + what + "\"\n" }
  function TellWhat(who: string): string { "Tell " + who + " what?\n" }
  function YouTell(who: string, what: string): string { "You tell " + who + ", \"" + what + "\"\n" }
  function SomeoneTells(name: string, what: string): string { name + " tells you, \"" + what + "\"\n" }
  function NotConnected(who: string): string { who + " is not connected.\n" }
  function Joined(name: string): string { "Player " + name + " has joined the game.\n" }
  function Departed(name: string): string { "Player " + name + " has left the game.\n" }

  /** Seconds between two periodic tick messages. */
  const MessageInterval: int := 30

  datatype ConnState = AwaitingName | AwaitingPassword | Playing

  /** What the session logic sees of a tPlayer: whether its socket is open
      (s != NO_SOCKET), its login state, its name and its outbound queue. */
  datatype Conn = Conn(open: bool, state: ConnState, name: string, outbuf: seq<string>)

  /** The player list, in list order. */
  type Registry = seq<Conn>

  /** A connection that broadcasts, look and FindPlayer consider: open and Playing. */
  predicate Active(c: Conn) {
    c.open && c.state == Playing
  }

  /** Send of each message in turn: appended to the queue, unless the socket is closed. */
  function Queued(c: Conn, ms: seq<string>): (r: Conn)
    ensures r.open == c.open && r.state == c.state && r.name == c.name
    ensures |r.outbuf| == if c.open then |c.outbuf| + |ms| else |c.outbuf|
  {
    if c.open then c.(outbuf := c.outbuf + ms) else c
  }

  /** Queuing a then b is queuing a + b. */
  lemma QueuedTwice(c: Conn, a: seq<string>, b: seq<string>)
    ensures Queued(Queued(c, a), b) == Queued(c, a + b)
  {
    assert c.outbuf + a + b == c.outbuf + (a + b);
  }

  function SendAll(reg: Registry, i: nat, ms: seq<string>): (r: Registry)
    requires i < |reg|
    ensures |r| == |reg|
  {
    reg[i := Queued(reg[i], ms)]
  }

  function Send(reg: Registry, i: nat, m: string): (r: Registry)
    requires i < |reg|
    ensures |r| == |reg|
  {
    SendAll(reg, i, [m])
  }

  /** Sending a and then b is sending both at once. */
  lemma SendTwice(reg: Registry, i: nat, a: string, b: string)
    requires i < |reg|
    ensures Send(Send(reg, i, a), i, b) == SendAll(reg, i, [a, b])
  {
    QueuedTwice(reg[i], [a], [b]);
    assert [a] + [b] == [a, b];
  }

  /** Exactly the messages ms were queued to connection i, and nothing else changed. */
  predicate OnlyTo(before: Registry, after: Registry, i: nat, ms: seq<string>)
    requires i < |before|
  {
    after == before[i := Queued(before[i], ms)]
  }

  /** SendToAll(ExceptThis, m) reaches connection k. */
  predicate Recipient(reg: Registry, except: Option<nat>, k: nat)
    requires k < |reg|
  {
    except != Some(k) && Active(reg[k])
  }

  function Broadcast(reg: Registry, except: Option<nat>, m: string): (r: Registry)
    ensures |r| == |reg|
  {
    seq(|reg|, k requires 0 <= k < |reg| => if Recipient(reg, except, k) then Queued(reg[k], [m]) else reg[k])
  }

  /** FindPlayer from position k on. */
  function FindFrom(reg: Registry, name: string, k: nat): (r: Option<nat>)
    requires k <= |reg|
    decreases |reg| - k
    ensures r.Some? ==> k <= r.value < |reg| && Active(reg[r.value]) && reg[r.value].name == name
  {
    if k == |reg| then None
    else if Active(reg[k]) && reg[k].name == name then Some(k)
    else FindFrom(reg, name, k + 1)
  }

  /** Nobody from k on before the one found has the name, and when none is found
      nobody from k on has it. */
  lemma {:induction false} FindFromSound(reg: Registry, name: string, k: nat)
    requires k <= |reg|
    decreases |reg| - k
    ensures FindFrom(reg, name, k).Some? ==>
              forall j :: k <= j < FindFrom(reg, name, k).value ==> !(Active(reg[j]) && reg[j].name == name)
    ensures FindFrom(reg, name, k).None? ==> forall j :: k <= j < |reg| ==> !(Active(reg[j]) && reg[j].name == name)
  {
    if k < |reg| && !(Active(reg[k]) && reg[k].name == name) {
      FindFromSound(reg, name, k + 1);
    }
  }

  /** FindPlayer: the first open, Playing connection with that name, if any. */
  function Find(reg: Registry, name: string): (r: Option<nat>)
    ensures r.Some? ==> r.value < |reg| && Active(reg[r.value]) && reg[r.value].name == name
  {
    FindFrom(reg, name, 0)
  }

  /** The connection found is the first with the name, and none is found exactly
      when no open, Playing connection has it. */
  lemma FindSound(reg: Registry, name: string)
    ensures Find(reg, name).Some? ==>
              forall j :: 0 <= j < Find(reg, name).value ==> !(Active(reg[j]) && reg[j].name == name)
    ensures Find(reg, name).None? <==> forall j :: 0 <= j < |reg| ==> !(Active(reg[j]) && reg[j].name == name)
  {
    FindFromSound(reg, name, 0);
  }

  /** The names DoLook lists for connection i, among the first n connections. */
  function OthersUpTo(reg: Registry, i: nat, n: nat): (r: seq<string>)
    requires n <= |reg|
    ensures |r| <= n
  {
    if n == 0 then []
    else OthersUpTo(reg, i, n - 1) + (if n - 1 != i && Active(reg[n - 1]) then [reg[n - 1].name] else [])
  }

  /** Everybody else who is open and Playing among the first n is listed. */
  lemma {:induction false} OthersUpToListed(reg: Registry, i: nat, n: nat)
    requires n <= |reg|
    ensures forall k :: 0 <= k < n && k != i && Active(reg[k]) ==> reg[k].name in OthersUpTo(reg, i, n)
  {
    if n > 0 {
      OthersUpToListed(reg, i, n - 1);
    }
  }

  /** Only those are listed: every name listed among the first n belongs to another
      open, Playing connection there. */
  lemma {:induction false} OthersUpToOnly(reg: Registry, i: nat, n: nat)
    requires n <= |reg|
    ensures forall x :: x in OthersUpTo(reg, i, n) ==>
              exists k :: 0 <= k < n && k != i && Active(reg[k]) && reg[k].name == x
  {
    if n > 0 {
      OthersUpToOnly(reg, i, n - 1);
    }
  }

  /** Exactly those are listed, each once and in list order: the listing is the
      names at the increasing positions ks, and ks holds precisely the positions
      below n of the other open, Playing connections. */
  lemma {:induction false} OthersUpToExact(reg: Registry, i: nat, n: nat) returns (ks: seq<nat>)
    requires n <= |reg|
    ensures forall a, b :: 0 <= a < b < |ks| ==> ks[a] < ks[b]
    ensures forall k :: k in ks <==> 0 <= k < n && k != i && Active(reg[k])
    ensures |ks| == |OthersUpTo(reg, i, n)|
    ensures forall a :: 0 <= a < |ks| ==> ks[a] < n && OthersUpTo(reg, i, n)[a] == reg[ks[a]].name
  {
    if n == 0 {
      ks := [];
    } else {
      var ks' := OthersUpToExact(reg, i, n - 1);
      var prev := OthersUpTo(reg, i, n - 1);
      if n - 1 != i && Active(reg[n - 1]) {
        ks := ks' + [n - 1];
        assert OthersUpTo(reg, i, n) == prev + [reg[n - 1].name];
        assert forall a :: 0 <= a < |ks'| ==> ks[a] == ks'[a];
      } else {
        ks := ks';
        assert OthersUpTo(reg, i, n) == prev + [];
        assert prev + [] == prev;
      }
    }
  }

  /** The names of everybody else who is open and Playing, in list order. */
  function Others(reg: Registry, i: nat): (r: seq<string>)
    ensures |r| <= |reg|
  {
    OthersUpTo(reg, i, |reg|)
  }

  /** The chunks DoLook sends after LOOK_STRING: IN_THE_ROOM and the names with ", "
      between them (the closing ".\n" is added by LookLines). */
  function Listing(names: seq<string>): (r: seq<string>)
    ensures |r| == 2 * |names|
  {
    if names == [] then []
    else if |names| == 1 then [InTheRoom, names[0]]
    else Listing(names[..|names| - 1]) + [", ", names[|names| - 1]]
  }

  /** One more name: IN_THE_ROOM before the first, ", " before any other. */
  lemma ListingSnoc(names: seq<string>, x: string)
    ensures Listing(names + [x]) == Listing(names) + (if names == [] then [InTheRoom, x] else [", ", x])
  {
    assert (names + [x])[..|names|] == names;
  }

  function LookLines(names: seq<string>): (r: seq<string>)
    ensures |r| == if names == [] then 1 else 2 * |names| + 2
    ensures r[0] == LookString
  {
    [LookString] + Listing(names) + (if names == [] then [] else [".\n"])
  }

  /** What DoLook has queued once it has looked at the first k connections. */
  function LookPrefix(reg: Registry, i: nat, k: nat): seq<string>
    requires k <= |reg|
  {
    [LookString] + Listing(OthersUpTo(reg, i, k))
  }

  /** The loop of DoLook, one connection further, when that connection is listed:
      its name comes after IN_THE_ROOM if it is the first, after ", " otherwise. */
  lemma LookStepListed(reg: Registry, i: nat, k: nat, sep: string, name: string)
    requires k < |reg| && k != i && Active(reg[k]) && name == reg[k].name
    requires sep == if OthersUpTo(reg, i, k) == [] then InTheRoom else ", "
    ensures LookPrefix(reg, i, k) + [sep] + [name] == LookPrefix(reg, i, k + 1)
  {
    ListingSnoc(OthersUpTo(reg, i, k), name);
  }

  /** The loop of DoLook, one connection further, when that connection is not listed. */
  lemma LookStepSkipped(reg: Registry, i: nat, k: nat)
    requires k < |reg| && !(k != i && Active(reg[k]))
    ensures OthersUpTo(reg, i, k + 1) == OthersUpTo(reg, i, k)
    ensures LookPrefix(reg, i, k + 1) == LookPrefix(reg, i, k)
  {
    var o := OthersUpTo(reg, i, k);
    assert OthersUpTo(reg, i, k + 1) == o + [];
    assert o + [] == o;
  }

  /** Sending one more message after some others is sending them all. */
  lemma SendAfter(reg: Registry, i: nat, ms: seq<string>, m: string)
    requires i < |reg|
    ensures Send(SendAll(reg, i, ms), i, m) == SendAll(reg, i, ms + [m])
  {
    QueuedTwice(reg[i], ms, [m]);
  }

  /** The loop of DoLook starts after LOOK_STRING. */
  lemma LookSendStart(reg: Registry, i: nat)
    requires i < |reg|
    ensures Send(reg, i, LookString) == SendAll(reg, i, LookPrefix(reg, i, 0))
  {
    assert OthersUpTo(reg, i, 0) == [];
    assert [LookString] + [] == [LookString];
  }

  /** The step of DoLook that lists connection k, on the whole list. */
  lemma LookSendListed(reg: Registry, i: nat, k: nat, sep: string, name: string)
    requires i < |reg| && k < |reg| && k != i && Active(reg[k]) && name == reg[k].name
    requires sep == if OthersUpTo(reg, i, k) == [] then InTheRoom else ", "
    ensures Send(Send(SendAll(reg, i, LookPrefix(reg, i, k)), i, sep), i, name) ==
            SendAll(reg, i, LookPrefix(reg, i, k + 1))
  {
    var before := LookPrefix(reg, i, k);
    SendAfter(reg, i, before, sep);
    SendAfter(reg, i, before + [sep], name);
    LookStepListed(reg, i, k, sep, name);
  }

  /** After the loop of DoLook only the closing ".\n" is missing, and only when
      someone was listed. */
  lemma LookSendEnd(reg: Registry, i: nat)
    requires i < |reg|
    ensures Others(reg, i) == [] ==> Look(reg, i) == SendAll(reg, i, LookPrefix(reg, i, |reg|))
    ensures Others(reg, i) != [] ==> Look(reg, i) == Send(SendAll(reg, i, LookPrefix(reg, i, |reg|)), i, ".\n")
  {
    var shown := LookPrefix(reg, i, |reg|);
    assert LookLines(Others(reg, i)) == shown + (if Others(reg, i) == [] then [] else [".\n"]);
    if Others(reg, i) == [] {
      assert shown + [] == shown;
    } else {
      SendAfter(reg, i, shown, ".\n");
    }
  }

  /** DoLook. */
  function Look(reg: Registry, i: nat): (r: Registry)
    requires i < |reg|
    ensures |r| == |reg|
  {
    SendAll(reg, i, LookLines(Others(reg, i)))
  }

  /** ProcessPlayerName. */
  function NameStep(reg: Registry, i: nat, line: string): (r: Registry)
    requires i < |reg|
    ensures |r| == |reg|
  {
    if line == [] then Send(reg, i, TellName)
    else if Find(reg, line).Some? then SendAll(reg, i, [AlreadyConnected(line), TellName])
    else Send(reg[i := reg[i].(name := line, state := AwaitingPassword)], i, TellPassword)
  }

  /** ProcessPlayerPassword, with the placeholder policy: the password is the name. */
  function PasswordStep(reg: Registry, i: nat, line: string): (r: Registry)
    requires i < |reg|
    ensures |r| == |reg|
  {
    if line == [] then Send(reg, i, TellPassword)
    else if line != reg[i].name then SendAll(reg, i, [PasswordIncorrect, TellPassword])
    else
      var name := reg[i].name;
      var r1 := reg[i := reg[i].(state := Playing)];
      var r2 := Send(r1, i, Welcome(name));
      var r3 := Look(r2, i);
      Broadcast(r3, Some(i), Joined(name))
  }

  /** ClosePlayer. */
  function Close(reg: Registry, i: nat): (r: Registry)
    requires i < |reg|
    ensures |r| == |reg|
  {
    reg[i := reg[i].(open := false)]
  }

  /** ProcessWrite on one connection: nothing happens on a closed socket. */
  function FlushConn(c: Conn, w: seq<int>): (r: Outbound.Flushed)
    ensures |r.queue| <= |c.outbuf|
    ensures !c.open ==> r.sent == [] && r.unused == w
  {
    if c.open then Outbound.Flush(c.outbuf, w) else Outbound.Flushed([], c.outbuf, w)
  }

  /** The result of a step that may write to the socket of the connection it serves:
      the new list, the bytes written, and the write answers it left unused. */
  datatype Outcome = Outcome(reg: Registry, written: string, unused: seq<int>)

  /** DoQuit: a Playing connection gets FINAL_STRING, has its queue flushed, and the
      others hear of the departure; every connection is then closed. */
  function Quit(reg: Registry, i: nat, w: seq<int>): (r: Outcome)
    requires i < |reg|
    ensures |r.reg| == |reg|
  {
    if reg[i].state == Playing then
      var r1 := Send(reg, i, FinalString);
      var f := FlushConn(r1[i], w);
      var r2 := r1[i := r1[i].(outbuf := f.queue)];
      var r3 := Broadcast(r2, Some(i), Departed(reg[i].name));
      Outcome(Close(r3, i), f.sent, f.unused)
    else Outcome(Close(reg, i), [], w)
  }

  /** DoSay. */
  function Say(reg: Registry, i: nat, what: string): (r: Registry)
    requires i < |reg|
    ensures |r| == |reg|
  {
    if what == [] then Send(reg, i, SayWhat)
    else Broadcast(Send(reg, i, YouSay(what)), Some(i), SomeoneSays(reg[i].name, what))
  }

  /** DoTell: the checks come in this order, and only the last case sends twice. */
  function Tell(reg: Registry, i: nat, what: string): (r: Registry)
    requires i < |reg|
    ensures |r| == |reg|
  {
    if what == [] then Send(reg, i, TellWhom)
    else
      var g := GetWord(what);
      if g.rest == [] then Send(reg, i, TellWhat(g.word))
      else TellTo(reg, i, g.word, g.rest)
  }

  /** The rest of DoTell once the target's name and a non-empty text are known. */
  function TellTo(reg: Registry, i: nat, who: string, text: string): (r: Registry)
    requires i < |reg|
    ensures |r| == |reg|
  {
    match Find(reg, who)
    case None => Send(reg, i, NotConnected(who))
    case Some(j) =>
      if j == i then Send(reg, i, NotSelf)
      else Send(Send(reg, i, YouTell(who, text)), j, SomeoneTells(reg[i].name, text))
  }

  /** ProcessCommand. */
  function Command(reg: Registry, i: nat, line: string, w: seq<int>): (r: Outcome)
    requires i < |reg|
    ensures |r.reg| == |reg|
  {
    var g := GetWord(line);
    if g.word == "quit" then Quit(reg, i, w)
    else if g.word == "look" then Outcome(Look(reg, i), [], w)
    else if g.word == "say" then Outcome(Say(reg, i, g.rest), [], w)
    else if g.word == "tell" then Outcome(Tell(reg, i, g.rest), [], w)
    else Outcome(Send(reg, i, Huh), [], w)
  }

  /** ProcessPlayerInput: drop the first '\r', then act on the login state. */
  function Input(reg: Registry, i: nat, line: string, w: seq<int>): (r: Outcome)
    requires i < |reg|
    ensures |r.reg| == |reg|
  {
    var l := EraseFirst(line, '\r');
    match reg[i].state
    case AwaitingName => Outcome(NameStep(reg, i, l), [], w)
    case AwaitingPassword => Outcome(PasswordStep(reg, i, l), [], w)
    case Playing => Command(reg, i, l, w)
  }

  /** The lines of one read, handed to ProcessPlayerInput one after another. */
  function InputAll(reg: Registry, i: nat, lines: seq<string>, w: seq<int>): (r: Outcome)
    requires i < |reg|
    decreases |lines|
    ensures |r.reg| == |reg|
  {
    if lines == [] then Outcome(reg, [], w)
    else
      var o := Input(reg, i, lines[0], w);
      var q := InputAll(o.reg, i, lines[1..], o.unused);
      Outcome(q.reg, o.written + q.written, q.unused)
  }

  /** What read() gave: an error (EWOULDBLOCK included), or bytes, where no bytes at
      all means the peer closed the connection. */
  datatype ReadResult = ReadError | Received(data: string)

  /** The outcome of ProcessRead and the input buffer it leaves. */
  datatype ReadOutcome = ReadOutcome(out: Outcome, inbuf: string)

  /** ProcessRead: on end of file the player quits; otherwise the bytes up to the
      first NUL are added to the buffer, and every complete line is trimmed and
      handled in turn. */
  function ReadStep(reg: Registry, i: nat, inbuf: string, r: ReadResult, w: seq<int>): (o: ReadOutcome)
    requires i < |reg|
    ensures |o.out.reg| == |reg|
  {
    match r
    case ReadError => ReadOutcome(Outcome(reg, [], w), inbuf)
    case Received(data) =>
      if data == [] then ReadOutcome(Quit(reg, i, w), inbuf)
      else
        var f := Framing.Split(inbuf + Framing.UpToNul(data));
        ReadOutcome(InputAll(reg, i, Framing.TrimAll(f.lines), w), f.rest)
  }

  /** InputAll handles the first line, then the rest with what is left. */
  lemma InputAllCons(reg: Registry, i: nat, l: string, ls: seq<string>, w: seq<int>, o: Outcome)
    requires i < |reg| && o == Input(reg, i, l, w) && i < |o.reg|
    ensures InputAll(reg, i, [l] + ls, w) ==
            Outcome(InputAll(o.reg, i, ls, o.unused).reg, o.written + InputAll(o.reg, i, ls, o.unused).written,
                    InputAll(o.reg, i, ls, o.unused).unused)
  {
    assert ([l] + ls)[0] == l && ([l] + ls)[1..] == ls;
  }

  /** What the line loop of ProcessRead still has to produce, once `written` is
      already on the socket: every complete line of buf handled in turn, and the
      leftover. */
  function Drain(reg: Registry, i: nat, buf: string, written: string, w: seq<int>): ReadOutcome
    requires i < |reg|
  {
    var f := Framing.Split(buf);
    var rem := InputAll(reg, i, Framing.TrimAll(f.lines), w);
    ReadOutcome(Outcome(rem.reg, written + rem.written, rem.unused), f.rest)
  }

  /** A read that delivers data is the line loop over the extended buffer. */
  lemma ReadIsDrain(reg: Registry, i: nat, inbuf: string, data: string, w: seq<int>)
    requires i < |reg| && data != []
    ensures ReadStep(reg, i, inbuf, Received(data), w) == Drain(reg, i, inbuf + Framing.UpToNul(data), [], w)
  {
    var f := Framing.Split(inbuf + Framing.UpToNul(data));
    var rem := InputAll(reg, i, Framing.TrimAll(f.lines), w);
    assert [] + rem.written == rem.written;
  }

  /** One pass of the line loop of ProcessRead: handling the first line of the
      buffer leaves the lines after it to be handled. */
  lemma ReadLineStep(reg: Registry, reg': Registry, i: nat, buf: string, k: nat,
                     u: seq<int>, written: string, more: string, u': seq<int>)
    requires i < |reg| && i < |reg'| && IndexOf(buf, '\n') == Some(k)
    requires Outcome(reg', more, u') == Input(reg, i, Trim(buf[..k]), u)
    ensures Drain(reg, i, buf, written, u) == Drain(reg', i, buf[k + 1..], written + more, u')
  {
    var line := Trim(buf[..k]);
    var f := Framing.Split(buf[k + 1..]);
    var ls := Framing.TrimAll(f.lines);
    Framing.SplitStep(buf, k);
    Framing.TrimAllCons(buf[..k], f.lines);
    assert Framing.TrimAll(Framing.Split(buf).lines) == [line] + ls;
    InputAllCons(reg, i, line, ls, u, Outcome(reg', more, u'));
    var q := InputAll(reg', i, ls, u');
    AppendAssoc(written, more, q.written);
  }

  /** When no '\n' is left, the loop is done and the buffer is kept as it is. */
  lemma DrainDone(reg: Registry, i: nat, buf: string, written: string, w: seq<int>)
    requires i < |reg| && IndexOf(buf, '\n') == None
    ensures Drain(reg, i, buf, written, w) == ReadOutcome(Outcome(reg, written, w), buf)
  {
    Framing.SplitNone(buf);
    assert written + [] == written;
  }

  /** The reaping loop of MainLoop: only the open connections stay, in order. */
  function Reap(reg: Registry): (r: Registry)
    ensures |r| <= |reg|
  {
    if reg == [] then []
    else (if reg[0].open then [reg[0]] else []) + Reap(reg[1..])
  }

  /** A freshly accepted connection: the tPlayer defaults, an open socket, and the
      banner and name prompt queued. */
  function NewConn(): (c: Conn)
    ensures c.open && !Active(c) && c.name == [] && c.outbuf == [InitialString, TellName]
  {
    Conn(true, AwaitingName, [], [InitialString, TellName])
  }

  /** The periodic check of MainLoop: it is time when more than MESSAGE_INTERVAL
      seconds have passed since the last tick message. */
  predicate TickDue(last: int, now: int) {
    now > last + MessageInterval
  }

  // ---------------------------------------------------------------------------
  // Properties

  /** Send to a closed connection changes nothing. */
  lemma SendToClosed(reg: Registry, i: nat, ms: seq<string>)
    requires i < |reg| && !reg[i].open
    ensures SendAll(reg, i, ms) == reg
  {
  }

  /** SendToAll appends m to the queue of exactly the open, Playing connections
      other than the excepted one; no other queue and no other field changes. */
  lemma BroadcastExact(reg: Registry, except: Option<nat>, m: string)
    ensures |Broadcast(reg, except, m)| == |reg|
    ensures forall k :: 0 <= k < |reg| ==>
              Broadcast(reg, except, m)[k] ==
              if except != Some(k) && reg[k].open && reg[k].state == Playing
              then reg[k].(outbuf := reg[k].outbuf + [m]) else reg[k]
  {
  }

  /** After reaping no connection is closed, every open one is still there, and
      the list is no longer. */
  lemma {:induction false} ReapSound(reg: Registry)
    ensures |Reap(reg)| <= |reg|
    ensures forall k :: 0 <= k < |Reap(reg)| ==> Reap(reg)[k].open
    ensures forall k :: 0 <= k < |reg| && reg[k].open ==> reg[k] in Reap(reg)
  {
    if reg != [] {
      ReapSound(reg[1..]);
      var head: Registry := if reg[0].open then [reg[0]] else [];
      var r := head + Reap(reg[1..]);
      assert forall k :: 0 <= k < |r| ==> r[k] == if k < |head| then head[k] else Reap(reg[1..])[k - |head|];
      forall k | 0 <= k < |reg| && reg[k].open ensures reg[k] in r {
        if k > 0 { assert reg[k] == reg[1..][k - 1]; }
      }
    }
  }

  /** Reaping preserves order: the survivors of a concatenation are the survivors
      of each part, one after the other. */
  lemma {:induction false} ReapAppend(a: Registry, b: Registry)
    ensures Reap(a + b) == Reap(a) + Reap(b)
  {
    if a == [] {
      assert a + b == b;
    } else {
      assert (a + b)[0] == a[0] && (a + b)[1..] == a[1..] + b;
      ReapAppend(a[1..], b);
    }
  }

  /** Removing one closed connection, as each pass of the reaping loop does,
      leaves the final result of reaping unchanged. */
  lemma ReapDropClosed(reg: Registry, k: nat)
    requires k < |reg| && !reg[k].open
    ensures Reap(reg[..k] + reg[k + 1..]) == Reap(reg)
  {
    var pre, post := reg[..k], reg[k + 1..];
    assert reg == pre + ([reg[k]] + post);
    ReapAppend(pre, [reg[k]] + post);
    ReapAppend(pre, post);
    ReapCons(reg[k], post);
  }

  lemma ReapCons(c: Conn, tail: Registry)
    ensures Reap([c] + tail) == (if c.open then [c] else []) + Reap(tail)
  {
    assert ([c] + tail)[0] == c && ([c] + tail)[1..] == tail;
  }

  /** Reaping a list without closed connections changes nothing. */
  lemma {:induction false} ReapAllOpen(reg: Registry)
    requires forall k :: 0 <= k < |reg| ==> reg[k].open
    ensures Reap(reg) == reg
  {
    if reg != [] {
      ReapAllOpen(reg[1..]);
      assert [reg[0]] + reg[1..] == reg;
    }
  }

  /** The text of DoLook as the player reads it: the room, then, when anyone else
      is here, "You also see " and their names separated by ", " and a period. */
  function CommaJoin(names: seq<string>): string
  {
    if names == [] then []
    else if |names| == 1 then names[0]
    else CommaJoin(names[..|names| - 1]) + ", " + names[|names| - 1]
  }

  lemma {:induction false} ListingText(names: seq<string>)
    ensures Outbound.Concat(Listing(names)) == if names == [] then [] else InTheRoom + CommaJoin(names)
  {
    if |names| == 1 {
      assert Listing(names) == [InTheRoom, names[0]];
      Outbound.ConcatPair(InTheRoom, names[0]);
    } else if |names| > 1 {
      var init := names[..|names| - 1];
      var last := names[|names| - 1];
      ListingText(init);
      assert Listing(names) == Listing(init) + [", ", last];
      Outbound.ConcatAppend(Listing(init), [", ", last]);
      Outbound.ConcatPair(", ", last);
      assert CommaJoin(names) == CommaJoin(init) + ", " + last;
    }
  }

  lemma LookText(names: seq<string>)
    ensures Outbound.Concat(LookLines(names)) ==
              LookString + (if names == [] then [] else InTheRoom + CommaJoin(names) + ".\n")
  {
    var tail: seq<string> := if names == [] then [] else [".\n"];
    var listed := Outbound.Concat(Listing(names));
    ListingText(names);
    Outbound.ConcatAppend([LookString], Listing(names));
    Outbound.ConcatAppend([LookString] + Listing(names), tail);
    Outbound.ConcatOne(LookString);
    if names == [] {
      assert Outbound.Concat(LookLines(names)) == LookString + listed + [];
    } else {
      Outbound.ConcatOne(".\n");
      assert Outbound.Concat(LookLines(names)) == LookString + listed + ".\n";
      AppendAssoc(LookString, InTheRoom + CommaJoin(names), ".\n");
    }
  }

  /** Changing connection i itself does not change whom i sees. */
  lemma {:induction false} OthersIgnoresSelf(reg: Registry, i: nat, c: Conn, n: nat)
    requires i < |reg| && n <= |reg|
    ensures OthersUpTo(reg[i := c], i, n) == OthersUpTo(reg, i, n)
  {
    if n > 0 { OthersIgnoresSelf(reg, i, c, n - 1); }
  }

  /** ProcessPlayerName: an empty line only re-prompts; a name in use by an open,
      Playing connection is refused with ALREADY_CONNECTED and a re-prompt; any
      other name is taken and the password is asked for.  Nobody else is touched. */
  lemma NameStepEffects(reg: Registry, i: nat, line: string)
    requires i < |reg|
    ensures line == [] ==> OnlyTo(reg, NameStep(reg, i, line), i, [TellName])
    ensures line != [] && (exists k :: 0 <= k < |reg| && Active(reg[k]) && reg[k].name == line) ==>
              OnlyTo(reg, NameStep(reg, i, line), i, [AlreadyConnected(line), TellName])
    ensures line != [] && (forall k :: 0 <= k < |reg| ==> !(Active(reg[k]) && reg[k].name == line)) ==>
              NameStep(reg, i, line) == reg[i := Queued(reg[i].(name := line, state := AwaitingPassword), [TellPassword])]
  {
    FindSound(reg, line);
  }

  /** A name of nothing but spaces is refused however it arrives: after the framer
      trims it, the connection stays in AwaitingName and is only prompted again. */
  lemma BlankNameRejected(reg: Registry, i: nat, raw: string, w: seq<int>)
    requires i < |reg| && reg[i].state == AwaitingName
    requires AllAre(raw, ' ')
    ensures Input(reg, i, Trim(raw), w) == Outcome(reg[i := Queued(reg[i], [TellName])], [], w)
  {
    assert Trim(raw) == [];
    assert EraseFirst([], '\r') == [];
  }

  /** A second login under the name of an open, Playing connection is refused and
      the connection stays in AwaitingName. */
  lemma SecondLoginRejected(reg: Registry, i: nat, k: nat, w: seq<int>)
    requires i < |reg| && k < |reg| && reg[i].state == AwaitingName
    requires Active(reg[k]) && reg[k].name != [] && '\r' !in reg[k].name
    ensures var o := Input(reg, i, reg[k].name, w);
            o.written == [] && o.unused == w && o.reg[i].state == AwaitingName &&
            OnlyTo(reg, o.reg, i, [AlreadyConnected(reg[k].name), TellName])
  {
    NameStepEffects(reg, i, reg[k].name);
  }

  /** ProcessPlayerPassword: an empty or wrong password re-prompts and changes no
      state; the right one makes the connection Playing, sends WELCOME and the look
      output to it, and the join notice to exactly the other open, Playing ones. */
  lemma PasswordStepEffects(reg: Registry, i: nat, line: string)
    requires i < |reg|
    ensures line == [] ==> OnlyTo(reg, PasswordStep(reg, i, line), i, [TellPassword])
    ensures line != [] && line != reg[i].name ==>
              OnlyTo(reg, PasswordStep(reg, i, line), i, [PasswordIncorrect, TellPassword])
    ensures line != [] && line == reg[i].name ==>
              var r := PasswordStep(reg, i, line);
              |r| == |reg| &&
              r[i] == Queued(reg[i].(state := Playing), [Welcome(line)] + LookLines(Others(reg, i))) &&
              forall k :: 0 <= k < |reg| && k != i ==>
                r[k] == if Active(reg[k]) then Queued(reg[k], [Joined(line)]) else reg[k]
  {
    if line != [] && line == reg[i].name {
      var r1 := reg[i := reg[i].(state := Playing)];
      var r2 := Send(r1, i, Welcome(line));
      OthersIgnoresSelf(reg, i, r1[i], |reg|);
      OthersIgnoresSelf(r1, i, r2[i], |reg|);
      assert Others(r2, i) == Others(reg, i);
    }
  }

  /** DoSay: empty text gets "Say what?" and nothing is broadcast; otherwise the
      sender gets its echo and exactly the other open, Playing connections hear it. */
  lemma SayEffects(reg: Registry, i: nat, what: string)
    requires i < |reg|
    ensures what == [] ==> OnlyTo(reg, Say(reg, i, what), i, [SayWhat])
    ensures what != [] ==>
              var r := Say(reg, i, what);
              |r| == |reg| && r[i] == Queued(reg[i], [YouSay(what)]) &&
              forall k :: 0 <= k < |reg| && k != i ==>
                r[k] == if Active(reg[k]) then Queued(reg[k], [SomeoneSays(reg[i].name, what)]) else reg[k]
  {
  }

  /** DoTell checks in a fixed order, and each failed check queues one error message
      to the sender only; only when all pass is one message queued to the sender and
      one to the target. */
  lemma TellEffects(reg: Registry, i: nat, what: string)
    requires i < |reg|
    ensures what == [] ==> OnlyTo(reg, Tell(reg, i, what), i, [TellWhom])
    ensures what != [] && GetWord(what).rest == [] ==>
              OnlyTo(reg, Tell(reg, i, what), i, [TellWhat(GetWord(what).word)])
    ensures what != [] && GetWord(what).rest != [] && Find(reg, GetWord(what).word).None? ==>
              OnlyTo(reg, Tell(reg, i, what), i, [NotConnected(GetWord(what).word)])
    ensures what != [] && GetWord(what).rest != [] && Find(reg, GetWord(what).word) == Some(i) ==>
              OnlyTo(reg, Tell(reg, i, what), i, [NotSelf])
    ensures what != [] && GetWord(what).rest != [] && Find(reg, GetWord(what).word).Some? &&
            Find(reg, GetWord(what).word) != Some(i) ==>
              var g := GetWord(what);
              var j := Find(reg, g.word).value;
              Tell(reg, i, what) ==
                reg[i := Queued(reg[i], [YouTell(g.word, g.rest)])][j := Queued(reg[j], [SomeoneTells(reg[i].name, g.rest)])]
  {
  }

  /** The case of DoTell where every check passes, as two sends. */
  lemma TellDelivered(reg: Registry, i: nat, what: string, j: nat)
    requires i < |reg| && what != [] && GetWord(what).rest != []
    requires Find(reg, GetWord(what).word) == Some(j) && j != i
    ensures Tell(reg, i, what) ==
            Send(Send(reg, i, YouTell(GetWord(what).word, GetWord(what).rest)), j, SomeoneTells(reg[i].name, GetWord(what).rest))
  {
  }

  /** "tell alice" with no text asks "Tell alice what?" and delivers nothing. */
  lemma TellWithoutText(reg: Registry, i: nat, who: string)
    requires i < |reg| && who != [] && ' ' !in who
    ensures OnlyTo(reg, Tell(reg, i, who), i, [TellWhat(who)])
  {
    GetWordAlone(who);
  }

  /** "tell bob hello" when no open, Playing connection is called bob only tells the
      sender that bob is not connected; no confirmation, nothing to anyone else. */
  lemma TellAbsent(reg: Registry, i: nat, who: string, text: string)
    requires i < |reg| && ' ' !in who && text != [] && NoEdgeSpaces(text)
    requires forall k :: 0 <= k < |reg| ==> !(Active(reg[k]) && reg[k].name == who)
    ensures OnlyTo(reg, Tell(reg, i, who + " " + text), i, [NotConnected(who)])
  {
    GetWordJoin(who, text);
  }

  /** DoQuit from Playing: the departure notice reaches every other open, Playing
      connection exactly once, the leaver is closed, and the bytes written to it
      followed by what is left in its queue are its old queue plus FINAL_STRING.
      From any other state the connection is only closed. */
  lemma QuitEffects(reg: Registry, i: nat, w: seq<int>)
    requires i < |reg|
    ensures var o := Quit(reg, i, w);
            |o.reg| == |reg| && !o.reg[i].open && o.reg[i].state == reg[i].state && o.reg[i].name == reg[i].name
    ensures reg[i].state == Playing ==>
              var o := Quit(reg, i, w);
              (forall k :: 0 <= k < |reg| && k != i ==>
                 o.reg[k] == if Active(reg[k]) then Queued(reg[k], [Departed(reg[i].name)]) else reg[k]) &&
              (reg[i].open ==>
                 o.written + Outbound.Concat(o.reg[i].outbuf) == Outbound.Concat(reg[i].outbuf + [FinalString])) &&
              (!reg[i].open ==> o.written == [] && o.unused == w)
    ensures reg[i].state != Playing ==> Quit(reg, i, w) == Outcome(Close(reg, i), [], w)
  {
    if reg[i].state == Playing && reg[i].open {
      Outbound.FlushConserves(reg[i].outbuf + [FinalString], w);
    }
  }

  /** ProcessCommand: a verb other than quit, look, say and tell gets "Huh?" only. */
  lemma UnknownVerb(reg: Registry, i: nat, line: string, w: seq<int>)
    requires i < |reg|
    requires GetWord(line).word !in {"quit", "look", "say", "tell"}
    ensures Command(reg, i, line, w) == Outcome(reg[i := Queued(reg[i], [Huh])], [], w)
  {
  }

  // The invariants one line of input keeps.

  function Rank(s: ConnState): nat {
    match s
    case AwaitingName => 0
    case AwaitingPassword => 1
    case Playing => 2
  }

  predicate IsPrefix(a: seq<string>, b: seq<string>) {
    |a| <= |b| && b[..|a|] == a
  }

  /** What input on connection i may do: the other connections only receive more
      output; i itself never goes back in the login dialog, is never reopened, and
      keeps its name once Playing. */
  predicate Evolves(a: Registry, b: Registry, i: nat) {
    |a| == |b| && i < |a| &&
    (forall k :: 0 <= k < |a| && k != i ==>
       b[k].open == a[k].open && b[k].state == a[k].state && b[k].name == a[k].name &&
       IsPrefix(a[k].outbuf, b[k].outbuf)) &&
    Rank(a[i].state) <= Rank(b[i].state) && (b[i].open ==> a[i].open) &&
    (a[i].state == Playing ==> b[i].name == a[i].name)
  }

  /** Every connection past the name prompt has a non-empty name. */
  predicate Named(reg: Registry) {
    forall k :: 0 <= k < |reg| && reg[k].state != AwaitingName ==> reg[k].name != []
  }

  lemma EvolvesTrans(a: Registry, b: Registry, c: Registry, i: nat)
    requires Evolves(a, b, i) && Evolves(b, c, i)
    ensures Evolves(a, c, i)
  {
    forall k | 0 <= k < |a| && k != i ensures IsPrefix(a[k].outbuf, c[k].outbuf) {
      assert c[k].outbuf[..|b[k].outbuf|][..|a[k].outbuf|] == c[k].outbuf[..|a[k].outbuf|];
    }
  }

  lemma EvolvesRefl(reg: Registry, i: nat)
    requires i < |reg|
    ensures Evolves(reg, reg, i)
  {
    forall k | 0 <= k < |reg| ensures IsPrefix(reg[k].outbuf, reg[k].outbuf) {
      assert reg[k].outbuf[..|reg[k].outbuf|] == reg[k].outbuf;
    }
  }

  lemma QueuedPrefix(c: Conn, ms: seq<string>)
    ensures IsPrefix(c.outbuf, Queued(c, ms).outbuf)
  {
    assert (c.outbuf + ms)[..|c.outbuf|] == c.outbuf;
  }

  lemma SendAllEvolves(reg: Registry, i: nat, j: nat, ms: seq<string>)
    requires i < |reg| && j < |reg|
    ensures Evolves(reg, SendAll(reg, j, ms), i)
  {
    QueuedPrefix(reg[j], ms);
  }

  lemma BroadcastEvolves(reg: Registry, except: Option<nat>, m: string, i: nat)
    requires i < |reg|
    ensures Evolves(reg, Broadcast(reg, except, m), i)
  {
    forall k | 0 <= k < |reg| { QueuedPrefix(reg[k], [m]); }
  }

  lemma PasswordEvolves(reg: Registry, i: nat, line: string)
    requires i < |reg| && reg[i].state == AwaitingPassword
    ensures Evolves(reg, PasswordStep(reg, i, line), i)
  {
    if line == [] {
      SendAllEvolves(reg, i, i, [TellPassword]);
    } else if line != reg[i].name {
      SendAllEvolves(reg, i, i, [PasswordIncorrect, TellPassword]);
    } else {
      var name := reg[i].name;
      var r1 := reg[i := reg[i].(state := Playing)];
      var r2 := Send(r1, i, Welcome(name));
      var r3 := Look(r2, i);
      SendAllEvolves(r1, i, i, [Welcome(name)]);
      SendAllEvolves(r2, i, i, LookLines(Others(r2, i)));
      BroadcastEvolves(r3, Some(i), Joined(name), i);
      EvolvesTrans(reg, r1, r2, i);
      EvolvesTrans(reg, r2, r3, i);
      EvolvesTrans(reg, r3, PasswordStep(reg, i, line), i);
    }
  }

  lemma QuitEvolves(reg: Registry, i: nat, w: seq<int>)
    requires i < |reg|
    ensures Evolves(reg, Quit(reg, i, w).reg, i)
  {
    if reg[i].state == Playing {
      var r1 := Send(reg, i, FinalString);
      var f := FlushConn(r1[i], w);
      var r2 := r1[i := r1[i].(outbuf := f.queue)];
      var r3 := Broadcast(r2, Some(i), Departed(reg[i].name));
      SendAllEvolves(reg, i, i, [FinalString]);
      EvolvesTrans(reg, r1, r2, i);
      BroadcastEvolves(r2, Some(i), Departed(reg[i].name), i);
      EvolvesTrans(reg, r2, r3, i);
      EvolvesTrans(reg, r3, Close(r3, i), i);
    }
  }

  lemma TellEvolves(reg: Registry, i: nat, what: string)
    requires i < |reg|
    ensures Evolves(reg, Tell(reg, i, what), i)
  {
    if what == [] {
      SendAllEvolves(reg, i, i, [TellWhom]);
    } else {
      var g := GetWord(what);
      if g.rest == [] {
        SendAllEvolves(reg, i, i, [TellWhat(g.word)]);
      } else {
        match Find(reg, g.word)
        case None => SendAllEvolves(reg, i, i, [NotConnected(g.word)]);
        case Some(j) =>
          if j == i {
            SendAllEvolves(reg, i, i, [NotSelf]);
          } else {
            var r1 := Send(reg, i, YouTell(g.word, g.rest));
            SendAllEvolves(reg, i, i, [YouTell(g.word, g.rest)]);
            SendAllEvolves(r1, i, j, [SomeoneTells(reg[i].name, g.rest)]);
            EvolvesTrans(reg, r1, Tell(reg, i, what), i);
          }
      }
    }
  }

  lemma CommandEvolves(reg: Registry, i: nat, line: string, w: seq<int>)
    requires i < |reg|
    ensures Evolves(reg, Command(reg, i, line, w).reg, i)
  {
    var g := GetWord(line);
    if g.word == "quit" {
      QuitEvolves(reg, i, w);
    } else if g.word == "look" {
      SendAllEvolves(reg, i, i, LookLines(Others(reg, i)));
    } else if g.word == "say" {
      if g.rest == [] {
        SendAllEvolves(reg, i, i, [SayWhat]);
      } else {
        var r1 := Send(reg, i, YouSay(g.rest));
        SendAllEvolves(reg, i, i, [YouSay(g.rest)]);
        BroadcastEvolves(r1, Some(i), SomeoneSays(reg[i].name, g.rest), i);
        EvolvesTrans(reg, r1, Say(reg, i, g.rest), i);
      }
    } else if g.word == "tell" {
      TellEvolves(reg, i, g.rest);
    } else {
      SendAllEvolves(reg, i, i, [Huh]);
    }
  }

  lemma {:induction false} InputEvolves(reg: Registry, i: nat, line: string, w: seq<int>)
    requires i < |reg|
    ensures Evolves(reg, Input(reg, i, line, w).reg, i)
  {
    var l := EraseFirst(line, '\r');
    match reg[i].state
    case AwaitingName =>
      if l == [] {
        SendAllEvolves(reg, i, i, [TellName]);
      } else if Find(reg, l).Some? {
        SendAllEvolves(reg, i, i, [AlreadyConnected(l), TellName]);
      } else {
        var r1 := reg[i := reg[i].(name := l, state := AwaitingPassword)];
        SendAllEvolves(r1, i, i, [TellPassword]);
        EvolvesTrans(reg, r1, NameStep(reg, i, l), i);
      }
    case AwaitingPassword => PasswordEvolves(reg, i, l);
    case Playing => CommandEvolves(reg, i, l, w);
  }

  /** A whole read's worth of lines keeps the same invariants. */
  lemma {:induction false} InputAllEvolves(reg: Registry, i: nat, lines: seq<string>, w: seq<int>)
    requires i < |reg|
    decreases |lines|
    ensures Evolves(reg, InputAll(reg, i, lines, w).reg, i)
  {
    if lines != [] {
      var o := Input(reg, i, lines[0], w);
      InputEvolves(reg, i, lines[0], w);
      InputAllEvolves(o.reg, i, lines[1..], o.unused);
      EvolvesTrans(reg, o.reg, InputAll(reg, i, lines, w).reg, i);
    } else {
      EvolvesRefl(reg, i);
    }
  }

  /** Nobody gets past the name prompt without a non-empty name, whatever is typed. */
  lemma {:induction false} InputAllKeepsNamed(reg: Registry, i: nat, lines: seq<string>, w: seq<int>)
    requires i < |reg| && Named(reg)
    decreases |lines|
    ensures Named(InputAll(reg, i, lines, w).reg)
  {
    if lines != [] {
      var o := Input(reg, i, lines[0], w);
      InputEvolves(reg, i, lines[0], w);
      assert Named(o.reg) by {
        var l := EraseFirst(lines[0], '\r');
        if reg[i].state == AwaitingName && o.reg[i].state != AwaitingName {
          assert o.reg[i].name == l;
        }
      }
      InputAllKeepsNamed(o.reg, i, lines[1..], o.unused);
    }
  }

  /** A read keeps the invariants of input, and after a read that brought bytes no
      '\n' is left in the buffer: every complete line has been handled. */
  lemma ReadEvolves(reg: Registry, i: nat, inbuf: string, r: ReadResult, w: seq<int>)
    requires i < |reg|
    ensures Evolves(reg, ReadStep(reg, i, inbuf, r, w).out.reg, i)
    ensures Named(reg) ==> Named(ReadStep(reg, i, inbuf, r, w).out.reg)
    ensures r.Received? && r.data != [] ==> Framing.NoNewline(ReadStep(reg, i, inbuf, r, w).inbuf)
  {
    match r
    case ReadError => EvolvesRefl(reg, i);
    case Received(data) =>
      if data == [] {
        QuitEvolves(reg, i, w);
      } else {
        var f := Framing.Split(inbuf + Framing.UpToNul(data));
        Framing.SplitSound(inbuf + Framing.UpToNul(data));
        InputAllEvolves(reg, i, Framing.TrimAll(f.lines), w);
        if Named(reg) { InputAllKeepsNamed(reg, i, Framing.TrimAll(f.lines), w); }
      }
  }

  /** Quitting does not end the read: a "say" on the line after "quit" in the same
      read is still handled, and since SendToAll does not look at the sender, every
      other open, Playing connection hears the departure notice and then the
      departed player speak. */
  lemma SpeechAfterQuit(reg: Registry, i: nat, k: nat, quit: string, line: string, t: string, w: seq<int>)
    requires i < |reg| && k < |reg| && k != i && Active(reg[i]) && Active(reg[k])
    requires t != [] && NoEdgeSpaces(t) && '\r' !in t
    requires quit == "quit" && line == "say" + " " + t
    ensures InputAll(reg, i, [quit, line], w).reg[k].outbuf ==
              reg[k].outbuf + [Departed(reg[i].name)] + [SomeoneSays(reg[i].name, t)]
  {
    var name := reg[i].name;
    var o := Quit(reg, i, w);
    QuitLine(reg, i, quit, w);
    QuitEffects(reg, i, w);
    var r1 := o.reg;
    assert r1[i].state == Playing && r1[i].name == name;
    assert r1[k] == Queued(reg[k], [Departed(name)]);
    SayLine(r1, i, line, t, o.unused);
    SayEffects(r1, i, t);
    var r2 := Say(r1, i, t);
    assert r2[k] == Queued(r1[k], [SomeoneSays(name, t)]);
    InputAllOfTwo(reg, i, quit, line, w, o, Outcome(r2, [], o.unused));
  }

  /** A second "quit" in the same read announces the departure again: ClosePlayer
      leaves the login state at Playing, so every other open, Playing connection
      hears the departure notice twice. */
  lemma DoubleQuitAnnounced(reg: Registry, i: nat, k: nat, quit: string, w: seq<int>)
    requires i < |reg| && k < |reg| && k != i && Active(reg[i]) && Active(reg[k])
    requires quit == "quit"
    ensures InputAll(reg, i, [quit, quit], w).reg[k].outbuf ==
              reg[k].outbuf + [Departed(reg[i].name)] + [Departed(reg[i].name)]
  {
    var name := reg[i].name;
    var o1 := Quit(reg, i, w);
    QuitLine(reg, i, quit, w);
    QuitEffects(reg, i, w);
    var r1 := o1.reg;
    assert r1[i].state == Playing && r1[i].name == name;
    assert r1[k] == Queued(reg[k], [Departed(name)]);
    var o2 := Quit(r1, i, o1.unused);
    QuitLine(r1, i, quit, o1.unused);
    QuitEffects(r1, i, o1.unused);
    assert o2.reg[k] == Queued(r1[k], [Departed(name)]);
    InputAllOfTwo(reg, i, quit, quit, w, o1, o2);
  }

  /** Two lines are handled one after the other. */
  lemma InputAllOfTwo(reg: Registry, i: nat, a: string, b: string, w: seq<int>, o1: Outcome, o2: Outcome)
    requires i < |reg| && Input(reg, i, a, w) == o1 && i < |o1.reg| && Input(o1.reg, i, b, o1.unused) == o2
    ensures InputAll(reg, i, [a, b], w).reg == o2.reg
  {
    InputAllCons(reg, i, a, [b], w, o1);
    InputAllCons(o1.reg, i, b, [], o1.unused, o2);
    assert [a] + [b] == [a, b] && [b] + [] == [b];
  }

  /** The line "quit" from a Playing connection is DoQuit. */
  lemma QuitLine(reg: Registry, i: nat, quit: string, w: seq<int>)
    requires i < |reg| && reg[i].state == Playing && quit == "quit"
    ensures Input(reg, i, quit, w) == Quit(reg, i, w)
  {
    GetWordAlone(quit);
    assert GetWord(quit).word == quit;
    assert Command(reg, i, quit, w) == Quit(reg, i, w);
    assert '\r' !in quit;
    assert EraseFirst(quit, '\r') == quit;
  }

  /** The line "say t" from a Playing connection is DoSay with t. */
  lemma SayLine(reg: Registry, i: nat, line: string, t: string, w: seq<int>)
    requires i < |reg| && reg[i].state == Playing && NoEdgeSpaces(t) && '\r' !in t
    requires line == "say" + " " + t
    ensures Input(reg, i, line, w) == Outcome(Say(reg, i, t), [], w)
  {
    NoReturnIn("say" + " ", t);
    GetWordJoin("say", t);
    SayCommand(reg, i, line, t, w);
  }

  /** A line whose verb is "say" is DoSay with the rest of the line. */
  lemma SayCommand(reg: Registry, i: nat, line: string, t: string, w: seq<int>)
    requires i < |reg| && GetWord(line) == WordSplit("say", t)
    ensures Command(reg, i, line, w) == Outcome(Say(reg, i, t), [], w)
  {
  }

  lemma NoReturnIn(a: string, b: string)
    requires '\r' !in a && '\r' !in b
    ensures '\r' !in a + b
  {
  }

  /** The name check is not enough to keep names unique: two connections that both
      enter "bob" before either has given the password are both let in. */
  lemma DuplicateNamesReachable()
    ensures var c := Conn(true, AwaitingName, [], []);
            var o := InputAll([c, c], 0, ["bob"], []);
            var p := InputAll(o.reg, 1, ["bob", "bob"], o.unused);
            var q := InputAll(p.reg, 0, ["bob"], p.unused);
            Active(q.reg[0]) && Active(q.reg[1]) && q.reg[0].name == q.reg[1].name == "bob"
  {
    var c := Conn(true, AwaitingName, [], []);
    var bob := "bob";
    assert EraseFirst(bob, '\r') == bob;
    var r0 := [c, c];
    assert Find(r0, bob).None?;
    var r1 := NameStep(r0, 0, bob);
    assert r1[0].state == AwaitingPassword && r1[1] == c;
    assert Find(r1, bob).None?;
    var r2 := NameStep(r1, 1, bob);
    assert r2[1].state == AwaitingPassword && r2[1].name == bob;
    var r3 := PasswordStep(r2, 1, bob);
    assert Active(r3[1]) && r3[0].state == AwaitingPassword && r3[0].name == bob;
    var r4 := PasswordStep(r3, 0, bob);
    assert Active(r4[0]) && Active(r4[1]);
  }

  // The periodic tick.

  /** The times, among the successive values of now, at which MainLoop sends the
      tick message, starting from tLastMessage == last. */
  function TickTimes(last: int, nows: seq<int>): (r: seq<int>)
    decreases |nows|
    ensures |r| <= |nows|
  {
    if nows == [] then []
    else if TickDue(last, nows[0]) then [nows[0]] + TickTimes(nows[0], nows[1..])
    else TickTimes(last, nows[1..])
  }

  /** Tick messages are more than MESSAGE_INTERVAL apart, however often the loop
      runs: at most one per interval. */
  lemma {:induction false} TicksSpaced(last: int, nows: seq<int>)
    decreases |nows|
    ensures forall a :: 0 <= a < |TickTimes(last, nows)| ==> TickTimes(last, nows)[a] > last + MessageInterval
    ensures forall a, b :: 0 <= a < b < |TickTimes(last, nows)| ==>
              TickTimes(last, nows)[b] > TickTimes(last, nows)[a] + MessageInterval
  {
    if nows != [] {
      if TickDue(last, nows[0]) {
        TicksSpaced(nows[0], nows[1..]);
        var t' := TickTimes(nows[0], nows[1..]);
        var t := [nows[0]] + t';
        assert t == TickTimes(last, nows);
        assert nows[0] > last + MessageInterval;
        assert forall a :: 0 <= a < |t'| ==> t'[a] > nows[0] + MessageInterval;
        assert forall a :: 1 <= a < |t| ==> t[a] == t'[a - 1];
        assert forall a :: 0 <= a < |t| ==> t[a] > last + MessageInterval;
        forall a, b | 0 <= a < b < |t| ensures t[b] > t[a] + MessageInterval {
          if a > 0 { assert t[a] == t'[a - 1] && t[b] == t'[b - 1]; }
        }
      } else {
        TicksSpaced(last, nows[1..]);
      }
    }
  }
}
