/** The server as tinymudserver.cpp runs it: tPlayer objects whose fields the
    handlers update in place, and the global player list and tick clock.  Each
    handler is proved to change the list exactly as the Session function it
    corresponds to describes: ProcessPlayerName is NameStep, ProcessPlayerPassword
    is PasswordStep, DoQuit is Quit, ProcessRead is ReadStep, SendToAll is
    Broadcast, ClosePlayer is Close, WriteTo is FlushConn, and so on. */
module Server {
  import opened Wrappers
  import opened Text
  import Framing
  import Outbound
  import Session

  /** tPlayer.  The socket descriptor becomes `open` (s != NO_SOCKET). */
  class Player {
    var open: bool
    var connstate: Session.ConnState
    var playername: string
    var outbuf: seq<string>
    var inbuf: string

    /** A player with no socket yet, waiting for a name. */
    constructor ()
      ensures !open && connstate == Session.AwaitingName && playername == [] && outbuf == [] && inbuf == []
    {
      open := false;
      connstate := Session.AwaitingName;
      playername := [];
      outbuf := [];
      inbuf := [];
    }

    /** What the session logic sees of this player. */
    function Snapshot(): Session.Conn
      reads this
    {
      Session.Conn(open, connstate, playername, outbuf)
    }

    /** Send: queue one message, unless the socket is closed. */
    method Send(m: string)
      modifies this`outbuf
      ensures Snapshot() == Session.Queued(old(Snapshot()), [m])
    {
      if !open {
        return;
      }
      outbuf := outbuf + [m];
    }

    /** ClosePlayer. */
    method Close()
      modifies this`open
      ensures Snapshot() == old(Snapshot()).(open := false)
    {
      open := false;
    }

    /** ProcessWrite: write queued chunks until the queue is empty or a write comes
        back failed or short; `sent` is what reached the socket. */
    method ProcessWrite(w: seq<int>) returns (sent: string, unused: seq<int>)
      modifies this`outbuf
      ensures Outbound.Flushed(sent, outbuf, unused) == Session.FlushConn(old(Snapshot()), w)
    {
      sent, unused := [], w;
      while open && outbuf != []
        invariant !open ==> sent == [] && unused == w && outbuf == old(outbuf)
        invariant open ==>
                    var f := Outbound.Flush(outbuf, unused);
                    Outbound.Flush(old(outbuf), w) == Outbound.Flushed(sent + f.sent, f.queue, f.unused)
        decreases |outbuf|
      {
        FlushFront(outbuf, unused);
        var chunk := outbuf[0];
        outbuf := outbuf[1..];
        var n := Outbound.Answer(unused);
        unused := Outbound.Later(unused);
        if n < 0 {
          outbuf := [chunk] + outbuf;
          return;
        }
        if n < |chunk| {
          outbuf := [chunk[n..]] + outbuf;
          sent := sent + chunk[..n];
          return;
        }
        ghost var f := Outbound.Flush(outbuf, unused);
        assert sent + (chunk + f.sent) == (sent + chunk) + f.sent;
        sent := sent + chunk;
      }
    }
  }

  /** One round of the ProcessWrite loop, in the terms of Outbound.Flush. */
  lemma FlushFront(q: seq<string>, w: seq<int>)
    requires q != []
    ensures Outbound.Answer(w) < 0 ==>
              Outbound.Flush(q, w) == Outbound.Flushed([], [q[0]] + q[1..], Outbound.Later(w))
    ensures 0 <= Outbound.Answer(w) < |q[0]| ==>
              var n := Outbound.Answer(w);
              Outbound.Flush(q, w) == Outbound.Flushed(q[0][..n], [q[0][n..]] + q[1..], Outbound.Later(w))
    ensures Outbound.Answer(w) >= |q[0]| ==>
              var f := Outbound.Flush(q[1..], Outbound.Later(w));
              Outbound.Flush(q, w) == Outbound.Flushed(q[0] + f.sent, f.queue, f.unused)
  {
  }

  ghost predicate Distinct(ps: seq<Player>) {
    forall a, b :: 0 <= a < b < |ps| ==> ps[a] != ps[b]
  }

  ghost function Snapshots(ps: seq<Player>): (r: Session.Registry)
    reads ps
    ensures |r| == |ps| && forall k :: 0 <= k < |ps| ==> r[k] == ps[k].Snapshot()
  {
    seq(|ps|, k reads ps requires 0 <= k < |ps| => ps[k].Snapshot())
  }

  /** Erasing one player from the list: the others keep their order and stay distinct. */
  lemma DropOne(ps: seq<Player>, k: nat)
    requires k < |ps| && Distinct(ps)
    ensures Distinct(ps[..k] + ps[k + 1..])
    ensures Snapshots(ps[..k] + ps[k + 1..]) == Snapshots(ps)[..k] + Snapshots(ps)[k + 1..]
    ensures forall p :: p in ps[..k] + ps[k + 1..] ==> p in ps
  {
    var qs := ps[..k] + ps[k + 1..];
    assert forall j :: 0 <= j < |qs| ==> qs[j] == if j < k then ps[j] else ps[j + 1];
    var v := Snapshots(ps);
    assert forall j :: 0 <= j < |qs| ==> Snapshots(qs)[j] == (v[..k] + v[k + 1..])[j];
  }

  /** The player objects with an open socket, in list order. */
  ghost function OpenPlayers(ps: seq<Player>): (r: seq<Player>)
    reads ps
    ensures |r| <= |ps|
  {
    if ps == [] then [] else (if ps[0].open then [ps[0]] else []) + OpenPlayers(ps[1..])
  }

  /** The open players of two lists are those of each, one after the other. */
  lemma {:induction false} OpenPlayersAppend(a: seq<Player>, b: seq<Player>)
    ensures OpenPlayers(a + b) == OpenPlayers(a) + OpenPlayers(b)
  {
    if a == [] {
      assert a + b == b;
    } else {
      assert (a + b)[0] == a[0] && (a + b)[1..] == a[1..] + b;
      OpenPlayersAppend(a[1..], b);
    }
  }

  lemma OpenPlayersCons(p: Player, tail: seq<Player>)
    ensures OpenPlayers([p] + tail) == (if p.open then [p] else []) + OpenPlayers(tail)
  {
    assert ([p] + tail)[0] == p && ([p] + tail)[1..] == tail;
  }

  /** Erasing one closed player does not change which objects are open, nor their order. */
  lemma OpenPlayersDropClosed(ps: seq<Player>, k: nat)
    requires k < |ps| && !ps[k].open
    ensures OpenPlayers(ps[..k] + ps[k + 1..]) == OpenPlayers(ps)
  {
    var pre, post := ps[..k], ps[k + 1..];
    OpenPlayersCons(ps[k], post);
    assert OpenPlayers([ps[k]] + post) == OpenPlayers(post);
    assert ps == pre + ([ps[k]] + post);
    OpenPlayersAppend(pre, [ps[k]] + post);
    OpenPlayersAppend(pre, post);
  }

  /** A list of open players only is its own list of open players. */
  lemma {:induction false} OpenPlayersAllOpen(ps: seq<Player>)
    requires forall k :: 0 <= k < |ps| ==> ps[k].open
    ensures OpenPlayers(ps) == ps
  {
    if ps != [] {
      OpenPlayersAllOpen(ps[1..]);
      assert [ps[0]] + ps[1..] == ps;
    }
  }

  /** What the session logic sees of the open players is the reaped view. */
  lemma {:induction false} SnapshotsOfOpen(ps: seq<Player>)
    ensures Snapshots(OpenPlayers(ps)) == Session.Reap(Snapshots(ps))
  {
    if ps != [] {
      var head := if ps[0].open then [ps[0]] else [];
      SnapshotsOfOpen(ps[1..]);
      SnapshotsAppend(head, OpenPlayers(ps[1..]));
      assert Snapshots(ps)[0] == ps[0].Snapshot();
      assert Snapshots(ps)[1..] == Snapshots(ps[1..]);
      assert Snapshots(head) == if ps[0].open then [ps[0].Snapshot()] else [];
    }
  }

  lemma SnapshotsAppend(a: seq<Player>, b: seq<Player>)
    ensures Snapshots(a + b) == Snapshots(a) + Snapshots(b)
  {
    assert forall k :: 0 <= k < |a + b| ==> Snapshots(a + b)[k] == (Snapshots(a) + Snapshots(b))[k];
  }

  /** The player list and tLastMessage. */
  class Server {
    var players: seq<Player>
    var lastMessage: int

    /** No player object is in the list twice. */
    ghost predicate Valid()
      reads this
    {
      Distinct(players)
    }

    /** The list as the session logic sees it. */
    ghost function View(): Session.Registry
      reads this, players
    {
      Snapshots(players)
    }

    /** InitComms: no players yet, and the tick clock starts now. */
    constructor (now: int)
      ensures players == [] && lastMessage == now && Valid()
    {
      players := [];
      lastMessage := now;
    }

    /** FindPlayer. */
    method FindPlayer(name: string) returns (r: Option<nat>)
      ensures r == Session.Find(View(), name)
    {
      var k := 0;
      while k < |players|
        invariant k <= |players|
        invariant Session.Find(View(), name) == Session.FindFrom(View(), name, k)
      {
        var p := players[k];
        if p.open && p.connstate == Session.Playing && p.playername == name {
          return Some(k);
        }
        k := k + 1;
      }
      return None;
    }

    /** Send to one player; the others are untouched. */
    method SendTo(i: nat, m: string)
      requires Valid() && i < |players|
      modifies {players[i]}`outbuf
      ensures View() == Session.Send(old(View()), i, m)
    {
      players[i].Send(m);
    }

    /** ProcessWrite for one player of the list; the others are untouched. */
    method WriteTo(i: nat, w: seq<int>) returns (written: string, unused: seq<int>)
      requires Valid() && i < |players|
      modifies {players[i]}`outbuf
      ensures var f := Session.FlushConn(old(View())[i], w);
              written == f.sent && unused == f.unused &&
              View() == old(View())[i := old(View())[i].(outbuf := f.queue)]
    {
      ghost var reg := View();
      written, unused := players[i].ProcessWrite(w);
      ghost var f := Session.FlushConn(reg[i], w);
      assert forall j :: 0 <= j < |players| ==> View()[j] == reg[i := reg[i].(outbuf := f.queue)][j];
    }

    /** ClosePlayer for one player of the list; the others are untouched. */
    method ClosePlayer(i: nat)
      requires Valid() && i < |players|
      modifies {players[i]}`open
      ensures View() == Session.Close(old(View()), i)
    {
      ghost var reg := View();
      players[i].Close();
      assert forall j :: 0 <= j < |players| ==> View()[j] == Session.Close(reg, i)[j];
    }

    /** SendToAll: every open, Playing player except `except` gets m. */
    method SendToAll(except: Option<nat>, m: string)
      requires Valid()
      modifies players`outbuf
      ensures View() == Session.Broadcast(old(View()), except, m)
    {
      ghost var reg := View();
      var k := 0;
      while k < |players|
        invariant k <= |players|
        invariant forall j :: 0 <= j < k ==> players[j].Snapshot() == Session.Broadcast(reg, except, m)[j]
        invariant forall j :: k <= j < |players| ==> players[j].Snapshot() == reg[j]
      {
        var p := players[k];
        if except != Some(k) && p.open && p.connstate == Session.Playing {
          p.outbuf := p.outbuf + [m];
        }
        k := k + 1;
      }
    }

    /** DoLook. */
    method DoLook(i: nat)
      requires Valid() && i < |players|
      modifies {players[i]}`outbuf
      ensures View() == Session.Look(old(View()), i)
    {
      ghost var reg := View();
      var p := players[i];
      SendTo(i, Session.LookString);
      Session.LookSendStart(reg, i);
      var others := 0;
      var k := 0;
      while k < |players|
        invariant k <= |players| && Valid()
        invariant others == |Session.OthersUpTo(reg, i, k)|
        invariant View() == Session.SendAll(reg, i, Session.LookPrefix(reg, i, k))
      {
        var otherp := players[k];
        assert otherp.Snapshot() == View()[k];
        assert (otherp != p) == (k != i);
        if otherp != p && otherp.connstate == Session.Playing && otherp.open {
          ghost var sep := if others == 0 then Session.InTheRoom else ", ";
          if others == 0 {
            SendTo(i, Session.InTheRoom);
          } else {
            SendTo(i, ", ");
          }
          others := others + 1;
          SendTo(i, otherp.playername);
          Session.LookSendListed(reg, i, k, sep, otherp.playername);
        } else {
          Session.LookStepSkipped(reg, i, k);
        }
        k := k + 1;
      }
      assert k == |reg|;
      assert (others != 0) == (Session.Others(reg, i) != []);
      Session.LookSendEnd(reg, i);
      if others != 0 {
        SendTo(i, ".\n");
      }
    }

    /** ProcessPlayerName. */
    method ProcessPlayerName(i: nat, line: string)
      requires Valid() && i < |players|
      modifies {players[i]}`outbuf, {players[i]}`playername, {players[i]}`connstate
      ensures View() == Session.NameStep(old(View()), i, line)
    {
      var p := players[i];
      if line == [] {
        p.Send(Session.TellName);
        return;
      }
      var found := FindPlayer(line);
      if found.Some? {
        SendTo(i, Session.AlreadyConnected(line));
        SendTo(i, Session.TellName);
        Session.SendTwice(old(View()), i, Session.AlreadyConnected(line), Session.TellName);
        return;
      }
      p.playername := line;
      p.connstate := Session.AwaitingPassword;
      p.Send(Session.TellPassword);
    }

    /** ProcessPlayerPassword. */
    method ProcessPlayerPassword(i: nat, line: string)
      requires Valid() && i < |players|
      modifies players`outbuf, {players[i]}`connstate
      ensures View() == Session.PasswordStep(old(View()), i, line)
    {
      var p := players[i];
      if line == [] {
        p.Send(Session.TellPassword);
        return;
      }
      if line != p.playername {
        SendTo(i, Session.PasswordIncorrect);
        SendTo(i, Session.TellPassword);
        Session.SendTwice(old(View()), i, Session.PasswordIncorrect, Session.TellPassword);
        return;
      }
      ghost var reg := View();
      p.connstate := Session.Playing;
      ghost var r1 := reg[i := reg[i].(state := Session.Playing)];
      assert forall j :: 0 <= j < |players| ==> View()[j] == r1[j];
      assert View() == r1;
      var name := p.playername;
      SendTo(i, Session.Welcome(name));
      ghost var r2 := View();
      assert r2 == Session.Send(r1, i, Session.Welcome(reg[i].name));
      DoLook(i);
      assert View() == Session.Look(r2, i);
      SendToAll(Some(i), Session.Joined(name));
    }

    /** DoQuit; `written` is what the forced ProcessWrite put on the socket. */
    method DoQuit(i: nat, w: seq<int>) returns (written: string, unused: seq<int>)
      requires Valid() && i < |players|
      modifies players`outbuf, {players[i]}`open
      ensures Session.Outcome(View(), written, unused) == Session.Quit(old(View()), i, w)
    {
      var p := players[i];
      written, unused := [], w;
      if p.connstate == Session.Playing {
        var name := p.playername;
        SendTo(i, Session.FinalString);
        written, unused := WriteTo(i, w);
        SendToAll(Some(i), Session.Departed(name));
      }
      ClosePlayer(i);
    }

    /** DoSay. */
    method DoSay(i: nat, what: string)
      requires Valid() && i < |players|
      modifies players`outbuf
      ensures View() == Session.Say(old(View()), i, what)
    {
      var p := players[i];
      if what == [] {
        p.Send(Session.SayWhat);
      } else {
        p.Send(Session.YouSay(what));
        SendToAll(Some(i), Session.SomeoneSays(p.playername, what));
      }
    }

    /** DoTell. */
    method DoTell(i: nat, what: string)
      requires Valid() && i < |players|
      modifies players`outbuf
      ensures View() == Session.Tell(old(View()), i, what)
    {
      if what == [] {
        SendTo(i, Session.TellWhom);
        return;
      }
      var g := GetWord(what);
      if g.rest == [] {
        SendTo(i, Session.TellWhat(g.word));
        return;
      }
      TellTo(i, g.word, g.rest);
    }

    /** The second half of DoTell: find the target and deliver the text. */
    method TellTo(i: nat, who: string, text: string)
      requires Valid() && i < |players|
      modifies players`outbuf
      ensures View() == Session.TellTo(old(View()), i, who, text)
    {
      var target := FindPlayer(who);
      if target.None? {
        SendTo(i, Session.NotConnected(who));
        return;
      }
      // p == ptarget: the objects are distinct, so this is the same position
      var j := target.value;
      if j == i {
        SendTo(i, Session.NotSelf);
        return;
      }
      var name := players[i].playername;
      SendTo(i, Session.YouTell(who, text));
      SendTo(j, Session.SomeoneTells(name, text));
    }

    /** ProcessCommand. */
    method ProcessCommand(i: nat, line: string, w: seq<int>) returns (written: string, unused: seq<int>)
      requires Valid() && i < |players|
      modifies players`outbuf, {players[i]}`open
      ensures Session.Outcome(View(), written, unused) == Session.Command(old(View()), i, line, w)
    {
      written, unused := [], w;
      var g := GetWord(line);
      if g.word == "quit" {
        written, unused := DoQuit(i, w);
      } else if g.word == "look" {
        DoLook(i);
      } else if g.word == "say" {
        DoSay(i, g.rest);
      } else if g.word == "tell" {
        DoTell(i, g.rest);
      } else {
        SendTo(i, Session.Huh);
      }
    }

    /** ProcessPlayerInput. */
    method ProcessPlayerInput(i: nat, line: string, w: seq<int>) returns (written: string, unused: seq<int>)
      requires Valid() && i < |players|
      modifies players`outbuf, {players[i]}`open, {players[i]}`playername, {players[i]}`connstate
      ensures Session.Outcome(View(), written, unused) == Session.Input(old(View()), i, line, w)
    {
      var l := EraseFirst(line, '\r');
      written, unused := [], w;
      match players[i].connstate
      case AwaitingName => ProcessPlayerName(i, l);
      case AwaitingPassword => ProcessPlayerPassword(i, l);
      case Playing => written, unused := ProcessCommand(i, l, w);
    }

    /** ProcessRead, given what read() returned. */
    method ProcessRead(i: nat, r: Session.ReadResult, w: seq<int>) returns (written: string, unused: seq<int>)
      requires Valid() && i < |players|
      modifies players`outbuf, {players[i]}`open, {players[i]}`playername, {players[i]}`connstate, {players[i]}`inbuf
      ensures Session.ReadOutcome(Session.Outcome(View(), written, unused), players[i].inbuf) ==
              Session.ReadStep(old(View()), i, old(players[i].inbuf), r, w)
    {
      var p := players[i];
      written, unused := [], w;
      match r
      case ReadError =>
        return;
      case Received(data) =>
        if data == [] {
          written, unused := DoQuit(i, w);
          return;
        }
        ghost var target := Session.ReadStep(View(), i, p.inbuf, r, w);
        Session.ReadIsDrain(View(), i, p.inbuf, data, w);
        p.inbuf := p.inbuf + Framing.UpToNul(data);
        assert View() == old(View());
        while true
          invariant Session.Drain(View(), i, p.inbuf, written, unused) == target
          decreases |p.inbuf|
        {
          var found := IndexOf(p.inbuf, '\n');
          if found.None? {
            Session.DrainDone(View(), i, p.inbuf, written, unused);
            break;
          }
          var k := found.value;
          var line := p.inbuf[..k];
          ghost var buf := p.inbuf;
          ghost var reg := View();
          ghost var before := written;
          ghost var u := unused;
          p.inbuf := p.inbuf[k + 1..];
          assert View() == reg;
          var more;
          more, unused := ProcessPlayerInput(i, Trim(line), unused);
          written := written + more;
          Session.ReadLineStep(reg, View(), i, buf, k, u, before, more, unused);
        }
    }

    /** The reaping loop of MainLoop: drop every closed player, starting over from
        the front after each removal. */
    method Reap()
      requires Valid()
      modifies this`players
      ensures Valid() && View() == Session.Reap(old(View()))
      ensures players == OpenPlayers(old(players))
      ensures forall p :: p in players ==> p in old(players)
    {
      var k := 0;
      while k < |players|
        invariant k <= |players| && Valid()
        invariant forall j :: 0 <= j < k ==> players[j].open
        invariant OpenPlayers(players) == OpenPlayers(old(players))
        invariant forall p :: p in players ==> p in old(players)
        decreases |players|, |players| - k
      {
        if !players[k].open {
          DropOne(players, k);
          OpenPlayersDropClosed(players, k);
          players := players[..k] + players[k + 1..];
          k := 0;
        } else {
          k := k + 1;
        }
      }
      OpenPlayersAllOpen(players);
      SnapshotsOfOpen(old(players));
    }

    /** The periodic tick of MainLoop, with `now` the clock reading. */
    method Tick(now: int)
      requires Valid()
      modifies this`lastMessage, players`outbuf
      ensures Session.TickDue(old(lastMessage), now) ==>
                View() == Session.Broadcast(old(View()), None, Session.TickMessage) && lastMessage == now
      ensures !Session.TickDue(old(lastMessage), now) ==> View() == old(View()) && lastMessage == old(lastMessage)
    {
      if now > lastMessage + Session.MessageInterval {
        SendToAll(None, Session.TickMessage);
        lastMessage := now;
      }
    }

    /** ProcessNewConnection, for one accepted socket: a new player at the end of
        the list, greeted and asked for a name. */
    method Accept() returns (p: Player)
      requires Valid()
      modifies this`players
      ensures fresh(p) && players == old(players) + [p] && p.inbuf == []
      ensures Valid() && View() == old(View()) + [Session.NewConn()]
    {
      p := new Player();
      p.open := true;
      players := players + [p];
      p.Send(Session.InitialString);
      p.Send(Session.TellName);
      assert forall j :: 0 <= j < |players| ==> View()[j] == (old(View()) + [Session.NewConn()])[j];
    }
  }
}
