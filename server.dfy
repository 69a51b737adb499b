/**
 * The run coordinator and stream hub of the backend: the module-level
 * `lastChoice`, `userParams` and `clients` variables, and the handlers that
 * update them. Node runs each handler to completion before the next one, so
 * each handler is one method call on a `Server` object.
 */
module Server {
  import opened Wrappers
  import opened Dispatch
  import LineFramer

  /** A stream client: one open `/stream` response object. */
  type ClientId = nat

  /** One effect on a client's response: `res.write(text)` or `res.end()`. */
  datatype Effect = Write(client: ClientId, text: string) | End(client: ClientId)

  function DataFrame(line: string): string {
    "data: " + line + "\n\n"
  }

  const EndFrame: string := "event: end\ndata: done\n\n"

  /** The error frame; `encoded` is the JSON text of the spawn error's message. */
  function ErrorFrame(encoded: string): string {
    "event: error\ndata: " + encoded + "\n\n"
  }

  predicate NoDup(s: seq<ClientId>) {
    forall i, j :: 0 <= i < j < |s| ==> s[i] != s[j]
  }

  /** `clients.filter(c => c !== id)`. */
  function Remove(s: seq<ClientId>, id: ClientId): seq<ClientId> {
    if s == [] then [] else (if s[0] == id then [] else [s[0]]) + Remove(s[1..], id)
  }

  /** One write of `text` to each client, in list order. */
  function Broadcast(clients: seq<ClientId>, text: string): seq<Effect> {
    if clients == [] then []
    else Broadcast(clients[..|clients| - 1], text) + [Write(clients[|clients| - 1], text)]
  }

  /** Forwarding `lines`: line by line, each line to every client in list order. */
  function Fanout(lines: seq<string>, clients: seq<ClientId>): seq<Effect> {
    if lines == [] then []
    else Fanout(lines[..|lines| - 1], clients) + Broadcast(clients, DataFrame(lines[|lines| - 1]))
  }

  /** A terminal event: to each client in list order, `frame` and then `end()`. */
  function Finish(clients: seq<ClientId>, frame: string): seq<Effect> {
    if clients == [] then []
    else
      var c := clients[|clients| - 1];
      Finish(clients[..|clients| - 1], frame) + [Write(c, frame), End(c)]
  }

  /** The texts written to client `c`, in order. */
  function Received(effects: seq<Effect>, c: ClientId): seq<string> {
    if effects == [] then []
    else
      var e := effects[|effects| - 1];
      Received(effects[..|effects| - 1], c) + (if e.Write? && e.client == c then [e.text] else [])
  }

  /** How many times `end()` was called on client `c`. */
  function Ends(effects: seq<Effect>, c: ClientId): nat {
    if effects == [] then 0
    else
      var e := effects[|effects| - 1];
      Ends(effects[..|effects| - 1], c) + (if e == End(c) then 1 else 0)
  }

  function DataFrames(lines: seq<string>): (r: seq<string>)
    ensures |r| == |lines| && forall k :: 0 <= k < |lines| ==> r[k] == DataFrame(lines[k])
  {
    seq(|lines|, k requires 0 <= k < |lines| => DataFrame(lines[k]))
  }

  /**
   * The process a run request starts, if any: none when no algorithm was
   * chosen; otherwise the sorting executable exactly for an id outside the
   * table, with the stringified parameters ending its argument list after at
   * most one leading word.
   */
  function Launch(choice: string, params: seq<Param>): (r: Option<Invocation>)
    ensures r.None? <==> choice == ""
    ensures r.Some? ==> r.value == Resolve(choice, params)
    ensures r.Some? ==> (r.value.exe == SortingAlgorithm <==> choice !in Table)
    ensures r.Some? ==> |params| <= |r.value.args| <= |params| + 1 && r.value.args[|r.value.args| - |params|..] == Stringify(params)
  {
    if choice == "" then None
    else
      ResolveForwardsParams(choice, params);
      OnlyFallbackForwardsId(choice, params);
      Some(Resolve(choice, params))
  }

  class Server {
    var lastChoice: string
    var userParams: seq<Param>
    var clients: seq<ClientId>
    /** Every write and end performed on any client, in order. */
    var effects: seq<Effect>
    /** Every process started, in order. */
    var spawned: seq<Invocation>
    /** Every client that ever connected (each response object is new). */
    ghost var seen: set<ClientId>

    ghost predicate Valid()
      reads this
    {
      && NoDup(clients)
      && (forall c :: c in clients ==> c in seen)
      && (forall c :: c in clients ==> Ends(effects, c) == 0)
      && (forall k :: 0 <= k < |effects| ==> effects[k].client in seen)
    }

    constructor ()
      ensures Valid()
      ensures lastChoice == "" && userParams == [] && clients == []
      ensures effects == [] && spawned == [] && seen == {}
    {
      lastChoice, userParams, clients := "", [], [];
      effects, spawned := [], [];
      seen := {};
    }

    /** `POST /run-:algorithm`: record the choice and its parameters, then start. */
    method Run(algorithm: string, bodyArray: Option<seq<Param>>)
      requires Valid()
      modifies this
      ensures Valid()
      ensures lastChoice == algorithm
      ensures userParams == (if bodyArray.Some? then bodyArray.value else [])
      ensures var started := Launch(algorithm, userParams);
        spawned == old(spawned) + (if started.Some? then [started.value] else [])
      ensures clients == old(clients) && effects == old(effects) && seen == old(seen)
    {
      lastChoice := algorithm;
      userParams := if bodyArray.Some? then bodyArray.value else [];
      StartProcess();
    }

    /** `startProcess`: nothing without a chosen algorithm, else spawn the resolved command. */
    method StartProcess()
      requires Valid()
      modifies this`spawned
      ensures Valid()
      ensures var started := Launch(lastChoice, userParams);
        spawned == old(spawned) + (if started.Some? then [started.value] else [])
      ensures lastChoice == "" ==> spawned == old(spawned)
    {
      if lastChoice == "" {
        return;
      }
      var invocation := Resolve(lastChoice, userParams);
      spawned := spawned + [invocation];
    }

    /** `GET /stream`: the new client joins the end of the list. */
    method Connect(id: ClientId)
      requires Valid() && id !in seen
      modifies this
      ensures Valid()
      ensures clients == old(clients) + [id] && seen == old(seen) + {id}
      ensures effects == old(effects) && spawned == old(spawned)
      ensures lastChoice == old(lastChoice) && userParams == old(userParams)
    {
      ConnectKeepsOthers(effects, id, clients, seen);
      clients := clients + [id];
      seen := seen + {id};
    }

    /** The client's `close` event: the list without that client. */
    method Disconnect(id: ClientId)
      requires Valid()
      modifies this`clients
      ensures Valid()
      ensures clients == Remove(old(clients), id)
    {
      RemoveMembers(clients, id);
      RemoveNoDup(clients, id);
      clients := Remove(clients, id);
    }

    /** The child's stdout `data` event: each line of the chunk to every client. */
    method OnStdout(chunk: string)
      requires Valid()
      modifies this`effects
      ensures Valid()
      ensures effects == old(effects) + Fanout(LineFramer.Lines(chunk), clients)
    {
      var lines := LineFramer.Lines(chunk);
      ghost var before := effects;
      var i := 0;
      while i < |lines|
        invariant 0 <= i <= |lines|
        invariant effects == before + Fanout(lines[..i], clients)
      {
        var next := i + 1;
        var frame := DataFrame(lines[i]);
        ghost var f := Fanout(lines[..i], clients);
        FanoutSnoc(lines, clients, i, next);
        WriteAll(frame);
        assert effects == before + (f + Broadcast(clients, frame));
        i := next;
      }
      assert lines[..i] == lines;
      FanoutKeepsEnds(before, lines, clients, seen);
    }

    /** `clients.forEach(c => c.write(frame))`. */
    method WriteAll(frame: string)
      modifies this`effects
      ensures effects == old(effects) + Broadcast(clients, frame)
    {
      var j := 0;
      while j < |clients|
        invariant 0 <= j <= |clients|
        invariant effects == old(effects) + Broadcast(clients[..j], frame)
      {
        var next := j + 1;
        BroadcastSnoc(clients, frame, j, next);
        effects := effects + [Write(clients[j], frame)];
        j := next;
      }
      assert clients[..j] == clients;
    }

    /** The child's `close` event: end frame and `end()` to every client, then an empty list. */
    method OnClose(code: int)
      requires Valid()
      modifies this`effects, this`clients
      ensures Valid()
      ensures effects == old(effects) + Finish(old(clients), EndFrame)
      ensures clients == []
      ensures forall c :: c in old(clients) ==> Ends(effects, c) == 1
    {
      Terminate(EndFrame);
    }

    /** The child's `error` event: error frame and `end()` to every client, then an empty list. */
    method OnError(encoded: string)
      requires Valid()
      modifies this`effects, this`clients
      ensures Valid()
      ensures effects == old(effects) + Finish(old(clients), ErrorFrame(encoded))
      ensures clients == []
      ensures forall c :: c in old(clients) ==> Ends(effects, c) == 1
    {
      Terminate(ErrorFrame(encoded));
    }

    method Terminate(frame: string)
      requires Valid()
      modifies this`effects, this`clients
      ensures Valid()
      ensures effects == old(effects) + Finish(old(clients), frame)
      ensures clients == []
      ensures forall c :: c in old(clients) ==> Ends(effects, c) == 1
    {
      var j := 0;
      while j < |clients|
        invariant 0 <= j <= |clients|
        invariant clients == old(clients)
        invariant effects == old(effects) + Finish(clients[..j], frame)
      {
        assert clients[..j + 1][..j] == clients[..j];
        effects := effects + [Write(clients[j], frame), End(clients[j])];
        j := j + 1;
      }
      assert clients[..j] == clients;
      forall c | c in clients
        ensures Ends(effects, c) == 1
      {
        EndsAppend(old(effects), Finish(clients, frame), c);
        FinishEnds(clients, frame, c);
      }
      FinishClients(clients, frame);
      clients := [];
    }
  }

  // ----- lemmas about what each client receives -----

  lemma BroadcastSnoc(clients: seq<ClientId>, text: string, j: int, next: int)
    requires 0 <= j < |clients| && next == j + 1
    ensures Broadcast(clients[..next], text) == Broadcast(clients[..j], text) + [Write(clients[j], text)]
  {
    assert clients[..next][..j] == clients[..j];
  }

  lemma FanoutSnoc(lines: seq<string>, clients: seq<ClientId>, i: int, next: int)
    requires 0 <= i < |lines| && next == i + 1
    ensures Fanout(lines[..next], clients) == Fanout(lines[..i], clients) + Broadcast(clients, DataFrame(lines[i]))
  {
    assert lines[..next][..i] == lines[..i];
  }

  /** Forwarding lines writes only to listed clients and ends none of them. */
  lemma FanoutKeepsEnds(before: seq<Effect>, lines: seq<string>, clients: seq<ClientId>, seen: set<ClientId>)
    requires NoDup(clients) && (forall c :: c in clients ==> c in seen)
    requires forall c :: c in clients ==> Ends(before, c) == 0
    requires forall k :: 0 <= k < |before| ==> before[k].client in seen
    ensures forall c :: c in clients ==> Ends(before + Fanout(lines, clients), c) == 0
    ensures forall k :: 0 <= k < |before + Fanout(lines, clients)| ==> (before + Fanout(lines, clients))[k].client in seen
  {
    var f := Fanout(lines, clients);
    FanoutClients(lines, clients);
    forall c | c in clients
      ensures Ends(before + f, c) == 0
    {
      EndsAppend(before, f, c);
      FanoutReceived(lines, clients, c);
    }
    forall k | 0 <= k < |before + f|
      ensures (before + f)[k].client in seen
    {
      if k >= |before| {
        assert (before + f)[k] == f[k - |before|];
      }
    }
  }

  lemma {:induction false} ReceivedAppend(a: seq<Effect>, b: seq<Effect>, c: ClientId)
    ensures Received(a + b, c) == Received(a, c) + Received(b, c)
    decreases |b|
  {
    if b == [] {
      assert a + b == a;
    } else {
      assert (a + b)[..|a + b| - 1] == a + b[..|b| - 1];
      ReceivedAppend(a, b[..|b| - 1], c);
    }
  }

  lemma {:induction false} EndsAppend(a: seq<Effect>, b: seq<Effect>, c: ClientId)
    ensures Ends(a + b, c) == Ends(a, c) + Ends(b, c)
    decreases |b|
  {
    if b == [] {
      assert a + b == a;
    } else {
      assert (a + b)[..|a + b| - 1] == a + b[..|b| - 1];
      EndsAppend(a, b[..|b| - 1], c);
    }
  }

  lemma {:induction false} BroadcastReceived(clients: seq<ClientId>, text: string, c: ClientId)
    requires NoDup(clients)
    ensures Received(Broadcast(clients, text), c) == if c in clients then [text] else []
    ensures Ends(Broadcast(clients, text), c) == 0
    decreases |clients|
  {
    if clients != [] {
      var init := clients[..|clients| - 1];
      BroadcastReceived(init, text, c);
      var b := Broadcast(clients, text);
      assert b[..|b| - 1] == Broadcast(init, text);
      assert c in clients <==> c in init || c == clients[|clients| - 1];
    }
  }

  /** Each client in the list receives every line of the chunk, in order, once. */
  lemma {:induction false} FanoutReceived(lines: seq<string>, clients: seq<ClientId>, c: ClientId)
    requires NoDup(clients)
    ensures Received(Fanout(lines, clients), c) == if c in clients then DataFrames(lines) else []
    ensures Ends(Fanout(lines, clients), c) == 0
    decreases |lines|
  {
    if lines != [] {
      var init := lines[..|lines| - 1];
      FanoutReceived(init, clients, c);
      var frame := DataFrame(lines[|lines| - 1]);
      ReceivedAppend(Fanout(init, clients), Broadcast(clients, frame), c);
      EndsAppend(Fanout(init, clients), Broadcast(clients, frame), c);
      BroadcastReceived(clients, frame, c);
      assert DataFrames(lines) == DataFrames(init) + [frame];
    }
  }

  /** A terminal event gives each listed client one frame and one `end()`, others nothing. */
  lemma {:induction false} FinishReceived(clients: seq<ClientId>, frame: string, c: ClientId)
    requires NoDup(clients)
    ensures Received(Finish(clients, frame), c) == if c in clients then [frame] else []
    decreases |clients|
  {
    if clients != [] {
      var init := clients[..|clients| - 1];
      var last := clients[|clients| - 1];
      assert clients == init + [last];
      assert NoDup(init) && last !in init;
      assert Finish(clients, frame) == Finish(init, frame) + [Write(last, frame), End(last)];
      FinishReceived(init, frame, c);
      ReceivedAppend(Finish(init, frame), [Write(last, frame), End(last)], c);
      PairEffects(last, frame, c);
      assert c in clients <==> c in init || c == last;
    }
  }

  lemma {:induction false} FinishEnds(clients: seq<ClientId>, frame: string, c: ClientId)
    requires NoDup(clients)
    ensures Ends(Finish(clients, frame), c) == if c in clients then 1 else 0
    decreases |clients|
  {
    if clients != [] {
      var init := clients[..|clients| - 1];
      var last := clients[|clients| - 1];
      assert clients == init + [last];
      assert NoDup(init) && last !in init;
      assert Finish(clients, frame) == Finish(init, frame) + [Write(last, frame), End(last)];
      FinishEnds(init, frame, c);
      EndsAppend(Finish(init, frame), [Write(last, frame), End(last)], c);
      PairEffects(last, frame, c);
      assert c in clients <==> c in init || c == last;
    }
  }

  lemma PairEffects(last: ClientId, frame: string, c: ClientId)
    ensures Received([Write(last, frame), End(last)], c) == if c == last then [frame] else []
    ensures Ends([Write(last, frame), End(last)], c) == if c == last then 1 else 0
  {
    var p := [Write(last, frame), End(last)];
    var q := [Write(last, frame)];
    assert p[..|p| - 1] == q && q[..|q| - 1] == [];
    assert Received(q, c) == Received([], c) + (if c == last then [frame] else []);
    assert Received(p, c) == Received(q, c) + [];
    assert Ends(q, c) == Ends([], c) + 0;
    assert Ends(p, c) == Ends(q, c) + (if c == last then 1 else 0);
  }

  lemma {:induction false} RemoveMembers(s: seq<ClientId>, id: ClientId)
    ensures forall c :: c in Remove(s, id) <==> c in s && c != id
  {
    if s != [] {
      RemoveMembers(s[1..], id);
      assert forall c :: c in s <==> c == s[0] || c in s[1..];
    }
  }

  lemma {:induction false} RemoveNoDup(s: seq<ClientId>, id: ClientId)
    requires NoDup(s)
    ensures NoDup(Remove(s, id))
  {
    if s != [] {
      RemoveNoDup(s[1..], id);
      RemoveMembers(s[1..], id);
      assert s[0] !in s[1..];
    }
  }

  /**
   * A disconnect removes exactly that client: the list loses its one
   * occurrence and keeps every other client in the same order.
   */
  lemma {:induction false} RemoveExactly(s: seq<ClientId>, id: ClientId, k: nat)
    requires NoDup(s) && k < |s| && s[k] == id
    ensures Remove(s, id) == s[..k] + s[k + 1..]
  {
    if k == 0 {
      RemoveAbsent(s[1..], id);
    } else {
      RemoveExactly(s[1..], id, k - 1);
      assert s[1..][..k - 1] == s[1..k];
      assert s[1..][k..] == s[k + 1..];
      assert [s[0]] + s[1..k] == s[..k];
    }
  }

  lemma {:induction false} RemoveAbsent(s: seq<ClientId>, id: ClientId)
    requires id !in s
    ensures Remove(s, id) == s
  {
    if s != [] {
      RemoveAbsent(s[1..], id);
    }
  }

  /** A disconnect does not change what any other client receives of later lines. */
  lemma DisconnectIsolation(lines: seq<string>, clients: seq<ClientId>, gone: ClientId, c: ClientId)
    requires NoDup(clients) && c != gone
    ensures Received(Fanout(lines, Remove(clients, gone)), c) == Received(Fanout(lines, clients), c)
  {
    RemoveNoDup(clients, gone);
    RemoveMembers(clients, gone);
    FanoutReceived(lines, clients, c);
    FanoutReceived(lines, Remove(clients, gone), c);
  }

  // ----- helpers for the object invariant -----

  lemma ConnectKeepsOthers(effects: seq<Effect>, id: ClientId, clients: seq<ClientId>, seen: set<ClientId>)
    requires NoDup(clients) && (forall c :: c in clients ==> c in seen) && id !in seen
    requires forall k :: 0 <= k < |effects| ==> effects[k].client in seen
    ensures NoDup(clients + [id])
    ensures Ends(effects, id) == 0
  {
    EndsOfStranger(effects, id);
  }

  lemma {:induction false} EndsOfStranger(effects: seq<Effect>, id: ClientId)
    requires forall k :: 0 <= k < |effects| ==> effects[k].client != id
    ensures Ends(effects, id) == 0
    decreases |effects|
  {
    if effects != [] {
      EndsOfStranger(effects[..|effects| - 1], id);
    }
  }

  lemma {:induction false} BroadcastClients(clients: seq<ClientId>, text: string)
    ensures forall k :: 0 <= k < |Broadcast(clients, text)| ==>
      Broadcast(clients, text)[k].client in clients
    decreases |clients|
  {
    if clients != [] {
      BroadcastClients(clients[..|clients| - 1], text);
    }
  }

  lemma {:induction false} FanoutClients(lines: seq<string>, clients: seq<ClientId>)
    ensures forall k :: 0 <= k < |Fanout(lines, clients)| ==> Fanout(lines, clients)[k].client in clients
    decreases |lines|
  {
    if lines != [] {
      FanoutClients(lines[..|lines| - 1], clients);
      BroadcastClients(clients, DataFrame(lines[|lines| - 1]));
    }
  }

  lemma {:induction false} FinishClients(clients: seq<ClientId>, frame: string)
    ensures forall k :: 0 <= k < |Finish(clients, frame)| ==> Finish(clients, frame)[k].client in clients
    decreases |clients|
  {
    if clients != [] {
      FinishClients(clients[..|clients| - 1], frame);
    }
  }
}
