/** The dispatcher of monitoring tasks: a cursor that walks the sorted server list, wraps around once, and
    sends the task to every connected server that the task covers. */
module Dispatch {
  const COVER_ALL := 0
  const COVER_IGNORE_ALL := 1

  /** Which servers a task covers: all but skipServers, only skipServers, or (for any other value of cover)
      whichever connected server comes first. */
  datatype Task = Task(cover: nat, skipServers: set<nat>) {
    predicate SentToAll() {
      cover == COVER_ALL || cover == COVER_IGNORE_ALL
    }

    predicate Covers(id: nat) {
      (cover == COVER_ALL ==> id !in skipServers) && (cover == COVER_IGNORE_ALL ==> id in skipServers)
    }
  }

  class Server {
    const id: nat
    var connected: bool     // whether TaskStream is set

    constructor (id: nat, connected: bool)
      ensures this.id == id && this.connected == connected
    {
      this.id, this.connected := id, connected;
    }
  }

  /** The positions whose server is connected and covered. */
  ghost function Wanted(servers: seq<Server?>, task: Task): (wanted: seq<bool>)
    reads servers
    ensures |wanted| == |servers|
  {
    seq(|servers|, p requires 0 <= p < |servers| reads servers =>
      servers[p] != null && servers[p].connected && task.Covers(servers[p].id))
  }

  ghost predicate Distinct(servers: seq<Server?>) {
    forall i, j :: 0 <= i < j < |servers| && servers[i] != null ==> servers[i] != servers[j]
  }

  /** Which positions hold a connected server. */
  ghost function Streams(servers: seq<Server?>): (connected: seq<bool>)
    reads servers
    ensures |connected| == |servers|
  {
    seq(|servers|, p requires 0 <= p < |servers| reads servers => servers[p] != null && servers[p].connected)
  }

  /** The streams after the given attempts: dropped where the send failed, otherwise as they were. */
  ghost predicate SentSoFar(servers: seq<Server?>, was: seq<bool>, attempts: seq<nat>, sendOk: nat -> bool)
    reads servers
  {
    && |was| == |servers|
    && forall p :: 0 <= p < |servers| && servers[p] != null ==>
         servers[p].connected == (was[p] && (p in attempts ==> sendOk(servers[p].id)))
  }

  /** The order in which n positions are visited from a cursor: to the end, then from the start. */
  function Position(n: nat, cursor: nat, i: nat): nat
    requires cursor <= n && i < n
  {
    if cursor + i < n then cursor + i else cursor + i - n
  }

  /** The wanted ones of the first v positions visited. */
  function Visited(wanted: seq<bool>, cursor: nat, v: nat): seq<nat>
    requires cursor <= |wanted| && v <= |wanted|
  {
    if v == 0 then []
    else
      var p := Position(|wanted|, cursor, v - 1);
      Visited(wanted, cursor, v - 1) + if wanted[p] then [p] else []
  }

  lemma {:induction false} VisitedMeaning(wanted: seq<bool>, cursor: nat, v: nat)
    requires cursor <= |wanted| && v <= |wanted|
    ensures forall p :: p in Visited(wanted, cursor, v) <==>
              exists i :: 0 <= i < v && p == Position(|wanted|, cursor, i) && wanted[p]
    ensures forall a, b :: 0 <= a < b < |Visited(wanted, cursor, v)| ==>
              Visited(wanted, cursor, v)[a] != Visited(wanted, cursor, v)[b]
  {
    if v > 0 {
      VisitedMeaning(wanted, cursor, v - 1);
      var p := Position(|wanted|, cursor, v - 1);
      assert forall i :: 0 <= i < v - 1 ==> Position(|wanted|, cursor, i) != p;
    }
  }

  lemma NotYetVisited(wanted: seq<bool>, cursor: nat, v: nat)
    requires cursor <= |wanted| && v < |wanted|
    ensures Position(|wanted|, cursor, v) !in Visited(wanted, cursor, v)
  {
    VisitedMeaning(wanted, cursor, v);
  }

  lemma {:induction false} VisitedPrefix(wanted: seq<bool>, cursor: nat, v: nat, w: nat)
    requires cursor <= |wanted| && v <= w <= |wanted|
    ensures Visited(wanted, cursor, v) <= Visited(wanted, cursor, w)
    decreases w
  {
    if v < w {
      VisitedPrefix(wanted, cursor, v, w - 1);
    }
  }

  function First(s: seq<nat>): seq<nat> {
    if s == [] then [] else [s[0]]
  }

  lemma FirstVisited(wanted: seq<bool>, cursor: nat, v: nat)
    requires cursor <= |wanted| && v <= |wanted| && |Visited(wanted, cursor, v)| == 1
    ensures First(Visited(wanted, cursor, |wanted|)) == Visited(wanted, cursor, v)
  {
    VisitedPrefix(wanted, cursor, v, |wanted|);
  }

  lemma FirstFound(wanted: seq<bool>, cursor: nat, v: nat)
    requires cursor <= |wanted| && v < |wanted| && Visited(wanted, cursor, v) == []
    requires wanted[Position(|wanted|, cursor, v)]
    ensures First(Visited(wanted, cursor, |wanted|)) == [Position(|wanted|, cursor, v)]
  {
    assert Visited(wanted, cursor, v + 1) == [Position(|wanted|, cursor, v)];
    FirstVisited(wanted, cursor, v + 1);
  }

  lemma VisitedStep(wanted: seq<bool>, cursor: nat, v: nat, p: nat)
    requires cursor <= |wanted| && v < |wanted| && p == Position(|wanted|, cursor, v)
    ensures Visited(wanted, cursor, v + 1) == Visited(wanted, cursor, v) + if wanted[p] then [p] else []
    ensures p !in Visited(wanted, cursor, v)
  {
    NotYetVisited(wanted, cursor, v);
  }

  /** Every wanted position once, and no other. */
  ghost predicate OnceEach(attempts: seq<nat>, wanted: seq<bool>) {
    && (forall p :: p in attempts <==> 0 <= p < |wanted| && wanted[p])
    && (forall a, b :: 0 <= a < b < |attempts| ==> attempts[a] != attempts[b])
  }

  /** Once around, from any cursor, visits every wanted position exactly once and no other. */
  lemma OnceAround(wanted: seq<bool>, cursor: nat)
    requires cursor <= |wanted|
    ensures OnceEach(Visited(wanted, cursor, |wanted|), wanted)
  {
    VisitedMeaning(wanted, cursor, |wanted|);
    forall p | 0 <= p < |wanted| && wanted[p]
      ensures exists i :: 0 <= i < |wanted| && p == Position(|wanted|, cursor, i)
    {
      var i := if p >= cursor then p - cursor else p + |wanted| - cursor;
      assert p == Position(|wanted|, cursor, i);
    }
  }

  lemma NothingVisited(wanted: seq<bool>, v: nat, p: nat)
    requires p < v <= |wanted| && wanted[p]
    ensures Visited(wanted, 0, v) != []
  {
    VisitedMeaning(wanted, 0, v);
    assert p == Position(|wanted|, 0, p);
  }

  // ---------- One task ----------

  /** Where the walk over n positions begins: at the cursor, or at the start when the cursor lies past the end. */
  function Start(n: nat, cursor: nat): nat {
    if cursor <= n then cursor else 0
  }

  /** The positions that a task is sent to, in order. */
  function Chosen(wanted: seq<bool>, toAll: bool, cursor: nat): seq<nat> {
    var visited := Visited(wanted, Start(|wanted|, cursor), |wanted|);
    if toAll then visited else First(visited)
  }

  function CursorAfter(wanted: seq<bool>, toAll: bool, cursor: nat): nat {
    var chosen := Chosen(wanted, toAll, cursor);
    if toAll || chosen == [] then cursor else chosen[0] + 1
  }

  /** The walk's state; sent tells that a task for one server has found it. */
  datatype Walk = Walk(index: nat, round: nat, sent: bool) {
    predicate Goes(end: nat) {
      !sent && (round < 1 || index < end)
    }

    /** One turn of the loop. */
    function Turn(wanted: seq<bool>, toAll: bool): Walk {
      if index >= |wanted| then Walk(0, round + 1, sent) else Walk(index + 1, round, !toAll && wanted[index])
    }
  }

  function Turns(w: Walk, wanted: seq<bool>, toAll: bool, k: nat): Walk {
    if k == 0 then w else Turns(w, wanted, toAll, k - 1).Turn(wanted, toAll)
  }

  /** The state of the walk from the cursor after k turns. */
  function After(wanted: seq<bool>, toAll: bool, cursor: nat, k: nat): Walk {
    Turns(Walk(cursor, 0, false), wanted, toAll, k)
  }

  ghost predicate WalkEnds(wanted: seq<bool>, toAll: bool, cursor: nat) {
    wanted == [] || exists k :: !After(wanted, toAll, cursor, k).Goes(cursor)
  }

  /** The walk has ended after some turns, with the attempts made and the cursor where they should be. */
  ghost predicate Finished(wanted: seq<bool>, toAll: bool, cursor: nat, attempts: seq<nat>, turns: nat, index: nat) {
    && attempts == Chosen(wanted, toAll, cursor)
    && index == CursorAfter(wanted, toAll, cursor)
    && (wanted != [] ==>
          && !After(wanted, toAll, cursor, turns).Goes(cursor) && After(wanted, toAll, cursor, turns).index == index)
  }

  /** What the walk needs to end. */
  predicate CanServe(wanted: seq<bool>, toAll: bool, cursor: nat) {
    wanted == [] || cursor <= |wanted| || (!toAll && true in wanted)
  }

  /** The first of the positions visited is the first wanted one in the order of the walk. */
  lemma {:induction false} FirstIsNext(wanted: seq<bool>, cursor: nat, v: nat) returns (i: nat)
    requires cursor <= |wanted| && v <= |wanted|
    ensures i <= v && forall j :: 0 <= j < i ==> !wanted[Position(|wanted|, cursor, j)]
    ensures if i == v then Visited(wanted, cursor, v) == []
            else wanted[Position(|wanted|, cursor, i)]
                 && Visited(wanted, cursor, v) != [] && Visited(wanted, cursor, v)[0] == Position(|wanted|, cursor, i)
  {
    if v == 0 {
      i := 0;
    } else {
      i := FirstIsNext(wanted, cursor, v - 1);
      if i == v - 1 && !wanted[Position(|wanted|, cursor, i)] {
        i := v;
      }
    }
  }

  /** A task for one server goes to the first position wanted at the cursor or after it, or else before it, and the
      cursor moves behind that position; if none is wanted, nothing happens. */
  lemma OneServerIsNext(wanted: seq<bool>, cursor: nat) returns (p: nat)
    requires cursor <= |wanted|
    ensures if true !in wanted then Chosen(wanted, false, cursor) == [] && CursorAfter(wanted, false, cursor) == cursor
            else
              && p < |wanted| && wanted[p]
              && Chosen(wanted, false, cursor) == [p] && CursorAfter(wanted, false, cursor) == p + 1
              && (forall q :: cursor <= q < |wanted| && (q < p || p < cursor) ==> !wanted[q])
              && (p < cursor ==> forall q :: 0 <= q < p ==> !wanted[q])
  {
    var n := |wanted|;
    var i := FirstIsNext(wanted, cursor, n);
    p := if i < n then Position(n, cursor, i) else 0;
    forall q | 0 <= q < n && wanted[q]
      ensures i < n && i <= if q >= cursor then q - cursor else q + n - cursor
    {
      assert q == Position(n, cursor, if q >= cursor then q - cursor else q + n - cursor);
    }
  }

  /** A task, the server list when it is taken up, which agents are connected then, and which sends succeed. */
  datatype Delivery = Delivery(task: Task, servers: seq<Server?>, online: nat -> bool, sendOk: nat -> bool) {
    function Expected(): (wanted: seq<bool>)
      ensures |wanted| == |servers|
    {
      seq(|servers|, p requires 0 <= p < |servers| =>
        servers[p] != null && online(servers[p].id) && task.Covers(servers[p].id))
    }
  }

  /** What a delivery asks of the walk: which positions will do, and whether all of them are wanted. */
  datatype Demand = Demand(wanted: seq<bool>, toAll: bool)

  function Demands(bus: seq<Delivery>): seq<Demand> {
    seq(|bus|, i requires 0 <= i < |bus| => Demand(bus[i].Expected(), bus[i].task.SentToAll()))
  }

  /** The cursor when the i-th task is taken up. */
  function CursorAt(demands: seq<Demand>, cursor: nat, i: nat): nat
    requires i <= |demands|
  {
    if i == 0 then cursor
    else CursorAfter(demands[i - 1].wanted, demands[i - 1].toAll, CursorAt(demands, cursor, i - 1))
  }

  /** Every walk of the run can end. */
  ghost predicate CanRun(demands: seq<Demand>, cursor: nat) {
    forall i :: 0 <= i < |demands| ==> Served(demands, cursor, i)
  }

  /** The first i tasks have gone where they should, and the cursor is where they leave it. */
  predicate Ran(demands: seq<Demand>, cursor: nat, i: nat, sent: seq<seq<nat>>, index: nat) {
    i <= |demands| && sent == AllChosen(demands, cursor, i) && index == CursorAt(demands, cursor, i)
  }

  lemma RunStep(demands: seq<Demand>, cursor: nat, i: nat, sent: seq<seq<nat>>, index: nat, attempts: seq<nat>,
                next: nat)
    requires i < |demands| && Ran(demands, cursor, i, sent, index)
    requires attempts == Chosen(demands[i].wanted, demands[i].toAll, index)
    requires next == CursorAfter(demands[i].wanted, demands[i].toAll, index)
    ensures Ran(demands, cursor, i + 1, sent + [attempts], next)
  {
  }

  predicate Served(demands: seq<Demand>, cursor: nat, i: nat)
    requires i < |demands|
  {
    CanServe(demands[i].wanted, demands[i].toAll, CursorAt(demands, cursor, i))
  }

  /** Where the i-th task goes. */
  function ChosenAt(demands: seq<Demand>, cursor: nat, i: nat): seq<nat>
    requires i < |demands|
  {
    Chosen(demands[i].wanted, demands[i].toAll, CursorAt(demands, cursor, i))
  }

  /** Where the first n tasks go. */
  function AllChosen(demands: seq<Demand>, cursor: nat, n: nat): (sent: seq<seq<nat>>)
    requires n <= |demands|
    ensures |sent| == n
  {
    if n == 0 then [] else AllChosen(demands, cursor, n - 1) + [ChosenAt(demands, cursor, n - 1)]
  }

  lemma {:induction false} AllChosenAt(demands: seq<Demand>, cursor: nat, n: nat, i: nat)
    requires i < n <= |demands|
    ensures AllChosen(demands, cursor, n)[i] == ChosenAt(demands, cursor, i)
  {
    if i < n - 1 {
      AllChosenAt(demands, cursor, n - 1, i);
    }
  }

  /** A task for all goes exactly once to every connected, covered server, wherever the cursor is. */
  lemma TaskForAllReachesAll(demands: seq<Demand>, cursor: nat, n: nat, i: nat)
    requires i < n <= |demands| && demands[i].toAll
    ensures OnceEach(AllChosen(demands, cursor, n)[i], demands[i].wanted)
  {
    AllChosenAt(demands, cursor, n, i);
    OnceAround(demands[i].wanted, Start(|demands[i].wanted|, CursorAt(demands, cursor, i)));
  }

  ghost predicate Ready(d: Delivery, world: set<Server>) {
    Distinct(d.servers) && forall s :: s in d.servers ==> s == null || s in world
  }

  class Dispatcher {
    var workedServerIndex: nat

    constructor ()
      ensures workedServerIndex == 0
    {
      workedServerIndex := 0;
    }

    /** One position: the task is sent if the server there is connected and covered, and a failed send drops
        the server's stream. */
    method Visit(task: Task, servers: seq<Server?>, p: nat, sendOk: nat -> bool, ghost was: seq<bool>,
                 attempts: seq<nat>)
      returns (sent: bool, made: seq<nat>)
      requires p < |servers| && Distinct(servers)
      requires SentSoFar(servers, was, attempts, sendOk) && p !in attempts
      modifies servers[p]
      ensures sent == (servers[p] != null && was[p] && task.Covers(servers[p].id))
      ensures made == if sent then attempts + [p] else attempts
      ensures SentSoFar(servers, was, made, sendOk)
    {
      sent, made := false, attempts;
      var currentServer := servers[p];
      if currentServer == null {
        return;
      }
      if !currentServer.connected {
        return;
      }
      if !task.Covers(currentServer.id) {
        return;
      }
      if !sendOk(currentServer.id) {
        currentServer.connected := false;
      }
      sent, made := true, attempts + [p];
    }

    /** One task. sendOk says for which servers the send succeeds. attempts lists the positions of the servers
        that the task was sent to, in order; turns is how often the loop went round. */
    method DispatchOne(task: Task, servers: seq<Server?>, sendOk: nat -> bool)
      returns (attempts: seq<nat>, ghost turns: nat)
      requires CanServe(Wanted(servers, task), task.SentToAll(), workedServerIndex) && Distinct(servers)
      modifies this, servers
      ensures Finished(old(Wanted(servers, task)), task.SentToAll(), old(workedServerIndex),
                       attempts, turns, workedServerIndex)
      ensures SentSoFar(servers, old(Streams(servers)), attempts, sendOk)
      ensures forall p :: 0 <= p < |servers| && servers[p] != null ==>
                (servers[p].connected <==> old(servers[p].connected) && !(p in attempts && !sendOk(servers[p].id)))
    {
      if |servers| == 0 {
        return [], 0;
      }
      ghost var wanted, toAll, cursor := Wanted(servers, task), task.SentToAll(), workedServerIndex;
      ProgressCarried(wanted, toAll, cursor);
      ghost var last;
      attempts, last := WalkList(task, servers, sendOk, wanted, Streams(servers), ProgressOf(wanted, toAll, cursor));
      StoppedFinishes(wanted, toAll, cursor, last);
      turns := last.turns;
    }

    /** The loop over the list; wanted and was are the wanted positions and the open streams before it, and good is any
        property of its states that its turns keep. */
    method WalkList(task: Task, servers: seq<Server?>, sendOk: nat -> bool, ghost wanted: seq<bool>,
                    ghost was: seq<bool>, ghost good: State -> bool)
      returns (attempts: seq<nat>, ghost last: State)
      requires |wanted| == |servers| && Distinct(servers) && SentSoFar(servers, was, [], sendOk)
      requires forall p :: 0 <= p < |servers| ==>
                 wanted[p] == (servers[p] != null && was[p] && task.Covers(servers[p].id))
      requires Carried(wanted, task.SentToAll(), workedServerIndex, good)
      requires good(State(Walk(workedServerIndex, 0, false), 0, 0, []))
      modifies this, servers
      ensures Stopped(wanted, task.SentToAll(), old(workedServerIndex), good, last)
      ensures attempts == last.attempts && workedServerIndex == last.walk.index
      ensures SentSoFar(servers, was, attempts, sendOk)
    {
      attempts := [];
      var round := 0;
      var endIndex := workedServerIndex;
      last := State(Walk(endIndex, 0, false), 0, 0, []);
      while round < 1 || workedServerIndex < endIndex
        invariant good(last) && last.walk == Walk(workedServerIndex, round, false) && last.attempts == attempts
        invariant SentSoFar(servers, was, attempts, sendOk)
        decreases 1 - round, |servers| - last.v
      {
        assert CarriedFrom(wanted, task.SentToAll(), endIndex, good, last);
        if workedServerIndex >= |servers| {
          last := last.Wrapped();
          workedServerIndex := 0;
          round := round + 1;
        } else {
          var sent;
          sent, attempts := Visit(task, servers, workedServerIndex, sendOk, was, attempts);
          last := last.Visiting(sent, task.SentToAll());
          workedServerIndex := workedServerIndex + 1;
          if sent && !task.SentToAll() {
            return;
          }
        }
      }
    }

    /** The dispatcher's life: tasks arrive one after the other, each with the server list of its time and with
        the streams that agents have opened and closed, or failed sends have dropped, until then. As long as every
        walk can end, each task goes to the positions it should. */
    method DispatchTask(bus: seq<Delivery>, world: set<Server>) returns (sent: seq<seq<nat>>)
      requires CanRun(Demands(bus), workedServerIndex)
      requires forall d :: d in bus ==> Ready(d, world)
      modifies this, world
      ensures workedServerIndex == CursorAt(Demands(bus), old(workedServerIndex), |bus|)
      ensures sent == AllChosen(Demands(bus), old(workedServerIndex), |bus|)
      ensures forall i :: 0 <= i < |bus| && bus[i].task.SentToAll() ==> OnceEach(sent[i], bus[i].Expected())
      ensures forall i, p :: 0 <= i < |bus| && 0 <= p < |bus[i].servers| && bus[i].task.cover <= 1 ==>
                (p in sent[i] <==>
                   && bus[i].servers[p] != null && bus[i].online(bus[i].servers[p].id)
                   && (bus[i].task.cover == 1 <==> bus[i].servers[p].id in bus[i].task.skipServers))
    {
      sent := [];
      ghost var demands, cursor := Demands(bus), workedServerIndex;
      for i := 0 to |bus|
        invariant Ran(demands, cursor, i, sent, workedServerIndex)
      {
        var d := bus[i];
        ghost var at := workedServerIndex;
        assert Served(demands, cursor, i);
        assert demands[i] == Demand(d.Expected(), d.task.SentToAll());
        var attempts := Deliver(d, world);
        RunStep(demands, cursor, i, sent, at, attempts, workedServerIndex);
        sent := sent + [attempts];
      }
      forall i | 0 <= i < |bus| && bus[i].task.SentToAll()
        ensures OnceEach(sent[i], bus[i].Expected())
      {
        TaskForAllReachesAll(demands, cursor, |bus|, i);
      }
    }

    method Deliver(d: Delivery, world: set<Server>) returns (attempts: seq<nat>)
      requires CanServe(d.Expected(), d.task.SentToAll(), workedServerIndex) && Ready(d, world)
      modifies this, world
      ensures attempts == Chosen(d.Expected(), d.task.SentToAll(), old(workedServerIndex))
      ensures workedServerIndex == CursorAfter(d.Expected(), d.task.SentToAll(), old(workedServerIndex))
    {
      SetStreams(d.servers, d.online, world);
      assert Wanted(d.servers, d.task) == d.Expected();
      ghost var turns;
      attempts, turns := DispatchOne(d.task, d.servers, d.sendOk);
    }

    /** Agents open and close their streams. */
    method SetStreams(servers: seq<Server?>, online: nat -> bool, ghost world: set<Server>)
      requires forall s :: s in servers ==> s == null || s in world
      modifies world
      ensures forall s: Server :: s in servers ==> s.connected == online(s.id)
    {
      for i := 0 to |servers|
        invariant forall j :: 0 <= j < i && servers[j] != null ==> servers[j].connected == online(servers[j].id)
      {
        if servers[i] != null {
          servers[i].connected := online(servers[i].id);
        }
      }
    }
  }

  /** Where a walk from the cursor end is, in which round, after visiting v of n positions. */
  predicate InRound(n: nat, end: nat, index: nat, round: nat, v: nat) {
    if round == 0 then index == end + v && (if end <= n then index <= n else v == 0)
    else round == 1 && if end <= n then index + n == end + v && index <= end else index == v
  }

  /** The loop's state: the walk, how many turns it took, how many positions it visited, and the attempts. */
  datatype State = State(walk: Walk, turns: nat, v: nat, attempts: seq<nat>) {
    function Wrapped(): State {
      State(Walk(0, walk.round + 1, false), turns + 1, v, attempts)
    }

    function Visiting(sent: bool, toAll: bool): State {
      State(Walk(walk.index + 1, walk.round, sent && !toAll), turns + 1, v + 1,
            if sent then attempts + [walk.index] else attempts)
    }
  }

  /** The loop's invariant: the wanted ones of the visited positions are the attempts, and the walk is where its turns
      have taken it. */
  ghost predicate Progress(wanted: seq<bool>, toAll: bool, end: nat, s: State) {
    && CanServe(wanted, toAll, end) && s.v <= |wanted| && !s.walk.sent
    && InRound(|wanted|, end, s.walk.index, s.walk.round, s.v)
    && s.attempts == Visited(wanted, Start(|wanted|, end), s.v)
    && (!toAll ==> s.attempts == [])
    && After(wanted, toAll, end, s.turns) == s.walk
  }

  /** The walk wraps around only in its first round. */
  lemma ProgressWraps(wanted: seq<bool>, toAll: bool, end: nat, s: State)
    requires Progress(wanted, toAll, end, s) && wanted != [] && s.walk.Goes(end) && |wanted| <= s.walk.index
    ensures s.walk.round == 0 && Progress(wanted, toAll, end, s.Wrapped())
  {
    if end > |wanted| && s.walk.round > 0 {
      var p :| 0 <= p < |wanted| && wanted[p];
      NothingVisited(wanted, s.v, p);
    }
  }

  lemma ProgressVisits(wanted: seq<bool>, toAll: bool, end: nat, s: State)
    requires Progress(wanted, toAll, end, s) && s.walk.Goes(end) && s.walk.index < |wanted|
    ensures s.v < |wanted| && s.walk.index !in s.attempts
    ensures (!toAll && wanted[s.walk.index]) || Progress(wanted, toAll, end, s.Visiting(wanted[s.walk.index], toAll))
  {
    InRoundPosition(|wanted|, end, s.walk.index, s.walk.round, s.v);
    VisitedStep(wanted, Start(|wanted|, end), s.v, s.walk.index);
  }

  lemma InRoundPosition(n: nat, end: nat, index: nat, round: nat, v: nat)
    requires InRound(n, end, index, round, v) && (round < 1 || index < end) && index < n
    ensures v < n && Position(n, Start(n, end), v) == index
    ensures InRound(n, end, index + 1, round, v + 1)
  {
  }

  /** A task for one server has found it. */
  lemma ProgressServes(wanted: seq<bool>, end: nat, s: State)
    requires Progress(wanted, false, end, s) && s.walk.Goes(end) && s.walk.index < |wanted| && wanted[s.walk.index]
    ensures var next := s.Visiting(true, false);
            Finished(wanted, false, end, next.attempts, next.turns, next.walk.index)
  {
    InRoundPosition(|wanted|, end, s.walk.index, s.walk.round, s.v);
    FirstFound(wanted, Start(|wanted|, end), s.v);
  }

  lemma ProgressEnds(wanted: seq<bool>, toAll: bool, end: nat, s: State)
    requires Progress(wanted, toAll, end, s) && !s.walk.Goes(end)
    ensures Finished(wanted, toAll, end, s.attempts, s.turns, s.walk.index)
  {
  }

  /** A property of the loop's states that every turn keeps, until a turn stops the walk. */
  ghost predicate Carried(wanted: seq<bool>, toAll: bool, end: nat, good: State -> bool) {
    forall s :: good(s) ==> CarriedFrom(wanted, toAll, end, good, s)
  }

  ghost predicate CarriedFrom(wanted: seq<bool>, toAll: bool, end: nat, good: State -> bool, s: State) {
    && !s.walk.sent && s.walk.round <= 1 && s.v <= |wanted|
    && (s.walk.Goes(end) && s.walk.index >= |wanted| ==> s.walk.round == 0 && good(s.Wrapped()))
    && (s.walk.Goes(end) && s.walk.index < |wanted| ==>
          && s.v < |wanted| && s.walk.index !in s.attempts
          && ((!toAll && wanted[s.walk.index]) || good(s.Visiting(wanted[s.walk.index], toAll))))
  }

  /** The last state of a walk: it has come around, or it has just found its server. */
  ghost predicate Stopped(wanted: seq<bool>, toAll: bool, end: nat, good: State -> bool, s: State) {
    || (good(s) && !s.walk.Goes(end))
    || exists t :: good(t) && t.walk.Goes(end) && t.walk.index < |wanted| && !toAll && wanted[t.walk.index]
                   && s == t.Visiting(true, false)
  }

  ghost function ProgressOf(wanted: seq<bool>, toAll: bool, end: nat): State -> bool {
    s => Progress(wanted, toAll, end, s)
  }

  lemma ProgressCarried(wanted: seq<bool>, toAll: bool, end: nat)
    requires CanServe(wanted, toAll, end) && wanted != []
    ensures Carried(wanted, toAll, end, ProgressOf(wanted, toAll, end))
    ensures Progress(wanted, toAll, end, State(Walk(end, 0, false), 0, 0, []))
  {
    forall s | Progress(wanted, toAll, end, s)
      ensures CarriedFrom(wanted, toAll, end, ProgressOf(wanted, toAll, end), s)
    {
      if s.walk.Goes(end) && s.walk.index >= |wanted| {
        ProgressWraps(wanted, toAll, end, s);
      } else if s.walk.Goes(end) {
        ProgressVisits(wanted, toAll, end, s);
      }
    }
  }

  lemma StoppedFinishes(wanted: seq<bool>, toAll: bool, end: nat, s: State)
    requires Stopped(wanted, toAll, end, ProgressOf(wanted, toAll, end), s)
    ensures Finished(wanted, toAll, end, s.attempts, s.turns, s.walk.index)
  {
    if Progress(wanted, toAll, end, s) && !s.walk.Goes(end) {
      ProgressEnds(wanted, toAll, end, s);
    } else {
      var t :| Progress(wanted, toAll, end, t) && t.walk.Goes(end) && t.walk.index < |wanted| && !toAll
               && wanted[t.walk.index] && s == t.Visiting(true, false);
      ProgressServes(wanted, end, t);
    }
  }

  // ---------- When the walk ends ----------

  /** Until it stops, the walk is where its turns have taken it. */
  lemma {:induction false} WalkIsAt(wanted: seq<bool>, toAll: bool, cursor: nat, k: nat)
    requires wanted != []
    requires k <= if cursor <= |wanted| then |wanted| + 1 else |wanted|
    ensures (exists j :: 0 <= j <= k && !After(wanted, toAll, cursor, j).Goes(cursor))
            || After(wanted, toAll, cursor, k) == Plain(|wanted|, cursor, k)
  {
    if k > 0 {
      WalkIsAt(wanted, toAll, cursor, k - 1);
      if After(wanted, toAll, cursor, k - 1) == Plain(|wanted|, cursor, k - 1) {
        var w := After(wanted, toAll, cursor, k);
        if w != Plain(|wanted|, cursor, k) {
          assert !w.Goes(cursor);
        }
      }
    }
  }

  /** The walk's state after k turns when nothing stops it. */
  function Plain(n: nat, cursor: nat, k: nat): Walk {
    var toEnd := if cursor <= n then n - cursor else 0;
    if k <= toEnd then Walk(cursor + k, 0, false) else Walk(k - toEnd - 1, 1, false)
  }

  lemma {:induction false} NeverEnds(wanted: seq<bool>, toAll: bool, cursor: nat, k: nat)
    requires !CanServe(wanted, toAll, cursor)
    ensures var w := After(wanted, toAll, cursor, k);
            w.Goes(cursor) && (k > 0 ==> w.index <= |wanted| && w.round >= 1)
  {
    if k > 0 {
      NeverEnds(wanted, toAll, cursor, k - 1);
      var w := After(wanted, toAll, cursor, k - 1);
      if w.index < |wanted| && !toAll {
        assert wanted[w.index] in wanted;
      }
    }
  }

  /** For any task, the walk ends if and only if the list is empty, or the cursor does not lie past its end, or the
      task is for one server and some server will do. */
  lemma WalkEndsExactly(wanted: seq<bool>, toAll: bool, cursor: nat)
    ensures WalkEnds(wanted, toAll, cursor) <==> CanServe(wanted, toAll, cursor)
  {
    if wanted != [] && CanServe(wanted, toAll, cursor) {
      if cursor <= |wanted| {
        WalkIsAt(wanted, toAll, cursor, |wanted| + 1);
      } else {
        var p :| 0 <= p < |wanted| && wanted[p];
        WalkIsAt(wanted, toAll, cursor, p + 1);
        if After(wanted, toAll, cursor, p + 1) == Plain(|wanted|, cursor, p + 1) {
          assert !After(wanted, toAll, cursor, p + 2).Goes(cursor);
        }
      }
    } else if wanted != [] {
      forall k
        ensures After(wanted, toAll, cursor, k).Goes(cursor)
      {
        NeverEnds(wanted, toAll, cursor, k);
      }
    }
  }

  lemma {:induction false} CursorStaysAtZero(demands: seq<Demand>, i: nat)
    requires i <= |demands| && forall d :: d in demands ==> d.toAll
    ensures CursorAt(demands, 0, i) == 0
  {
    if i > 0 {
      CursorStaysAtZero(demands, i - 1);
      assert demands[i - 1] in demands;
    }
  }

  /** Tasks for all, or for the listed servers, leave the cursor at 0 whatever happens to the list, so every walk
      ends. */
  lemma TasksForAllRun(demands: seq<Demand>)
    requires forall d :: d in demands ==> d.toAll
    ensures CanRun(demands, 0) && CursorAt(demands, 0, |demands|) == 0
  {
    forall i | 0 <= i < |demands|
      ensures Served(demands, 0, i)
    {
      CursorStaysAtZero(demands, i);
    }
    CursorStaysAtZero(demands, |demands|);
  }

  /** A task with another Cover value moves the cursor behind the server it finds; when the list shrinks to less than
      that, the next task for all keeps the dispatcher walking for ever. */
  lemma ShrunkListHangs(a: Server, b: Server, online: nat -> bool, sendOk: nat -> bool)
    requires !online(a.id) && online(b.id)
    ensures var demands := Demands([Delivery(Task(2, {}), [a, b], online, sendOk),
                                    Delivery(Task(COVER_ALL, {}), [a], online, sendOk)]);
            && CanServe(demands[0].wanted, demands[0].toAll, 0) && CursorAt(demands, 0, 1) == 2
            && !WalkEnds(demands[1].wanted, demands[1].toAll, 2)
  {
    var bus := [Delivery(Task(2, {}), [a, b], online, sendOk), Delivery(Task(COVER_ALL, {}), [a], online, sendOk)];
    var demands := Demands(bus);
    var wanted := bus[0].Expected();
    assert wanted == [false, true] && demands[0] == Demand(wanted, false);
    assert Visited(wanted, 0, 0) == [] && Visited(wanted, 0, 1) == [] && Visited(wanted, 0, 2) == [1];
    assert CursorAt(demands, 0, 0) == 0;
    WalkEndsExactly(demands[1].wanted, true, 2);
  }
}
