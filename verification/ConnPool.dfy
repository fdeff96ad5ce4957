/** A bounded pool of connections shared by clients; each locked section of its methods is one atomic step. */
module ConnPool {
  import opened Sequences

  const MAX_CONN_NUM := 8192

  type Conn = nat
  type ClientId = nat

  // ---------- the sweep of invalid connections ----------

  function Swept(conns: seq<Conn>, i: nat): seq<Conn>
    requires i < |conns|
  {
    conns[i := conns[|conns| - 1]][..|conns| - 1]
  }

  /** What the swap-with-last loop makes of the connections from position i on, and what it frees, in order. */
  function Sweep(conns: seq<Conn>, i: nat, valid: set<Conn>): (r: (seq<Conn>, seq<Conn>))
    requires i <= |conns|
    ensures i <= |r.0|
    decreases |conns| - i
  {
    if i == |conns| then (conns, [])
    else if conns[i] in valid then Sweep(conns, i + 1, valid)
    else
      var r := Sweep(Swept(conns, i), i, valid);
      (r.0, [conns[i]] + r.1)
  }

  predicate AllIn(conns: seq<Conn>, valid: set<Conn>) {
    forall k :: 0 <= k < |conns| ==> conns[k] in valid
  }

  predicate NoneIn(conns: seq<Conn>, valid: set<Conn>) {
    forall k :: 0 <= k < |conns| ==> conns[k] !in valid
  }

  lemma SweptMultiset(conns: seq<Conn>, i: nat)
    requires i < |conns|
    ensures multiset(Swept(conns, i)) + multiset{conns[i]} == multiset(conns)
  {
    var last := |conns| - 1;
    var swapped := conns[i := conns[last]];
    assert swapped == swapped[..last] + [conns[last]];
    assert multiset(swapped) == multiset(conns) - multiset{conns[i]} + multiset{conns[last]};
  }

  /** The sweep splits the connections, none lost or doubled: it keeps the valid ones and frees the others. */
  lemma {:induction false} SweepSplits(conns: seq<Conn>, i: nat, valid: set<Conn>)
    requires i <= |conns| && AllIn(conns[..i], valid)
    ensures var r := Sweep(conns, i, valid);
      && multiset(r.0) + multiset(r.1) == multiset(conns)
      && AllIn(r.0, valid) && NoneIn(r.1, valid)
    decreases |conns| - i
  {
    if i < |conns| {
      if conns[i] in valid {
        SweepSplits(conns, i + 1, valid);
      } else {
        var rest := Swept(conns, i);
        assert rest[..i] == conns[..i];
        SweepSplits(rest, i, valid);
        SweptMultiset(conns, i);
      }
    } else {
      assert conns[..i] == conns;
    }
  }

  // ---------- the pool behind its lock ----------

  /** The pooled connections, the time of the last check, how many connections were made, and the freed ones. */
  datatype Pool = Pool(conns: seq<Conn>, lastCheck: int, next: nat, freed: seq<Conn>)

  function Pop(p: Pool): Pool
    requires p.conns != []
  {
    p.(conns := p.conns[..|p.conns| - 1])
  }

  function Push(p: Pool, c: Conn): Pool {
    if |p.conns| < MAX_CONN_NUM then p.(conns := p.conns + [c]) else p.(freed := p.freed + [c])
  }

  function Freed(p: Pool, c: Conn): Pool {
    p.(freed := p.freed + [c])
  }

  function Checked(p: Pool, now: int, end: int, valid: set<Conn>): Pool {
    if now - p.lastCheck < 1 then p
    else
      var r := Sweep(p.conns, 0, valid);
      p.(conns := r.0, freed := p.freed + r.1, lastCheck := end)
  }

  // ---------- making a connection ----------

  datatype Option<T> = None | Some(value: T)

  datatype Exception = Standard | Other

  datatype Call<T> = Returned(value: T) | Threw(exception: Exception)

  /** What constructing a connection throws, if anything, and what its Create does. */
  datatype Attempt = Attempt(constructorThrows: Option<Exception>, created: Call<bool>)

  /** The handler answers a standard exception with no connection; any other one leaves CreateConn. */
  function Handled(e: Exception): Call<Option<Conn>> {
    if e == Standard then Returned(None) else Threw(e)
  }

  /** How CreateConn ends. */
  function MakeAnswer(p: Pool, a: Attempt): Call<Option<Conn>> {
    if a.constructorThrows.Some? then Handled(a.constructorThrows.value)
    else if a.created.Threw? then Handled(a.created.exception)
    else Returned(if a.created.value then Some(p.next) else None)
  }

  /** The pool after CreateConn: a constructed connection exists, and is freed when Create answers false. */
  function Made(p: Pool, a: Attempt): Pool {
    if a.constructorThrows.Some? then p
    else if a.created == Returned(false) then p.(next := p.next + 1, freed := p.freed + [p.next])
    else p.(next := p.next + 1)
  }

  /** An exception other than a standard one, out of the constructor, or out of Create when there was none before. */
  predicate LeavesCall(a: Attempt) {
    a.constructorThrows == Some(Other) || (a.constructorThrows == None && a.created == Threw(Other))
  }

  /** What the caller gets: an exception that is no standard one, the connection Create accepted, or none. */
  lemma AnswerExact(p: Pool, a: Attempt)
    ensures MakeAnswer(p, a) == Threw(Other) <==> LeavesCall(a)
    ensures MakeAnswer(p, a) != Threw(Standard)
    ensures MakeAnswer(p, a) == Returned(Some(p.next)) <==> a == Attempt(None, Returned(true))
    ensures MakeAnswer(p, a) == Returned(None) <==> !LeavesCall(a) && a != Attempt(None, Returned(true))
    ensures Made(p, a).freed != p.freed <==> a == Attempt(None, Returned(false))
  {
    assert |p.freed + [p.next]| == |p.freed| + 1;
  }

  class ConnPool {
    var conns: seq<Conn>
    var lastCheckTime: int
    var next: nat  // the name of the connection that is constructed next
    ghost var freed: seq<Conn>

    ghost function View(): Pool
      reads this
    {
      Pool(conns, lastCheckTime, next, freed)
    }

    constructor (now: int)
      ensures View() == Pool([], now, 0, [])
    {
      conns, lastCheckTime, next, freed := [], now, 0, [];
    }

    /** The locked part of GetConnect. */
    method TakePooled() returns (c: Option<Conn>)
      modifies this
      ensures old(conns) == [] ==> c == None && View() == old(View())
      ensures old(conns) != [] ==>
        c == Some(old(conns)[|old(conns)| - 1]) && View() == Pop(old(View()))
    {
      if conns == [] {
        return None;
      }
      c := Some(conns[|conns| - 1]);
      conns := conns[..|conns| - 1];
    }

    /** A new connection, unless its constructor throws. */
    method New(throws: Option<Exception>) returns (r: Call<Conn>)
      modifies this`next
      ensures throws.Some? ==> r == Threw(throws.value) && next == old(next)
      ensures throws.None? ==> r == Returned(old(next)) && next == old(next) + 1
    {
      if throws.Some? {
        return Threw(throws.value);
      }
      r := Returned(next);
      next := next + 1;
    }

    /** The guarded block of CreateConn: an exception leaves it wherever it is thrown. */
    method TryCreate(a: Attempt) returns (r: Call<Option<Conn>>)
      modifies this
      ensures View() == Made(old(View()), a)
      ensures r.Returned? ==> r == MakeAnswer(old(View()), a)
      ensures r.Threw? ==> Handled(r.exception) == MakeAnswer(old(View()), a)
    {
      var p := New(a.constructorThrows);
      if p.Threw? {
        return Threw(p.exception);
      }
      if a.created.Threw? {
        return Threw(a.created.exception);
      }
      if a.created.value {
        return Returned(Some(p.value));
      }
      freed := freed + [p.value];
      return Returned(None);
    }

    method CreateConn(a: Attempt) returns (r: Call<Option<Conn>>)
      modifies this
      ensures View() == Made(old(View()), a) && r == MakeAnswer(old(View()), a)
      ensures r.Threw? <==> LeavesCall(a)
      ensures r.Threw? ==> r.exception == Other
    {
      AnswerExact(View(), a);
      r := TryCreate(a);
      if r.Threw? && r.exception == Standard {
        return Returned(None);
      }
    }

    method PutConnect(pconn: Option<Conn>)
      modifies this
      ensures View() == if pconn == None then old(View()) else Push(old(View()), pconn.value)
    {
      if pconn == None {
        return;
      }
      if |conns| < MAX_CONN_NUM {
        conns := conns + [pconn.value];
      } else {
        freed := freed + [pconn.value];
      }
    }

    method ReleaseConnect(pconn: Option<Conn>)
      modifies this
      ensures View() == if pconn == None then old(View()) else Freed(old(View()), pconn.value)
    {
      if pconn == None {
        return;
      }
      freed := freed + [pconn.value];
    }

    /** `valid` answers GetSocketValid, which the loop asks once of every pooled connection. */
    method CheckConnect(now: int, end: int, valid: set<Conn>)
      modifies this
      ensures View() == Checked(old(View()), now, end, valid)
      ensures now - old(lastCheckTime) < 1 ==> View() == old(View())
      ensures now - old(lastCheckTime) >= 1 ==> lastCheckTime == end && AllIn(conns, valid)
    {
      if now - lastCheckTime < 1 {
        return;
      }
      var i := 0;
      ghost var before, freedBefore := conns, freed;
      while i < |conns|
        invariant 0 <= i <= |conns|
        invariant lastCheckTime == old(lastCheckTime) && next == old(next)
        invariant var r := Sweep(conns, i, valid);
          Sweep(before, 0, valid).0 == r.0 && freedBefore + Sweep(before, 0, valid).1 == freed + r.1
        decreases |conns| - i
      {
        if conns[i] !in valid {
          ghost var rest := Sweep(Swept(conns, i), i, valid);
          assert freed + ([conns[i]] + rest.1) == (freed + [conns[i]]) + rest.1;
          freed := freed + [conns[i]];
          conns := conns[i := conns[|conns| - 1]];
          conns := conns[..|conns| - 1];
        } else {
          i := i + 1;
        }
      }
      assert freed + [] == freed;
      SweepSplits(before, 0, valid);
      lastCheckTime := end;
    }

    /** The destructor: every pooled connection is freed, and the vector goes. */
    method Destroy()
      modifies this
      ensures View() == old(View()).(conns := [], freed := old(freed) + old(conns))
    {
      var i := 0;
      while i < |conns|
        modifies this`freed
        invariant 0 <= i <= |conns| && freed == old(freed) + conns[..i]
      {
        freed := freed + [conns[i]];
        i := i + 1;
      }
      assert conns[..i] == conns;
      conns := [];
    }

    /** Takes a pooled connection, or makes one; the two parts are separate steps when clients interleave. */
    method GetConnect(a: Attempt) returns (r: Call<Option<Conn>>)
      modifies this
      ensures old(conns) != [] ==>
        r == Returned(Some(old(conns)[|old(conns)| - 1])) && View() == Pop(old(View()))
      ensures old(conns) == [] ==> r == MakeAnswer(old(View()), a) && View() == Made(old(View()), a)
    {
      var c := TakePooled();
      if c.Some? {
        return Returned(c);
      }
      r := CreateConn(a);
    }

    /** A pooled connection handed out right after a check that was due is a valid one. */
    method GetConnectWithCheckConnectFlag(now: int, end: int, valid: set<Conn>, a: Attempt)
      returns (r: Call<Option<Conn>>)
      modifies this
      ensures var p := Checked(old(View()), now, end, valid);
        if p.conns != [] then r == Returned(Some(p.conns[|p.conns| - 1])) && View() == Pop(p)
        else r == MakeAnswer(p, a) && View() == Made(p, a)
      ensures var p := Checked(old(View()), now, end, valid);
        now - old(lastCheckTime) >= 1 && p.conns != [] ==>
          r.Returned? && r.value.Some? && r.value.value in valid
    {
      CheckConnect(now, end, valid);
      SweepSplits(old(conns), 0, valid);
      r := GetConnect(a);
    }
  }

  // ---------- clients sharing the pool ----------

  datatype Holding = Holding(client: ClientId, conn: Conn)

  /** The pool, the connections clients hold, and the clients that found the pool empty and are making a connection. */
  datatype State = State(pool: Pool, held: seq<Holding>, making: seq<ClientId>, destroyed: bool)

  datatype Event =
    | Take(client: ClientId)
    | Make(index: nat, attempt: Attempt)
    | Put(index: nat)
    | Release(index: nat)
    | Check(now: int, end: int, valid: set<Conn>)
    | Destroy

  function Initial(now: int): State {
    State(Pool([], now, 0, []), [], [], false)
  }

  /** Clients put or release only what they hold, and nothing happens after the pool is destroyed. */
  predicate Enabled(s: State, e: Event) {
    && !s.destroyed
    && match e
       case Make(index, _) => index < |s.making|
       case Put(index) => index < |s.held|
       case Release(index) => index < |s.held|
       case _ => true
  }

  function Step(s: State, e: Event): State
    requires Enabled(s, e)
  {
    match e
    case Take(client) =>
      if s.pool.conns == [] then s.(making := s.making + [client])
      else s.(pool := Pop(s.pool), held := s.held + [Holding(client, s.pool.conns[|s.pool.conns| - 1])])
    case Make(index, attempt) =>
      var answer := MakeAnswer(s.pool, attempt);
      var arrived :=
        if answer.Returned? && answer.value.Some? then [Holding(s.making[index], answer.value.value)] else [];
      s.(pool := Made(s.pool, attempt), held := s.held + arrived, making := Without(s.making, index))
    case Put(index) =>
      s.(pool := Push(s.pool, s.held[index].conn), held := Without(s.held, index))
    case Release(index) =>
      s.(pool := Freed(s.pool, s.held[index].conn), held := Without(s.held, index))
    case Check(now, end, valid) => s.(pool := Checked(s.pool, now, end, valid))
    case Destroy =>
      s.(pool := s.pool.(conns := [], freed := s.pool.freed + s.pool.conns), destroyed := true)
  }

  predicate ValidRun(s: State, es: seq<Event>)
    decreases es
  {
    es == [] || (Enabled(s, es[0]) && ValidRun(Step(s, es[0]), es[1..]))
  }

  function After(s: State, es: seq<Event>): State
    requires ValidRun(s, es)
    decreases es
  {
    if es == [] then s else After(Step(s, es[0]), es[1..])
  }

  // ---------- what the events of a run say ----------

  predicate IsDue(s: State, e: Event) {
    e.Check? && e.now - s.pool.lastCheck >= 1
  }

  /** What the last check that was due found valid; before any such check, `valid`. */
  function LastValid(s: State, es: seq<Event>, valid: set<Conn>): set<Conn>
    requires ValidRun(s, es)
    decreases es
  {
    if es == [] then valid
    else LastValid(Step(s, es[0]), es[1..], if IsDue(s, es[0]) then es[0].valid else valid)
  }

  /** The connections that clients put after the last check that was due; before any such check, added to `put`. */
  function PutSince(s: State, es: seq<Event>, put: set<Conn>): set<Conn>
    requires ValidRun(s, es)
    decreases es
  {
    if es == [] then put
    else
      var e := es[0];
      PutSince(Step(s, e), es[1..],
               if IsDue(s, e) then {} else if e.Put? then put + {s.held[e.index].conn} else put)
  }

  /** What Create did to the connection that an event constructs, if it constructs one. */
  function Creation(e: Event): seq<Call<bool>> {
    if e.Make? && e.attempt.constructorThrows.None? then [e.attempt.created] else []
  }

  /** What Create did to each connection constructed, in the order in which they were. */
  function Creations(es: seq<Event>): seq<Call<bool>> {
    if es == [] then [] else Creation(es[0]) + Creations(es[1..])
  }

  // ---------- conservation ----------

  function HeldConns(held: seq<Holding>): (r: seq<Conn>)
    ensures |r| == |held|
    ensures forall i :: 0 <= i < |held| ==> r[i] == held[i].conn
  {
    seq(|held|, i requires 0 <= i < |held| => held[i].conn)
  }

  /** The connections in the pool, with clients and freed, counted with repetition. */
  function Everywhere(s: State): multiset<Conn> {
    multiset(s.pool.conns) + multiset(HeldConns(s.held)) + multiset(s.pool.freed)
  }

  /** Each connection made is in exactly one place, once, unless its Create threw: then it is nowhere. */
  ghost predicate Conserved(s: State, made: seq<Call<bool>>) {
    && |made| == s.pool.next
    && forall c: Conn :: Everywhere(s)[c] == if c < |made| && made[c].Returned? then 1 else 0
  }

  predicate PooledAreIn(s: State, valid: set<Conn>, put: set<Conn>) {
    forall k :: 0 <= k < |s.pool.conns| ==> s.pool.conns[k] in valid || s.pool.conns[k] in put
  }

  lemma WithoutMultiset<T>(s: seq<T>, i: nat)
    requires i < |s|
    ensures multiset(Without(s, i)) + multiset{s[i]} == multiset(s)
  {
    assert s == s[..i] + [s[i]] + s[i + 1..];
  }

  lemma HeldWithout(held: seq<Holding>, i: nat)
    requires i < |held|
    ensures multiset(HeldConns(Without(held, i))) + multiset{held[i].conn} == multiset(HeldConns(held))
  {
    assert HeldConns(Without(held, i)) == Without(HeldConns(held), i);
    WithoutMultiset(HeldConns(held), i);
  }

  lemma HeldWith(held: seq<Holding>, h: Holding)
    ensures multiset(HeldConns(held + [h])) == multiset(HeldConns(held)) + multiset{h.conn}
  {
    assert HeldConns(held + [h]) == HeldConns(held) + [h.conn];
  }

  lemma LastOf(s: seq<Conn>)
    requires s != []
    ensures multiset(s[..|s| - 1]) + multiset{s[|s| - 1]} == multiset(s)
  {
    assert s == s[..|s| - 1] + [s[|s| - 1]];
  }

  /** The connection an event brings into the world without losing it. */
  function Arrival(s: State, e: Event): multiset<Conn> {
    if Creation(e) != [] && Creation(e)[0].Returned? then multiset{s.pool.next} else multiset{}
  }

  lemma TakeMoves(s: State, client: ClientId)
    requires Enabled(s, Take(client))
    ensures Everywhere(Step(s, Take(client))) == Everywhere(s)
  {
    if s.pool.conns != [] {
      LastOf(s.pool.conns);
      HeldWith(s.held, Holding(client, s.pool.conns[|s.pool.conns| - 1]));
    }
  }

  /** Making a connection changes what clients hold, or what is freed, or neither. */
  lemma MakeEffects(s: State, index: nat, attempt: Attempt)
    requires Enabled(s, Make(index, attempt))
    ensures var t := Step(s, Make(index, attempt));
      var answered := attempt.constructorThrows.None? && attempt.created.Returned?;
      && t.pool.conns == s.pool.conns
      && t.held == (if answered && attempt.created.value
                    then s.held + [Holding(s.making[index], s.pool.next)] else s.held)
      && t.pool.freed == (if answered && !attempt.created.value
                          then s.pool.freed + [s.pool.next] else s.pool.freed)
      && Arrival(s, Make(index, attempt)) == if answered then multiset{s.pool.next} else multiset{}
  {
    assert s.held + [] == s.held;
  }

  lemma MakeMoves(s: State, index: nat, attempt: Attempt)
    requires Enabled(s, Make(index, attempt))
    ensures Everywhere(Step(s, Make(index, attempt))) == Everywhere(s) + Arrival(s, Make(index, attempt))
  {
    hide Step, Arrival, HeldConns;
    MakeEffects(s, index, attempt);
    HeldWith(s.held, Holding(s.making[index], s.pool.next));
  }

  lemma PutMoves(s: State, index: nat)
    requires Enabled(s, Put(index))
    ensures Everywhere(Step(s, Put(index))) == Everywhere(s)
  {
    HeldWithout(s.held, index);
    hide HeldConns;
  }

  lemma ReleaseMoves(s: State, index: nat)
    requires Enabled(s, Release(index))
    ensures Everywhere(Step(s, Release(index))) == Everywhere(s)
  {
    HeldWithout(s.held, index);
    hide HeldConns;
  }

  lemma CheckMoves(s: State, now: int, end: int, valid: set<Conn>)
    requires Enabled(s, Check(now, end, valid))
    ensures Everywhere(Step(s, Check(now, end, valid))) == Everywhere(s)
  {
    hide Sweep, HeldConns;
    SweepSplits(s.pool.conns, 0, valid);
  }

  lemma DestroyMoves(s: State)
    requires Enabled(s, Destroy)
    ensures Everywhere(Step(s, Destroy)) == Everywhere(s)
  {
    hide HeldConns;
  }

  lemma StepCounts(s: State, e: Event)
    requires Enabled(s, e)
    ensures Step(s, e).pool.next == s.pool.next + |Creation(e)|
  {
    hide Sweep;
  }

  lemma NothingArrives(s: State, e: Event)
    requires !e.Make?
    ensures Everywhere(s) + Arrival(s, e) == Everywhere(s)
  {
    hide Everywhere;
  }

  /** A step moves connections between places, and adds the next new one unless its Create throws. */
  lemma StepMoves(s: State, e: Event)
    requires Enabled(s, e)
    ensures Everywhere(Step(s, e)) == Everywhere(s) + Arrival(s, e)
    ensures Step(s, e).pool.next == s.pool.next + |Creation(e)|
  {
    hide Everywhere, Step, Enabled, Arrival, Creation;
    StepCounts(s, e);
    if !e.Make? { NothingArrives(s, e); }
    match e
    case Take(client) => TakeMoves(s, client);
    case Make(index, attempt) => MakeMoves(s, index, attempt);
    case Put(index) => PutMoves(s, index);
    case Release(index) => ReleaseMoves(s, index);
    case Check(now, end, valid) => CheckMoves(s, now, end, valid);
    case Destroy => DestroyMoves(s);
  }

  lemma StepConserves(s: State, e: Event, made: seq<Call<bool>>)
    requires Enabled(s, e) && Conserved(s, made)
    ensures Conserved(Step(s, e), made + Creation(e))
  {
    hide Everywhere, Step, Enabled;
    StepMoves(s, e);
  }

  lemma {:induction false} RunConserves(s: State, es: seq<Event>, made: seq<Call<bool>>)
    requires ValidRun(s, es) && Conserved(s, made)
    ensures Conserved(After(s, es), made + Creations(es))
    decreases es
  {
    hide Conserved, Step, Enabled, Creation;
    if es == [] {
      assert made + [] == made;
    } else {
      StepConserves(s, es[0], made);
      RunConserves(Step(s, es[0]), es[1..], made + Creation(es[0]));
      assert (made + Creation(es[0])) + Creations(es[1..]) == made + (Creation(es[0]) + Creations(es[1..]));
    }
  }

  lemma StepKeepsBound(s: State, e: Event)
    requires Enabled(s, e) && |s.pool.conns| <= MAX_CONN_NUM
    ensures |Step(s, e).pool.conns| <= MAX_CONN_NUM
  {
    hide Sweep;
    match e
    case Check(now, end, valid) =>
      SweepSplits(s.pool.conns, 0, valid);
      var r := Sweep(s.pool.conns, 0, valid);
      assert |r.0| + |r.1| == |multiset(r.0) + multiset(r.1)| == |s.pool.conns|;
    case _ =>
  }

  lemma {:induction false} RunKeepsBound(s: State, es: seq<Event>)
    requires ValidRun(s, es) && |s.pool.conns| <= 8192
    ensures |After(s, es).pool.conns| <= 8192
    decreases es
  {
    hide Step, Enabled;
    if es != [] {
      StepKeepsBound(s, es[0]);
      RunKeepsBound(Step(s, es[0]), es[1..]);
    }
  }

  /** After one step a pooled connection was found valid by the check the step was, or was pooled or put before. */
  lemma StepKeepsPooled(s: State, e: Event, valid: set<Conn>, put: set<Conn>)
    requires Enabled(s, e) && PooledAreIn(s, valid, put)
    ensures PooledAreIn(Step(s, e), LastValid(s, [e], valid), PutSince(s, [e], put))
  {
    hide Sweep;
    var t := Step(s, e);
    assert ValidRun(t, []);
    match e
    case Check(now, end, answer) => SweepSplits(s.pool.conns, 0, answer);
    case _ =>
  }

  /** Every pooled connection was found valid by the last check that was due, or was put after it. */
  lemma {:induction false} PooledWereValidOrPut(s: State, es: seq<Event>, valid: set<Conn>, put: set<Conn>)
    requires ValidRun(s, es) && PooledAreIn(s, valid, put)
    ensures PooledAreIn(After(s, es), LastValid(s, es, valid), PutSince(s, es, put))
    decreases es
  {
    hide PooledAreIn, Step, Enabled, IsDue;
    if es != [] {
      var e, t := es[0], Step(s, es[0]);
      StepKeepsPooled(s, e, valid, put);
      assert ValidRun(t, []);
      PooledWereValidOrPut(t, es[1..], LastValid(s, [e], valid), PutSince(s, [e], put));
    }
  }

  // ---------- whole runs ----------

  /** Where a connection can be. */
  predicate Pooled(s: State, c: Conn) { c in s.pool.conns }

  predicate HeldBy(s: State, c: Conn, client: ClientId) { Holding(client, c) in s.held }

  predicate IsFreed(s: State, c: Conn) { c in s.pool.freed }

  /** A connection that was made and that nobody can reach or free any more. */
  ghost predicate Lost(s: State, c: Conn) {
    c < s.pool.next && !Pooled(s, c) && !IsFreed(s, c) && forall a: ClientId :: !HeldBy(s, c, a)
  }

  lemma NothingYet(now: int)
    ensures Conserved(Initial(now), [])
  {
  }

  lemma HeldIsCounted(s: State, c: Conn)
    ensures c in multiset(HeldConns(s.held)) <==> exists a: ClientId :: HeldBy(s, c, a)
  {
    if c in multiset(HeldConns(s.held)) {
      var i :| 0 <= i < |s.held| && HeldConns(s.held)[i] == c;
      assert HeldBy(s, c, s.held[i].client);
    }
    if a: ClientId :| HeldBy(s, c, a) {
      var i :| 0 <= i < |s.held| && s.held[i] == Holding(a, c);
      assert HeldConns(s.held)[i] == c;
    }
  }

  lemma CountsTell(s: State, made: seq<Call<bool>>, c: Conn)
    requires Conserved(s, made)
    ensures multiset(s.pool.conns)[c] + multiset(HeldConns(s.held))[c] + multiset(s.pool.freed)[c]
         == if c < |made| && made[c].Returned? then 1 else 0
    ensures Pooled(s, c) ==> !IsFreed(s, c)
    ensures forall a: ClientId :: HeldBy(s, c, a) ==> !Pooled(s, c) && !IsFreed(s, c)
  {
    hide HeldConns;
    assert Everywhere(s)[c] <= 1;
    HeldIsCounted(s, c);
  }

  lemma TwiceInMultiset(s: seq<Conn>, i: nat, j: nat)
    requires i < |s| && j < |s| && i != j && s[i] == s[j]
    ensures multiset(s)[s[i]] >= 2
  {
    WithoutMultiset(s, i);
    var k := if j < i then j else j - 1;
    assert Without(s, i)[k] == s[j];
  }

  lemma HeldOnce(s: State, made: seq<Call<bool>>, c: Conn, a: ClientId, b: ClientId)
    requires Conserved(s, made) && HeldBy(s, c, a) && HeldBy(s, c, b)
    ensures a == b
  {
    CountsTell(s, made, c);
    var i :| 0 <= i < |s.held| && s.held[i] == Holding(a, c);
    var j :| 0 <= j < |s.held| && s.held[j] == Holding(b, c);
    if i != j { TwiceInMultiset(HeldConns(s.held), i, j); }
  }

  /**
    Safety of every interleaving: a connection made is never in two places or held by two clients,
    none is freed twice, the pool stays bounded, and what it holds was found valid by the last check
    that was due or put in since.
   */
  lemma EveryRunIsSafe(now: int, es: seq<Event>, c: Conn)
    requires ValidRun(Initial(now), es)
    ensures var s := After(Initial(now), es);
      && |s.pool.conns| <= 8192
      && multiset(s.pool.conns)[c] <= 1 && multiset(s.pool.freed)[c] <= 1
      && (Pooled(s, c) ==> c in LastValid(Initial(now), es, {}) || c in PutSince(Initial(now), es, {}))
      && (Pooled(s, c) ==> !IsFreed(s, c))
      && (forall a: ClientId :: HeldBy(s, c, a) ==> !Pooled(s, c) && !IsFreed(s, c))
      && (forall a: ClientId, b: ClientId :: HeldBy(s, c, a) && HeldBy(s, c, b) ==> a == b)
  {
    hide Step, Enabled, LastValid, PutSince, Conserved;
    NothingYet(now);
    RunConserves(Initial(now), es, []);
    RunKeepsBound(Initial(now), es);
    PooledWereValidOrPut(Initial(now), es, {}, {});
    var s := After(Initial(now), es);
    var made := [] + Creations(es);
    CountsTell(s, made, c);
    forall a: ClientId, b: ClientId | HeldBy(s, c, a) && HeldBy(s, c, b)
      ensures a == b
    {
      HeldOnce(s, made, c, a, b);
    }
  }

  /** A connection made is lost exactly when its own Create threw, whichever exception it was. */
  lemma LostExact(now: int, es: seq<Event>, c: Conn)
    requires ValidRun(Initial(now), es)
    ensures var s := After(Initial(now), es);
      && |Creations(es)| == s.pool.next
      && (Lost(s, c) <==> c < |Creations(es)| && Creations(es)[c].Threw?)
      && (Pooled(s, c) || IsFreed(s, c) || (exists a: ClientId :: HeldBy(s, c, a))
          <==> c < |Creations(es)| && Creations(es)[c].Returned?)
  {
    hide Step, Enabled, HeldConns, Everywhere;
    NothingYet(now);
    RunConserves(Initial(now), es, []);
    var s := After(Initial(now), es);
    assert [] + Creations(es) == Creations(es);
    CountsTell(s, Creations(es), c);
    HeldIsCounted(s, c);
    assert Pooled(s, c) <==> multiset(s.pool.conns)[c] > 0;
    assert IsFreed(s, c) <==> multiset(s.pool.freed)[c] > 0;
  }

  /** The event constructs a connection whose Create throws. */
  predicate Throws(e: Event) {
    e.Make? && e.attempt.constructorThrows.None? && e.attempt.created.Threw?
  }

  lemma {:induction false} CreationOf(es: seq<Event>, c: nat) returns (i: nat)
    requires c < |Creations(es)| && Creations(es)[c].Threw?
    ensures i < |es| && Throws(es[i])
  {
    var n := |Creation(es[0])|;
    if c < n {
      i := 0;
    } else {
      i := CreationOf(es[1..], c - n);
      i := i + 1;
    }
  }

  lemma {:induction false} ThrownIn(es: seq<Event>, i: nat) returns (c: nat)
    requires i < |es| && Throws(es[i])
    ensures c < |Creations(es)| && Creations(es)[c].Threw?
  {
    if i == 0 {
      c := 0;
    } else {
      c := ThrownIn(es[1..], i - 1);
      c := c + |Creation(es[0])|;
    }
  }

  /** Some connection is lost exactly in the runs where some Create throws. */
  lemma LeakExact(now: int, es: seq<Event>)
    requires ValidRun(Initial(now), es)
    ensures (exists c: Conn :: Lost(After(Initial(now), es), c)) <==> (exists i :: 0 <= i < |es| && Throws(es[i]))
  {
    hide Lost, Throws;
    var s := After(Initial(now), es);
    if c: Conn :| Lost(s, c) {
      LostExact(now, es, c);
      var i := CreationOf(es, c);
    }
    if i :| 0 <= i < |es| && Throws(es[i]) {
      var c := ThrownIn(es, i);
      LostExact(now, es, c);
    }
  }

  /** A check within a second of the last one changes nothing, whatever became invalid; any other one is due. */
  lemma EarlyCheckSkips(s: State, now: int, end: int, valid: set<Conn>)
    requires Enabled(s, Check(now, end, valid))
    ensures now - s.pool.lastCheck < 1 ==> Step(s, Check(now, end, valid)) == s
    ensures IsDue(s, Check(now, end, valid)) <==> now - s.pool.lastCheck >= 1
  {
    hide Sweep;
  }

  /** Destroying the pool frees every pooled connection and touches no other. */
  lemma DestroyFrees(s: State)
    requires Enabled(s, Destroy)
    ensures var t := Step(s, Destroy);
      t.pool.conns == [] && t.pool.freed == s.pool.freed + s.pool.conns && t.held == s.held
    ensures forall e :: !Enabled(Step(s, Destroy), e)
  {
  }

  /** A full pool frees what is put; one with less than 8192 connections keeps it. */
  lemma PutExact(s: State, index: nat)
    requires Enabled(s, Put(index))
    ensures var t, c := Step(s, Put(index)), s.held[index].conn;
      && t.pool.conns == (if |s.pool.conns| < 8192 then s.pool.conns + [c] else s.pool.conns)
      && t.pool.freed == (if |s.pool.conns| < 8192 then s.pool.freed else s.pool.freed + [c])
  {
  }

  /** A check that is due keeps exactly the valid connections of the pool, and frees exactly the others. */
  lemma CheckIsExact(s: State, made: seq<Call<bool>>, now: int, end: int, valid: set<Conn>, c: Conn)
    requires Conserved(s, made) && Enabled(s, Check(now, end, valid)) && IsDue(s, Check(now, end, valid))
    requires Pooled(s, c)
    ensures var t := Step(s, Check(now, end, valid));
      && (Pooled(t, c) <==> c in valid) && (IsFreed(t, c) <==> c !in valid)
      && t.pool.lastCheck == end
  {
    hide Sweep;
    var r := Sweep(s.pool.conns, 0, valid);
    SweepSplits(s.pool.conns, 0, valid);
    CountsTell(s, made, c);
    assert c in multiset(s.pool.conns);
    assert c in multiset(r.0) || c in multiset(r.1);
  }

  /** The pool is a stack: what was put last is taken first, while it is not full. */
  lemma PutThenTake(s: State, index: nat, client: ClientId)
    requires Enabled(s, Put(index)) && |s.pool.conns| < 8192
    ensures var t := Step(Step(s, Put(index)), Take(client));
      t.pool == s.pool && t.held == Without(s.held, index) + [Holding(client, s.held[index].conn)]
  {
    assert (s.pool.conns + [s.held[index].conn])[..|s.pool.conns|] == s.pool.conns;
  }
}
