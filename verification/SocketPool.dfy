/** The socket pool (include/pfs/netty/socket_pool.hpp): sockets in a growing vector of slots, an
    index from id to slot, and a set of free slots. */
module SocketPools {
  import opened Prelude

  /** Any socket; the handle stands for everything but its id. */
  datatype Socket = Socket(id: int, handle: int)
  datatype Kind = Accepted | Connected
  datatype Account = Account(sock: Socket, kind: Kind)

  const EMPTY := Socket(-1, -1)     // a default-constructed socket

  datatype Pool = Pool(accounts: seq<Account>, mapping: map<int, nat>, free: set<nat>, removable: set<int>)

  /** The index leads to the right slots, each its own. */
  ghost predicate Sound(p: Pool) {
    && (forall i :: i in p.free ==> i < |p.accounts|)
    && (forall id {:trigger p.mapping[id]} :: id in p.mapping ==>
          p.mapping[id] < |p.accounts| && p.mapping[id] !in p.free && p.accounts[p.mapping[id]].sock.id == id)
  }

  predicate Holds(p: Pool, id: int, i: nat) {
    id in p.mapping && p.mapping[id] == i
  }

  /** Every slot that is not free belongs to a mapped socket. */
  ghost predicate NoLeak(p: Pool) {
    forall i: nat {:trigger i in p.free} :: i < |p.accounts| && i !in p.free ==> exists id :: Holds(p, id, i)
  }

  /** The map the pool stands for. */
  ghost function Table(p: Pool): map<int, Account>
    requires Sound(p)
  {
    map id | id in p.mapping :: p.accounts[p.mapping[id]]
  }

  lemma NonEmpty(s: set<int>)
    ensures s == {} || exists x :: x in s
  {
    if forall x :: x !in s {
      assert s == {};
    }
  }

  lemma {:induction false} LeastExists(s: set<nat>, x: nat)
    requires x in s
    ensures exists z :: z in s && forall y :: y in s ==> z <= y
    decreases x
  {
    if y :| y in s && y < x {
      LeastExists(s, y);
    }
  }

  function Least(s: set<nat>): (x: nat)
    requires s != {}
    ensures x in s && forall y :: y in s ==> x <= y
  {
    assert exists z :: z in s && forall y :: y in s ==> z <= y by {
      var z :| z in s;
      LeastExists(s, z);
    }
    var x :| x in s && forall y :: y in s ==> x <= y;
    x
  }

  /** The least free slot is taken; a slot is appended only when there is none. */
  function Added(p: Pool, a: Account): Pool
    requires Sound(p)
  {
    if p.free == {} then
      p.(accounts := p.accounts + [a], mapping := p.mapping[a.sock.id := |p.accounts|])
    else
      var i := Least(p.free);
      p.(accounts := p.accounts[i := a], mapping := p.mapping[a.sock.id := i], free := p.free - {i})
  }

  ghost predicate Emptied(p: Pool, ids: set<int>, i: nat) {
    exists id :: id in ids && Holds(p, id, i)
  }

  ghost function Freed(p: Pool, ids: set<int>): set<nat> {
    set id | id in ids && id in p.mapping :: p.mapping[id]
  }

  /** The sockets ids leave the index, and their slots become free and empty. */
  ghost function Cleared(p: Pool, ids: set<int>): Pool {
    p.(accounts := seq(|p.accounts|, (i: int) requires 0 <= i < |p.accounts| =>
                       if Emptied(p, ids, i) then p.accounts[i].(sock := EMPTY) else p.accounts[i]),
       mapping := p.mapping - ids, free := p.free + Freed(p, ids))
  }

  ghost function Applied(p: Pool): Pool {
    Cleared(p, p.removable).(removable := {})
  }

  ghost function Located(p: Pool, id: int): Option<Account>
    requires Sound(p)
  {
    if id in p.removable || id !in Table(p) then None else Some(Table(p)[id])
  }

  // ---- The pool refines a map ----

  lemma SoundInjective(p: Pool, x: int, y: int)
    requires Sound(p) && x in p.mapping && y in p.mapping && p.mapping[x] == p.mapping[y]
    ensures x == y
  {
  }

  /** The slot taken is the least one free, or a new one if none is. */
  lemma AddedSlot(p: Pool, a: Account)
    requires Sound(p)
    ensures var i := Added(p, a).mapping[a.sock.id];
      if p.free == {} then i == |p.accounts| else i in p.free && forall j :: j in p.free ==> i <= j
    ensures |Added(p, a).accounts| == |p.accounts| + if p.free == {} then 1 else 0
  {
  }

  /** Whatever the id, even one already mapped. */
  lemma AddedRefines(p: Pool, a: Account)
    requires Sound(p)
    ensures Sound(Added(p, a)) && Table(Added(p, a)) == Table(p)[a.sock.id := a]
  {
    var q := Added(p, a);
    forall id {:trigger q.mapping[id]} | id in q.mapping
      ensures q.mapping[id] < |q.accounts| && q.mapping[id] !in q.free && q.accounts[q.mapping[id]].sock.id == id
      ensures q.accounts[q.mapping[id]] == if id == a.sock.id then a else p.accounts[p.mapping[id]]
    {
      assert id != a.sock.id ==> q.mapping[id] == p.mapping[id];
    }
    assert Table(q).Keys == Table(p).Keys + {a.sock.id};
  }

  lemma AppliedRefines(p: Pool)
    requires Sound(p)
    ensures Sound(Applied(p)) && Table(Applied(p)) == Table(p) - p.removable
  {
    var q := Applied(p);
    forall id {:trigger q.mapping[id]} | id in q.mapping
      ensures !Emptied(p, p.removable, q.mapping[id]) && q.mapping[id] !in q.free
      ensures q.accounts[q.mapping[id]] == p.accounts[p.mapping[id]]
    {
      assert p.mapping[id] == q.mapping[id];
    }
    forall i | i in Freed(p, p.removable)
      ensures i < |p.accounts|
    {
      var id :| id in p.removable && id in p.mapping && p.mapping[id] == i;
    }
    assert Table(q).Keys == Table(p).Keys - p.removable;
  }

  ghost predicate Mapped(p: Pool) {
    forall id {:trigger p.mapping[id]} :: id in p.mapping ==> p.mapping[id] < |p.accounts|
  }

  ghost function ClearOne(p: Pool, id: int): Pool
    requires Mapped(p)
  {
    if id !in p.mapping then p
    else p.(accounts := p.accounts[p.mapping[id] := p.accounts[p.mapping[id]].(sock := EMPTY)],
            mapping := p.mapping - {id}, free := p.free + {p.mapping[id]})
  }

  lemma ClearedNone(p: Pool)
    ensures Cleared(p, {}) == p
  {
  }

  /** Clearing one socket after others clears them all. */
  lemma ClearedOne(p: Pool, ids: set<int>, id: int)
    requires Sound(p) && id !in ids
    ensures Mapped(Cleared(p, ids)) && Cleared(p, ids + {id}) == ClearOne(Cleared(p, ids), id)
  {
  }

  // ---- Slots ----

  /** A slot leaks exactly when the id was mapped already. */
  lemma AddedLeaksIff(p: Pool, a: Account)
    requires Sound(p) && NoLeak(p)
    ensures NoLeak(Added(p, a)) <==> a.sock.id !in p.mapping
  {
    var q := Added(p, a);
    var id := a.sock.id;
    if id in p.mapping {
      var i := p.mapping[id];
      forall x
        ensures !Holds(q, x, i)
      {
        assert x != id ==> (Holds(q, x, i) <==> Holds(p, x, i));
      }
      assert i < |q.accounts| && i !in q.free;
    } else {
      forall i: nat {:trigger i in q.free} | i < |q.accounts| && i !in q.free
        ensures exists x :: Holds(q, x, i)
      {
        if i < |p.accounts| && i !in p.free {
          var x :| Holds(p, x, i);
          assert Holds(q, x, i);
        } else {
          assert Holds(q, id, i);
        }
      }
    }
  }

  lemma HeldOrFreed(p: Pool, id: int, i: nat)
    requires Holds(p, id, i)
    ensures if id in p.removable then i in Applied(p).free else Holds(Applied(p), id, i)
  {
  }

  lemma AppliedNoLeak(p: Pool)
    requires Sound(p) && NoLeak(p)
    ensures NoLeak(Applied(p))
  {
    var q := Applied(p);
    forall i: nat {:trigger i in q.free} | i < |q.accounts| && i !in q.free
      ensures exists x :: Holds(q, x, i)
    {
      var x :| Holds(p, x, i);
      HeldOrFreed(p, x, i);
      assert Holds(q, x, i);
    }
  }

  lemma {:induction false} IndexCount(n: nat, s: set<nat>)
    requires forall i: nat :: i in s <==> i < n
    ensures |s| == n
  {
    if n == 0 {
      assert s == {};
    } else {
      IndexCount(n - 1, s - {n - 1});
    }
  }

  ghost predicate Injective(m: map<int, nat>) {
    forall x, y :: x in m && y in m && x != y ==> m[x] != m[y]
  }

  function Used(m: map<int, nat>): set<nat> {
    set id | id in m :: m[id]
  }

  lemma {:induction false} InjectiveCount(m: map<int, nat>)
    requires Injective(m)
    ensures |Used(m)| == |m|
  {
    var keys := m.Keys;
    if keys == {} {
      assert Used(m) == {} && |m| == |keys|;
    } else {
      NonEmpty(keys);
      var x :| x in keys;
      var rest := m - {x};
      assert rest.Keys == m.Keys - {x};
      forall v | v in Used(m) && v != m[x]
        ensures v in Used(rest)
      {
        var y :| y in m && m[y] == v;
        assert y in rest && rest[y] == v;
      }
      assert Used(rest) == Used(m) - {m[x]};
      InjectiveCount(rest);
    }
  }

  /** Used and free slots add up. */
  lemma SlotCount(p: Pool)
    requires Sound(p) && NoLeak(p)
    ensures |p.mapping| + |p.free| == |p.accounts|
  {
    InjectiveCount(p.mapping);
    forall i: nat
      ensures i in Used(p.mapping) + p.free <==> i < |p.accounts|
    {
      if i < |p.accounts| && i !in p.free {
        var id :| Holds(p, id, i);
        assert p.mapping[id] in Used(p.mapping);
      }
    }
    IndexCount(|p.accounts|, Used(p.mapping) + p.free);
    assert Used(p.mapping) !! p.free;
  }

  // ---- Runs ----

  datatype Event = Add(account: Account) | RemoveLater(id: int) | ApplyRemove

  ghost function After(p: Pool, e: Event): Pool
    requires Sound(p)
  {
    match e
    case Add(a) => Added(p, a)
    case RemoveLater(id) => p.(removable := p.removable + {id})
    case ApplyRemove => Applied(p)
  }

  /** What the same event does to the map. */
  function Told(table: map<int, Account>, removable: set<int>, e: Event): (map<int, Account>, set<int>) {
    match e
    case Add(a) => (table[a.sock.id := a], removable)
    case RemoveLater(id) => (table, removable + {id})
    case ApplyRemove => (table - removable, {})
  }

  lemma AfterRefines(p: Pool, e: Event)
    requires Sound(p)
    ensures Sound(After(p, e)) && (Table(After(p, e)), After(p, e).removable) == Told(Table(p), p.removable, e)
  {
    match e
    case Add(a) => AddedRefines(p, a);
    case RemoveLater(id) =>
    case ApplyRemove => AppliedRefines(p);
  }

  ghost function Final(p: Pool, es: seq<Event>): Pool
    requires Sound(p)
    decreases |es|
  {
    if es == [] then p else AfterRefines(p, es[0]); Final(After(p, es[0]), es[1..])
  }

  function ToldAll(table: map<int, Account>, removable: set<int>, es: seq<Event>): (map<int, Account>, set<int>)
    decreases |es|
  {
    if es == [] then (table, removable)
    else
      var (t, r) := Told(table, removable, es[0]);
      ToldAll(t, r, es[1..])
  }

  const FRESH := Pool([], map[], {}, {})

  /** Every run of the pool is a run of the map, whatever ids are added. */
  lemma {:induction false} RunRefines(p: Pool, es: seq<Event>)
    requires Sound(p)
    ensures Sound(Final(p, es)) && (Table(Final(p, es)), Final(p, es).removable) == ToldAll(Table(p), p.removable, es)
    decreases |es|
  {
    if es != [] {
      AfterRefines(p, es[0]);
      RunRefines(After(p, es[0]), es[1..]);
    }
  }

  /** locate finds exactly the sockets added, not removed since and not scheduled for it. */
  lemma LocateRefines(es: seq<Event>, id: int)
    ensures var p := Final(FRESH, es);
      var (table, removable) := ToldAll(map[], {}, es);
      Sound(p) && Located(p, id) == if id in table && id !in removable then Some(table[id]) else None
  {
    RunRefines(FRESH, es);
  }

  /** Only ids without a socket are added. */
  ghost predicate Unmapped(p: Pool, es: seq<Event>)
    requires Sound(p)
    decreases |es|
  {
    es == []
    || ((es[0].Add? ==> es[0].account.sock.id !in p.mapping)
        && (AfterRefines(p, es[0]); Unmapped(After(p, es[0]), es[1..])))
  }

  /** The largest number of sockets mapped at one time. */
  ghost function Peak(p: Pool, es: seq<Event>): nat
    requires Sound(p)
    decreases |es|
  {
    if es == [] then |p.mapping|
    else
      AfterRefines(p, es[0]);
      var rest := Peak(After(p, es[0]), es[1..]);
      if rest < |p.mapping| then |p.mapping| else rest
  }

  lemma {:induction false} PeakAtLeast(p: Pool, es: seq<Event>)
    requires Sound(p)
    ensures Peak(p, es) >= |p.mapping|
  {
  }

  lemma StepSlots(p: Pool, e: Event)
    requires Sound(p) && NoLeak(p) && (e.Add? ==> e.account.sock.id !in p.mapping)
    ensures var q := After(p, e);
      && Sound(q) && NoLeak(q)
      && |q.accounts| == if |q.mapping| > |p.accounts| then |q.mapping| else |p.accounts|
  {
    AfterRefines(p, e);
    SlotCount(p);
    match e
    case Add(a) => AddedLeaksIff(p, a); SlotCount(After(p, e));
    case RemoveLater(id) =>
      var q := After(p, e);
      forall i: nat {:trigger i in q.free} | i < |q.accounts| && i !in q.free
        ensures exists x :: Holds(q, x, i)
      {
        var x :| Holds(p, x, i);
        assert Holds(q, x, i);
      }
    case ApplyRemove => AppliedNoLeak(p); SlotCount(After(p, e));
  }

  /** The slots are as many as the sockets ever mapped at one time. */
  lemma {:induction false} SlotEconomy(p: Pool, es: seq<Event>)
    requires Sound(p) && NoLeak(p) && Unmapped(p, es)
    ensures Sound(Final(p, es)) && NoLeak(Final(p, es))
    ensures |Final(p, es).accounts| == if Peak(p, es) > |p.accounts| then Peak(p, es) else |p.accounts|
    decreases |es|
  {
    SlotCount(p);
    if es != [] {
      StepSlots(p, es[0]);
      SlotEconomy(After(p, es[0]), es[1..]);
      PeakAtLeast(After(p, es[0]), es[1..]);
    }
  }

  lemma SlotEconomyFromStart(es: seq<Event>)
    requires Unmapped(FRESH, es)
    ensures |Final(FRESH, es).accounts| == Peak(FRESH, es)
  {
    SlotEconomy(FRESH, es);
  }

  class SocketPool {
    var accounts: seq<Account>
    var mapping: map<int, nat>
    var freeIndices: set<nat>
    var removable: set<int>

    ghost function View(): Pool
      reads this
    {
      Pool(accounts, mapping, freeIndices, removable)
    }

    ghost predicate Valid()
      reads this
    {
      Sound(View())
    }

    constructor ()
      ensures Valid() && View() == FRESH
    {
      accounts, mapping, freeIndices, removable := [], map[], {}, {};
    }

    method Add(sock: Socket, kind: Kind)
      requires Valid()
      modifies this`accounts, this`mapping, this`freeIndices
      ensures View() == Added(old(View()), Account(sock, kind))
      ensures Valid() && Table(View()) == old(Table(View()))[sock.id := Account(sock, kind)]
    {
      AddedRefines(View(), Account(sock, kind));
      if freeIndices == {} {
        mapping := mapping[sock.id := |accounts|];
        accounts := accounts + [Account(sock, kind)];
      } else {
        var pos := Least(freeIndices);
        mapping := mapping[sock.id := pos];
        accounts := accounts[pos := Account(sock, kind)];
        freeIndices := freeIndices - {pos};
      }
    }

    /** ok tells whether the three internal checks hold. */
    method LocateAccount(id: int) returns (r: Option<Account>, ok: bool)
      requires Valid()
      ensures ok && r == if id in mapping then Some(Table(View())[id]) else None
    {
      r, ok := None, true;
      if id in mapping {
        var index := mapping[id];
        ok := index < |accounts| && index !in freeIndices && accounts[index].sock.id == id;
        if ok {
          r := Some(accounts[index]);
        }
      }
    }

    method RemoveLater(id: int)
      modifies this`removable
      ensures View() == old(View()).(removable := old(removable) + {id})
    {
      removable := removable + {id};
    }

    method Locate(id: int) returns (r: Option<Account>, ok: bool)
      requires Valid()
      ensures ok && r == Located(View(), id)
    {
      if id in removable {
        return None, true;
      }
      r, ok := LocateAccount(id);
    }

    method Drop(id: int)
      requires Mapped(View())
      modifies this`accounts, this`freeIndices, this`mapping
      ensures View() == ClearOne(old(View()), id)
    {
      if id in mapping {
        var index := mapping[id];
        accounts := accounts[index := accounts[index].(sock := EMPTY)];
        freeIndices := freeIndices + {index};
        mapping := mapping - {id};
      }
    }

    method ApplyRemove()
      requires Valid()
      modifies this
      ensures View() == Applied(old(View()))
      ensures Valid() && Table(View()) == old(Table(View())) - old(removable)
    {
      hide Cleared, ClearOne, Sound, Table;
      ghost var p := View();
      AppliedRefines(p);
      ClearedNone(p);
      var todo := removable;
      ghost var done: set<int> := {};
      while todo != {}
        invariant done !! todo && done + todo == p.removable && View() == Cleared(p, done)
        decreases |todo|
      {
        NonEmpty(todo);
        var id :| id in todo;
        ClearedOne(p, done, id);
        Drop(id);
        todo := todo - {id};
        done := done + {id};
      }
      assert done == p.removable;
      removable := {};
    }
  }
}
