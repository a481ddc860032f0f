/** The bookkeeping of a Commons Pool `GenericObjectPool` as the metric pools use it:
    a bound on live objects, the borrowed (active) objects, the idle objects kept
    for reuse and the cumulative borrow count. Objects are named by identities;
    their contents are kept by the owner of the pool. */
module GenericPool {
  import opened Wrappers

  datatype ObjectPool = ObjectPool(
    maxTotal: int,        // setMaxTotal; a negative bound means unlimited
    active: set<nat>,     // borrowed and not yet returned
    idle: seq<nat>,       // returned and kept for reuse, most recently returned first
    borrowedCount: nat,   // getBorrowedCount: every successful borrow, never decreased
    nextId: nat,          // identity given to the next object the factory creates
    open: bool)           // false once the pool is closed

  function NewObjectPool(maxTotal: int): (p: ObjectPool)
    ensures Valid(p) && p.open
    ensures NumActive(p) == 0 && NumIdle(p) == 0 && p.borrowedCount == 0
  {
    ObjectPool(maxTotal, {}, [], 0, 0, true)
  }

  /** Identities are unique: active and idle objects are distinct and were all created,
      and the live objects never exceed the bound. */
  predicate Valid(p: ObjectPool) {
    && (forall x :: x in p.active ==> x < p.nextId)
    && (forall i :: 0 <= i < |p.idle| ==> p.idle[i] < p.nextId && p.idle[i] !in p.active)
    && (forall i, j :: 0 <= i < j < |p.idle| ==> p.idle[i] != p.idle[j])
    && (p.maxTotal >= 0 ==> |p.active| + |p.idle| <= p.maxTotal)
  }

  function NumActive(p: ObjectPool): nat {
    |p.active|
  }

  function NumIdle(p: ObjectPool): nat {
    |p.idle|
  }

  /** Whether a borrow can be served: the pool is open and has an idle object
      or room to create one. */
  predicate CanLend(p: ObjectPool) {
    p.open && (|p.idle| > 0 || p.maxTotal < 0 || |p.active| < p.maxTotal)
  }

  /** A successful borrow: the new pool state, the object lent, and whether the
      factory had to create it. */
  datatype Loan = Loan(pool: ObjectPool, id: nat, created: bool)

  /** `borrowObject`: the most recently returned idle object, else a new one while
      the bound allows. With no object to lend the call fails once the maximum
      wait is over (no other caller can return one meanwhile); a closed pool refuses. */
  function Borrow(p: ObjectPool): (r: Result<Loan>)
    ensures r.Ok? <==> CanLend(p)
    ensures r.Err? ==> r.error == (if p.open then NoSuchElement else IllegalState)
    ensures r.Ok? ==>
      var q := r.value.pool;
      && q.active == p.active + {r.value.id}
      && q.borrowedCount == p.borrowedCount + 1
      && q.maxTotal == p.maxTotal && q.open == p.open
      && (r.value.created <==> |p.idle| == 0)
      && (r.value.created ==> q.idle == p.idle && r.value.id == p.nextId)
      && (!r.value.created ==> r.value.id == p.idle[0] && q.idle == p.idle[1..])
    ensures Valid(p) && r.Ok? ==> Valid(r.value.pool) && r.value.id !in p.active
  {
    if !p.open then Err(IllegalState)
    else if |p.idle| > 0 then
      var id := p.idle[0];
      Ok(Loan(p.(active := p.active + {id}, idle := p.idle[1..], borrowedCount := p.borrowedCount + 1), id, false))
    else if p.maxTotal < 0 || |p.active| < p.maxTotal then
      var id := p.nextId;
      Ok(Loan(p.(active := p.active + {id}, nextId := id + 1, borrowedCount := p.borrowedCount + 1), id, true))
    else Err(NoSuchElement)
  }

  /** `returnObject`: only a borrowed object may come back; anything else (an object
      already returned, or never lent) is refused with IllegalStateException. An open
      pool keeps the object idle; a closed one destroys it. */
  function Return(p: ObjectPool, id: nat): (r: Result<ObjectPool>)
    ensures r.Ok? <==> id in p.active
    ensures r.Err? ==> r.error == IllegalState
    ensures r.Ok? ==>
      && r.value.active == p.active - {id}
      && r.value.idle == (if p.open then [id] + p.idle else p.idle)
      && r.value.borrowedCount == p.borrowedCount
      && r.value.maxTotal == p.maxTotal && r.value.open == p.open && r.value.nextId == p.nextId
    ensures Valid(p) && r.Ok? ==> Valid(r.value)
  {
    if id !in p.active then Err(IllegalState)
    else if p.open then Ok(p.(active := p.active - {id}, idle := [id] + p.idle))
    else Ok(p.(active := p.active - {id}))
  }

  /** `clear` then `close`: idle objects are destroyed; borrowed ones stay counted. */
  function Close(p: ObjectPool): (r: ObjectPool)
    ensures !r.open && NumIdle(r) == 0
    ensures r.active == p.active && r.borrowedCount == p.borrowedCount
    ensures Valid(p) ==> Valid(r)
  {
    p.(idle := [], open := false)
  }

  /** The bound of the pool is respected: with a non-negative maximum, no more
      objects are ever out than the maximum, and a borrow at the bound fails. */
  lemma OutstandingBounded(p: ObjectPool)
    requires Valid(p) && p.maxTotal >= 0
    ensures NumActive(p) <= p.maxTotal
    ensures NumActive(p) == p.maxTotal ==> Borrow(p).Err?
  {
  }
}
