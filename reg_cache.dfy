/**
 * The memory pool's registration cache, as the byte-transfer module sees it:
 * pinned regions with a reference count. Registering pins a region once;
 * holders retain and release it, and the region is unpinned when the last
 * holder releases it.
 */
module RegCache {
  import opened Wrappers

  type RegId = nat

  /** One pinned region: its range and the number of holders. */
  datatype Registration = Registration(addr: nat, len: nat, count: nat)

  /** Live registrations by id; `next` is the id the next registration receives. */
  datatype Cache = Cache(regs: map<RegId, Registration>, next: RegId)

  /** Every live registration has a holder and an id below `next`. */
  predicate CacheValid(c: Cache) {
    forall r :: r in c.regs ==> r < c.next && c.regs[r].count > 0
  }

  /** The reference count of `r`; zero once it is unpinned (or was never pinned). */
  function Count(c: Cache, r: RegId): nat {
    if r in c.regs then c.regs[r].count else 0
  }

  /** mpool_retain: one more holder of a live registration. */
  function Retained(c: Cache, r: RegId): (c': Cache)
    requires r in c.regs
    ensures c'.next == c.next && c'.regs.Keys == c.regs.Keys
    ensures Count(c', r) == Count(c, r) + 1
    ensures c'.regs[r].addr == c.regs[r].addr && c'.regs[r].len == c.regs[r].len
    ensures forall q :: q != r ==> Count(c', q) == Count(c, q)
    ensures CacheValid(c) ==> CacheValid(c')
  {
    c.(regs := c.regs[r := c.regs[r].(count := c.regs[r].count + 1)])
  }

  /** mpool_release: one holder fewer; the last release unpins the region. */
  function Released(c: Cache, r: RegId): (c': Cache)
    requires r in c.regs && c.regs[r].count > 0
    ensures c'.next == c.next
    ensures Count(c', r) == Count(c, r) - 1
    ensures r in c'.regs <==> c.regs[r].count > 1
    ensures forall q :: q != r ==> (q in c'.regs <==> q in c.regs) && Count(c', q) == Count(c, q)
    ensures CacheValid(c) ==> CacheValid(c')
  {
    var n := c.regs[r].count;
    if n == 1 then c.(regs := c.regs - {r})
    else c.(regs := c.regs[r := c.regs[r].(count := n - 1)])
  }

  /** What mpool_register leaves behind: the new cache and the new handle, if any. */
  datatype RegisterResult = RegisterResult(cache: Cache, reg: Option<RegId>)

  /**
   * mpool_register of the range [addr, addr + len). `pinned` is the outcome
   * of the underlying pinning call; when it fails nothing changes and no
   * handle is returned.
   */
  function Registered(c: Cache, addr: nat, len: nat, pinned: bool): (r: RegisterResult)
    ensures r.reg.Some? <==> pinned
    ensures !pinned ==> r.cache == c
    ensures pinned ==> r.cache.regs == c.regs[r.reg.value := Registration(addr, len, 1)]
    ensures pinned && CacheValid(c) ==> r.reg.value !in c.regs && Count(c, r.reg.value) == 0
    ensures pinned ==> Count(r.cache, r.reg.value) == 1
    ensures pinned ==> forall q :: q != r.reg.value ==> Count(r.cache, q) == Count(c, q)
    ensures CacheValid(c) ==> CacheValid(r.cache)
  {
    if pinned then
      RegisterResult(Cache(c.regs[c.next := Registration(addr, len, 1)], c.next + 1), Some(c.next))
    else
      RegisterResult(c, None)
  }

  /** Retaining and then releasing a registration leaves the cache as it was. */
  lemma ReleaseUndoesRetain(c: Cache, r: RegId)
    requires r in c.regs && c.regs[r].count > 0
    ensures Released(Retained(c, r), r) == c
  {
    var c' := Retained(c, r);
    assert c'.regs[r].count > 1;
    assert Released(c', r).regs == c.regs;
  }

  /**
   * Releasing a fresh registration unpins it again: its only holder was the
   * one that registered it.
   */
  lemma ReleaseUndoesRegister(c: Cache, addr: nat, len: nat)
    requires CacheValid(c)
    ensures var rr := Registered(c, addr, len, true);
            Released(rr.cache, rr.reg.value).regs == c.regs
  {
    var rr := Registered(c, addr, len, true);
    assert rr.reg.value == c.next && c.next !in c.regs;
    assert rr.cache.regs - {c.next} == c.regs;
  }

  /** The memory pool object (btl_mpool) that holds the registration cache. */
  class Mpool {
    var regs: map<RegId, Registration>
    var next: RegId

    function Contents(): Cache
      reads this
    {
      Cache(regs, next)
    }

    ghost predicate Valid()
      reads this
    {
      CacheValid(Contents())
    }

    constructor ()
      ensures Valid() && Contents() == Cache(map[], 0)
    {
      regs := map[];
      next := 0;
    }

    method Register(addr: nat, len: nat, pinned: bool) returns (reg: Option<RegId>)
      requires Valid()
      modifies this
      ensures Valid()
      ensures RegisterResult(Contents(), reg) == Registered(old(Contents()), addr, len, pinned)
    {
      if pinned {
        reg := Some(next);
        regs := regs[next := Registration(addr, len, 1)];
        next := next + 1;
      } else {
        reg := None;
      }
    }

    method Retain(r: RegId)
      requires Valid() && r in regs
      modifies this
      ensures Valid()
      ensures Contents() == Retained(old(Contents()), r)
    {
      regs := regs[r := regs[r].(count := regs[r].count + 1)];
    }

    method Release(r: RegId)
      requires Valid() && r in regs
      modifies this
      ensures Valid()
      ensures Contents() == Released(old(Contents()), r)
    {
      if regs[r].count == 1 {
        regs := regs - {r};
      } else {
        regs := regs[r := regs[r].(count := regs[r].count - 1)];
      }
    }
  }
}
