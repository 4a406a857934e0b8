/**
 * Fragments, the three free lists they live on, and the invariant that ties
 * the free lists, the fragments and the registration cache together.
 */
module Fragments {
  import opened Wrappers
  import opened RegCache

  type FragId = nat

  /**
   * One udapl fragment: its tier tag (`size`: 0 for a user wrapper, the
   * eager or max fragment size for a pooled buffer), its segment, the
   * descriptor fields handed to the transport, and the registration it holds.
   * `desSrc`/`desDst` say whether des_src/des_dst point at the fragment's own
   * segment (true) or are NULL (false).
   */
  datatype Frag = Frag(
    size: nat,
    segAddr: nat,
    segLen: nat,
    desSrc: bool,
    desSrcCnt: nat,
    desDst: bool,
    desDstCnt: nat,
    desFlags: nat,
    registration: Option<RegId>)

  /**
   * The module's limits (btl_eager_limit, btl_max_send_size) and the
   * component's fragment sizes, which double as the tier tags.
   */
  datatype Limits = Limits(eagerLimit: nat, maxSendSize: nat, eagerFragSize: nat, maxFragSize: nat)

  datatype Tier = Eager | Max | User

  /** The size tag every fragment of a tier carries. */
  function TierTag(l: Limits, t: Tier): nat {
    match t
    case Eager => l.eagerFragSize
    case Max => l.maxFragSize
    case User => 0
  }

  /** The free lists (head = next fragment handed out), all fragments, and the cache. */
  datatype State = State(
    eager: seq<FragId>,
    max: seq<FragId>,
    user: seq<FragId>,
    frags: map<FragId, Frag>,
    cache: Cache)

  function Pool(s: State, t: Tier): seq<FragId> {
    match t
    case Eager => s.eager
    case Max => s.max
    case User => s.user
  }

  /** Every fragment on a free list is a known fragment. */
  predicate PoolsInFrags(s: State) {
    && (forall id :: id in s.eager ==> id in s.frags)
    && (forall id :: id in s.max ==> id in s.frags)
    && (forall id :: id in s.user ==> id in s.frags)
  }

  /** A descriptor prepared for sending: source segment set, no destination, no flags. */
  predicate IsSourceDescriptor(f: Frag) {
    f.desSrc && f.desSrcCnt == 1 && !f.desDst && f.desDstCnt == 0 && f.desFlags == 0
  }

  /** A descriptor prepared for receiving: destination segment set, no source, no flags. */
  predicate IsDestinationDescriptor(f: Frag) {
    !f.desSrc && f.desSrcCnt == 0 && f.desDst && f.desDstCnt == 1 && f.desFlags == 0
  }

  /** The descriptor fields a send-side operation writes last. */
  function AsSource(f: Frag): (g: Frag)
    ensures IsSourceDescriptor(g)
    ensures g.size == f.size && g.segAddr == f.segAddr && g.segLen == f.segLen
    ensures g.registration == f.registration
  {
    f.(desSrc := true, desSrcCnt := 1, desDst := false, desDstCnt := 0, desFlags := 0)
  }

  /** The descriptor fields prepare_dst writes. */
  function AsDestination(f: Frag): (g: Frag)
    ensures IsDestinationDescriptor(g)
    ensures g.size == f.size && g.segAddr == f.segAddr && g.segLen == f.segLen
    ensures g.registration == f.registration
  {
    f.(desSrc := false, desSrcCnt := 0, desDst := true, desDstCnt := 1, desFlags := 0)
  }

  /**
   * Take the head fragment of tier `t` (the ALLOC macros), leave it as `f`
   * and the cache as `c'`.
   */
  function Checkout(s: State, t: Tier, f: Frag, c': Cache): (s': State)
    requires Pool(s, t) != []
    ensures Pool(s', t) == Pool(s, t)[1..]
    ensures forall u :: u != t ==> Pool(s', u) == Pool(s, u)
    ensures s'.frags == s.frags[Pool(s, t)[0] := f] && s'.cache == c'
  {
    var id := Pool(s, t)[0];
    var s1 := match t
      case Eager => s.(eager := s.eager[1..])
      case Max => s.(max := s.max[1..])
      case User => s.(user := s.user[1..]);
    s1.(frags := s.frags[id := f], cache := c')
  }

  /** Push fragment `id` back on the free list of tier `t` (the RETURN macros). */
  function Checkin(s: State, t: Tier, id: FragId, c': Cache): (s': State)
    ensures Pool(s', t) == [id] + Pool(s, t)
    ensures forall u :: u != t ==> Pool(s', u) == Pool(s, u)
    ensures s'.frags == s.frags && s'.cache == c'
  {
    var s1 := match t
      case Eager => s.(eager := [id] + s.eager)
      case Max => s.(max := [id] + s.max)
      case User => s.(user := [id] + s.user);
    s1.(cache := c')
  }

  predicate NoDup(p: seq<FragId>) {
    forall i, j :: 0 <= i < j < |p| ==> p[i] != p[j]
  }

  /** Fragments handed out and not yet freed. */
  ghost function Outstanding(s: State): set<FragId> {
    set id | id in s.frags && id !in s.eager && id !in s.max && id !in s.user
  }

  /** A user fragment that holds registration `r`, to be released when it is freed. */
  predicate Holds(f: Frag, r: RegId) {
    f.size == 0 && f.registration == Some(r)
  }

  /** The outstanding fragments holding registration `r`. */
  ghost function Holders(s: State, r: RegId): set<FragId> {
    set id | id in s.frags && id in Outstanding(s) && Holds(s.frags[id], r)
  }

  /** A free list without repeats whose fragments carry its tier's tag. */
  ghost predicate PoolValid(s: State, l: Limits, t: Tier) {
    && NoDup(Pool(s, t))
    && forall id :: id in Pool(s, t) ==> id in s.frags && s.frags[id].size == TierTag(l, t)
  }

  /**
   * The module invariant: pooled tiers have non-zero tags; the free lists are
   * repeat-free, disjoint and correctly tagged; every outstanding user
   * fragment holds a registration; and no registration has more outstanding
   * fragments holding it than its reference count, so a registration held by
   * a fragment in flight is never unpinned.
   */
  ghost predicate ValidState(s: State, l: Limits) {
    && l.eagerFragSize > 0 && l.maxFragSize > 0
    && CacheValid(s.cache)
    && PoolValid(s, l, Eager) && PoolValid(s, l, Max) && PoolValid(s, l, User)
    && (forall id :: id in s.eager ==> id !in s.max && id !in s.user)
    && (forall id :: id in s.max ==> id !in s.user)
    && (forall id :: id in Outstanding(s) && s.frags[id].size == 0 ==> s.frags[id].registration.Some?)
    && (forall r :: |Holders(s, r)| <= Count(s.cache, r))
  }

  lemma ValidPoolsInFrags(s: State, l: Limits)
    requires ValidState(s, l)
    ensures PoolsInFrags(s)
  {
    assert PoolValid(s, l, Eager) && PoolValid(s, l, Max) && PoolValid(s, l, User);
  }

  lemma PopNoDup(p: seq<FragId>)
    requires NoDup(p) && p != []
    ensures NoDup(p[1..]) && p[0] !in p[1..]
    ensures forall x :: x in p[1..] <==> x in p && x != p[0]
  {
    forall x | x in p && x != p[0] ensures x in p[1..] {
      var i :| 0 <= i < |p| && p[i] == x;
      assert p[1..][i - 1] == x;
    }
  }

  lemma PushNoDup(p: seq<FragId>, id: FragId)
    requires NoDup(p) && id !in p
    ensures NoDup([id] + p)
  {
    var q := [id] + p;
    forall i, j | 0 <= i < j < |q| ensures q[i] != q[j] {
      assert q[j] == p[j - 1];
      if i > 0 { assert q[i] == p[i - 1]; }
    }
  }

  /** Checking a fragment out makes exactly that fragment outstanding. */
  lemma CheckoutOutstanding(s: State, l: Limits, t: Tier, f: Frag, c': Cache)
    requires ValidState(s, l) && Pool(s, t) != []
    ensures var id := Pool(s, t)[0];
            id !in Outstanding(s) &&
            Outstanding(Checkout(s, t, f, c')) == Outstanding(s) + {id}
  {
    var id := Pool(s, t)[0];
    var s' := Checkout(s, t, f, c');
    assert PoolValid(s, l, t);
    PopNoDup(Pool(s, t));
    assert id in s.frags;
    forall x ensures x in Outstanding(s') <==> x in Outstanding(s) + {id} {
      if x == id {
        match t
        case Eager => assert id !in s.max && id !in s.user;
        case Max => assert id !in s.eager && id !in s.user;
        case User => assert id !in s.eager && id !in s.max;
      }
    }
  }

  /** Checking a fragment in leaves exactly that fragment no longer outstanding. */
  lemma CheckinOutstanding(s: State, t: Tier, id: FragId, c': Cache)
    requires id in Outstanding(s)
    ensures Outstanding(Checkin(s, t, id, c')) == Outstanding(s) - {id}
  {
    var s' := Checkin(s, t, id, c');
    forall x ensures x in Outstanding(s') <==> x in Outstanding(s) - {id} {
      assert x in Pool(s', t) <==> x == id || x in Pool(s, t);
    }
  }

  /** The holders after a checkout: the old ones, plus the fragment if it now holds `r`. */
  lemma CheckoutHolders(s: State, l: Limits, t: Tier, f: Frag, c': Cache, r: RegId)
    requires ValidState(s, l) && Pool(s, t) != []
    ensures var id := Pool(s, t)[0];
            id !in Holders(s, r) &&
            Holders(Checkout(s, t, f, c'), r) == Holders(s, r) + (if Holds(f, r) then {id} else {})
  {
    var id := Pool(s, t)[0];
    var s' := Checkout(s, t, f, c');
    CheckoutOutstanding(s, l, t, f, c');
    var rhs := Holders(s, r) + (if Holds(f, r) then {id} else {});
    forall x ensures x in Holders(s', r) <==> x in rhs {
      if x != id {
        assert x in s'.frags <==> x in s.frags;
        assert x in s.frags ==> s'.frags[x] == s.frags[x];
        assert x in Outstanding(s') <==> x in Outstanding(s);
      }
    }
  }

  /** The holders after a checkin: the old ones without the fragment. */
  lemma CheckinHolders(s: State, t: Tier, id: FragId, c': Cache, r: RegId)
    requires id in Outstanding(s)
    ensures Holders(Checkin(s, t, id, c'), r) == Holders(s, r) - {id}
  {
    CheckinOutstanding(s, t, id, c');
  }

  /**
   * Checking out the head of a free list keeps the invariant when the
   * fragment keeps its tag, a user fragment holds a registration, and the
   * new cache counts every holder.
   */
  lemma CheckoutKeepsValid(s: State, l: Limits, t: Tier, f: Frag, c': Cache)
    requires ValidState(s, l) && Pool(s, t) != []
    requires f.size == s.frags[Pool(s, t)[0]].size
    requires f.size == 0 ==> f.registration.Some?
    requires CacheValid(c')
    requires forall r :: |Holders(s, r) + (if Holds(f, r) then {Pool(s, t)[0]} else {})| <= Count(c', r)
    ensures ValidState(Checkout(s, t, f, c'), l)
  {
    var id := Pool(s, t)[0];
    var s' := Checkout(s, t, f, c');
    CheckoutOutstanding(s, l, t, f, c');
    assert PoolValid(s, l, t);
    PopNoDup(Pool(s, t));
    forall u ensures PoolValid(s', l, u) {
      assert PoolValid(s, l, u);
      forall x | x in Pool(s', u) ensures x != id {
        if u == t {
        } else {
          match t
          case Eager => assert id !in s.max && id !in s.user;
          case Max => assert id !in s.eager && id !in s.user;
          case User => assert id !in s.eager && id !in s.max;
        }
      }
    }
    forall x | x in Outstanding(s') && s'.frags[x].size == 0 ensures s'.frags[x].registration.Some? {
      if x != id {
        assert x in Outstanding(s);
      }
    }
    forall r ensures |Holders(s', r)| <= Count(c', r) {
      CheckoutHolders(s, l, t, f, c', r);
    }
  }

  /**
   * Checking an outstanding fragment in on the free list of its own tag keeps
   * the invariant when the new cache counts the remaining holders.
   */
  lemma CheckinKeepsValid(s: State, l: Limits, t: Tier, id: FragId, c': Cache)
    requires ValidState(s, l) && id in Outstanding(s)
    requires s.frags[id].size == TierTag(l, t)
    requires CacheValid(c')
    requires forall r :: |Holders(s, r) - {id}| <= Count(c', r)
    ensures ValidState(Checkin(s, t, id, c'), l)
  {
    var s' := Checkin(s, t, id, c');
    CheckinOutstanding(s, t, id, c');
    assert PoolValid(s, l, t);
    PushNoDup(Pool(s, t), id);
    forall u ensures PoolValid(s', l, u) {
      assert PoolValid(s, l, u);
    }
    forall r ensures |Holders(s', r)| <= Count(c', r) {
      CheckinHolders(s, t, id, c', r);
    }
  }

  /**
   * Taking a fragment and returning it at once (a failed preparation) leaves
   * the free lists as they were; only the fragment's own fields may change.
   */
  lemma RetouchKeepsValid(s: State, l: Limits, t: Tier, f: Frag)
    requires ValidState(s, l) && Pool(s, t) != []
    requires f.size == s.frags[Pool(s, t)[0]].size
    ensures var id := Pool(s, t)[0];
            Checkin(Checkout(s, t, f, s.cache), t, id, s.cache) == s.(frags := s.frags[id := f])
    ensures ValidState(s.(frags := s.frags[Pool(s, t)[0] := f]), l)
  {
    var id := Pool(s, t)[0];
    var s' := s.(frags := s.frags[id := f]);
    assert [id] + Pool(s, t)[1..] == Pool(s, t);
    assert Outstanding(s') == Outstanding(s) by {
      assert id in Pool(s, t);
    }
    forall u ensures PoolValid(s', l, u) {
      assert PoolValid(s, l, u);
    }
    forall r ensures Holders(s', r) == Holders(s, r) {
      assert id !in Outstanding(s) by { assert id in Pool(s, t); }
    }
  }

  /**
   * An outstanding user fragment's registration is pinned: it is live in the
   * cache with a positive count, so releasing it when the fragment is freed
   * is well-defined.
   */
  lemma HeldRegistrationIsPinned(s: State, l: Limits, id: FragId)
    requires ValidState(s, l) && id in Outstanding(s) && s.frags[id].size == 0
    ensures s.frags[id].registration.Some?
    ensures s.frags[id].registration.value in s.cache.regs
    ensures s.cache.regs[s.frags[id].registration.value].count >= 1
  {
    var r := s.frags[id].registration.value;
    assert id in Holders(s, r);
    assert |Holders(s, r)| >= 1;
  }
}
