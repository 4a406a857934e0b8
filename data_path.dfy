/**
 * The data-path decisions of the udapl byte-transfer module as functions of
 * the module state: which free list a fragment comes from or goes back to,
 * how long its segment is, which registration count moves, and what the
 * caller's `*size` becomes.
 */
module DataPath {
  import opened Wrappers
  import opened RegCache
  import opened Packing
  import opened Fragments

  /** OMPI_SUCCESS, OMPI_ERR_BAD_PARAM and OMPI_ERR_NOT_IMPLEMENTED. */
  datatype Status = Success | ErrBadParam | ErrNotImplemented

  // ---------------------------------------------------------------- alloc

  /** The tier mca_btl_udapl_alloc takes a fragment from. */
  function AllocTier(size: nat, l: Limits): (t: Tier)
    ensures t == Eager <==> size <= l.eagerLimit
    ensures t != User
  {
    if size <= l.eagerLimit then Eager else Max
  }

  /**
   * The segment length alloc records, clamped to the tier's limit exactly as
   * the two conditional expressions do: the request itself when it fits,
   * the max send size otherwise.
   */
  function AllocSegLen(size: nat, l: Limits): (n: nat)
    ensures n <= size
    ensures size <= l.eagerLimit ==> n == size
    ensures size > l.eagerLimit ==> n <= l.maxSendSize && (n == size || n == l.maxSendSize)
  {
    if size <= l.eagerLimit then
      (if size <= l.eagerLimit then size else l.eagerLimit)
    else
      (if size <= l.maxSendSize then size else l.maxSendSize)
  }

  datatype Allocated = Allocated(state: State, des: FragId)

  /** mca_btl_udapl_alloc. */
  function AllocStep(s: State, l: Limits, size: nat): (r: Allocated)
    requires PoolsInFrags(s)
    requires Pool(s, AllocTier(size, l)) != []
    ensures size <= l.eagerLimit ==>
              r.des == s.eager[0] && r.state.eager == s.eager[1..] && r.state.max == s.max
    ensures size > l.eagerLimit ==>
              r.des == s.max[0] && r.state.max == s.max[1..] && r.state.eager == s.eager
    ensures r.state.user == s.user && r.state.cache == s.cache
    ensures r.des in s.frags && r.state.frags.Keys == s.frags.Keys
    ensures forall id :: id in s.frags && id != r.des ==> r.state.frags[id] == s.frags[id]
    ensures IsSourceDescriptor(r.state.frags[r.des])
    ensures r.state.frags[r.des].segLen == AllocSegLen(size, l)
    ensures r.state.frags[r.des] == AsSource(s.frags[r.des].(segLen := AllocSegLen(size, l)))
  {
    var t := AllocTier(size, l);
    var id := Pool(s, t)[0];
    Allocated(Checkout(s, t, AsSource(s.frags[id].(segLen := AllocSegLen(size, l))), s.cache), id)
  }

  // ----------------------------------------------------------------- free

  /** Where mca_btl_udapl_free sends a fragment, by its size tag, first match wins. */
  datatype Route = ToUser | ToEager | ToMax | BadTag

  function FreeRoute(tag: nat, l: Limits): (r: Route)
    ensures r == ToUser <==> tag == 0
    ensures r == ToEager <==> tag != 0 && tag == l.eagerFragSize
    ensures r == ToMax <==> tag != 0 && tag != l.eagerFragSize && tag == l.maxFragSize
    ensures r == BadTag <==> tag != 0 && tag != l.eagerFragSize && tag != l.maxFragSize
  {
    if tag == 0 then ToUser
    else if tag == l.eagerFragSize then ToEager
    else if tag == l.maxFragSize then ToMax
    else BadTag
  }

  /** What free needs of a descriptor: a user fragment holds a pinned registration. */
  predicate Freeable(s: State, id: FragId) {
    && id in s.frags
    && (s.frags[id].size == 0 ==>
          && s.frags[id].registration.Some?
          && s.frags[id].registration.value in s.cache.regs
          && s.cache.regs[s.frags[id].registration.value].count > 0)
  }

  datatype Freed = Freed(state: State, rc: Status)

  /** mca_btl_udapl_free. */
  function FreeStep(s: State, l: Limits, id: FragId): (r: Freed)
    requires Freeable(s, id)
    ensures r.state.frags == s.frags
    ensures s.frags[id].size == 0 ==>
              && r.rc == Success
              && r.state.user == [id] + s.user && r.state.eager == s.eager && r.state.max == s.max
              && r.state.cache == Released(s.cache, s.frags[id].registration.value)
    ensures s.frags[id].size != 0 && s.frags[id].size == l.eagerFragSize ==>
              && r.rc == Success
              && r.state.eager == [id] + s.eager && r.state.max == s.max && r.state.user == s.user
              && r.state.cache == s.cache
    ensures s.frags[id].size != 0 && s.frags[id].size != l.eagerFragSize && s.frags[id].size == l.maxFragSize ==>
              && r.rc == Success
              && r.state.max == [id] + s.max && r.state.eager == s.eager && r.state.user == s.user
              && r.state.cache == s.cache
    ensures r.rc == ErrBadParam <==>
              s.frags[id].size !in {0, l.eagerFragSize, l.maxFragSize}
    ensures r.rc == ErrBadParam ==> r.state == s
  {
    var f := s.frags[id];
    match FreeRoute(f.size, l)
    case ToUser => Freed(Checkin(s, User, id, Released(s.cache, f.registration.value)), Success)
    case ToEager => Freed(Checkin(s, Eager, id, s.cache), Success)
    case ToMax => Freed(Checkin(s, Max, id, s.cache), Success)
    case BadTag => Freed(s, ErrBadParam)
  }

  // ---------------------------------------------------------- prepare_src

  /** The four ways prepare_src can build a send descriptor. */
  datatype SrcRule = PinnedInPlace | FreshRegistration | EagerCopy | MaxCopy

  /**
   * The rule prepare_src applies, first match wins: data already registered
   * and contiguous is used in place; otherwise large contiguous data without
   * a reserve is registered fresh; otherwise data that fits the eager limit
   * together with the reserve is copied into an eager buffer; otherwise into
   * a max buffer.
   */
  function SelectSrcRule(registered: bool, contiguous: bool, maxData: nat, reserve: nat, l: Limits): (rule: SrcRule)
    ensures rule == PinnedInPlace <==> registered && contiguous
    ensures rule == FreshRegistration <==>
              !registered && contiguous && maxData > l.maxSendSize && reserve == 0
    ensures rule == EagerCopy <==>
              !(registered && contiguous) &&
              !(contiguous && maxData > l.maxSendSize && reserve == 0) &&
              maxData + reserve <= l.eagerLimit
    ensures rule == MaxCopy <==>
              !(registered && contiguous) &&
              !(contiguous && maxData > l.maxSendSize && reserve == 0) &&
              maxData + reserve > l.eagerLimit
    ensures rule in {PinnedInPlace, FreshRegistration} ==> contiguous
  {
    if registered && contiguous then PinnedInPlace
    else if maxData > l.maxSendSize && contiguous && reserve == 0 then FreshRegistration
    else if maxData + reserve <= l.eagerLimit then EagerCopy
    else MaxCopy
  }

  /**
   * The request the max path packs: the caller's request, clamped so that
   * it fits one max-size send together with the reserve.
   */
  function MaxRequest(maxData: nat, reserve: nat, maxSendSize: nat): (n: nat)
    requires reserve <= maxSendSize
    ensures n <= maxData && n + reserve <= maxSendSize
    ensures n == maxData || n + reserve == maxSendSize
  {
    if maxData + reserve > maxSendSize then maxSendSize - reserve else maxData
  }

  /** The state, the descriptor (None for NULL), and the caller's `*size` after prepare_src. */
  datatype Prepared = Prepared(state: State, des: Option<FragId>, size: nat)

  /**
   * Rule 1: a user wrapper bound in place to the registered contiguous data.
   * The segment is exactly the packed range, the supplied registration gains
   * one holder (the fragment), and `*size` is not written.
   */
  function PinnedSrc(s: State, reg: RegId, c: Convertor, size: nat): (r: Prepared)
    requires PoolsInFrags(s) && reg in s.cache.regs
    ensures r.size == size
    ensures r.des.None? <==> s.user == []
    ensures r.des.None? ==> r.state == s
    ensures r.des.Some? ==>
              && r.des.value == s.user[0] && r.state.user == s.user[1..]
              && r.state.eager == s.eager && r.state.max == s.max
              && r.state.cache == Retained(s.cache, reg)
              && r.des.value in s.frags && r.des.value in r.state.frags
              && r.state.frags == s.frags[r.des.value := r.state.frags[r.des.value]]
    ensures r.des.Some? ==>
              var f := r.state.frags[r.des.value];
              && IsSourceDescriptor(f) && f.size == s.frags[r.des.value].size
              && f.segLen == Pack(c, size).packed && f.segLen <= size
              && f.segAddr == Position(c)
              && f.registration == Some(reg)
  {
    if s.user == [] then Prepared(s, None, size)
    else
      var id := s.user[0];
      var p := Pack(c, size);
      var f := s.frags[id].(segLen := p.packed, segAddr := p.addr, registration := Some(reg));
      Prepared(Checkout(s, User, AsSource(f), Retained(s.cache, reg)), Some(id), size)
  }

  /**
   * Rule 2: a user wrapper bound to contiguous data that is registered fresh,
   * exactly over the packed range. If pinning fails the wrapper goes back
   * and no descriptor is returned; the free lists and the cache are then as
   * before. `*size` is not written.
   */
  function FreshSrc(s: State, c: Convertor, size: nat, pinned: bool): (r: Prepared)
    requires PoolsInFrags(s)
    ensures r.size == size
    ensures r.des.Some? <==> s.user != [] && pinned
    ensures r.des.None? ==>
              && r.state.eager == s.eager && r.state.max == s.max && r.state.user == s.user
              && r.state.cache == s.cache
    ensures r.des.Some? ==>
              var rr := Registered(s.cache, Position(c), Pack(c, size).packed, true);
              && r.des.value == s.user[0] && r.state.user == s.user[1..]
              && r.state.eager == s.eager && r.state.max == s.max
              && r.state.cache == rr.cache
              && r.des.value in s.frags && r.des.value in r.state.frags
              && r.state.frags == s.frags[r.des.value := r.state.frags[r.des.value]]
              && r.state.frags[r.des.value].registration == rr.reg
    ensures r.des.Some? ==>
              var f := r.state.frags[r.des.value];
              && IsSourceDescriptor(f) && f.size == s.frags[r.des.value].size
              && f.segLen == Pack(c, size).packed && f.segAddr == Position(c)
  {
    if s.user == [] then Prepared(s, None, size)
    else
      var id := s.user[0];
      var p := Pack(c, size);
      var f := s.frags[id].(segLen := p.packed, segAddr := p.addr);
      var rr := Registered(s.cache, p.addr, p.packed, pinned);
      if rr.reg.None? then
        Prepared(Checkin(Checkout(s, User, f, s.cache), User, id, s.cache), None, size)
      else
        Prepared(Checkout(s, User, AsSource(f.(registration := rr.reg)), rr.cache), Some(id), size)
  }

  /**
   * Rules 3 and 4: pack `request` bytes into a pooled buffer of tier `t`
   * after `reserve` header bytes. `*size` becomes the packed length, also
   * when packing fails; on failure the buffer goes back to its own free
   * list. The segment covers the reserve and the packed bytes.
   */
  function CopySrc(s: State, t: Tier, c: Convertor, reserve: nat, request: nat, size: nat): (r: Prepared)
    requires PoolsInFrags(s) && t != User
    ensures Pool(s, t) == [] ==> r == Prepared(s, None, size)
    ensures Pool(s, t) != [] ==> r.size == Pack(c, request).packed && r.size <= request
    ensures r.des.Some? <==> Pool(s, t) != [] && !c.fails
    ensures r.des.None? ==>
              && r.state.eager == s.eager && r.state.max == s.max && r.state.user == s.user
              && r.state.frags == s.frags
    ensures r.state.cache == s.cache
    ensures r.des.Some? ==>
              && r.des.value == Pool(s, t)[0]
              && Pool(r.state, t) == Pool(s, t)[1..]
              && (forall u :: u != t ==> Pool(r.state, u) == Pool(s, u))
              && r.des.value in s.frags && r.des.value in r.state.frags
              && r.state.frags == s.frags[r.des.value := r.state.frags[r.des.value]]
    ensures r.des.Some? ==>
              var f := r.state.frags[r.des.value];
              && IsSourceDescriptor(f)
              && f.segLen == reserve + r.size
              && f == AsSource(s.frags[r.des.value].(segLen := reserve + r.size))
  {
    if Pool(s, t) == [] then Prepared(s, None, size)
    else
      var id := Pool(s, t)[0];
      var p := Pack(c, request);
      if !p.ok then
        Prepared(Checkin(Checkout(s, t, s.frags[id], s.cache), t, id, s.cache), None, p.packed)
      else
        Prepared(Checkout(s, t, AsSource(s.frags[id].(segLen := reserve + p.packed)), s.cache), Some(id), p.packed)
  }

  /** mca_btl_udapl_prepare_src. */
  function PrepareSrcStep(s: State, l: Limits, reg: Option<RegId>, c: Convertor, reserve: nat, size: nat, pinned: bool): (r: Prepared)
    requires PoolsInFrags(s)
    requires SelectSrcRule(reg.Some?, !NeedBuffers(c), size, reserve, l) == MaxCopy ==> reserve <= l.maxSendSize
    requires reg.Some? ==> reg.value in s.cache.regs
    ensures r.des.Some? ==> r.des.value in s.frags && r.des.value in r.state.frags
    ensures r.des.Some? ==> IsSourceDescriptor(r.state.frags[r.des.value])
    ensures r.des.None? ==>
              r.state.eager == s.eager && r.state.max == s.max && r.state.user == s.user &&
              r.state.cache == s.cache
    ensures r.des.Some? ==> r.state.frags == s.frags[r.des.value := r.state.frags[r.des.value]]
    ensures var rule := SelectSrcRule(reg.Some?, !NeedBuffers(c), size, reserve, l);
            && (rule == PinnedInPlace ==> r == PinnedSrc(s, reg.value, c, size))
            && (rule == FreshRegistration ==> r == FreshSrc(s, c, size, pinned))
            && (rule == EagerCopy ==> r == CopySrc(s, Eager, c, reserve, size, size))
            && (rule == MaxCopy ==> r == CopySrc(s, Max, c, reserve, MaxRequest(size, reserve, l.maxSendSize), size))
    ensures r.des.Some? && SelectSrcRule(reg.Some?, !NeedBuffers(c), size, reserve, l) == EagerCopy ==>
              r.state.frags[r.des.value].segLen <= l.eagerLimit
    ensures r.des.Some? && SelectSrcRule(reg.Some?, !NeedBuffers(c), size, reserve, l) == MaxCopy ==>
              r.state.frags[r.des.value].segLen <= l.maxSendSize
  {
    match SelectSrcRule(reg.Some?, !NeedBuffers(c), size, reserve, l)
    case PinnedInPlace => PinnedSrc(s, reg.value, c, size)
    case FreshRegistration => FreshSrc(s, c, size, pinned)
    case EagerCopy => CopySrc(s, Eager, c, reserve, size, size)
    case MaxCopy => CopySrc(s, Max, c, reserve, MaxRequest(size, reserve, l.maxSendSize), size)
  }

  // ---------------------------------------------------------- prepare_dst

  /** The state and the descriptor (None for NULL) after prepare_dst. */
  datatype Outcome = Outcome(state: State, des: Option<FragId>)

  /**
   * mca_btl_udapl_prepare_dst: always a user wrapper whose destination
   * segment is the next unconverted byte of the receive buffer, `*size`
   * bytes long. A supplied registration gains a holder; otherwise the range
   * is registered fresh, and if that fails the wrapper goes back.
   */
  function PrepareDstStep(s: State, reg: Option<RegId>, c: Convertor, size: nat, pinned: bool): (r: Outcome)
    requires PoolsInFrags(s)
    requires reg.Some? ==> reg.value in s.cache.regs
    ensures r.des.Some? <==> s.user != [] && (reg.Some? || pinned)
    ensures r.state.eager == s.eager && r.state.max == s.max
    ensures r.des.None? ==> r.state.user == s.user && r.state.cache == s.cache
    ensures r.des.Some? ==>
              && r.des.value == s.user[0] && r.state.user == s.user[1..]
              && r.des.value in s.frags && r.des.value in r.state.frags
              && r.state.frags == s.frags[r.des.value := r.state.frags[r.des.value]]
    ensures r.des.Some? ==>
              var f := r.state.frags[r.des.value];
              && IsDestinationDescriptor(f) && f.size == s.frags[r.des.value].size
              && f.segLen == size && f.segAddr == c.base + c.lb + c.converted
    ensures r.des.Some? && reg.Some? ==>
              r.state.cache == Retained(s.cache, reg.value) &&
              r.state.frags[r.des.value].registration == reg
    ensures r.des.Some? && reg.None? ==>
              var rr := Registered(s.cache, Position(c), size, true);
              r.state.cache == rr.cache && r.state.frags[r.des.value].registration == rr.reg
  {
    if s.user == [] then Outcome(s, None)
    else
      var id := s.user[0];
      var f := AsDestination(s.frags[id].(segLen := size, segAddr := Position(c)));
      if reg.Some? then
        Outcome(Checkout(s, User, f.(registration := reg), Retained(s.cache, reg.value)), Some(id))
      else
        var rr := Registered(s.cache, f.segAddr, f.segLen, pinned);
        if rr.reg.None? then
          Outcome(Checkin(Checkout(s, User, f, s.cache), User, id, s.cache), None)
        else
          Outcome(Checkout(s, User, f.(registration := rr.reg), rr.cache), Some(id))
  }
}
