/**
 * The udapl byte-transfer module object: three fragment free lists, the
 * fragments themselves, the memory pool with its registration cache, and the
 * receive-callback table. Each operation updates them in place and is proved
 * to leave exactly the state its step function in DataPath describes.
 */
module UdaplBtl {
  import opened Wrappers
  import opened RegCache
  import opened Packing
  import opened Fragments
  import opened DataPath
  import opened DataPathProps

  /** A one-byte active-message tag. */
  type Tag = t: int | 0 <= t < 256

  /** An opaque pointer (callback function or its data); 0 stands for NULL. */
  type Handle = nat

  /** One entry of udapl_reg: the receive callback for a tag and its data. */
  datatype RecvCallback = RecvCallback(cbfunc: Handle, cbdata: Handle)

  class Module {
    const limits: Limits
    var eagerFree: seq<FragId>
    var maxFree: seq<FragId>
    var userFree: seq<FragId>
    var frags: map<FragId, Frag>
    const mpool: Mpool
    const udaplReg: array<RecvCallback>

    /** The free lists, the fragments and the registration cache as one value. */
    ghost function Model(): State
      reads this, mpool
    {
      State(eagerFree, maxFree, userFree, frags, mpool.Contents())
    }

    ghost predicate Valid()
      reads this, mpool
    {
      ValidState(Model(), limits) && udaplReg.Length == 256
    }

    /**
     * A module over free lists, fragments and a memory pool built by the
     * component, with an empty callback table.
     */
    constructor (limits: Limits, eagerFree: seq<FragId>, maxFree: seq<FragId>, userFree: seq<FragId>,
                 frags: map<FragId, Frag>, mpool: Mpool)
      requires ValidState(State(eagerFree, maxFree, userFree, frags, mpool.Contents()), limits)
      ensures Valid() && fresh(udaplReg)
      ensures this.limits == limits && this.mpool == mpool
      ensures Model() == State(eagerFree, maxFree, userFree, frags, mpool.Contents())
      ensures forall t :: 0 <= t < 256 ==> udaplReg[t] == RecvCallback(0, 0)
    {
      this.limits := limits;
      this.eagerFree := eagerFree;
      this.maxFree := maxFree;
      this.userFree := userFree;
      this.frags := frags;
      this.mpool := mpool;
      this.udaplReg := new RecvCallback[256](_ => RecvCallback(0, 0));
    }

    /** mca_btl_udapl_register: the last registration for a tag wins. */
    method Register(tag: Tag, cbfunc: Handle, cbdata: Handle) returns (rc: Status)
      requires Valid()
      modifies udaplReg
      ensures Valid()
      ensures udaplReg[tag] == RecvCallback(cbfunc, cbdata)
      ensures forall t :: 0 <= t < 256 && t != tag ==> udaplReg[t] == old(udaplReg[t])
      ensures rc == Success
    {
      udaplReg[tag] := udaplReg[tag].(cbfunc := cbfunc);
      udaplReg[tag] := udaplReg[tag].(cbdata := cbdata);
      rc := Success;
    }

    /** mca_btl_udapl_alloc. */
    method Alloc(size: nat) returns (des: FragId)
      requires Valid() && Pool(Model(), AllocTier(size, limits)) != []
      modifies this
      ensures Valid()
      ensures Allocated(Model(), des) == AllocStep(old(Model()), limits, size)
      ensures des in Outstanding(Model())
    {
      ghost var s0 := Model();
      AllocKeepsValid(s0, limits, size);
      if size <= limits.eagerLimit {
        des := eagerFree[0];
        eagerFree := eagerFree[1..];
        frags := frags[des := frags[des].(segLen := if size <= limits.eagerLimit then size else limits.eagerLimit)];
      } else {
        des := maxFree[0];
        maxFree := maxFree[1..];
        frags := frags[des := frags[des].(segLen := if size <= limits.maxSendSize then size else limits.maxSendSize)];
      }
      frags := frags[des := frags[des].(desSrc := true, desSrcCnt := 1, desDst := false, desDstCnt := 0, desFlags := 0)];
      assert Model() == AllocStep(s0, limits, size).state;
    }

    /** mca_btl_udapl_free: route the fragment back by its size tag. */
    method Free(des: FragId) returns (rc: Status)
      requires Valid() && des in Outstanding(Model())
      modifies this, mpool
      ensures Valid()
      ensures Freeable(old(Model()), des) && Freed(Model(), rc) == FreeStep(old(Model()), limits, des)
    {
      FreeKeepsValid(Model(), limits, des);
      var frag := frags[des];
      if frag.size == 0 {
        mpool.Release(frag.registration.value);
        userFree := [des] + userFree;
      } else if frag.size == limits.eagerFragSize {
        eagerFree := [des] + eagerFree;
      } else if frag.size == limits.maxFragSize {
        maxFree := [des] + maxFree;
      } else {
        return ErrBadParam;
      }
      rc := Success;
    }

    /**
     * mca_btl_udapl_prepare_src. `size` is the caller's `*size` on entry and
     * `sizeOut` its value on return; `pinned` is the outcome of the pinning
     * call should the rule register memory. The first matching rule wins.
     */
    method PrepareSrc(registration: Option<RegId>, convertor: Convertor, reserve: nat, size: nat, pinned: bool)
      returns (des: Option<FragId>, sizeOut: nat)
      requires Valid()
      requires SelectSrcRule(registration.Some?, !NeedBuffers(convertor), size, reserve, limits) == MaxCopy ==>
               reserve <= limits.maxSendSize
      requires registration.Some? ==> registration.value in mpool.regs
      modifies this, mpool
      ensures Valid()
      ensures Prepared(Model(), des, sizeOut) ==
              PrepareSrcStep(old(Model()), limits, registration, convertor, reserve, size, pinned)
      ensures des.Some? ==> des.value in Outstanding(Model())
    {
      var maxData := size;
      if registration.Some? && !NeedBuffers(convertor) {
        des := PinInPlace(registration.value, convertor, maxData);
        sizeOut := size;
      } else if maxData > limits.maxSendSize && !NeedBuffers(convertor) && reserve == 0 {
        des := RegisterInPlace(convertor, maxData, pinned);
        sizeOut := size;
      } else if maxData + reserve <= limits.eagerLimit {
        des, sizeOut := CopyIntoEager(convertor, reserve, maxData);
      } else {
        des, sizeOut := CopyIntoMax(convertor, reserve, maxData);
      }
    }

    /** prepare_src rule 1: bind a user wrapper to registered contiguous data. */
    method PinInPlace(registration: RegId, convertor: Convertor, maxData: nat) returns (des: Option<FragId>)
      requires Valid() && registration in mpool.regs
      modifies this, mpool
      ensures Valid()
      ensures Prepared(Model(), des, maxData) == PinnedSrc(old(Model()), registration, convertor, maxData)
      ensures des.Some? ==> des.value in Outstanding(Model())
    {
      ghost var s0 := Model();
      ValidPoolsInFrags(s0, limits);
      PinnedSrcKeepsValid(s0, limits, registration, convertor, maxData);
      if userFree == [] {
        return None;
      }
      var id := userFree[0];
      userFree := userFree[1..];
      var packed := Pack(convertor, maxData);
      var frag := frags[id].(segLen := packed.packed, segAddr := packed.addr);
      mpool.Retain(registration);
      frag := frag.(registration := Some(registration));
      frags := frags[id := frag.(desSrc := true, desSrcCnt := 1, desDst := false, desDstCnt := 0, desFlags := 0)];
      des := Some(id);
    }

    /** prepare_src rule 2: bind a user wrapper to contiguous data registered fresh. */
    method RegisterInPlace(convertor: Convertor, maxData: nat, pinned: bool) returns (des: Option<FragId>)
      requires Valid()
      modifies this, mpool
      ensures Valid()
      ensures Prepared(Model(), des, maxData) == FreshSrc(old(Model()), convertor, maxData, pinned)
      ensures des.Some? ==> des.value in Outstanding(Model())
    {
      ghost var s0 := Model();
      ValidPoolsInFrags(s0, limits);
      FreshSrcKeepsValid(s0, limits, convertor, maxData, pinned);
      if userFree == [] {
        return None;
      }
      var id := userFree[0];
      userFree := userFree[1..];
      var packed := Pack(convertor, maxData);
      var frag := frags[id].(segLen := packed.packed, segAddr := packed.addr);
      frags := frags[id := frag];
      var reg := mpool.Register(packed.addr, packed.packed, pinned);
      if reg.None? {
        userFree := [id] + userFree;
        assert FreshSrc(s0, convertor, maxData, pinned) ==
               Prepared(Checkin(Checkout(s0, User, frag, s0.cache), User, id, s0.cache), None, maxData);
        return None;
      }
      frag := frag.(registration := reg);
      frags := frags[id := frag.(desSrc := true, desSrcCnt := 1, desDst := false, desDstCnt := 0, desFlags := 0)];
      des := Some(id);
      ghost var rr := Registered(s0.cache, packed.addr, packed.packed, pinned);
      assert FreshSrc(s0, convertor, maxData, pinned) ==
             Prepared(Checkout(s0, User, AsSource(frag), rr.cache), des, maxData);
      assert mpool.Contents() == rr.cache;
      assert frags == s0.frags[id := AsSource(frag)];
      assert Model() == State(s0.eager, s0.max, s0.user[1..], s0.frags[id := AsSource(frag)], rr.cache);
    }

    /** prepare_src rule 3: pack into an eager buffer after the reserve. */
    method CopyIntoEager(convertor: Convertor, reserve: nat, maxData: nat) returns (des: Option<FragId>, sizeOut: nat)
      requires Valid()
      modifies this
      ensures Valid()
      ensures Prepared(Model(), des, sizeOut) == CopySrc(old(Model()), Eager, convertor, reserve, maxData, maxData)
      ensures des.Some? ==> des.value in Outstanding(Model())
    {
      ghost var s0 := Model();
      ValidPoolsInFrags(s0, limits);
      CopySrcKeepsValid(s0, limits, Eager, convertor, reserve, maxData, maxData);
      sizeOut := maxData;
      if eagerFree == [] {
        return None, sizeOut;
      }
      var id := eagerFree[0];
      eagerFree := eagerFree[1..];
      var packed := Pack(convertor, maxData);
      sizeOut := packed.packed;
      if !packed.ok {
        eagerFree := [id] + eagerFree;
        assert CopySrc(s0, Eager, convertor, reserve, maxData, maxData) ==
               Prepared(Checkin(Checkout(s0, Eager, s0.frags[id], s0.cache), Eager, id, s0.cache), None, sizeOut);
        return None, sizeOut;
      }
      var frag := frags[id].(segLen := packed.packed + reserve);
      frags := frags[id := frag.(desSrc := true, desSrcCnt := 1, desDst := false, desDstCnt := 0, desFlags := 0)];
      des := Some(id);
      assert CopySrc(s0, Eager, convertor, reserve, maxData, maxData) ==
             Prepared(Checkout(s0, Eager, AsSource(s0.frags[id].(segLen := reserve + packed.packed)), s0.cache), des, sizeOut);
    }

    /**
     * prepare_src rule 4: pack into a max buffer after the reserve, the
     * request first clamped so that reserve and data fit one max send.
     */
    method CopyIntoMax(convertor: Convertor, reserve: nat, maxData: nat) returns (des: Option<FragId>, sizeOut: nat)
      requires Valid() && reserve <= limits.maxSendSize
      modifies this
      ensures Valid()
      ensures Prepared(Model(), des, sizeOut) ==
              CopySrc(old(Model()), Max, convertor, reserve, MaxRequest(maxData, reserve, limits.maxSendSize), maxData)
      ensures des.Some? ==> des.value in Outstanding(Model())
    {
      ghost var s0 := Model();
      ValidPoolsInFrags(s0, limits);
      CopySrcKeepsValid(s0, limits, Max, convertor, reserve, MaxRequest(maxData, reserve, limits.maxSendSize), maxData);
      sizeOut := maxData;
      if maxFree == [] {
        return None, sizeOut;
      }
      var id := maxFree[0];
      maxFree := maxFree[1..];
      var request := maxData;
      if request + reserve > limits.maxSendSize {
        request := limits.maxSendSize - reserve;
      }
      var packed := Pack(convertor, request);
      sizeOut := packed.packed;
      if !packed.ok {
        maxFree := [id] + maxFree;
        assert CopySrc(s0, Max, convertor, reserve, MaxRequest(maxData, reserve, limits.maxSendSize), maxData) ==
               Prepared(Checkin(Checkout(s0, Max, s0.frags[id], s0.cache), Max, id, s0.cache), None, sizeOut);
        return None, sizeOut;
      }
      var frag := frags[id].(segLen := packed.packed + reserve);
      frags := frags[id := frag.(desSrc := true, desSrcCnt := 1, desDst := false, desDstCnt := 0, desFlags := 0)];
      des := Some(id);
      assert CopySrc(s0, Max, convertor, reserve, MaxRequest(maxData, reserve, limits.maxSendSize), maxData) ==
             Prepared(Checkout(s0, Max, AsSource(s0.frags[id].(segLen := reserve + packed.packed)), s0.cache), des, sizeOut);
    }

    /**
     * mca_btl_udapl_prepare_dst. The reserve is accepted and not used;
     * `pinned` is the outcome of the pinning call should no registration be
     * supplied.
     */
    method PrepareDst(registration: Option<RegId>, convertor: Convertor, reserve: nat, size: nat, pinned: bool)
      returns (des: Option<FragId>)
      requires Valid()
      requires registration.Some? ==> registration.value in mpool.regs
      modifies this, mpool
      ensures Valid()
      ensures Outcome(Model(), des) == PrepareDstStep(old(Model()), registration, convertor, size, pinned)
      ensures des.Some? ==> des.value in Outstanding(Model())
    {
      ghost var s0 := Model();
      ghost var r := PrepareDstStep(s0, registration, convertor, size, pinned);
      PrepareDstKeepsValid(s0, limits, registration, convertor, size, pinned);
      if userFree == [] {
        return None;
      }
      var id := userFree[0];
      userFree := userFree[1..];
      var lb := convertor.lb;
      var frag := frags[id].(segLen := size, segAddr := convertor.base + lb + convertor.converted);
      frag := frag.(desSrc := false, desSrcCnt := 0, desDst := true, desDstCnt := 1, desFlags := 0);
      assert frag == AsDestination(s0.frags[id].(segLen := size, segAddr := Position(convertor)));
      if registration.Some? {
        assert r.state == Checkout(s0, User, frag.(registration := registration), Retained(s0.cache, registration.value));
        mpool.Retain(registration.value);
        frags := frags[id := frag.(registration := registration)];
      } else {
        frags := frags[id := frag];
        var reg := mpool.Register(frag.segAddr, frag.segLen, pinned);
        if reg.None? {
          userFree := [id] + userFree;
          assert Model() == r.state;
          return None;
        }
        frags := frags[id := frag.(registration := reg)];
        assert r.state == Checkout(s0, User, frag.(registration := reg), mpool.Contents());
      }
      des := Some(id);
      assert Model() == r.state;
    }

    /** mca_btl_udapl_send: not implemented in this module; nothing changes. */
    method Send(des: FragId, tag: Tag) returns (rc: Status)
      ensures rc == ErrNotImplemented
    {
      rc := ErrNotImplemented;
    }

    /** mca_btl_udapl_put: not implemented in this module; nothing changes. */
    method Put(des: FragId) returns (rc: Status)
      ensures rc == ErrNotImplemented
    {
      rc := ErrNotImplemented;
    }

    /** mca_btl_udapl_get: not implemented in this module; nothing changes. */
    method Get(des: FragId) returns (rc: Status)
      ensures rc == ErrNotImplemented
    {
      rc := ErrNotImplemented;
    }
  }
}
