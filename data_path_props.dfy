/**
 * What the data path keeps and undoes: every operation preserves the module
 * invariant, and freeing a descriptor returns its fragment to the free list
 * it came from and its registration count to where it was.
 */
module DataPathProps {
  import opened Wrappers
  import opened RegCache
  import opened Packing
  import opened Fragments
  import opened DataPath

  /** A checkout of a pooled (non-user) fragment needs no registration bookkeeping. */
  lemma PooledCheckoutKeepsValid(s: State, l: Limits, t: Tier, f: Frag)
    requires ValidState(s, l) && t != User && Pool(s, t) != []
    requires f.size == s.frags[Pool(s, t)[0]].size
    ensures ValidState(Checkout(s, t, f, s.cache), l)
    ensures Pool(s, t)[0] in Outstanding(Checkout(s, t, f, s.cache))
  {
    assert PoolValid(s, l, t);
    assert f.size != 0;
    CheckoutOutstanding(s, l, t, f, s.cache);
    CheckoutKeepsValid(s, l, t, f, s.cache);
  }

  /**
   * A checkout of a user wrapper that now holds `reg`, where the new cache
   * gives `reg` one more holder than the fragments already holding it and
   * leaves every other count alone.
   */
  lemma UserCheckoutKeepsValid(s: State, l: Limits, f: Frag, reg: RegId, c': Cache)
    requires ValidState(s, l) && s.user != []
    requires f.size == s.frags[s.user[0]].size && f.registration == Some(reg)
    requires CacheValid(c')
    requires |Holders(s, reg)| + 1 <= Count(c', reg)
    requires forall q :: q != reg ==> Count(c', q) == Count(s.cache, q)
    ensures ValidState(Checkout(s, User, f, c'), l)
    ensures s.user[0] in Outstanding(Checkout(s, User, f, c'))
  {
    var id := s.user[0];
    assert PoolValid(s, l, User);
    CheckoutOutstanding(s, l, User, f, c');
    forall q ensures |Holders(s, q) + (if Holds(f, q) then {id} else {})| <= Count(c', q) {
      CheckoutHolders(s, l, User, f, c', q);
    }
    CheckoutKeepsValid(s, l, User, f, c');
  }

  /** alloc keeps the invariant and hands out a fragment that is now outstanding. */
  lemma AllocKeepsValid(s: State, l: Limits, size: nat)
    requires ValidState(s, l) && Pool(s, AllocTier(size, l)) != []
    ensures PoolsInFrags(s)
    ensures ValidState(AllocStep(s, l, size).state, l)
    ensures AllocStep(s, l, size).des in Outstanding(AllocStep(s, l, size).state)
  {
    ValidPoolsInFrags(s, l);
    var t := AllocTier(size, l);
    var id := Pool(s, t)[0];
    PooledCheckoutKeepsValid(s, l, t, AsSource(s.frags[id].(segLen := AllocSegLen(size, l))));
  }

  /**
   * free of an outstanding fragment is well-defined (a user fragment's
   * registration is still pinned) and keeps the invariant, whatever the tag.
   */
  lemma FreeKeepsValid(s: State, l: Limits, id: FragId)
    requires ValidState(s, l) && id in Outstanding(s)
    ensures Freeable(s, id)
    ensures ValidState(FreeStep(s, l, id).state, l)
  {
    var f := s.frags[id];
    if f.size == 0 {
      HeldRegistrationIsPinned(s, l, id);
      var q := f.registration.value;
      var c' := Released(s.cache, q);
      forall r ensures |Holders(s, r) - {id}| <= Count(c', r) {
        if r == q {
          assert id in Holders(s, r);
          assert Holders(s, r) == (Holders(s, r) - {id}) + {id};
        }
      }
      CheckinKeepsValid(s, l, User, id, c');
    } else if f.size == l.eagerFragSize {
      CheckinKeepsValid(s, l, Eager, id, s.cache);
    } else if f.size == l.maxFragSize {
      CheckinKeepsValid(s, l, Max, id, s.cache);
    }
  }

  lemma PinnedSrcKeepsValid(s: State, l: Limits, reg: RegId, c: Convertor, size: nat)
    requires ValidState(s, l) && reg in s.cache.regs
    requires PoolsInFrags(s)
    ensures var r := PinnedSrc(s, reg, c, size);
            ValidState(r.state, l) && (r.des.Some? ==> r.des.value in Outstanding(r.state))
  {
    if s.user != [] {
      var id := s.user[0];
      var p := Pack(c, size);
      var f := s.frags[id].(segLen := p.packed, segAddr := p.addr, registration := Some(reg));
      UserCheckoutKeepsValid(s, l, AsSource(f), reg, Retained(s.cache, reg));
    }
  }

  lemma FreshSrcKeepsValid(s: State, l: Limits, c: Convertor, size: nat, pinned: bool)
    requires ValidState(s, l) && PoolsInFrags(s)
    ensures var r := FreshSrc(s, c, size, pinned);
            ValidState(r.state, l) && (r.des.Some? ==> r.des.value in Outstanding(r.state))
  {
    if s.user != [] {
      var id := s.user[0];
      var p := Pack(c, size);
      var f := s.frags[id].(segLen := p.packed, segAddr := p.addr);
      var rr := Registered(s.cache, p.addr, p.packed, pinned);
      if rr.reg.None? {
        RetouchKeepsValid(s, l, User, f);
      } else {
        var q := rr.reg.value;
        assert |Holders(s, q)| == 0;
        UserCheckoutKeepsValid(s, l, AsSource(f.(registration := rr.reg)), q, rr.cache);
      }
    }
  }

  lemma CopySrcKeepsValid(s: State, l: Limits, t: Tier, c: Convertor, reserve: nat, request: nat, size: nat)
    requires ValidState(s, l) && PoolsInFrags(s) && t != User
    ensures var r := CopySrc(s, t, c, reserve, request, size);
            ValidState(r.state, l) && (r.des.Some? ==> r.des.value in Outstanding(r.state))
  {
    if Pool(s, t) != [] {
      var id := Pool(s, t)[0];
      var p := Pack(c, request);
      if !p.ok {
        RetouchKeepsValid(s, l, t, s.frags[id]);
        assert s.(frags := s.frags[id := s.frags[id]]) == s;
        assert CopySrc(s, t, c, reserve, request, size).state == Checkin(Checkout(s, t, s.frags[id], s.cache), t, id, s.cache);
      } else {
        var f := AsSource(s.frags[id].(segLen := reserve + p.packed));
        PooledCheckoutKeepsValid(s, l, t, f);
        assert CopySrc(s, t, c, reserve, request, size) == Prepared(Checkout(s, t, f, s.cache), Some(id), p.packed);
      }
    }
  }

  /** prepare_src keeps the invariant and any descriptor it returns is outstanding. */
  lemma PrepareSrcKeepsValid(s: State, l: Limits, reg: Option<RegId>, c: Convertor, reserve: nat, size: nat, pinned: bool)
    requires ValidState(s, l)
    requires SelectSrcRule(reg.Some?, !NeedBuffers(c), size, reserve, l) == MaxCopy ==> reserve <= l.maxSendSize
    requires reg.Some? ==> reg.value in s.cache.regs
    ensures PoolsInFrags(s)
    ensures var r := PrepareSrcStep(s, l, reg, c, reserve, size, pinned);
            ValidState(r.state, l) && (r.des.Some? ==> r.des.value in Outstanding(r.state))
  {
    ValidPoolsInFrags(s, l);
    match SelectSrcRule(reg.Some?, !NeedBuffers(c), size, reserve, l)
    case PinnedInPlace => PinnedSrcKeepsValid(s, l, reg.value, c, size);
    case FreshRegistration => FreshSrcKeepsValid(s, l, c, size, pinned);
    case EagerCopy => CopySrcKeepsValid(s, l, Eager, c, reserve, size, size);
    case MaxCopy => CopySrcKeepsValid(s, l, Max, c, reserve, MaxRequest(size, reserve, l.maxSendSize), size);
  }

  /** prepare_dst keeps the invariant and any descriptor it returns is outstanding. */
  lemma PrepareDstKeepsValid(s: State, l: Limits, reg: Option<RegId>, c: Convertor, size: nat, pinned: bool)
    requires ValidState(s, l)
    requires reg.Some? ==> reg.value in s.cache.regs
    ensures PoolsInFrags(s)
    ensures var r := PrepareDstStep(s, reg, c, size, pinned);
            ValidState(r.state, l) && (r.des.Some? ==> r.des.value in Outstanding(r.state))
  {
    ValidPoolsInFrags(s, l);
    if s.user != [] {
      var id := s.user[0];
      var f := AsDestination(s.frags[id].(segLen := size, segAddr := Position(c)));
      if reg.Some? {
        UserCheckoutKeepsValid(s, l, f.(registration := reg), reg.value, Retained(s.cache, reg.value));
      } else {
        var rr := Registered(s.cache, f.segAddr, f.segLen, pinned);
        if rr.reg.None? {
          RetouchKeepsValid(s, l, User, f);
        } else {
          var q := rr.reg.value;
          assert |Holders(s, q)| == 0;
          UserCheckoutKeepsValid(s, l, f.(registration := rr.reg), q, rr.cache);
        }
      }
    }
  }

  /**
   * No leak: a fragment from alloc, freed again, goes back on top of the free
   * list it came from, so every free list and the cache are as before —
   * provided the eager and max tags differ (otherwise see MaxFreedToEager).
   */
  lemma AllocFreeRoundTrip(s: State, l: Limits, size: nat)
    requires ValidState(s, l) && Pool(s, AllocTier(size, l)) != []
    requires l.eagerFragSize != l.maxFragSize
    ensures PoolsInFrags(s)
    ensures var a := AllocStep(s, l, size);
            Freeable(a.state, a.des) &&
            var f := FreeStep(a.state, l, a.des);
            f.rc == Success && f.state.eager == s.eager && f.state.max == s.max &&
            f.state.user == s.user && f.state.cache == s.cache
  {
    AllocKeepsValid(s, l, size);
    var a := AllocStep(s, l, size);
    FreeKeepsValid(a.state, l, a.des);
    var t := AllocTier(size, l);
    assert PoolValid(s, l, t);
    assert [Pool(s, t)[0]] + Pool(s, t)[1..] == Pool(s, t);
  }

  /**
   * The tag convention cannot tell the tiers apart when the eager and max
   * fragment sizes coincide: a max fragment that is freed lands on the eager
   * free list.
   */
  lemma MaxFreedToEager(s: State, l: Limits, size: nat)
    requires ValidState(s, l) && size > l.eagerLimit && s.max != []
    requires l.eagerFragSize == l.maxFragSize
    ensures PoolsInFrags(s)
    ensures var a := AllocStep(s, l, size);
            Freeable(a.state, a.des) &&
            var f := FreeStep(a.state, l, a.des);
            f.rc == Success && f.state.eager == [s.max[0]] + s.eager && f.state.max == s.max[1..]
  {
    AllocKeepsValid(s, l, size);
    var a := AllocStep(s, l, size);
    FreeKeepsValid(a.state, l, a.des);
    assert PoolValid(s, l, Max);
  }

  /** Freeing the wrapper rule 1 bound gives the retained registration its old count back. */
  lemma PinnedSrcFreeRoundTrip(s: State, l: Limits, reg: RegId, c: Convertor, size: nat)
    requires ValidState(s, l) && PoolsInFrags(s) && reg in s.cache.regs
    ensures var r := PinnedSrc(s, reg, c, size);
            r.des.Some? ==>
              Freeable(r.state, r.des.value) &&
              var f := FreeStep(r.state, l, r.des.value);
              f.rc == Success && f.state.eager == s.eager && f.state.max == s.max &&
              f.state.user == s.user && f.state.cache.regs == s.cache.regs
  {
    PinnedSrcKeepsValid(s, l, reg, c, size);
    var r := PinnedSrc(s, reg, c, size);
    if r.des.Some? {
      FreeKeepsValid(r.state, l, r.des.value);
      assert PoolValid(s, l, User);
      assert [s.user[0]] + s.user[1..] == s.user;
      ReleaseUndoesRetain(s.cache, reg);
    }
  }

  /** Freeing the wrapper rule 2 bound unpins the fresh registration again. */
  lemma FreshSrcFreeRoundTrip(s: State, l: Limits, c: Convertor, size: nat, pinned: bool)
    requires ValidState(s, l) && PoolsInFrags(s)
    ensures var r := FreshSrc(s, c, size, pinned);
            r.des.Some? ==>
              Freeable(r.state, r.des.value) &&
              var f := FreeStep(r.state, l, r.des.value);
              f.rc == Success && f.state.eager == s.eager && f.state.max == s.max &&
              f.state.user == s.user && f.state.cache.regs == s.cache.regs
  {
    FreshSrcKeepsValid(s, l, c, size, pinned);
    var r := FreshSrc(s, c, size, pinned);
    if r.des.Some? {
      FreeKeepsValid(r.state, l, r.des.value);
      assert PoolValid(s, l, User);
      assert [s.user[0]] + s.user[1..] == s.user;
      ReleaseUndoesRegister(s.cache, Position(c), Pack(c, size).packed);
    }
  }

  /** Freeing the buffer rules 3 and 4 filled puts it back on top of its own list. */
  lemma CopySrcFreeRoundTrip(s: State, l: Limits, t: Tier, c: Convertor, reserve: nat, request: nat, size: nat)
    requires ValidState(s, l) && PoolsInFrags(s) && t != User
    requires l.eagerFragSize != l.maxFragSize
    ensures var r := CopySrc(s, t, c, reserve, request, size);
            r.des.Some? ==>
              Freeable(r.state, r.des.value) &&
              var f := FreeStep(r.state, l, r.des.value);
              f.rc == Success && f.state.eager == s.eager && f.state.max == s.max &&
              f.state.user == s.user && f.state.cache == s.cache
  {
    CopySrcKeepsValid(s, l, t, c, reserve, request, size);
    var r := CopySrc(s, t, c, reserve, request, size);
    if r.des.Some? {
      FreeKeepsValid(r.state, l, r.des.value);
      assert PoolValid(s, l, t);
      assert [Pool(s, t)[0]] + Pool(s, t)[1..] == Pool(s, t);
    }
  }

  /**
   * Freeing what prepare_src returned undoes it: the fragment is back on its
   * free list, and the registration counts are back where they were — a
   * retained registration loses the holder it gained, a fresh one is
   * unpinned again.
   */
  lemma PrepareSrcFreeRoundTrip(s: State, l: Limits, reg: Option<RegId>, c: Convertor, reserve: nat, size: nat, pinned: bool)
    requires ValidState(s, l)
    requires SelectSrcRule(reg.Some?, !NeedBuffers(c), size, reserve, l) == MaxCopy ==> reserve <= l.maxSendSize
    requires reg.Some? ==> reg.value in s.cache.regs
    requires l.eagerFragSize != l.maxFragSize
    requires PoolsInFrags(s)
    ensures var r := PrepareSrcStep(s, l, reg, c, reserve, size, pinned);
            r.des.Some? ==>
              Freeable(r.state, r.des.value) &&
              var f := FreeStep(r.state, l, r.des.value);
              f.rc == Success && f.state.eager == s.eager && f.state.max == s.max &&
              f.state.user == s.user && f.state.cache.regs == s.cache.regs
  {
    match SelectSrcRule(reg.Some?, !NeedBuffers(c), size, reserve, l)
    case PinnedInPlace => PinnedSrcFreeRoundTrip(s, l, reg.value, c, size);
    case FreshRegistration => FreshSrcFreeRoundTrip(s, l, c, size, pinned);
    case EagerCopy => CopySrcFreeRoundTrip(s, l, Eager, c, reserve, size, size);
    case MaxCopy => CopySrcFreeRoundTrip(s, l, Max, c, reserve, MaxRequest(size, reserve, l.maxSendSize), size);
  }

  /**
   * Freeing what prepare_dst returned undoes it: the wrapper is back on the
   * user free list and the registration counts are where they were.
   */
  lemma PrepareDstFreeRoundTrip(s: State, l: Limits, reg: Option<RegId>, c: Convertor, size: nat, pinned: bool)
    requires ValidState(s, l)
    requires reg.Some? ==> reg.value in s.cache.regs
    requires PoolsInFrags(s)
    ensures var r := PrepareDstStep(s, reg, c, size, pinned);
            r.des.Some? ==>
              Freeable(r.state, r.des.value) &&
              var f := FreeStep(r.state, l, r.des.value);
              f.rc == Success && f.state.eager == s.eager && f.state.max == s.max &&
              f.state.user == s.user && f.state.cache.regs == s.cache.regs
  {
    PrepareDstKeepsValid(s, l, reg, c, size, pinned);
    var r := PrepareDstStep(s, reg, c, size, pinned);
    if r.des.Some? {
      FreeKeepsValid(r.state, l, r.des.value);
      assert PoolValid(s, l, User);
      assert [s.user[0]] + s.user[1..] == s.user;
      if reg.Some? {
        ReleaseUndoesRetain(s.cache, reg.value);
      } else {
        ReleaseUndoesRegister(s.cache, Position(c), size);
      }
    }
  }

  /**
   * An end-to-end run with an eager limit of 4096 and a max send size of
   * 65536, over a convertor that holds at least 70000 bytes and packs
   * without error:
   * 100 non-contiguous bytes with a 20-byte reserve are copied into the head
   * eager buffer, whose segment is 120 bytes, and `*size` stays 100;
   * 70000 registered contiguous bytes are bound in place to the head user
   * wrapper at the data's position, and the registration gains one holder;
   * 70000 non-contiguous bytes with an 8-byte reserve go to the head max
   * buffer, clamped to 65528 so that the segment is exactly 65536 bytes.
   */
  lemma EndToEndThresholds(s: State, c: Convertor, q: RegId)
    requires PoolsInFrags(s) && s.eager != [] && s.max != [] && s.user != []
    requires q in s.cache.regs
    requires !c.fails && c.remaining >= 70000
    ensures var l := Limits(4096, 65536, 4096, 65536);
            var scattered := c.(contiguous := false);
            var r := PrepareSrcStep(s, l, None, scattered, 20, 100, false);
            && SelectSrcRule(false, false, 100, 20, l) == EagerCopy
            && r.des == Some(s.eager[0]) && r.size == 100
            && r.state.frags[s.eager[0]].segLen == 120
    ensures var l := Limits(4096, 65536, 4096, 65536);
            var flat := c.(contiguous := true);
            var r := PrepareSrcStep(s, l, Some(q), flat, 0, 70000, false);
            && SelectSrcRule(true, true, 70000, 0, l) == PinnedInPlace
            && r.des == Some(s.user[0]) && r.size == 70000
            && r.state.frags[s.user[0]].segLen == 70000
            && r.state.frags[s.user[0]].segAddr == Position(c)
            && Count(r.state.cache, q) == Count(s.cache, q) + 1
    ensures var l := Limits(4096, 65536, 4096, 65536);
            var scattered := c.(contiguous := false);
            var r := PrepareSrcStep(s, l, None, scattered, 8, 70000, false);
            && SelectSrcRule(false, false, 70000, 8, l) == MaxCopy
            && r.des == Some(s.max[0]) && r.size == 65528
            && r.state.frags[s.max[0]].segLen == 65536
  {
  }
}
