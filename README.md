# udapl byte-transfer module: data path

This project models the data path of Open MPI's uDAPL byte-transfer layer (BTL) in
`ompi/mca/btl/udapl/btl_udapl.c`. The data path decides how each outgoing or incoming payload
becomes a descriptor the transport can use. It also manages the pooled and registered
fragments behind those descriptors.

The model is one stateful object, `UdaplBtl.Module`. Its state is:

- three fragment free lists: eager and max buffers, and user wrappers;
- the fragments themselves, each tagged with its tier's size (`0` for a user wrapper, the eager
  fragment size for an eager buffer, the max fragment size for a max buffer);
- the memory pool's registration cache, `RegCache.Mpool`, a reference count per pinned region;
- the 256-entry receive-callback table, indexed by tag byte.

Every operation updates this state in place. Alloc, free, prepare_src and prepare_dst are each
proved to leave exactly the state described by a pure step function in `DataPath`. Register
states its effect on the callback table directly. Send, put and get return a fixed status and
change nothing. `DataPathProps` proves two kinds of property about the step functions:

- **The module invariant is preserved.** The free lists stay repeat-free, disjoint and
  correctly tagged. Every outstanding user fragment holds a registration. No registration has
  more outstanding fragments holding it than its reference count, so a region held by a
  fragment in flight is never unpinned.
- **Free undoes preparation.** Freeing a descriptor returns every registration count to its
  old value. When the eager and max fragment sizes differ, it also puts the fragment back on
  top of the free list it came from. When the two sizes are equal, the size tag cannot tell the
  tiers apart, and a freed max fragment lands on the eager list (`MaxFreedToEager`).

The decision logic follows the code line by line:

- **alloc** takes from the eager list for requests up to the eager limit, and from the max
  list otherwise. It clamps the segment length to the tier's limit.
- **free** routes by the size tag in the order user, eager, max. Any other tag gives
  `OMPI_ERR_BAD_PARAM` and changes nothing.
- **prepare_src** applies the first matching rule:
  1. the data is already registered and contiguous: it is used in place;
  2. the data is contiguous, larger than the max send size, and has no reserve: it is
     registered fresh;
  3. the request plus the reserve fits the eager limit: it is copied into an eager buffer;
  4. otherwise it is copied into a max buffer, with the request clamped to
     `max_send_size - reserve`.
- **prepare_dst** always binds a user wrapper at `base + lb + bConverted`. It retains the
  supplied registration, or else registers the range fresh.

Points of the code's behaviour worth noting:

- Rule 1 of prepare_src does not look at the reserve. With a non-zero reserve, the segment is
  still exactly the packed user data and has no header room. `DataPath.PinnedSrc` states
  `segLen == packed` whatever the reserve.
- Rules 1 and 2 can fire for requests above the eager limit. Such a request therefore does not
  always end up in the max tier.
- A freed user wrapper goes back on the user free list. It is not deallocated.
- In rules 1 and 2, the caller's `*size` is left as it was. In rules 3 and 4 it is written with
  the packed length before the pack status is checked, so it is written even when packing
  fails.

## Model

| member | source | states |
|---|---|---|
| `RegCache.Retained` | ompi/mca/btl/udapl/btl_udapl.c:254-255 | retain raises the registration's count by exactly one and leaves its range, the other counts and the set of live registrations unchanged |
| `RegCache.Released` | ompi/mca/btl/udapl/btl_udapl.c:195 | release lowers the count by exactly one; the region stays live iff the count was above one; no other registration changes |
| `RegCache.Registered` | ompi/mca/btl/udapl/btl_udapl.c:281-286 | a handle is returned iff pinning succeeds; the new registration covers exactly the given range, has count 1 and an id not live before; on failure nothing changes |
| `RegCache.ReleaseUndoesRetain` | ompi/mca/btl/udapl/btl_udapl.c:254-257 | retain followed by release gives back the same cache |
| `RegCache.ReleaseUndoesRegister` | ompi/mca/btl/udapl/btl_udapl.c:281-293 | releasing a freshly registered region unpins it: the live registrations are those from before |
| `RegCache.Mpool.Register` | ompi/mca/btl/udapl/btl_udapl.c:281-286 | the pool object's registration equals `Registered` on its old contents and keeps the cache valid |
| `RegCache.Mpool.Retain` | ompi/mca/btl/udapl/btl_udapl.c:254-255 | the pool object's contents become `Retained` of the old contents |
| `RegCache.Mpool.Release` | ompi/mca/btl/udapl/btl_udapl.c:195 | the pool object's contents become `Released` of the old contents |
| `Packing.Pack` | ompi/mca/btl/udapl/btl_udapl.c:244 | the packed length is at most the request and at most what the source holds, and equals one of the two; pack succeeds iff the convertor does not fail; the reported address is base + lb + converted |
| `Fragments.AsSource` | ompi/mca/btl/udapl/btl_udapl.c:345-349 | the fragment becomes a source descriptor (des_src set, count 1, no destination, flags 0) with its segment and registration untouched |
| `Fragments.AsDestination` | ompi/mca/btl/udapl/btl_udapl.c:390-394 | the fragment becomes a destination descriptor (des_dst set, count 1, no source, flags 0) with its segment and registration untouched |
| `Fragments.Checkout` | ompi/mca/btl/udapl/btl_udapl.c:302-305 | taking from a tier pops exactly the head of that tier's free list, leaves the other lists alone and updates only that fragment |
| `Fragments.Checkin` | ompi/mca/btl/udapl/btl_udapl.c:313-314 | returning to a tier pushes the fragment on top of that tier's free list and leaves the other lists and all fragments alone |
| `Fragments.CheckoutKeepsValid` | ompi/mca/btl/udapl/btl_udapl.c:237-257 | taking a fragment keeps the module invariant when its tag is kept, a user fragment holds a registration and the new counts cover every holder |
| `Fragments.CheckinKeepsValid` | ompi/mca/btl/udapl/btl_udapl.c:194-200 | returning an outstanding fragment to the list of its own tag keeps the invariant when the new counts cover the remaining holders |
| `Fragments.RetouchKeepsValid` | ompi/mca/btl/udapl/btl_udapl.c:288-290 | a fragment taken and returned at once leaves every free list as it was; the invariant holds whatever fields were written, as long as the size tag is kept |
| `Fragments.HeldRegistrationIsPinned` | ompi/mca/btl/udapl/btl_udapl.c:194-196 | an outstanding user fragment holds a registration that is live with a positive count, so free's release is well-defined |
| `DataPath.AllocTier` | ompi/mca/btl/udapl/btl_udapl.c:164-174 | alloc uses the eager tier iff the request is within the eager limit, and never the user tier |
| `DataPath.AllocSegLen` | ompi/mca/btl/udapl/btl_udapl.c:166-173 | the segment length never exceeds the request; it is the request in the eager tier and min(request, max send size) in the max tier |
| `DataPath.AllocStep` | ompi/mca/btl/udapl/btl_udapl.c:156-182 | alloc pops the head of the eager list (request within the eager limit) or the max list (otherwise), touches only that fragment, and returns a source descriptor whose segment length is the clamped request |
| `DataPath.FreeRoute` | ompi/mca/btl/udapl/btl_udapl.c:194-204 | tag 0 goes to the user list, else the eager size to the eager list, else the max size to the max list, else it is a bad tag; each outcome in both directions |
| `DataPath.FreeStep` | ompi/mca/btl/udapl/btl_udapl.c:189-206 | a user fragment's registration is released exactly once and the fragment pushed on the user list; eager and max fragments go on their own list with the cache unchanged; `OMPI_ERR_BAD_PARAM` iff the tag is none of the three, and then nothing changes |
| `DataPath.SelectSrcRule` | ompi/mca/btl/udapl/btl_udapl.c:235-323 | prepare_src's precedence, as four if-and-only-if conditions: in place iff registered and contiguous; fresh registration iff unregistered, contiguous, above the max send size with no reserve; eager copy iff neither and the request plus reserve is within the eager limit; max copy otherwise |
| `DataPath.MaxRequest` | ompi/mca/btl/udapl/btl_udapl.c:329-331 | the clamped request is at most the caller's and fits one max send together with the reserve; it is the caller's request or exactly fills the max send |
| `DataPath.PinnedSrc` | ompi/mca/btl/udapl/btl_udapl.c:235-257 | rule 1 fails iff no user wrapper is free (state unchanged); otherwise the head user wrapper's segment is the packed range at the data's position, it holds the supplied registration, whose count rises by exactly one, no pooled buffer is used and `*size` is unwritten |
| `DataPath.FreshSrc` | ompi/mca/btl/udapl/btl_udapl.c:264-294 | rule 2 returns a descriptor iff a user wrapper is free and pinning succeeds; it then holds a fresh registration of exactly the packed range; on failure the free lists and the cache are as before; `*size` is unwritten |
| `DataPath.CopySrc` | ompi/mca/btl/udapl/btl_udapl.c:300-343 | rules 3 and 4 return a descriptor iff the tier has a free buffer and packing succeeds; `*size` becomes the packed length (also on pack failure); the segment is reserve + packed; on failure the buffer is back on its own list and nothing else changed |
| `DataPath.PrepareSrcStep` | ompi/mca/btl/udapl/btl_udapl.c:215-351 | prepare_src applies the selected rule; a returned descriptor is a source descriptor and only its fragment changed; no descriptor means free lists and cache unchanged; eager copies fit the eager limit and max copies the max send size |
| `DataPath.PrepareDstStep` | ompi/mca/btl/udapl/btl_udapl.c:368-421 | prepare_dst only ever uses the head user wrapper; a descriptor is returned iff one is free and a registration is supplied or pinning succeeds; the destination segment is `*size` bytes at base + lb + converted; a supplied registration gains one holder, otherwise a fresh one covers the segment; on failure free lists and cache are unchanged |
| `DataPathProps.PooledCheckoutKeepsValid` | ompi/mca/btl/udapl/btl_udapl.c:302-305 | taking an eager or max buffer keeps the invariant and makes it outstanding |
| `DataPathProps.UserCheckoutKeepsValid` | ompi/mca/btl/udapl/btl_udapl.c:237-257 | binding a user wrapper to a registration whose count gains one holder keeps the invariant |
| `DataPathProps.AllocKeepsValid` | ompi/mca/btl/udapl/btl_udapl.c:156-182 | alloc keeps the invariant and the returned fragment is outstanding |
| `DataPathProps.FreeKeepsValid` | ompi/mca/btl/udapl/btl_udapl.c:189-206 | free of any outstanding fragment is well-defined and keeps the invariant, including the registration-count bound |
| `DataPathProps.PinnedSrcKeepsValid` | ompi/mca/btl/udapl/btl_udapl.c:235-257 | rule 1 keeps the invariant; its descriptor is outstanding |
| `DataPathProps.FreshSrcKeepsValid` | ompi/mca/btl/udapl/btl_udapl.c:264-294 | rule 2 keeps the invariant on success and on registration failure |
| `DataPathProps.CopySrcKeepsValid` | ompi/mca/btl/udapl/btl_udapl.c:300-343 | rules 3 and 4 keep the invariant on success and on pack failure |
| `DataPathProps.PrepareSrcKeepsValid` | ompi/mca/btl/udapl/btl_udapl.c:215-351 | prepare_src keeps the invariant and any descriptor it returns is outstanding |
| `DataPathProps.PrepareDstKeepsValid` | ompi/mca/btl/udapl/btl_udapl.c:368-421 | prepare_dst keeps the invariant and any descriptor it returns is outstanding |
| `DataPathProps.AllocFreeRoundTrip` | ompi/mca/btl/udapl/btl_udapl.c:164-200 | with distinct eager and max sizes, freeing an allocated fragment succeeds and restores every free list and the cache exactly (no leak) |
| `DataPathProps.MaxFreedToEager` | ompi/mca/btl/udapl/btl_udapl.c:197-200 | if the eager and max fragment sizes coincide, a freed max fragment lands on the eager list |
| `DataPathProps.PinnedSrcFreeRoundTrip` | ompi/mca/btl/udapl/btl_udapl.c:235-257 | freeing a rule-1 descriptor succeeds, puts the wrapper back on top of the user list and gives the retained registration its old count |
| `DataPathProps.FreshSrcFreeRoundTrip` | ompi/mca/btl/udapl/btl_udapl.c:264-294 | freeing a rule-2 descriptor succeeds, puts the wrapper back on top of the user list and unpins the fresh registration |
| `DataPathProps.CopySrcFreeRoundTrip` | ompi/mca/btl/udapl/btl_udapl.c:300-343 | with distinct eager and max sizes, freeing a rule-3 or rule-4 descriptor succeeds and restores every free list and the cache exactly |
| `DataPathProps.PrepareSrcFreeRoundTrip` | ompi/mca/btl/udapl/btl_udapl.c:215-351 | freeing a prepare_src descriptor succeeds and restores every free list and the live registrations with their counts |
| `DataPathProps.PrepareDstFreeRoundTrip` | ompi/mca/btl/udapl/btl_udapl.c:368-421 | freeing a prepare_dst descriptor succeeds and restores the user list and the live registrations with their counts |
| `DataPathProps.EndToEndThresholds` | ompi/mca/btl/udapl/btl_udapl.c:235-343 | with limits 4096/65536: 100 non-contiguous bytes + 20 reserve take the head eager buffer with a 120-byte segment and `*size` 100; 70000 registered contiguous bytes take the head user wrapper at the data's position, with the registration count +1; 70000 non-contiguous bytes + 8 reserve take the head max buffer, clamped to 65528, for a 65536-byte segment |
| `UdaplBtl.Module.Register` | ompi/mca/btl/udapl/btl_udapl.c:136-146 | overwrites only `udapl_reg[tag]` (last registration wins), leaves every other tag's entry unchanged, returns success |
| `UdaplBtl.Module.Alloc` | ompi/mca/btl/udapl/btl_udapl.c:156-182 | the new state and descriptor are `AllocStep` of the old state; the invariant is kept |
| `UdaplBtl.Module.Free` | ompi/mca/btl/udapl/btl_udapl.c:189-206 | the new state and status are `FreeStep` of the old state; the invariant is kept |
| `UdaplBtl.Module.PrepareSrc` | ompi/mca/btl/udapl/btl_udapl.c:215-351 | the new state, descriptor and `*size` are `PrepareSrcStep` of the old state; the invariant is kept |
| `UdaplBtl.Module.PinInPlace` | ompi/mca/btl/udapl/btl_udapl.c:235-257 | rule 1 in place: the new state is `PinnedSrc` of the old |
| `UdaplBtl.Module.RegisterInPlace` | ompi/mca/btl/udapl/btl_udapl.c:264-294 | rule 2 in place: the new state is `FreshSrc` of the old |
| `UdaplBtl.Module.CopyIntoEager` | ompi/mca/btl/udapl/btl_udapl.c:300-317 | rule 3 in place: the new state and `*size` are `CopySrc` into the eager tier |
| `UdaplBtl.Module.CopyIntoMax` | ompi/mca/btl/udapl/btl_udapl.c:323-343 | rule 4 in place: the new state and `*size` are `CopySrc` into the max tier with the clamped request |
| `UdaplBtl.Module.PrepareDst` | ompi/mca/btl/udapl/btl_udapl.c:368-421 | the new state and descriptor are `PrepareDstStep` of the old state; the invariant is kept |
| `UdaplBtl.Module.Send` | ompi/mca/btl/udapl/btl_udapl.c:433-441 | always `OMPI_ERR_NOT_IMPLEMENTED`, with no state change |
| `UdaplBtl.Module.Put` | ompi/mca/btl/udapl/btl_udapl.c:453-459 | always `OMPI_ERR_NOT_IMPLEMENTED`, with no state change |
| `UdaplBtl.Module.Get` | ompi/mca/btl/udapl/btl_udapl.c:472-478 | always `OMPI_ERR_NOT_IMPLEMENTED`, with no state change |

## Left out

- `mca_btl_udapl_add_procs` and `mca_btl_udapl_del_procs` (lines 67-129) are not modelled. They
  set up peers and endpoints around external process objects, under the process lock.
- `mca_btl_udapl_finalize` (lines 485-495) is not modelled. It only destroys the lock, the
  three free lists and the module object.
- The module's function table (lines 36-60) is not modelled. It is static wiring; note that it
  lists `get` as NULL even though `mca_btl_udapl_get` exists.
- Concurrency is not modelled; every operation is sequential. Free-list locking and atomic
  reference counts belong to the free-list macros and the memory pool, which are not part of
  this model.
- The endpoint arguments are not modelled, because the modelled functions never use them.
- The free-list macros are modelled as pop and push on a LIFO list. A pop from an empty list
  gives NULL. Growing a free list on demand is not modelled.
- The pooled buffers' own registrations are not modelled. An eager or max fragment's
  `registration` field keeps whatever value the component supplied when it built the lists,
  because this file never reads or changes it.
- `UdaplBtl.Module.Alloc`: requires the selected free list to be non-empty. At lines 165-166
  and 170-171, `mca_btl_udapl_alloc` writes through the fragment without a NULL check, so an
  empty list has no defined outcome to model.
- `UdaplBtl.Module.PrepareSrc`: requires `reserve <= max_send_size` when the max-copy rule is
  selected. Otherwise the unsigned subtraction at line 330 wraps around. The other three rules
  accept any reserve.
- `UdaplBtl.Module.Free`: requires the descriptor to be outstanding (handed out and not yet
  freed). The code does not detect a double free.
- The convertor is a deterministic stand-in for `ompi_convertor_pack`:
  - it packs min(request, bytes remaining) and may fail;
  - it does not advance the convertor's position after packing;
  - it does not move any bytes. Buffer contents, and where the copy paths write (segment
    address plus reserve), are not recorded.
- `ompi_ddt_type_lb` is the convertor's `lb` field. It is a natural number, so a negative
  datatype lower bound is not modelled.
- The outcome of the hardware pinning call inside `mpool_register` is a boolean parameter
  (`pinned`).
- Sizes and addresses are unbounded naturals. The 64-bit `size_t` wrap-around of
  `max_data + reserve` and of pointer arithmetic is not modelled.
- The module invariant assumes that the eager and max fragment sizes are both non-zero. With a
  zero eager or max fragment size, free (line 194) would treat a pooled buffer as a user wrapper
  and release a registration the buffer does not hold. Such a configuration is not modelled.
- The receive-callback entries are opaque handles (0 for NULL). Calling the callbacks belongs
  to the transport and is not modelled.
- The dead `reg_len` computation (line 249) and the `opal_output` diagnostic (line 202) are not
  modelled.
