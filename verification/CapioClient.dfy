/**
 A client of the sharing state: `sfc7120_init` attaches and maps its regions one by one,
 and may fail anywhere; `sfc7120_destroy` takes back whatever was reached.
 */
module CapioClient {
  import opened Capio

  /** The order in which `sfc7120_init` maps: buffers, descriptor rings, event ring, registers. */
  const ORDER: seq<nat> := [0, 1, 3, 4, 5, 2]

  /** The device is held by `user` with exactly the regions of `maps` mapped. */
  ghost predicate Held(s: State, sizes: seq<nat>, user: Cap, maps: set<nat>) {
    && s.sizes == sizes && Shaped(s) && user != Null
    && s.original == user && s.sealed == Seal(user) && s.checked == [] && s.stray == 0 && !s.dying
    && (forall k | 0 <= k < |sizes| ::
          && s.regions[k].len == sizes[k]
          && (s.regions[k].mapped <==> k in maps || sizes[k] == 0)
          && s.live[k] == if k in maps then 1 else 0)
    && (forall k | 0 <= k < |sizes| && k !in maps :: s.regions[k].offset == 0)
    && (forall k | k in maps :: k < |sizes| && sizes[k] > 0)
  }

  /** One successful `map_region`: the check, the pager object, and the address callback. */
  function MapRegion(s: State, token: Cap, kind: nat, vaddr: nat): (s': State)
    requires Shaped(s) && kind < |s.sizes|
    requires MapResult(s, MapRequest(token, true, false, 0, kind, s.sizes[kind])) == Ok
    ensures Shaped(s') && s'.sizes == s.sizes
  {
    var s1 := Apply(s, MapCheck(MapRequest(token, true, false, 0, kind, s.sizes[kind])));
    var s2 := Apply(s1, MapCreate(|s1.checked| - 1));
    Apply(s2, Place(kind, vaddr))
  }

  /** Every usable region that is not mapped yet can be mapped by the holder. */
  lemma MapIsAccepted(s: State, sizes: seq<nat>, user: Cap, maps: set<nat>, kind: nat, vaddr: nat)
    requires Held(s, sizes, user, maps) && kind < |sizes| && kind !in maps && sizes[kind] > 0
    ensures MapResult(s, MapRequest(Seal(user), true, false, 0, kind, sizes[kind])) == Ok
    ensures Held(MapRegion(s, Seal(user), kind, vaddr), sizes, user, maps + {kind})
  {
    var s1 := Apply(s, MapCheck(MapRequest(Seal(user), true, false, 0, kind, sizes[kind])));
    assert s1.checked == [kind];
    var s2 := Apply(s1, MapCreate(0));
    assert s2.checked == [];
  }

  /** The regions of the first `k` maps. */
  function Mapped(k: nat): set<nat>
    requires k <= |ORDER|
  {
    if k == 0 then {} else Mapped(k - 1) + {ORDER[k - 1]}
  }

  lemma {:induction false} NotMappedBefore(k: nat, j: nat)
    requires j <= k < |ORDER|
    ensures ORDER[k] !in Mapped(j) && ORDER[k] < |ORDER|
  {
    if j > 0 {
      NotMappedBefore(k, j - 1);
      assert ORDER[k] != ORDER[j - 1];
    }
  }

  /** A device with the six regions that `sfc7120_init` maps. */
  predicate Usable(sizes: seq<nat>) {
    |sizes| >= |ORDER| && forall i | 0 <= i < |ORDER| :: sizes[ORDER[i]] > 0
  }

  lemma NextMapIsAccepted(s: State, sizes: seq<nat>, user: Cap, k: nat, vaddr: nat)
    requires k < |ORDER| && Usable(sizes) && Held(s, sizes, user, Mapped(k))
    ensures ORDER[k] < |sizes| && MapResult(s, MapRequest(Seal(user), true, false, 0, ORDER[k], sizes[ORDER[k]])) == Ok
    ensures Held(MapRegion(s, Seal(user), ORDER[k], vaddr), sizes, user, Mapped(k + 1))
  {
    NotMappedBefore(k, k);
    MapIsAccepted(s, sizes, user, Mapped(k), ORDER[k], vaddr);
  }

  /** `sfc7120_init` after its `k`-th map. */
  function InitUpTo(sizes: seq<nat>, user: Cap, vaddrs: seq<nat>, k: nat): (s: State)
    requires Usable(sizes) && user != Null && |vaddrs| == |ORDER| && k <= |ORDER|
    ensures Held(s, sizes, user, Mapped(k))
  {
    if k == 0 then
      Attach(Fresh(sizes), user)
    else
      var s := InitUpTo(sizes, user, vaddrs, k - 1);
      NextMapIsAccepted(s, sizes, user, k - 1, vaddrs[k - 1]);
      MapRegion(s, Seal(user), ORDER[k - 1], vaddrs[k - 1])
  }

  // ----- teardown -----

  /** The munmap loop of `sfc7120_destroy`, from region `i` on. */
  function UnmapFrom(s: State, maps: set<nat>, i: nat): (s': State)
    requires Shaped(s) && i <= |s.sizes| && forall k | k in maps && k < |s.sizes| && i <= k :: s.live[k] > 0
    ensures Shaped(s') && s'.sizes == s.sizes
    decreases |s.sizes| - i
  {
    if i == |s.sizes| then s
    else UnmapFrom(if i in maps then Apply(s, Unmap(i)) else s, maps, i + 1)
  }

  function AllDeleted(s: State): seq<bool> {
    seq(|s.regions|, _ => true)
  }

  /**
   `sfc7120_destroy`: unmap first, then the goodbye with the token, then the close, which the driver sees
   only if it is the last one of the device.
   */
  function Teardown(s: State, maps: set<nat>, token: Cap, last: bool): (s': State)
    requires Shaped(s) && forall k | k in maps && k < |s.sizes| :: s.live[k] > 0
    ensures Shaped(s')
  {
    var s1 := UnmapFrom(s, maps, 0);
    var s2 := Apply(s1, Goodbye(token, AllDeleted(s1)));
    if last then Apply(s2, Close(AllDeleted(s2))) else s2
  }

  /** Everything from region `i` on is as mapped as before, everything below is unmapped. */
  ghost predicate HalfHeld(s: State, sizes: seq<nat>, user: Cap, maps: set<nat>, i: nat) {
    && s.sizes == sizes && Shaped(s) && user != Null
    && s.original == user && s.sealed == Seal(user) && s.checked == [] && s.stray == 0 && !s.dying
    && forall k | 0 <= k < |sizes| ::
         && s.regions[k].len == sizes[k]
         && (s.regions[k].mapped <==> (k in maps && i <= k) || sizes[k] == 0)
         && s.live[k] == if k in maps && i <= k then 1 else 0
  }

  lemma {:induction false} UnmapFromClears(s: State, sizes: seq<nat>, user: Cap, maps: set<nat>, i: nat)
    requires i <= |sizes| && HalfHeld(s, sizes, user, maps, i) && forall k | k in maps :: k < |sizes| && sizes[k] > 0
    ensures HalfHeld(UnmapFrom(s, maps, i), sizes, user, maps, |sizes|)
    decreases |sizes| - i
  {
    if i < |sizes| {
      UnmapFromClears(if i in maps then Apply(s, Unmap(i)) else s, sizes, user, maps, i + 1);
    }
  }

  /** Teardown by the holder restores the device exactly as attach left it. */
  lemma TeardownRestores(s: State, sizes: seq<nat>, user: Cap, maps: set<nat>, last: bool)
    requires Held(s, sizes, user, maps)
    ensures Teardown(s, maps, Seal(user), last) == Fresh(sizes)
  {
    UnmapFromClears(s, sizes, user, maps, 0);
    var s' := Teardown(s, maps, Seal(user), last);
    assert s'.live == Fresh(sizes).live;
    assert s'.regions == Fresh(sizes).regions;
  }

  /**
   Wherever `sfc7120_init` stops after attaching, and after any session of driver
   ioctls, `sfc7120_destroy` brings the sharing state back to its start, whatever
   addresses the maps got; and a client that never attached changes nothing. So the
   next attach, by anyone, and all its maps are accepted again.
   */
  lemma DestroyRestores(sizes: seq<nat>, user: Cap, vaddrs: seq<nat>, k: nat, next: Cap, vaddrs': seq<nat>, last: bool)
    requires Usable(sizes) && user != Null && next != Null && |vaddrs| == |vaddrs'| == |ORDER| && k <= |ORDER|
    ensures Teardown(InitUpTo(sizes, user, vaddrs, k), Mapped(k), Seal(user), last) == Fresh(sizes)
    ensures forall stale :: Teardown(Fresh(sizes), {}, stale, last) == Fresh(sizes)
    ensures AttachResult(Fresh(sizes), next) == Ok
    ensures Held(InitUpTo(sizes, next, vaddrs', |ORDER|), sizes, next, Mapped(|ORDER|))
  {
    TeardownRestores(InitUpTo(sizes, user, vaddrs, k), sizes, user, Mapped(k), last);
    forall stale ensures Teardown(Fresh(sizes), {}, stale, last) == Fresh(sizes) {
      NeverAttached(sizes, stale, last);
    }
  }

  lemma NeverAttached(sizes: seq<nat>, stale: Cap, last: bool)
    ensures Teardown(Fresh(sizes), {}, stale, last) == Fresh(sizes)
  {
    NothingToUnmap(Fresh(sizes), 0);
    var s' := Teardown(Fresh(sizes), {}, stale, last);
    assert s'.regions == Fresh(sizes).regions;
  }

  /**
   A client whose attach was refused tears down too. It leaves the holder untouched if and only if the token
   that happens to be in its request is not the live one, and its close is not the last.
   */
  lemma LoserLeavesTheHolderIff(s: State, stale: Cap, last: bool)
    requires Inv(s) && s.sealed != Null
    ensures Teardown(s, {}, stale, last) == s <==> stale != s.sealed && !last
    ensures Teardown(s, {}, stale, last) == s || Teardown(s, {}, stale, last).sealed == Null
  {
    NothingToUnmap(s, 0);
    OnlyTheTokenPasses(s, stale);
  }

  lemma {:induction false} NothingToUnmap(s: State, i: nat)
    requires Shaped(s) && i <= |s.sizes|
    ensures UnmapFrom(s, {}, i) == s
    decreases |s.sizes| - i
  {
    if i < |s.sizes| {
      NothingToUnmap(s, i + 1);
    }
  }

  // ----- the client, in place -----

  class Client {
    const device: Device
    const user: Cap
    var token: Cap
    var maps: set<nat>

    /** `stale` is what the request structure holds before any attach. */
    constructor (device: Device, user: Cap, stale: Cap)
      ensures this.device == device && this.user == user && token == stale && maps == {}
    {
      this.device, this.user, token, maps := device, user, stale, {};
    }

    /** One `map_region`: the length comes from the kernel. The request may fail for reasons of its own. */
    method MapOne(kind: nat) returns (ok: bool)
      requires device.Valid() && Held(device.Abs(), device.sizes, user, maps) && token == Seal(user)
      requires kind < |device.sizes| && kind !in maps && device.sizes[kind] > 0
      modifies this`maps, device
      ensures device.Valid() && Held(device.Abs(), device.sizes, user, maps)
      ensures maps == if ok then old(maps) + {kind} else old(maps)
    {
      var fails: bool, vaddr: nat := *, *;
      if fails {
        return false;
      }
      MapIsAccepted(device.Abs(), device.sizes, user, maps, kind, vaddr);
      var len := device.SliceLength(kind);
      var rc := device.MmapCheck(MapRequest(token, true, false, 0, kind, len));
      device.PagerCtor(|device.checked| - 1);
      rc := device.VaddrCallback(kind, vaddr, len);
      maps := maps + {kind};
      return true;
    }

    /**
     `sfc7120_destroy`. The holder leaves the device as attach found it; a client that never attached leaves
     a free device alone, and a held one if and only if its token is stale and its close is not the last.
     */
    method Destroy(last: bool)
      requires device.Valid()
      requires || (token == Seal(user) && Held(device.Abs(), device.sizes, user, maps))
               || (maps == {} && (device.sealed == Null ==> device.Abs() == Fresh(device.sizes)))
      modifies this, device
      ensures device.Valid() && maps == {}
      ensures old(device.sealed == Null || (token == Seal(user) && Held(device.Abs(), device.sizes, user, maps))) ==>
                device.Abs() == Fresh(device.sizes)
      ensures old(device.sealed != Null && maps == {}) ==>
                (device.Abs() == old(device.Abs()) <==> old(token != device.sealed) && !last)
    {
      ghost var s0 := device.Abs();
      TeardownCases(s0, user, token, maps, last);
      UnmapLoop();
      var deleted := seq(|device.regions|, _ => true);
      assert deleted == AllDeleted(device.Abs());
      var rc := device.Goodbye(token, deleted);
      if last {
        device.RevokeCapToken(deleted);
      }
      maps := {};
    }

    method UnmapLoop()
      requires device.Valid() && forall k | k in maps && k < |device.sizes| :: device.live[k] > 0
      modifies device
      ensures device.Valid() && device.Abs() == UnmapFrom(old(device.Abs()), maps, 0)
    {
      for i := 0 to |device.sizes|
        invariant device.Valid() && forall k | k in maps && i <= k < |device.sizes| :: device.live[k] > 0
        invariant UnmapFrom(device.Abs(), maps, i) == UnmapFrom(old(device.Abs()), maps, 0)
      {
        if i in maps {
          device.PagerDtor(i);
        }
      }
    }

    /**
     `sfc7120_init`: on a free device all six regions are mapped, or, from any failure point, nothing is left
     behind. On a device that somebody holds it fails, and the holder is untouched if and only if the stale
     token is not the live one and the close is not the last.
     */
    method Init(last: bool) returns (ok: bool)
      requires device.Valid() && Usable(device.sizes) && user != Null && maps == {}
      requires device.sealed == Null ==> device.Abs() == Fresh(device.sizes)
      modifies this, device
      ensures device.Valid()
      ensures old(device.sealed) == Null ==>
                if ok then Held(device.Abs(), device.sizes, user, Mapped(|ORDER|)) && maps == Mapped(|ORDER|)
                else device.Abs() == Fresh(device.sizes)
      ensures old(device.sealed) != Null ==>
                !ok && (device.Abs() == old(device.Abs()) <==> old(token != device.sealed) && !last)
    {
      var fails: bool := *;
      if fails {
        Destroy(last);
        return false;
      }
      var rc, sealed := device.SetCapToken(user);
      if rc != Ok {
        Destroy(last);
        return false;
      }
      token := sealed;
      ok := MapAll();
      var viInfoFails: bool := *;
      if !ok || viInfoFails {
        Destroy(last);
        return false;
      }
    }

    /** The maps of `sfc7120_init`, up to the first that fails. */
    method MapAll() returns (ok: bool)
      requires device.Valid() && Usable(device.sizes) && token == Seal(user)
      requires Held(device.Abs(), device.sizes, user, maps) && maps == {}
      modifies this`maps, device
      ensures device.Valid() && Held(device.Abs(), device.sizes, user, maps)
      ensures ok ==> maps == Mapped(|ORDER|)
    {
      ok := true;
      var i := 0;
      while i < |ORDER| && ok
        invariant i <= |ORDER| && device.Valid()
        invariant Held(device.Abs(), device.sizes, user, maps) && maps == Mapped(i)
        decreases |ORDER| - i, ok
      {
        NotMappedBefore(i, i);
        ok := MapOne(ORDER[i]);
        if ok {
          i := i + 1;
        }
      }
    }
  }

  lemma TeardownCases(s: State, user: Cap, token: Cap, maps: set<nat>, last: bool)
    requires Inv(s)
    requires || (token == Seal(user) && Held(s, s.sizes, user, maps))
             || (maps == {} && (s.sealed == Null ==> s == Fresh(s.sizes)))
    ensures forall k | k in maps && k < |s.sizes| :: s.live[k] > 0
    ensures s.sealed == Null || (token == Seal(user) && Held(s, s.sizes, user, maps)) ==>
              Teardown(s, maps, token, last) == Fresh(s.sizes)
    ensures s.sealed != Null && maps == {} ==> (Teardown(s, maps, token, last) == s <==> token != s.sealed && !last)
  {
    if token == Seal(user) && Held(s, s.sizes, user, maps) {
      TeardownRestores(s, s.sizes, user, maps, last);
    } else if s.sealed == Null {
      NeverAttached(s.sizes, token, last);
    }
    if s.sealed != Null && maps == {} {
      LoserLeavesTheHolderIff(s, token, last);
    }
  }
}
