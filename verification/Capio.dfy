/**
 The sharing state of a CAPIO device: who holds the device (a sealed capability), and
 which of its memory regions are mapped into a process. Every handler is one step;
 mapping is two, because the check of the `mapped` flag and the creation of the pager
 object that sets it are separate in the source.
 */
module Capio {

  /** Capabilities, with sealing as an injective constructor. */
  datatype Cap = Null | User(id: nat) | Sealed(key: nat, of: Cap)

  const KEY: nat := 0x1234

  function Seal(c: Cap): Cap {
    Sealed(KEY, c)
  }

  /** Unsealing anything that the key did not seal gives an untagged value, equal to no capability. */
  function Unseal(c: Cap): Cap {
    if c.Sealed? && c.key == KEY then c.of else Null
  }

  datatype Errno = Ok | EINVAL | EPERM | ENXIO

  datatype Region = Region(offset: nat, len: nat, mapped: bool)

  /**
   `sizes` are the attach-time buffer sizes. `live` counts the pager objects of each
   region, `stray` those of types that name no region, and `checked` the map requests that
   passed the checks and have not created their object yet.
   */
  datatype State = State(
    sizes: seq<nat>, original: Cap, sealed: Cap, regions: seq<Region>,
    live: seq<nat>, stray: nat, checked: seq<nat>, dying: bool)

  predicate Shaped(s: State) {
    |s.regions| == |s.live| == |s.sizes|
  }

  /** `get_buffer_size`: 0 for an unknown type. */
  function BufferSize(s: State, kind: nat): nat {
    if kind < |s.sizes| then s.sizes[kind] else 0
  }

  /** Attach: token clear, nothing mapped; a region of size 0 is marked as mapped so that nobody can map it. */
  function Fresh(sizes: seq<nat>): State {
    State(sizes, Null, Null, seq(|sizes|, i requires 0 <= i < |sizes| => Region(0, sizes[i], sizes[i] == 0)),
          seq(|sizes|, _ => 0), 0, [], false)
  }

  /** `check_cap_token`. */
  function CheckToken(s: State, token: Cap): Errno {
    if s.sealed == Null || token == Null then EINVAL
    else if Unseal(token) != s.original then EPERM
    else Ok
  }

  /** `set_cap_token`. */
  function AttachResult(s: State, user: Cap): Errno {
    if user == Null || s.sealed != Null then EINVAL else Ok
  }

  function Attach(s: State, user: Cap): State {
    if AttachResult(s, user) != Ok then s else s.(original := user, sealed := Seal(user))
  }

  /** A map request: the token it shows, whether its own capability is tagged, and what it wants. */
  datatype MapRequest = MapRequest(token: Cap, tagged: bool, capPerms: bool, pos: nat, kind: nat, size: nat)

  /** `capio_mmap_single_extra` up to the creation of the pager object. */
  function MapResult(s: State, r: MapRequest): Errno
    requires Shaped(s)
  {
    if CheckToken(s, r.token) != Ok then CheckToken(s, r.token)
    else if r.capPerms || r.pos != 0 then EINVAL
    else if s.dying then ENXIO
    else if !r.tagged then EINVAL
    else if r.size != BufferSize(s, r.kind) then EINVAL
    else if r.kind < |s.sizes| && s.regions[r.kind].mapped then EINVAL
    else Ok
  }

  /** `revoke_cap_token`: the token goes first, then every offset whose mapping could be deleted. */
  function Revoke(s: State, deleted: seq<bool>): State
    requires Shaped(s) && |deleted| == |s.regions|
  {
    s.(original := Null, sealed := Null,
       regions := seq(|s.regions|, i requires 0 <= i < |s.regions| =>
         if deleted[i] then s.regions[i].(offset := 0) else s.regions[i]))
  }

  datatype Step =
    | DoAttach(user: Cap)
    | MapCheck(req: MapRequest)
    | MapCreate(i: nat)
    | Place(kind: nat, vaddr: nat)
    | Unmap(kind: nat)
    | Goodbye(token: Cap, deleted: seq<bool>)
    | Close(deleted: seq<bool>)
    | DriverIoctl(token: Cap)
    | Die

  predicate Enabled(s: State, step: Step)
    requires Shaped(s)
  {
    match step
    case MapCreate(i) => i < |s.checked|
    case Place(kind, _) => kind < |s.sizes| && s.live[kind] > 0
    case Unmap(kind) => if kind < |s.sizes| then s.live[kind] > 0 else s.stray > 0
    case Goodbye(_, deleted) => |deleted| == |s.regions|
    case Close(deleted) => |deleted| == |s.regions|
    case _ => true
  }

  function Result(s: State, step: Step): Errno
    requires Shaped(s)
  {
    match step
    case DoAttach(user) => AttachResult(s, user)
    case MapCheck(req) => MapResult(s, req)
    case Goodbye(token, _) => if CheckToken(s, token) == Ok then Ok else EPERM
    case DriverIoctl(token) => if CheckToken(s, token) == Ok then Ok else EPERM
    case _ => Ok
  }

  function Apply(s: State, step: Step): (s': State)
    requires Shaped(s) && Enabled(s, step)
    ensures Shaped(s') && s'.sizes == s.sizes
  {
    if Result(s, step) != Ok then s else
    match step
    case DoAttach(user) => Attach(s, user)
    case MapCheck(req) => s.(checked := s.checked + [req.kind])
    case MapCreate(i) =>
      var kind, s1 := s.checked[i], s.(checked := s.checked[..i] + s.checked[i + 1..]);
      if kind >= |s.sizes| then s1.(stray := s.stray + 1)
      else s1.(live := s.live[kind := s.live[kind] + 1],
               regions := s.regions[kind := s.regions[kind].(mapped := true)])
    case Place(kind, vaddr) => s.(regions := s.regions[kind := s.regions[kind].(offset := vaddr, len := s.sizes[kind])])
    case Unmap(kind) =>
      if kind >= |s.sizes| then s.(stray := s.stray - 1)
      else s.(live := s.live[kind := s.live[kind] - 1],
              regions := s.regions[kind := s.regions[kind].(mapped := false)])
    case Goodbye(_, deleted) => Revoke(s, deleted)
    case Close(deleted) => Revoke(s, deleted)
    case DriverIoctl(_) => s
    case Die => s.(dying := true)
  }

  // ----- the token -----

  /** At most one token is live, and it is the seal of the stored original. */
  predicate TokenInv(s: State) {
    if s.original == Null then s.sealed == Null else s.sealed == Seal(s.original)
  }

  /** Exactly one capability passes the check while the device is held, and none while it is not. */
  lemma OnlyTheTokenPasses(s: State, token: Cap)
    requires TokenInv(s)
    ensures CheckToken(s, token) == Ok <==> s.sealed != Null && token == s.sealed
  {}

  /** Maps, driver ioctls and goodbyes succeed only with the live token. */
  lemma SuccessNeedsTheToken(s: State, step: Step)
    requires Shaped(s) && TokenInv(s) && Result(s, step) == Ok
    ensures step.MapCheck? ==> s.sealed != Null && step.req.token == s.sealed
    ensures step.Goodbye? || step.DriverIoctl? ==> s.sealed != Null && step.token == s.sealed
  {}

  // ----- the mapped flags -----

  /** The flag of every usable region says whether its one pager object is live; an unusable one never has any. */
  ghost predicate FlagsInv(s: State) {
    && Shaped(s)
    && forall k | 0 <= k < |s.sizes| ::
         && s.regions[k].len == s.sizes[k]
         && (if s.sizes[k] == 0 then s.regions[k].mapped && s.live[k] == 0
             else s.live[k] == (if s.regions[k].mapped then 1 else 0))
  }

  /** No request that could not be granted is waiting. */
  predicate ChecksInv(s: State) {
    forall i | 0 <= i < |s.checked| && s.checked[i] < |s.sizes| :: s.sizes[s.checked[i]] != 0
  }

  ghost predicate Inv(s: State) {
    TokenInv(s) && FlagsInv(s) && ChecksInv(s)
  }

  /** The region a waiting request wants is, at this moment, not mapped. */
  predicate StillFree(s: State, i: nat)
    requires Shaped(s) && i < |s.checked|
  {
    s.checked[i] < |s.sizes| ==> !s.regions[s.checked[i]].mapped
  }

  /** Creating a pager object keeps the flags exact if and only if the region is still unmapped then. */
  lemma CreateIsExact(s: State, i: nat)
    requires Inv(s) && i < |s.checked|
    ensures Inv(Apply(s, MapCreate(i))) <==> StillFree(s, i)
  {
    var s', kind := Apply(s, MapCreate(i)), s.checked[i];
    assert kind < |s.sizes| ==> s'.live[kind] == s.live[kind] + 1 && s'.regions[kind].mapped;
    if StillFree(s, i) {
      forall j | 0 <= j < |s'.checked| && s'.checked[j] < |s.sizes| ensures s.sizes[s'.checked[j]] != 0 {
        assert s'.checked[j] == s.checked[if j < i then j else j + 1];
      }
    }
  }

  /** A pager object is created only while its region is unmapped. */
  predicate Serialised(s: State, step: Step)
    requires Shaped(s) && Enabled(s, step)
  {
    step.MapCreate? ==> StillFree(s, step.i)
  }

  lemma StepInv(s: State, step: Step)
    requires Inv(s) && Enabled(s, step) && Serialised(s, step)
    ensures Inv(Apply(s, step))
  {
    if step.MapCreate? {
      CreateIsExact(s, step.i);
    } else {
      var s' := Apply(s, step);
      assert forall k | 0 <= k < |s.sizes| :: s'.regions[k].len == s.sizes[k];
    }
  }

  ghost predicate Runs(s: State, steps: seq<Step>)
    requires Shaped(s)
    decreases |steps|
  {
    steps == [] || (Enabled(s, steps[0]) && Runs(Apply(s, steps[0]), steps[1..]))
  }

  /** In the whole run, every pager object is created while its region is unmapped. */
  ghost predicate AllSerialised(s: State, steps: seq<Step>)
    requires Shaped(s) && Runs(s, steps)
    decreases |steps|
  {
    steps == [] || (Serialised(s, steps[0]) && AllSerialised(Apply(s, steps[0]), steps[1..]))
  }

  /** The invariant holds before the run and after each of its steps. */
  ghost predicate Throughout(s: State, steps: seq<Step>)
    requires Shaped(s) && Runs(s, steps)
    decreases |steps|
  {
    Inv(s) && (steps == [] || Throughout(Apply(s, steps[0]), steps[1..]))
  }

  ghost function Final(s: State, steps: seq<Step>): (s': State)
    requires Shaped(s) && Runs(s, steps)
    ensures Shaped(s') && s'.sizes == s.sizes
    decreases |steps|
  {
    if steps == [] then s else Final(Apply(s, steps[0]), steps[1..])
  }

  /** A run keeps the sharing state exact throughout if and only if it creates each pager object while its region is unmapped. */
  lemma {:induction false} ExactIff(s: State, steps: seq<Step>)
    requires Inv(s) && Runs(s, steps)
    ensures Throughout(s, steps) <==> AllSerialised(s, steps)
    ensures AllSerialised(s, steps) ==> Inv(Final(s, steps))
    decreases |steps|
  {
    if steps != [] {
      if Serialised(s, steps[0]) {
        StepInv(s, steps[0]);
        ExactIff(Apply(s, steps[0]), steps[1..]);
      } else {
        CreateIsExact(s, steps[0].i);
        assert !Inv(Apply(s, steps[0]));
      }
    }
  }

  lemma FreshInv(sizes: seq<nat>)
    ensures Inv(Fresh(sizes))
  {}

  /**
   In every run of attach, map, unmap, goodbye, close and driver-ioctl steps that creates
   each pager object while its region is unmapped: a capability passes the check exactly if it seals the
   stored original, every region keeps its attach-time length, and a usable region is
   flagged mapped exactly while a pager object of it is live, of which there is never a
   second.
   */
  lemma SharingInvariant(sizes: seq<nat>, steps: seq<Step>, token: Cap, kind: nat)
    requires Runs(Fresh(sizes), steps) && AllSerialised(Fresh(sizes), steps) && kind < |sizes|
    ensures var s := Final(Fresh(sizes), steps);
            && (CheckToken(s, token) == Ok <==> s.original != Null && token == Seal(s.original))
            && s.regions[kind].len == sizes[kind]
            && s.live[kind] <= 1
            && (sizes[kind] > 0 ==> (s.regions[kind].mapped <==> s.live[kind] == 1))
  {
    FreshInv(sizes);
    ExactIff(Fresh(sizes), steps);
    OnlyTheTokenPasses(Final(Fresh(sizes), steps), token);
  }

  /** Two overlapping maps of one region leave, after one unmap, an object without its flag. */
  lemma OverlappingMaps(sizes: seq<nat>, user: Cap, kind: nat)
    requires kind < |sizes| && sizes[kind] > 0 && user != Null
    ensures var s0 := Attach(Fresh(sizes), user);
            var req := MapRequest(Seal(user), true, false, 0, kind, sizes[kind]);
            var s2 := Apply(Apply(s0, MapCheck(req)), MapCheck(req));
            var s5 := Apply(Apply(Apply(s2, MapCreate(0)), MapCreate(0)), Unmap(kind));
            s5.live[kind] == 1 && !s5.regions[kind].mapped
  {
    var s0 := Attach(Fresh(sizes), user);
    var req := MapRequest(Seal(user), true, false, 0, kind, sizes[kind]);
    var s1 := Apply(s0, MapCheck(req));
    var s2 := Apply(s1, MapCheck(req));
    assert s2.checked == [kind, kind];
    var s3 := Apply(s2, MapCreate(0));
    assert s3.checked == [kind] && s3.live[kind] == 1;
    var s4 := Apply(s3, MapCreate(0));
    assert s4.live[kind] == 2;
  }

  // ----- the handlers, in place -----

  /** The framework's softc. Region `i` of the table has type `i`. */
  class Device {
    const sizes: seq<nat>
    var original: Cap
    var sealed: Cap
    var regions: seq<Region>
    var live: seq<nat>
    var stray: nat
    var checked: seq<nat>
    var dying: bool

    ghost function Abs(): State
      reads this
    {
      State(sizes, original, sealed, regions, live, stray, checked, dying)
    }

    ghost predicate Valid()
      reads this
    {
      Inv(Abs())
    }

    constructor (sizes: seq<nat>)
      ensures Valid() && Abs() == Fresh(sizes)
    {
      this.sizes := sizes;
      original, sealed, stray, checked, dying := Null, Null, 0, [], false;
      regions, live := Fresh(sizes).regions, Fresh(sizes).live;
      new;
      FreshInv(sizes);
    }

    /** `check_cap_token`: passes exactly the live token. */
    method CheckCapToken(token: Cap) returns (rc: Errno)
      requires Valid()
      ensures rc == CheckToken(Abs(), token)
      ensures rc == Ok <==> sealed != Null && token == sealed
    {
      if sealed == Null || token == Null {
        return EINVAL;
      }
      if Unseal(token) != original {
        return EPERM;
      }
      return Ok;
    }

    /** `set_cap_token`. */
    method SetCapToken(user: Cap) returns (rc: Errno, token: Cap)
      requires Valid()
      modifies this`original, this`sealed
      ensures Valid() && Abs() == Apply(old(Abs()), DoAttach(user)) && rc == Result(old(Abs()), DoAttach(user))
      ensures rc == Ok ==> token == sealed == Seal(user)
    {
      if user == Null || sealed != Null {
        return EINVAL, Null;
      }
      original, sealed := user, Seal(user);
      return Ok, sealed;
    }

    /** `revoke_cap_token`; `deleted` says for each region whether its mapping could be removed. */
    method RevokeCapToken(deleted: seq<bool>)
      requires Valid() && |deleted| == |regions|
      modifies this`original, this`sealed, this`regions
      ensures Valid() && Abs() == Revoke(old(Abs()), deleted)
    {
      ghost var after := Revoke(Abs(), deleted);
      StepInv(Abs(), Close(deleted));
      original, sealed := Null, Null;
      for i := 0 to |regions|
        invariant |regions| == |old(regions)| && regions[i..] == old(regions)[i..]
        invariant regions[..i] == after.regions[..i]
        invariant original == sealed == Null
      {
        if regions[i].offset != 0 && deleted[i] {
          regions := regions[i := regions[i].(offset := 0)];
        }
      }
      assert regions == after.regions;
    }

    /** The lookup loops: the region of the given type, if there is one. */
    method Find(kind: nat) returns (i: nat, found: bool)
      ensures found <==> kind < |regions|
      ensures found ==> i == kind
    {
      for j := 0 to |regions|
        invariant j <= kind
      {
        if j == kind {
          return j, true;
        }
      }
      return 0, false;
    }

    /** `capio_slice_length_callback`: an unknown type has length 0. */
    method SliceLength(kind: nat) returns (len: nat)
      requires Valid()
      ensures len == if kind < |sizes| then sizes[kind] else 0
    {
      var i, found := Find(kind);
      return if found then regions[i].len else 0;
    }

    /** `capio_vaddr_callback`. */
    method VaddrCallback(kind: nat, vaddr: nat, size: nat) returns (rc: Errno)
      requires Valid() && (kind < |live| ==> live[kind] > 0 && size == sizes[kind])
      modifies this`regions
      ensures Valid() && rc == if kind < |sizes| then Ok else EINVAL
      ensures Abs() == if rc == Ok then Apply(old(Abs()), Place(kind, vaddr)) else old(Abs())
    {
      var i, found := Find(kind);
      if !found {
        return EINVAL;
      }
      StepInv(Abs(), Place(kind, vaddr));
      regions := regions[i := regions[i].(offset := vaddr, len := size)];
      return Ok;
    }

    /** The checks of `capio_mmap_single_extra`. */
    method MmapCheck(req: MapRequest) returns (rc: Errno)
      requires Valid()
      modifies this`checked
      ensures Valid() && rc == MapResult(old(Abs()), req) && Abs() == Apply(old(Abs()), MapCheck(req))
    {
      StepInv(Abs(), MapCheck(req));
      rc := CheckCapToken(req.token);
      if rc != Ok {
        return;
      }
      if req.capPerms || req.pos != 0 {
        return EINVAL;
      }
      if dying {
        return ENXIO;
      }
      if !req.tagged {
        return EINVAL;
      }
      var i, found := Find(req.kind);
      var bufferSize := if found then sizes[i] else 0;
      if req.size != bufferSize || (found && regions[i].mapped) {
        return EINVAL;
      }
      checked := checked + [req.kind];
      return Ok;
    }

    /** `capio_pager_ctor`, for the `i`-th request that passed the checks: the flags stay exact iff the region is still unmapped. */
    method PagerCtor(i: nat)
      requires Valid() && i < |checked|
      modifies this`regions, this`live, this`stray, this`checked
      ensures Abs() == Apply(old(Abs()), MapCreate(i))
      ensures Valid() <==> old(StillFree(Abs(), i))
    {
      CreateIsExact(Abs(), i);
      var kind := checked[i];
      checked := checked[..i] + checked[i + 1..];
      if kind < |sizes| {
        live := live[kind := live[kind] + 1];
        regions := regions[kind := regions[kind].(mapped := true)];
      } else {
        stray := stray + 1;
      }
    }

    /** `capio_pager_dtor`. */
    method PagerDtor(kind: nat)
      requires Valid() && if kind < |sizes| then live[kind] > 0 else stray > 0
      modifies this`regions, this`live, this`stray
      ensures Valid() && Abs() == Apply(old(Abs()), Unmap(kind))
    {
      StepInv(Abs(), Unmap(kind));
      if kind < |sizes| {
        live := live[kind := live[kind] - 1];
        regions := regions[kind := regions[kind].(mapped := false)];
      } else {
        stray := stray - 1;
      }
    }

    /** `capio_ioctl_handler` for `CAPIO_GOODBYE`. */
    method Goodbye(token: Cap, deleted: seq<bool>) returns (rc: Errno)
      requires Valid() && |deleted| == |regions|
      modifies this`original, this`sealed, this`regions
      ensures Valid() && rc == Result(old(Abs()), Step.Goodbye(token, deleted))
      ensures Abs() == Apply(old(Abs()), Step.Goodbye(token, deleted))
    {
      var err := CheckCapToken(token);
      if err != Ok {
        return EPERM;
      }
      RevokeCapToken(deleted);
      return Ok;
    }
  }
}
