/** Allocation of the NTP shared-memory segments to sessions: src/ntpshm/timehint.c. */
module ShmAllocator {
  import opened NtpSegment

  datatype Source = SourcePty | SourcePps | SourceUsb | SourceRs232 | OtherSource

  /** Whether ntpshm_link_activate allocates a segment for serial time, and one for the pulse. */
  predicate WantsClock(src: Source) {
    !src.SourcePty? && !src.SourcePps?
  }

  predicate WantsPps(src: Source) {
    src.SourceUsb? || src.SourceRs232? || src.SourcePps?
  }

  /** The segments a session points to, by number; -1 is a null pointer. */
  datatype Links = Links(clock: int, pps: int)

  /** Which segments are attached, which are marked in use, and who points where. */
  datatype World = World(attached: seq<bool>, inUse: seq<bool>, links: map<nat, Links>)

  predicate Shaped(attached: seq<bool>, inUse: seq<bool>) {
    |attached| == |inUse|
  }

  // -------------------------------------------------------- specification

  /** The first attached segment at or after i that is not in use, or -1. */
  function FirstFree(attached: seq<bool>, inUse: seq<bool>, i: nat): (r: int)
    requires Shaped(attached, inUse) && i <= |inUse|
    ensures r == -1 || (i <= r < |inUse| && attached[r] && !inUse[r])
    ensures forall j :: i <= j < (if r == -1 then |inUse| else r) ==> !attached[j] || inUse[j]
    decreases |inUse| - i
  {
    if i == |inUse| then -1
    else if attached[i] && !inUse[i] then i
    else FirstFree(attached, inUse, i + 1)
  }

  /** ntpshm_alloc: the segment, and the marks afterwards. */
  function Alloc(attached: seq<bool>, inUse: seq<bool>): (int, seq<bool>)
    requires Shaped(attached, inUse)
  {
    var i := FirstFree(attached, inUse, 0);
    (i, if i == -1 then inUse else inUse[i := true])
  }

  /** ntpshm_free */
  function Free(inUse: seq<bool>, i: int): seq<bool> {
    if 0 <= i < |inUse| then inUse[i := false] else inUse
  }

  /** ntpshm_link_activate: the links of the session, and the marks afterwards. */
  function Activate(attached: seq<bool>, inUse: seq<bool>, l: Links, src: Source): (Links, seq<bool>)
    requires Shaped(attached, inUse)
  {
    var (c, u1) := if WantsClock(src) then Alloc(attached, inUse) else (l.clock, inUse);
    if WantsPps(src) && !(WantsClock(src) && c == -1) then
      var (p, u2) := Alloc(attached, u1);
      (Links(c, p), u2)
    else
      (Links(c, l.pps), u1)
  }

  /** ntpshm_link_deactivate */
  function Deactivate(inUse: seq<bool>, l: Links): (Links, seq<bool>) {
    (Links(-1, -1), Free(Free(inUse, l.clock), l.pps))
  }

  // ------------------------------------------------------------ invariant

  predicate Points(w: World, id: nat, pps: bool, i: int) {
    id in w.links && i >= 0 && (if pps then w.links[id].pps else w.links[id].clock) == i
  }

  /** A segment is marked in use exactly when some session field points to it, and then
      exactly one does. */
  ghost predicate Inv(w: World) {
    && Shaped(w.attached, w.inUse)
    && (forall id, pps, i :: Points(w, id, pps, i) ==> i < |w.inUse| && w.attached[i] && w.inUse[i])
    && (forall a, p, b, q, i :: Points(w, a, p, i) && Points(w, b, q, i) ==> a == b && p == q)
    && (forall i :: 0 <= i < |w.inUse| && w.inUse[i] ==> exists id, pps :: Points(w, id, pps, i))
    && (forall id :: id in w.links ==> w.links[id].clock >= -1 && w.links[id].pps >= -1)
  }

  function SetLinks(w: World, id: nat, r: (Links, seq<bool>)): World {
    w.(links := w.links[id := r.0], inUse := r.1)
  }

  /** One field of a session takes the first free segment. */
  lemma AllocField(w: World, id: nat, pps: bool)
    requires Inv(w) && id in w.links
    requires (if pps then w.links[id].pps else w.links[id].clock) == -1
    ensures
      var (i, u) := Alloc(w.attached, w.inUse);
      var l := w.links[id];
      Inv(SetLinks(w, id, (if pps then l.(pps := i) else l.(clock := i), u)))
  {
    var (i, u) := Alloc(w.attached, w.inUse);
    var l := w.links[id];
    var t := SetLinks(w, id, (if pps then l.(pps := i) else l.(clock := i), u));
    assert forall a, p, k :: Points(t, a, p, k) <==> Points(w, a, p, k) || (a == id && p == pps && k == i && i >= 0);
    forall k | 0 <= k < |u| && u[k]
      ensures exists a, p :: Points(t, a, p, k)
    {
      if k == i {
        assert Points(t, id, pps, k);
      } else {
        var a, p :| Points(w, a, p, k);
        assert Points(t, a, p, k);
      }
    }
  }

  /** One field of a session gives its segment back. */
  lemma FreeField(w: World, id: nat, pps: bool)
    requires Inv(w) && id in w.links
    ensures
      var l := w.links[id];
      var i := if pps then l.pps else l.clock;
      Inv(SetLinks(w, id, (if pps then l.(pps := -1) else l.(clock := -1), Free(w.inUse, i))))
  {
    var l := w.links[id];
    var i := if pps then l.pps else l.clock;
    var t := SetLinks(w, id, (if pps then l.(pps := -1) else l.(clock := -1), Free(w.inUse, i)));
    assert i >= 0 ==> Points(w, id, pps, i);
    assert forall a, p, k :: Points(t, a, p, k) <==> Points(w, a, p, k) && !(a == id && p == pps);
    forall k | 0 <= k < |t.inUse| && t.inUse[k]
      ensures exists a, p :: Points(t, a, p, k)
    {
      var a, p :| Points(w, a, p, k);
      assert Points(t, a, p, k);
    }
  }

  /** The fields that an activation overwrites. */
  predicate OverwritesPps(w: World, src: Source)
    requires Shaped(w.attached, w.inUse)
  {
    WantsPps(src) && !(WantsClock(src) && FirstFree(w.attached, w.inUse, 0) == -1)
  }

  predicate OverwritesNothing(w: World, id: nat, src: Source)
    requires Shaped(w.attached, w.inUse) && id in w.links
  {
    && (WantsClock(src) ==> w.links[id].clock == -1)
    && (OverwritesPps(w, src) ==> w.links[id].pps == -1)
  }

  function ActivateStep(w: World, id: nat, src: Source): World
    requires Shaped(w.attached, w.inUse) && id in w.links
  {
    SetLinks(w, id, Activate(w.attached, w.inUse, w.links[id], src))
  }

  function DeactivateStep(w: World, id: nat): World
    requires id in w.links
  {
    SetLinks(w, id, Deactivate(w.inUse, w.links[id]))
  }

  /** The world after the first half of an activation. */
  function ClockHalf(w: World, id: nat, src: Source): World
    requires Shaped(w.attached, w.inUse) && id in w.links
  {
    if WantsClock(src) then
      var (c, u) := Alloc(w.attached, w.inUse);
      SetLinks(w, id, (Links(c, w.links[id].pps), u))
    else w
  }

  lemma ActivateKeeps(w: World, id: nat, src: Source)
    requires Inv(w) && id in w.links && OverwritesNothing(w, id, src)
    ensures Inv(ActivateStep(w, id, src))
  {
    var half := ClockHalf(w, id, src);
    if WantsClock(src) {
      AllocField(w, id, false);
    }
    assert Inv(half);
    if OverwritesPps(w, src) {
      AllocField(half, id, true);
      var (p, u) := Alloc(half.attached, half.inUse);
      assert ActivateStep(w, id, src) == SetLinks(half, id, (Links(half.links[id].clock, p), u));
    } else {
      assert ActivateStep(w, id, src) == half;
    }
  }

  /** A segment whose only pointer is overwritten stays marked for ever. */
  lemma LeakBreaks(w: World, id: nat, pps: bool, k: int, t: World)
    requires Inv(w) && id in w.links && Points(w, id, pps, k)
    requires Shaped(t.attached, t.inUse) && k < |t.inUse| && t.inUse[k]
    requires forall a, p :: Points(t, a, p, k) ==> Points(w, a, p, k)
    requires !Points(t, id, pps, k)
    ensures !Inv(t)
  {
    assert forall a, p :: !Points(t, a, p, k);
  }

  /** Activating a session keeps the books right exactly when it overwrites no pointer, as
      for a session that is not linked. */
  lemma ActivateKeepsIff(w: World, id: nat, src: Source)
    requires Inv(w) && id in w.links
    ensures Inv(ActivateStep(w, id, src)) <==> OverwritesNothing(w, id, src)
    ensures w.links[id] == Links(-1, -1) ==> OverwritesNothing(w, id, src)
  {
    if OverwritesNothing(w, id, src) {
      ActivateKeeps(w, id, src);
    } else {
      var t := ActivateStep(w, id, src);
      var l := w.links[id];
      if WantsClock(src) && l.clock != -1 {
        assert Points(w, id, false, l.clock);
        LeakBreaks(w, id, false, l.clock, t);
      } else {
        assert Points(w, id, true, l.pps);
        LeakBreaks(w, id, true, l.pps, t);
      }
    }
  }

  /** Deactivation releases exactly what the session held. */
  lemma DeactivateExact(w: World, id: nat)
    requires Inv(w) && id in w.links
    ensures
      var t := DeactivateStep(w, id);
      && Inv(t) && t.links[id] == Links(-1, -1)
      && (forall i :: 0 <= i < |w.inUse| ==>
            (t.inUse[i] <==> w.inUse[i] && i != w.links[id].clock && i != w.links[id].pps))
  {
    FreeField(w, id, false);
    var l := w.links[id];
    var half := SetLinks(w, id, (Links(-1, l.pps), Free(w.inUse, l.clock)));
    FreeField(half, id, true);
    assert DeactivateStep(w, id) == SetLinks(half, id, (Links(-1, -1), Free(half.inUse, l.pps)));
  }

  /** What each kind of source gets when an unlinked session is activated: none at all inside the
      test harness; the first free segment for the pulse alone; the first one for the serial time
      and the next for the pulse, but no pulse segment without the other; or the first one for
      the serial time alone. Exactly these are marked. */
  lemma RolesBySource(w: World, id: nat, src: Source)
    requires Inv(w) && id in w.links && w.links[id] == Links(-1, -1)
    ensures
      var t := ActivateStep(w, id, src);
      var first := FirstFree(w.attached, w.inUse, 0);
      var l := t.links[id];
      && (src == SourcePty ==> l == Links(-1, -1))
      && (src == SourcePps ==> l == Links(-1, first))
      && (src == OtherSource ==> l == Links(first, -1))
      && (src == SourceUsb || src == SourceRs232 ==>
            l == Links(first, if first == -1 then -1 else FirstFree(w.attached, w.inUse, first + 1)))
      && MarkedBy(w.inUse, t.inUse, l)
  {
    ActivateLinks(w.attached, w.inUse, src);
  }

  /** The segments of l, and those marked before. */
  ghost predicate MarkedBy(before: seq<bool>, after: seq<bool>, l: Links) {
    |after| == |before| && forall i :: 0 <= i < |before| ==> (after[i] <==> before[i] || i == l.clock || i == l.pps)
  }

  lemma ActivateLinks(attached: seq<bool>, inUse: seq<bool>, src: Source)
    requires Shaped(attached, inUse)
    ensures
      var (l, after) := Activate(attached, inUse, Links(-1, -1), src);
      var first := FirstFree(attached, inUse, 0);
      && l.clock == (if src == SourcePty || src == SourcePps then -1 else first)
      && l.pps == (if src == SourcePps then first
                   else if (src == SourceUsb || src == SourceRs232) && first != -1 then
                     FirstFree(attached, inUse, first + 1)
                   else -1)
      && MarkedBy(inUse, after, l)
  {
    var first := FirstFree(attached, inUse, 0);
    if first != -1 {
      NextFree(attached, inUse, first, 0);
    }
  }

  /** Once the first free segment is taken, the search from the start finds the next one. */
  lemma {:induction false} NextFree(attached: seq<bool>, inUse: seq<bool>, first: nat, i: nat)
    requires Shaped(attached, inUse) && i <= first < |inUse| && FirstFree(attached, inUse, i) == first
    ensures FirstFree(attached, inUse[first := true], i) == FirstFree(attached, inUse, first + 1)
    decreases first - i
  {
    if i < first {
      NextFree(attached, inUse, first, i + 1);
    } else {
      FreeBeyond(attached, inUse, first, first + 1);
    }
  }

  lemma {:induction false} FreeBeyond(attached: seq<bool>, inUse: seq<bool>, first: nat, i: nat)
    requires Shaped(attached, inUse) && first < i <= |inUse|
    ensures FirstFree(attached, inUse[first := true], i) == FirstFree(attached, inUse, i)
    decreases |inUse| - i
  {
    if i < |inUse| {
      FreeBeyond(attached, inUse, first, i + 1);
    }
  }

  // ------------------------------------------------------------------ runs

  datatype Action = DoActivate(id: nat, src: Source) | DoDeactivate(id: nat)

  predicate Legal(w: World, a: Action) {
    a.id in w.links && (a.DoActivate? ==> w.links[a.id] == Links(-1, -1))
  }

  function Step(w: World, a: Action): (t: World)
    requires Shaped(w.attached, w.inUse) && a.id in w.links
    ensures Shaped(t.attached, t.inUse) && t.links.Keys == w.links.Keys
  {
    match a
    case DoActivate(id, src) => ActivateStep(w, id, src)
    case DoDeactivate(id) => DeactivateStep(w, id)
  }

  ghost predicate LegalRun(w: World, acts: seq<Action>, t: World)
    decreases |acts|
  {
    Shaped(w.attached, w.inUse) &&
    if acts == [] then w == t
    else Legal(w, acts[0]) && LegalRun(Step(w, acts[0]), acts[1..], t)
  }

  /** ntpshm_context_init and ntpshm_session_init: nothing is in use, nobody points anywhere. */
  predicate Fresh(w: World) {
    && Shaped(w.attached, w.inUse)
    && (forall i :: 0 <= i < |w.inUse| ==> !w.inUse[i])
    && (forall id :: id in w.links ==> w.links[id] == Links(-1, -1))
  }

  lemma {:induction false} RunKeeps(w: World, acts: seq<Action>, t: World)
    requires Inv(w) && LegalRun(w, acts, t)
    ensures Inv(t)
    decreases |acts|
  {
    if acts != [] {
      match acts[0] {
        case DoActivate(id, src) => ActivateKeepsIff(w, id, src);
        case DoDeactivate(id) => DeactivateExact(w, id);
      }
      RunKeeps(Step(w, acts[0]), acts[1..], t);
    }
  }

  /** Over any sequence of activations of unlinked sessions and of deactivations, a segment is
      in use exactly when one session field points to it, and no two sessions or roles share
      a segment. */
  lemma SegmentsAreExclusive(w: World, acts: seq<Action>, t: World)
    requires Fresh(w) && LegalRun(w, acts, t)
    ensures forall i :: 0 <= i < |t.inUse| ==> (t.inUse[i] <==> exists id, pps :: Points(t, id, pps, i))
    ensures forall a, p, b, q, i :: Points(t, a, p, i) && Points(t, b, q, i) ==> a == b && p == q
    ensures forall id, pps, i :: Points(t, id, pps, i) ==> i < |t.attached| && t.attached[i]
  {
    RunKeeps(w, acts, t);
  }

  // --------------------------------------------------------------- objects

  const MAX_DEVICES: nat := 4
  const NTPSHMSEGS: nat := MAX_DEVICES * 2

  class Context {
    const shmTime: seq<ShmTime?>
    const inUse: array<bool>

    ghost predicate Valid()
      reads this
    {
      && |shmTime| == NTPSHMSEGS && inUse.Length == NTPSHMSEGS
      && forall i, j :: 0 <= i < j < |shmTime| ==> shmTime[i] == null || shmTime[i] != shmTime[j]
    }

    function Attached(): (a: seq<bool>)
      ensures |a| == |shmTime|
    {
      seq(|shmTime|, (i: nat) requires i < |shmTime| => shmTime[i] != null)
    }

    /** The number of the segment behind a pointer, -1 for null. */
    ghost predicate IsSegment(p: ShmTime?, i: int) {
      if p == null then i == -1 else 0 <= i < |shmTime| && shmTime[i] == p
    }

    /** ntpshm_context_init, given the segments that could be attached. */
    constructor (segments: seq<ShmTime?>)
      requires |segments| == NTPSHMSEGS
      requires forall i, j :: 0 <= i < j < |segments| ==> segments[i] == null || segments[i] != segments[j]
      ensures Valid() && shmTime == segments && fresh(inUse)
      ensures forall i :: 0 <= i < NTPSHMSEGS ==> !inUse[i]
    {
      shmTime := segments;
      inUse := new bool[NTPSHMSEGS](i => false);
    }

    /** ntpshm_alloc; the segment comes back initialised. */
    method AllocSegment() returns (s: ShmTime?)
      requires Valid()
      modifies inUse, set i | 0 <= i < |shmTime| :: shmTime[i]
      ensures IsSegment(s, Alloc(Attached(), old(inUse[..])).0)
      ensures inUse[..] == Alloc(Attached(), old(inUse[..])).1
      ensures s != null ==> s.View() == FreshSeg()
      ensures forall i :: 0 <= i < |shmTime| && shmTime[i] != null && shmTime[i] != s ==> unchanged(shmTime[i])
    {
      var i := 0;
      while i < NTPSHMSEGS
        invariant 0 <= i <= NTPSHMSEGS
        invariant FirstFree(Attached(), inUse[..], 0) == FirstFree(Attached(), inUse[..], i)
      {
        if shmTime[i] != null && !inUse[i] {
          inUse[i] := true;
          shmTime[i].Reset();
          return shmTime[i];
        }
        i := i + 1;
      }
      return null;
    }

    /** ntpshm_free */
    method FreeSegment(s: ShmTime) returns (found: bool)
      requires Valid()
      modifies inUse
      ensures found <==> s in shmTime
      ensures forall i :: IsSegment(s, i) ==> inUse[..] == Free(old(inUse[..]), i)
      ensures !found ==> inUse[..] == old(inUse[..])
    {
      var i := 0;
      while i < NTPSHMSEGS
        invariant 0 <= i <= NTPSHMSEGS
        invariant inUse[..] == old(inUse[..])
        invariant forall j :: 0 <= j < i ==> shmTime[j] != s
      {
        if s == shmTime[i] {
          inUse[i] := false;
          return true;
        }
        i := i + 1;
      }
      return false;
    }
  }

  class Session {
    const context: Context
    const sourcetype: Source
    var shmClock: ShmTime?
    var shmPps: ShmTime?
    /** report_hook is set and the PPS thread runs. */
    var ppsThread: bool

    /** l names the segments this session points to. */
    ghost predicate HasLinks(l: Links)
      reads this
    {
      context.IsSegment(shmClock, l.clock) && context.IsSegment(shmPps, l.pps)
    }

    /** ntpshm_session_init */
    constructor (c: Context, src: Source)
      ensures context == c && sourcetype == src && HasLinks(Links(-1, -1)) && !ppsThread
    {
      context, sourcetype := c, src;
      shmClock, shmPps, ppsThread := null, null, false;
    }

    /** ntpshm_link_activate */
    method LinkActivate(ghost l: Links)
      requires context.Valid() && HasLinks(l)
      modifies this, context.inUse, set i | 0 <= i < |context.shmTime| :: context.shmTime[i]
      ensures HasLinks(Activate(context.Attached(), old(context.inUse[..]), l, sourcetype).0)
      ensures context.inUse[..] == Activate(context.Attached(), old(context.inUse[..]), l, sourcetype).1
      ensures ppsThread == (old(ppsThread) ||
                (WantsPps(sourcetype) && !(WantsClock(sourcetype) && shmClock == null) && shmPps != null))
    {
      if sourcetype.SourcePty? {
        return;
      }
      if !sourcetype.SourcePps? {
        shmClock := context.AllocSegment();
        if shmClock == null {
          return;
        }
      }
      if sourcetype.SourceUsb? || sourcetype.SourceRs232? || sourcetype.SourcePps? {
        shmPps := context.AllocSegment();
        if shmPps != null {
          ppsThread := true;
        }
      }
    }

    /** ntpshm_link_deactivate */
    method LinkDeactivate(ghost l: Links)
      requires context.Valid() && HasLinks(l)
      modifies this, context.inUse
      ensures HasLinks(Deactivate(old(context.inUse[..]), l).0)
      ensures context.inUse[..] == Deactivate(old(context.inUse[..]), l).1
      ensures ppsThread == (old(ppsThread) && old(shmPps) == null)
    {
      if shmClock != null {
        var found := context.FreeSegment(shmClock);
        shmClock := null;
      }
      if shmPps != null {
        ppsThread := false;
        var found := context.FreeSegment(shmPps);
        shmPps := null;
      }
    }
  }
}
