/**
 Driver Binding Start and Stop of the display driver (EFI Driver Binding
 Protocol, section 11.1 of the UEFI Specification 2.10): a transaction over the
 controller's protocol opens, the driver's private marker, the child handle and
 the PCI Command register, rolled back when a later step fails.

 Every call into the firmware may fail. An attribute or Command write may leave
 any value in the register, whether or not it reports success; reads report the
 truth when they succeed. Closing a protocol is taken to succeed.
 */
module DriverBinding {

  const MEMORY_SPACE: bv16 := 0x0002

  datatype Status = Success | AlreadyStarted | DeviceError | InvalidParameter | OutOfResources | Failed

  predicate Decodes(command: bv16) { command & MEMORY_SPACE != 0 }

  /**
   Answers to one attempt at restoring the saved PCI state; `left` and `written`
   are what the register holds after the attribute and the Command write.
   */
  datatype Restoring = Restoring(set_: bool, left: bv16, write: bool, written: bv16, read: bool)

  /** Answers while enabling memory decode. */
  datatype Enabling = Enabling(enable: bool, enabled: bv16, read: bool, write: bool, written: bv16, readBack: bool)

  /** Answers while a controller is bound. */
  datatype Binding = Binding(openPciIo: bool, openPath: bool, match_: bool, memory: bool, install: bool)

  /** Answers while the child is created. */
  datatype Creating = Creating(
    read: bool, get: bool, enabling: Enabling, hardware: bool, path: bool, install: bool, open: bool)

  /** Answers while a failed start is rolled back. */
  datatype Undoing = Undoing(uninstallChild: bool, restoring: Restoring, uninstallMarker: bool)

  /** Answers to one call of Start. */
  datatype Starting = Starting(binding: Binding, creating: Creating, undoing: Undoing)

  /** Restoring from this saved word succeeds. */
  predicate Restores(a: Restoring, original: bv16) {
    a.set_ && a.write && a.read && a.written == original
  }

  /** What the Command register holds after an attempt. */
  function LeftBy(a: Restoring): bv16 { if a.set_ then a.written else a.left }

  function EnabledBy(a: Enabling): bv16 {
    if a.enable && a.read && !Decodes(a.enabled) then a.written else a.enabled
  }

  predicate Enables(a: Enabling) {
    a.enable && a.read && (Decodes(a.enabled) || (a.write && a.readBack && Decodes(a.written)))
  }

  predicate Binds(a: Binding) { a.openPciIo && a.openPath && a.match_ && a.memory && a.install }

  /** The entry state has been recorded before anything changes it. */
  predicate Saves(a: Creating) { a.read && a.get }

  /** The child comes into being; only the open of the parent on its behalf is left. */
  predicate Publishes(a: Creating) {
    Saves(a) && Enables(a.enabling) && a.hardware && a.path && a.install
  }

  predicate Creates(a: Creating) { Publishes(a) && a.open }

  /** Everything a failed start has done can be taken back. */
  predicate Undoes(a: Starting, entry: bv16) {
    && (Publishes(a.creating) ==> a.undoing.uninstallChild)
    && (Saves(a.creating) ==> Restores(a.undoing.restoring, entry))
    && a.undoing.uninstallMarker
  }

  /** A start that got past saving leaves a child behind. */
  predicate Leaves(a: Starting) { Creates(a.creating) || (Publishes(a.creating) && !a.undoing.uninstallChild) }

  /** Where a start that got past saving leaves the Command register. */
  function StartedBy(a: Starting): bv16 {
    if Leaves(a) then EnabledBy(a.creating.enabling) else LeftBy(a.undoing.restoring)
  }

  /** A call of the binding protocol together with the firmware's answers. */
  datatype Call =
    | DoStart(end: bool, starting: Starting)
    | DoStopParent(undoing: Undoing)
    | DoStopChild(known: bool, uninstall: bool, reopen: bool, restoring: Restoring)

  // ---------------------------------------------------------- specification

  datatype Option<T> = None | Some(value: T)

  /** What the outside can see of a controller, and the Command word the driver has on record to put back. */
  datatype State = State(bound: bool, child: bool, childOpen: bool, command: bv16, owed: Option<bv16>)

  predicate Consistent(s: State) {
    (s.child ==> s.owed.Some?) && (s.childOpen ==> s.child) && (s.owed.Some? ==> s.bound)
  }

  /** The word on record, or the present one when nothing is on record. */
  function Entry(s: State): bv16 { if s.owed.Some? then s.owed.value else s.command }

  /** A restore pays what is owed. */
  predicate Pays(s: State, a: Restoring) { s.owed.None? || Restores(a, s.owed.value) }

  function Restored(s: State, a: Restoring): State {
    if s.owed.None? then s else s.(command := LeftBy(a), owed := if Pays(s, a) then None else s.owed)
  }

  function Released(s: State, a: Restoring, marker: bool): State {
    var r := Restored(s, a);
    if r.owed.None? && marker then r.(bound := false) else r
  }

  function Undone(s: State, a: Undoing, justBound: bool): State {
    if s.child && !a.uninstallChild then s
    else Released(s.(child := false), a.restoring, justBound && a.uninstallMarker)
  }

  /** The entry word goes on record, decode is enabled, and the child is made as far as that goes. */
  function Recorded(s: State, a: Creating): State {
    if !Saves(a) then s
    else s.(owed := Some(s.command), command := EnabledBy(a.enabling), child := Publishes(a), childOpen := Creates(a))
  }

  function Started(s: State, end: bool, a: Starting): State {
    if s.bound && (end || s.child) then s
    else if !s.bound && !Binds(a.binding) then s
    else
      var bound := s.(bound := true);
      if end then bound
      else
        var made := Recorded(bound, a.creating);
        if Creates(a.creating) then made else Undone(made, a.undoing, !s.bound)
  }

  function ParentStopped(s: State, a: Undoing): State {
    if !s.bound || s.child then s else Released(s, a.restoring, a.uninstallMarker)
  }

  function ChildStopped(s: State, known: bool, uninstall: bool, reopen: bool, a: Restoring): State {
    if !s.child || !known then s
    else if !uninstall then s.(childOpen := reopen)
    else Restored(s.(child := false, childOpen := false), a)
  }

  /** The controller after a call. */
  function Next(s: State, call: Call): State {
    match call
    case DoStart(end, a) => Started(s, end, a)
    case DoStopParent(a) => ParentStopped(s, a)
    case DoStopChild(known, uninstall, reopen, a) => ChildStopped(s, known, uninstall, reopen, a)
  }

  /** The call reports success. */
  predicate Succeeds(s: State, call: Call) {
    match call
    case DoStart(end, a) =>
      !(s.bound && (end || s.child)) && (s.bound || Binds(a.binding)) && (end || Creates(a.creating))
    case DoStopParent(a) => s.bound && !s.child && Pays(s, a.restoring) && a.uninstallMarker
    case DoStopChild(known, uninstall, _, a) => s.child && known && uninstall && Pays(s, a)
  }

  // ------------------------------------------------------------------- runs

  function Final(s: State, calls: seq<Call>): State
    decreases |calls|
  {
    if calls == [] then s else Final(Next(s, calls[0]), calls[1..])
  }

  /** Every call of the run reports success. */
  predicate AllSucceed(s: State, calls: seq<Call>)
    decreases |calls|
  {
    calls == [] || (Succeeds(s, calls[0]) && AllSucceed(Next(s, calls[0]), calls[1..]))
  }

  /** A start that records the Command word while the driver still owes a different one. */
  predicate Overwrites(s: State, call: Call) {
    && call.DoStart? && !call.end && !s.child && Saves(call.starting.creating)
    && (s.bound || Binds(call.starting.binding)) && s.command != Entry(s)
  }

  predicate NeverOverwrites(s: State, calls: seq<Call>)
    decreases |calls|
  {
    calls == [] || (!Overwrites(s, calls[0]) && NeverOverwrites(Next(s, calls[0]), calls[1..]))
  }

  /** Giving back keeps the entry word, whatever the answers. */
  lemma ReleasedKeeps(s: State, a: Restoring, marker: bool)
    requires Consistent(s) && !s.child
    ensures var r := Released(s, a, marker);
            && Consistent(r) && Entry(r) == Entry(s) && !r.child && r.childOpen == s.childOpen
            && (r.bound ==> s.bound)
            && (!r.bound && s.bound ==> Pays(s, a) && marker) && (Pays(s, a) && marker ==> !r.bound)
  {
  }

  lemma StartKeepsEntry(s: State, end: bool, a: Starting)
    requires Consistent(s)
    ensures Consistent(Started(s, end, a))
    ensures Entry(Started(s, end, a)) == if Overwrites(s, DoStart(end, a)) then s.command else Entry(s)
  {
    var made := Recorded(s.(bound := true), a.creating);
    if !s.child && !end && !Creates(a.creating) {
      ReleasedKeeps(made.(child := false), a.undoing.restoring, !s.bound && a.undoing.uninstallMarker);
    }
  }

  /** One call keeps the entry word exactly if it does not record another one in its place. */
  lemma CallKeepsEntry(s: State, call: Call)
    requires Consistent(s)
    ensures Consistent(Next(s, call))
    ensures Entry(Next(s, call)) == Entry(s) <==> !Overwrites(s, call)
  {
    match call {
      case DoStart(end, a) => StartKeepsEntry(s, end, a);
      case DoStopParent(a) =>
        if !s.child {
          ReleasedKeeps(s, a.restoring, a.uninstallMarker);
        }
      case DoStopChild(_, _, _, a) => ReleasedKeeps(s.(child := false, childOpen := false), a, false);
    }
  }

  /**
   Any sequence of calls with any answers: as long as no start came while a
   different word was still owed, the word on record is the one the controller
   was entered with, and whenever the controller ends unbound it carries it.
   */
  lemma {:induction false} EntryWordKept(s: State, calls: seq<Call>)
    requires Consistent(s) && NeverOverwrites(s, calls)
    ensures Consistent(Final(s, calls)) && Entry(Final(s, calls)) == Entry(s)
    ensures !Final(s, calls).bound ==> Final(s, calls).command == Entry(s)
    decreases |calls|
  {
    if calls != [] {
      CallKeepsEntry(s, calls[0]);
      EntryWordKept(Next(s, calls[0]), calls[1..]);
    }
  }

  /** A failed start on an unbound controller leaves it exactly as it was, or bound with its entry word on record. */
  lemma StartRollsBack(s: State, end: bool, a: Starting)
    requires Consistent(s) && !s.bound && !Succeeds(s, DoStart(end, a))
    ensures Started(s, end, a) == s || (Started(s, end, a).bound && Entry(Started(s, end, a)) == s.command)
    ensures Started(s, end, a) == s <==> !Binds(a.binding) || Undoes(a, s.command)
  {
  }

  /** A start that fails on an unbound controller, and whose every roll-back step succeeds, has changed nothing. */
  lemma RollBackSucceeds(s: State, end: bool, a: Starting)
    requires Consistent(s) && !s.bound && !Succeeds(s, DoStart(end, a))
    requires a.undoing.uninstallChild && a.undoing.uninstallMarker
    requires var r := a.undoing.restoring; r.set_ && r.write && r.read && r.written == s.command
    ensures Started(s, end, a) == s
  {
  }

  lemma {:induction false} OneCall(s: State, c: Call)
    ensures Final(s, [c]) == Next(s, c) && (AllSucceed(s, [c]) <==> Succeeds(s, c))
  {
    assert [c][1..] == [];
    assert Final(Next(s, c), []) == Next(s, c) && AllSucceed(Next(s, c), []);
  }

  lemma {:induction false} TwoCalls(s: State, c0: Call, c1: Call)
    ensures Final(s, [c0, c1]) == Next(Next(s, c0), c1)
    ensures AllSucceed(s, [c0, c1]) <==> Succeeds(s, c0) && Succeeds(Next(s, c0), c1)
  {
    assert [c0, c1][1..] == [c1];
    OneCall(Next(s, c0), c1);
  }

  lemma {:induction false} ThreeCalls(s: State, c0: Call, c1: Call, c2: Call)
    ensures Final(s, [c0, c1, c2]) == Final(Next(s, c0), [c1, c2])
    ensures AllSucceed(s, [c0, c1, c2]) <==> Succeeds(s, c0) && AllSucceed(Next(s, c0), [c1, c2])
  {
    assert [c0, c1, c2][1..] == [c1, c2];
  }

  /** Start, child stop and parent stop without an error: the controller is exactly as it was entered. */
  lemma {:induction false} ErrorFreeLife(s: State, start: Call, child: Call, parent: Call)
    requires Consistent(s) && !s.bound
    requires start.DoStart? && !start.end && child.DoStopChild? && parent.DoStopParent?
    requires AllSucceed(s, [start, child, parent])
    ensures Final(s, [start, child, parent]) == s
  {
    ThreeCalls(s, start, child, parent);
    TwoCalls(Next(s, start), child, parent);
  }

  /** What a failed start has kept, successful stops give back: the controller is exactly as it was entered. */
  lemma {:induction false} FailureIsRecovered(s: State, start: Call, child: Call, parent: Call)
    requires Consistent(s) && !s.bound && start.DoStart? && child.DoStopChild? && parent.DoStopParent?
    requires !Succeeds(s, start) && Next(s, start) != s
    ensures Next(s, start).child && AllSucceed(Next(s, start), [child, parent]) ==>
      Final(s, [start, child, parent]) == s
    ensures !Next(s, start).child && Succeeds(Next(s, start), parent) ==> Final(s, [start, parent]) == s
  {
    ThreeCalls(s, start, child, parent);
    TwoCalls(Next(s, start), child, parent);
    TwoCalls(s, start, parent);
  }

  /** Answers that let a start get as far as opening the parent for its child, in a register stuck at memory decode. */
  function StuckStart(open: bool): Call {
    var enabling := Enabling(true, MEMORY_SPACE, true, true, MEMORY_SPACE, true);
    var creating := Creating(true, true, enabling, true, true, true, open);
    var undoing := Undoing(true, Restoring(false, MEMORY_SPACE, false, MEMORY_SPACE, false), true);
    DoStart(false, Starting(Binding(true, true, true, true, true), creating, undoing))
  }

  /**
   The proviso is needed. The first start fails at its last step and cannot
   restore the register. The second start and both stops succeed, but the word
   they put back is the one the first start left behind.
   */
  lemma EntryWordLost()
    ensures var s := State(false, false, false, 0, None);
            var back := Restoring(true, 0, true, MEMORY_SPACE, true);
            var calls := [StuckStart(false), StuckStart(true), DoStopChild(true, true, true, back),
                          DoStopParent(Undoing(true, back, true))];
            && !Succeeds(s, calls[0]) && AllSucceed(Next(s, calls[0]), calls[1..])
            && Final(s, calls) == s.(command := MEMORY_SPACE) && !NeverOverwrites(s, calls)
  {
    var s := State(false, false, false, 0, None);
    var back := Restoring(true, 0, true, MEMORY_SPACE, true);
    var child, parent := DoStopChild(true, true, true, back), DoStopParent(Undoing(true, back, true));
    var calls := [StuckStart(false), StuckStart(true), child, parent];
    var one := Next(s, calls[0]);
    assert one == State(true, false, false, MEMORY_SPACE, Some(0));
    assert calls[1..] == [StuckStart(true), child, parent];
    var two := Next(one, StuckStart(true));
    assert two == State(true, true, true, MEMORY_SPACE, Some(MEMORY_SPACE));
    ThreeCalls(one, StuckStart(true), child, parent);
    TwoCalls(two, child, parent);
    assert Overwrites(one, calls[1]);
  }

  // ------------------------------------------------------------------- code

  class Controller {
    /** BY_DRIVER opens of the PCI I/O and device path protocols. */
    var pciIoOpen: bool
    var pathOpen: bool
    /** The private record is installed on the controller handle. */
    var marker: bool
    /** The child handle exists and carries its protocols; its open of the parent's PCI I/O. */
    var child: bool
    var childOpen: bool
    /** The PCI Command register. */
    var command: bv16
    /** The private record, meaningful while the marker is installed. */
    var attributesSaved: bool
    var commandSaved: bool
    var original: bv16

    ghost predicate Valid()
      reads this
    {
      && (marker <==> pciIoOpen) && (marker <==> pathOpen)
      && attributesSaved == commandSaved
      && (child ==> commandSaved) && (childOpen ==> child) && (commandSaved ==> marker)
    }

    /** No marker, no opens, no child. */
    ghost predicate Unbound()
      reads this
    {
      !marker && !pciIoOpen && !pathOpen && !child && !childOpen && !attributesSaved && !commandSaved
    }

    /** The controller as the specification sees it; what the record holds counts only while it is saved. */
    function View(): State
      reads this
    {
      State(marker, child, childOpen, command, if commandSaved then Some(original) else None)
    }

    /** `RestorePciAttributes`: a success is verified by reading the register back. */
    method RestorePciAttributes(a: Restoring) returns (s: Status)
      requires attributesSaved == commandSaved
      modifies `command, `attributesSaved, `commandSaved
      ensures attributesSaved == commandSaved
      ensures s.Success? <==> !old(commandSaved) || (a.set_ && a.write && a.read && a.written == original)
      ensures s.Success? ==> !commandSaved && command == if old(commandSaved) then original else old(command)
      ensures !s.Success? ==> commandSaved == old(commandSaved)
      ensures old(commandSaved) ==> command == if a.set_ then a.written else a.left
      ensures View() == Restored(old(View()), a)
    {
      if !attributesSaved && !commandSaved {
        return Success;
      }
      if attributesSaved {
        command := a.left;
        if !a.set_ {
          return Failed;
        }
      }
      if commandSaved {
        command := a.written;
        if !a.write || !a.read {
          return Failed;
        }
        if command != original {
          return DeviceError;
        }
      }
      attributesSaved, commandSaved := false, false;
      s := Success;
    }

    /** `EnablePciMemoryDecode`. */
    method EnablePciMemoryDecode(a: Enabling) returns (s: Status)
      modifies `command
      ensures s.Success? <==>
        a.enable && a.read && (Decodes(a.enabled) || (a.write && a.readBack && Decodes(a.written)))
      ensures s.Success? <==> Enables(a)
      ensures s.Success? ==> command & 0x0002 != 0
      ensures command == EnabledBy(a) && s != AlreadyStarted
    {
      command := a.enabled;
      if !a.enable || !a.read {
        return Failed;
      }
      if !Decodes(command) {
        command := a.written;
        if !a.write || !a.readBack {
          return Failed;
        }
      }
      s := if Decodes(command) then Success else DeviceError;
    }

    /** The part of Start for a controller not yet bound: all of it happens or none. */
    method Bind(a: Binding) returns (s: Status)
      requires Unbound()
      modifies `pciIoOpen, `pathOpen, `marker, `attributesSaved, `commandSaved
      ensures s.Success? <==> a.openPciIo && a.openPath && a.match_ && a.memory && a.install
      ensures s.Success? ==> marker && pciIoOpen && pathOpen && !attributesSaved && !commandSaved
      ensures !s.Success? ==> Unbound() && s != AlreadyStarted
      ensures View() == old(View()).(bound := Binds(a))
    {
      if !a.openPciIo {
        return Failed;
      }
      pciIoOpen := true;
      s := Failed;
      if a.openPath {
        pathOpen := true;
        if a.match_ {
          if a.memory {
            attributesSaved, commandSaved := false, false;
            if a.install {
              marker := true;
              return Success;
            }
          } else {
            s := OutOfResources;
          }
        }
        pathOpen := false;
      }
      pciIoOpen := false;
    }

    /** Saving the entry state, enabling decode and publishing the child, up to the first failure. */
    method CreateChild(a: Creating) returns (s: Status)
      requires Valid() && marker && !child
      modifies `command, `attributesSaved, `commandSaved, `original, `child, `childOpen
      ensures Valid() && (s.Success? <==> Creates(a)) && s != AlreadyStarted
      ensures child <==> a.read && a.get && Enables(a.enabling) && a.hardware && a.path && a.install
      ensures childOpen <==> child && a.open
      ensures (child <==> Publishes(a)) && (childOpen <==> Creates(a))
      ensures s.Success? ==> Decodes(command)
      ensures a.read && a.get ==> commandSaved && original == old(command) && command == EnabledBy(a.enabling)
      ensures !(a.read && a.get) ==>
        command == old(command) && commandSaved == old(commandSaved) && original == old(original)
      ensures !old(childOpen) ==> View() == Recorded(old(View()), a)
    {
      if !a.read || !a.get {
        return Failed;
      }
      original := command;
      attributesSaved, commandSaved := true, true;
      s := EnablePciMemoryDecode(a.enabling);
      if s != Success {
        return;
      }
      if !a.hardware {
        return Failed;
      }
      if !a.path {
        return OutOfResources;
      }
      if !a.install {
        return Failed;
      }
      child := true;
      if !a.open {
        return Failed;
      }
      childOpen := true;
    }

    /** The roll-back behind a failed creation. A step of it that fails ends it, and its status is reported instead. */
    method Undo(a: Undoing, justBound: bool)
      requires Valid() && marker && !childOpen
      modifies `pciIoOpen, `pathOpen, `marker, `command, `attributesSaved, `commandSaved, `child
      ensures Valid()
      ensures var removed := !old(child) || a.uninstallChild;
              var restored := removed && (!old(commandSaved) || Restores(a.restoring, original));
              && (child <==> !removed)
              && (restored ==> !commandSaved && command == if old(commandSaved) then original else old(command))
              && (removed && old(commandSaved) ==> command == LeftBy(a.restoring))
              && (!removed ==> command == old(command))
              && (!restored ==> marker && commandSaved == old(commandSaved))
              && (marker <==> !(restored && justBound && a.uninstallMarker))
      ensures View() == Undone(old(View()), a, justBound)
    {
      if child {
        if !a.uninstallChild {
          return;
        }
        child := false;
      }
      var s := RestorePciAttributes(a.restoring);
      if s != Success || !justBound || !a.uninstallMarker {
        return;
      }
      marker, pathOpen, pciIoOpen := false, false, false;
    }

    /** Start gets as far as recording the entry state. */
    ghost predicate Reaches(end: bool, a: Starting)
      reads this
    {
      !child && !end && Saves(a.creating) && (marker || Binds(a.binding))
    }

    /**
     `SimpleDisplayDriverStart`; `end` is a remaining device path that asks for
     the parent alone. On an unbound controller an error leaves either the entry
     state, or the marker and both opens with the entry Command word on record
     for Stop to put back.
     */
    method Start(end: bool, a: Starting) returns (s: Status)
      requires Valid()
      modifies this
      ensures Valid()
      ensures old(Unbound()) ==> (s.Success? <==> Binds(a.binding) && (end || Creates(a.creating)))
      ensures old(marker) ==> (s.Success? <==> !end && !old(child) && Creates(a.creating))
      ensures s.Success? ==> marker && pciIoOpen && pathOpen && (end || (child && childOpen && Decodes(command)))
      ensures s.Success? && end ==> !child && command == old(command)
      ensures old(Unbound()) && !s.Success? ==>
        (Unbound() && command == old(command)) || (marker && pciIoOpen && pathOpen && Entry(View()) == old(command))
      ensures old(Unbound()) && !s.Success? ==> (Unbound() <==> !Binds(a.binding) || Undoes(a, old(command)))
      ensures old(Reaches(end, a)) ==> command == StartedBy(a)
      ensures child <==> old(child) || (old(Reaches(end, a)) && Leaves(a))
      ensures old(marker) ==> marker && pciIoOpen && pathOpen
      ensures s.AlreadyStarted? <==> old(marker) && (end || old(child))
      ensures s.AlreadyStarted? ==> unchanged(this)
      ensures View() == Started(old(View()), end, a)
      ensures s.Success? <==> Succeeds(old(View()), DoStart(end, a))
    {
      var justBound := !pciIoOpen;
      if justBound {
        s := Bind(a.binding);
        if s != Success {
          return;
        }
      } else if end || child {
        return AlreadyStarted;
      }
      if end {
        return Success;
      }
      s := CreateChild(a.creating);
      if s != Success {
        Undo(a.undoing, justBound);
      }
    }

    /** `SimpleDisplayDriverStop` for the parent alone. */
    method StopParent(a: Undoing) returns (s: Status)
      requires Valid()
      modifies this
      ensures Valid()
      ensures s.Success? <==>
        old(marker) && !old(child) && (!old(commandSaved) || Restores(a.restoring, old(original))) && a.uninstallMarker
      ensures s.Success? ==> Unbound() && command == Entry(old(View()))
      ensures View() == ParentStopped(old(View()), a)
    {
      if !marker || child {
        return DeviceError;
      }
      s := RestorePciAttributes(a.restoring);
      if s != Success {
        return;
      }
      if !a.uninstallMarker {
        return Failed;
      }
      marker, pathOpen, pciIoOpen := false, false, false;
    }

    /**
     `SimpleDisplayDriverStop` for one child; `known` says that the given handle
     carries this controller's child. A child that cannot be uninstalled stays,
     with its open of the parent if that can be had again.
     */
    method StopChild(known: bool, uninstall: bool, reopen: bool, a: Restoring) returns (s: Status)
      requires Valid()
      modifies this
      ensures Valid() && marker == old(marker)
      ensures s.Success? <==> old(child) && known && uninstall && Restores(a, old(original))
      ensures s.Success? ==> !child && !commandSaved && command == old(original)
      ensures child <==> old(child) && !(known && uninstall)
      ensures old(child) && known && !uninstall ==> childOpen == reopen && command == old(command)
      ensures View() == ChildStopped(old(View()), known, uninstall, reopen, a)
    {
      if !marker {
        return DeviceError;
      }
      if !known || !child {
        return InvalidParameter;
      }
      childOpen := false;
      if !uninstall {
        childOpen := reopen;
        return Failed;
      }
      child := false;
      s := RestorePciAttributes(a);
    }
  }

  /** One call on the object: the specification's state and success. */
  method Perform(c: Controller, call: Call) returns (s: Status)
    requires c.Valid()
    modifies c
    ensures c.Valid() && c.View() == Next(old(c.View()), call)
    ensures s.Success? <==> Succeeds(old(c.View()), call)
  {
    match call {
      case DoStart(end, a) => s := c.Start(end, a);
      case DoStopParent(a) => s := c.StopParent(a);
      case DoStopChild(known, uninstall, reopen, a) => s := c.StopChild(known, uninstall, reopen, a);
    }
  }
}
