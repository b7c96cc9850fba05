/** A reference-counted slot for one object that may be empty
    (src/async/shared_storage.hpp): the heap control block with its strong
    count and "constructed" flag, and the `shared_storage` handle that points
    at it.

    The stored object is an `int`.  The control block also counts the
    constructions and the destructions of objects in its slot, as the
    library's counting test type does, so that the lifetime guarantees (never
    two live objects, never a double destruction) can be stated.  `delete this`
    sets the `freed` flag.  The debug-build checks (`DEBUG_CHECK`) are preconditions, and the atomic
    orderings are not part of this model. */
module SharedStorage {
  import opened Wrappers

  class ControlBlock {
    var strongCount: nat
    /** The handles holding a reference to this block, one entry per reference. */
    ghost var owners: multiset<SharedStorage>
    var constructed: bool
    var slot: int
    var freed: bool
    var constructions: nat
    var destructions: nat

    /** The strong count is the number of handles holding the block, and
        there is at most one live object: constructed exactly when one more
        object was made than destroyed. */
    ghost predicate Inv()
      reads this
    {
      strongCount == |owners| &&
      destructions <= constructions &&
      (constructed <==> constructions == destructions + 1) &&
      (!constructed ==> constructions == destructions)
    }

    /** `new control_block{}`: one reference, held by `holder`, nothing
        constructed. */
    constructor (ghost holder: SharedStorage)
      ensures Inv() && !freed && owners == multiset{holder}
      ensures strongCount == 1 && !constructed
      ensures constructions == 0 && destructions == 0
    {
      owners := multiset{holder};
      strongCount := 1;
      constructed := false;
      slot := 0;
      freed := false;
      constructions := 0;
      destructions := 0;
    }

    /** `construct`: places a new object in an empty slot. */
    method Construct(v: int)
      requires Inv() && !freed && !constructed
      modifies this
      ensures Inv() && !freed
      ensures constructed && slot == v && strongCount == old(strongCount) && owners == old(owners)
      ensures constructions == old(constructions) + 1 && destructions == old(destructions)
    {
      slot := v;
      constructed := true;
      constructions := constructions + 1;
    }

    /** `destroy_object`: destroys the object only when one is live, so a
        second call does nothing. */
    method DestroyObject()
      requires Inv()
      modifies this
      ensures Inv() && !constructed
      ensures destructions == old(destructions) + (if old(constructed) then 1 else 0)
      ensures constructions == old(constructions)
      ensures strongCount == old(strongCount) && freed == old(freed) && slot == old(slot)
      ensures owners == old(owners)
    {
      var was := constructed;
      constructed := false;
      if was {
        destructions := destructions + 1;
      }
    }

    /** `add_ref`: one more handle, `holder`, holds the block. */
    method AddRef(ghost holder: SharedStorage)
      requires Inv() && !freed
      modifies this
      ensures Inv() && !freed && owners == old(owners) + multiset{holder}
      ensures strongCount == old(strongCount) + 1
      ensures constructed == old(constructed) && slot == old(slot)
      ensures constructions == old(constructions) && destructions == old(destructions)
    {
      owners := owners + multiset{holder};
      strongCount := strongCount + 1;
    }

    /** `release_ref`: `holder` lets go of the block; the last reference
        destroys the object and frees the block. */
    method ReleaseRef(ghost holder: SharedStorage)
      requires Inv() && !freed && holder in owners
      modifies this
      ensures Inv() && owners == old(owners) - multiset{holder}
      ensures strongCount == old(strongCount) - 1
      ensures freed <==> old(strongCount) == 1
      ensures freed ==> !constructed && destructions == old(destructions) + (if old(constructed) then 1 else 0)
      ensures !freed ==> constructed == old(constructed) && destructions == old(destructions)
      ensures constructions == old(constructions) && slot == old(slot)
    {
      owners := owners - multiset{holder};
      var before := strongCount;
      strongCount := strongCount - 1;
      if before == 1 {
        DestroyObject();
        freed := true;
      }
    }

    /** A move hands the reference of `from` to `to`; the count does not change. */
    ghost method Transfer(from: SharedStorage, to: SharedStorage)
      requires Inv() && from in owners
      modifies this
      ensures Inv() && owners == old(owners) - multiset{from} + multiset{to}
      ensures strongCount == old(strongCount) && constructed == old(constructed) && freed == old(freed)
      ensures slot == old(slot) && constructions == old(constructions) && destructions == old(destructions)
    {
      owners := owners - multiset{from} + multiset{to};
    }
  }

  class SharedStorage {
    var ctrl: ControlBlock?

    /** The handle may be used: it is empty, or its block is still
        allocated and counts this handle among its holders. */
    ghost predicate Usable()
      reads this, ctrl
    {
      ctrl != null ==> ctrl.Inv() && !ctrl.freed && this in ctrl.owners
    }

    /** `valid()`: there is a control block. */
    predicate Valid()
      reads this
    {
      ctrl != null
    }

    /** `constructed()`: there is a control block holding a live object. */
    predicate Constructed()
      reads this, ctrl
    {
      ctrl != null && ctrl.constructed
    }

    /** `use_count()`: the block's strong count, 0 without a block. */
    function UseCount(): (n: nat)
      reads this, ctrl
      ensures n == 0 <==> ctrl == null || ctrl.strongCount == 0
    {
      if ctrl == null then 0 else ctrl.strongCount
    }

    /** `get()`: the live object, or null when there is none. */
    function Get(): (r: Option<int>)
      reads this, ctrl
      ensures r.Some? <==> Constructed()
      ensures r.Some? ==> r.value == ctrl.slot
    {
      if Constructed() then Some(ctrl.slot) else None
    }

    /** The default constructor: no control block. */
    constructor Empty()
      ensures ctrl == null && Usable()
    {
      ctrl := null;
    }

    /** `make_unconstructed_shared_storage`: a fresh block with one reference
        and no object. */
    constructor MakeUnconstructed()
      ensures Usable() && Valid() && fresh(ctrl) && ctrl.owners == multiset{this}
      ensures !Constructed() && UseCount() == 1 && Get() == None
      ensures ctrl.constructions == 0 && ctrl.destructions == 0
    {
      new;
      ctrl := new ControlBlock(this);
    }

    /** `make_shared_storage`: a fresh block holding `v`, with one reference. */
    constructor MakeConstructed(v: int)
      ensures Usable() && Valid() && fresh(ctrl) && ctrl.owners == multiset{this}
      ensures Constructed() && UseCount() == 1 && Get() == Some(v)
      ensures ctrl.constructions == 1 && ctrl.destructions == 0
    {
      new;
      var c := new ControlBlock(this);
      c.Construct(v);
      ctrl := c;
    }

    /** The copy constructor: shares the block and counts one more reference. */
    constructor Copy(other: SharedStorage)
      requires other.Usable()
      modifies other.ctrl
      ensures ctrl == other.ctrl && Usable() && other.Usable()
      ensures ctrl != null ==> ctrl.owners == old(other.ctrl.owners) + multiset{this}
      ensures ctrl != null ==> ctrl.strongCount == old(other.ctrl.strongCount) + 1
      ensures ctrl != null ==> ctrl.constructed == old(other.ctrl.constructed) && ctrl.slot == old(other.ctrl.slot)
      ensures ctrl != null ==>
                ctrl.constructions == old(other.ctrl.constructions) &&
                ctrl.destructions == old(other.ctrl.destructions)
    {
      ctrl := other.ctrl;
      new;
      if ctrl != null {
        ctrl.AddRef(this);
      }
    }

    /** The move constructor: takes the block, leaving `other` empty; the
        count does not change. */
    constructor Move(other: SharedStorage)
      requires other.Usable()
      modifies other, other.ctrl
      ensures ctrl == old(other.ctrl) && other.ctrl == null && Usable()
      ensures ctrl != null ==>
                ctrl.strongCount == old(other.ctrl.strongCount) &&
                ctrl.owners == old(other.ctrl.owners) - multiset{other} + multiset{this}
      ensures ctrl != null ==>
                ctrl.constructed == old(other.ctrl.constructed) && ctrl.slot == old(other.ctrl.slot) &&
                ctrl.constructions == old(other.ctrl.constructions) &&
                ctrl.destructions == old(other.ctrl.destructions)
    {
      ctrl := other.ctrl;
      new;
      if ctrl != null {
        ctrl.Transfer(other, this);
      }
      other.ctrl := null;
    }

    /** `reset()`: gives up this handle's reference; the last one destroys
        the object and frees the block. */
    method Reset()
      requires Usable()
      modifies this, ctrl
      ensures ctrl == null && Usable()
      ensures old(ctrl) != null ==>
                old(ctrl).Inv() && old(ctrl).owners == old(ctrl.owners) - multiset{this} &&
                old(ctrl).strongCount == old(ctrl.strongCount) - 1 &&
                (old(ctrl).freed <==> old(ctrl.strongCount) == 1) &&
                (old(ctrl).freed ==>
                   !old(ctrl).constructed &&
                   old(ctrl).destructions == old(ctrl.destructions) + (if old(ctrl.constructed) then 1 else 0)) &&
                (!old(ctrl).freed ==>
                   old(ctrl).constructed == old(ctrl.constructed) &&
                   old(ctrl).destructions == old(ctrl.destructions)) &&
                old(ctrl).constructions == old(ctrl.constructions)
    {
      if ctrl != null {
        ctrl.ReleaseRef(this);
        ctrl := null;
      }
    }

    /** Copy assignment: a no-op on itself; otherwise drops the current
        reference and shares `other`'s block. */
    method CopyAssign(other: SharedStorage)
      requires Usable() && other.Usable()
      modifies this, ctrl, other.ctrl
      ensures other == this ==> ctrl == old(ctrl) && (ctrl != null ==> ctrl.strongCount == old(ctrl.strongCount))
      ensures other != this ==> ctrl == other.ctrl && Usable() && other.Usable()
      ensures other != this && old(ctrl) != other.ctrl && ctrl != null ==>
                ctrl.strongCount == old(other.ctrl.strongCount) + 1
      ensures other != this && old(ctrl) == other.ctrl && ctrl != null ==>
                ctrl.strongCount == old(ctrl.strongCount)
    {
      if this != other {
        if ctrl != null && ctrl == other.ctrl {
          TwoHolders(ctrl.owners, this, other);
        }
        Reset();
        ctrl := other.ctrl;
        if ctrl != null {
          ctrl.AddRef(this);
        }
      }
    }

    /** Move assignment: a no-op on itself; otherwise drops the current
        reference and takes `other`'s block, leaving `other` empty. */
    method MoveAssign(other: SharedStorage)
      requires Usable() && other.Usable()
      modifies this, ctrl, other, other.ctrl
      ensures other == this ==> ctrl == old(ctrl)
      ensures other != this ==> ctrl == old(other.ctrl) && other.ctrl == null && Usable()
      ensures other != this && ctrl != null && ctrl != old(ctrl) ==>
                ctrl.strongCount == old(other.ctrl.strongCount)
      ensures other != this && ctrl != null && ctrl == old(ctrl) ==>
                ctrl.strongCount == old(ctrl.strongCount) - 1
    {
      if this != other {
        var taken := other.ctrl;
        if ctrl != null && ctrl == taken {
          TwoHolders(ctrl.owners, this, other);
        }
        Reset();
        ctrl := taken;
        if ctrl != null {
          ctrl.Transfer(other, this);
        }
        other.ctrl := null;
      }
    }

    /** `emplace`: destroys a live object first, then constructs `v`; so the
        slot never holds two objects. */
    method Emplace(v: int) returns (r: int)
      requires Usable() && Valid()
      modifies ctrl
      ensures Usable() && Constructed() && Get() == Some(v) && r == v
      ensures ctrl.constructions == old(ctrl.constructions) + 1
      ensures ctrl.destructions == old(ctrl.destructions) + (if old(ctrl.constructed) then 1 else 0)
      ensures ctrl.strongCount == old(ctrl.strongCount)
    {
      if Constructed() {
        ctrl.DestroyObject();
      }
      ctrl.Construct(v);
      r := ctrl.slot;
    }

    /** `destroy()`: destroys a live object; calling it again does nothing. */
    method Destroy()
      requires Usable()
      modifies ctrl
      ensures Usable() && !Constructed() && Get() == None
      ensures ctrl != null ==>
                ctrl.destructions == old(ctrl.destructions) + (if old(ctrl.constructed) then 1 else 0) &&
                ctrl.constructions == old(ctrl.constructions) &&
                ctrl.strongCount == old(ctrl.strongCount) && ctrl.slot == old(ctrl.slot)
    {
      if ctrl != null {
        ctrl.DestroyObject();
      }
    }

    /** `take()`: moves the object out and destroys it in the slot. */
    method Take() returns (x: int)
      requires Usable() && Constructed()
      modifies ctrl
      ensures Usable() && !Constructed()
      ensures x == old(ctrl.slot)
      ensures ctrl.destructions == old(ctrl.destructions) + 1
    {
      x := ctrl.slot;
      Destroy();
    }
  }

  /** Two distinct holders of one block make its count at least two. */
  lemma TwoHolders(owners: multiset<SharedStorage>, a: SharedStorage, b: SharedStorage)
    requires a in owners && b in owners && a != b
    ensures |owners| >= 2
  {
    var rest := owners - multiset{a};
    assert b in rest;
    assert owners == rest + multiset{a};
  }

  /** Calling `destroy` twice destroys the object once. */
  method DestroyIdempotent(s: SharedStorage)
    requires s.Usable() && s.Valid()
    modifies s.ctrl
    ensures !s.Constructed()
    ensures s.ctrl.destructions == old(s.ctrl.destructions) + (if old(s.ctrl.constructed) then 1 else 0)
  {
    s.Destroy();
    s.Destroy();
  }

  /** Emplacing three times makes three objects and destroys the first two;
      releasing the only reference then destroys the third. */
  method EmplaceReplaces() returns (made: nat, destroyed: nat)
    ensures made == 3 && destroyed == 3
  {
    var s := new SharedStorage.MakeUnconstructed();
    var c := s.ctrl;
    var first := s.Emplace(1);
    var second := s.Emplace(2);
    var third := s.Emplace(3);
    assert c.constructions == 3 && c.destructions == 2;
    s.Reset();
    assert c.freed;
    made := c.constructions;
    destroyed := c.destructions;
  }

  /** A copy counts a second reference and a move leaves the source empty with
      the count unchanged; dropping both handles destroys the object once. */
  method CopyAndMove() returns (copied: nat, moved: nat, destroyed: nat)
    ensures copied == 2 && moved == 2 && destroyed == 1
  {
    var storage := new SharedStorage.MakeUnconstructed();
    var c := storage.ctrl;
    var obj := storage.Emplace(7);
    var copy := new SharedStorage.Copy(storage);
    copied := copy.UseCount();
    var movedTo := new SharedStorage.Move(copy);
    assert !copy.Valid();
    moved := movedTo.UseCount();
    movedTo.Reset();
    storage.Reset();
    destroyed := c.destructions;
  }
}
