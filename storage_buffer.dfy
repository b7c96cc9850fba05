/** The in-place slot of an asynchronous value (src/async/storage_buffer.hpp):
    it holds an object it constructed itself, or points at an object owned
    elsewhere, or holds nothing.

    The object is an `int`; the cached pointer is a `Ptr`, the buffer's own
    slot being `Internal`.  The buffer counts the constructions and
    destructions of objects in its own slot, so that "destroyed at most once
    per construction" can be stated.  Whether `T` is default-constructible,
    and the value `T{}`, are fixed when the buffer is made.  The atomic
    orderings are not part of this model. */
module StorageBuffer {

  datatype Ptr = NullPtr | Internal | External(address: nat)

  class StorageBuffer {
    var slot: int
    var valuePtrCache: Ptr
    var constructed: bool
    var ownsStorage: bool
    var defaultOnce: bool
    var constructions: nat
    var destructions: nat
    const defaultConstructible: bool
    const defaultValue: int

    /** An object lives in the slot exactly when the buffer is constructed
        and owns it, and the cached pointer agrees with the state. */
    predicate Valid()
      reads this
    {
      destructions <= constructions <= destructions + 1 &&
      (constructions == destructions + 1 <==> constructed && ownsStorage) &&
      (!constructed ==> valuePtrCache == NullPtr) &&
      (constructed && ownsStorage ==> valuePtrCache == Internal) &&
      (constructed && !ownsStorage ==> valuePtrCache != Internal)
    }

    /** `get()`: the cached pointer. */
    function Get(): Ptr
      reads this
    {
      valuePtrCache
    }

    /** The default constructor: empty. */
    constructor (defaultConstructible: bool, defaultValue: int)
      ensures Valid() && !constructed && !ownsStorage && Get() == NullPtr
      ensures constructions == 0 && destructions == 0 && !defaultOnce
      ensures this.defaultConstructible == defaultConstructible && this.defaultValue == defaultValue
    {
      slot := 0;
      valuePtrCache := NullPtr;
      constructed := false;
      ownsStorage := false;
      defaultOnce := false;
      constructions := 0;
      destructions := 0;
      this.defaultConstructible := defaultConstructible;
      this.defaultValue := defaultValue;
    }

    /** The `std::in_place` constructor: constructs `v` in the slot. */
    constructor InPlace(defaultConstructible: bool, defaultValue: int, v: int)
      ensures Valid() && constructed && ownsStorage && Get() == Internal && slot == v
      ensures constructions == 1 && destructions == 0 && !defaultOnce
      ensures this.defaultConstructible == defaultConstructible && this.defaultValue == defaultValue
    {
      slot := 0;
      valuePtrCache := NullPtr;
      constructed := false;
      ownsStorage := false;
      defaultOnce := false;
      constructions := 0;
      destructions := 0;
      this.defaultConstructible := defaultConstructible;
      this.defaultValue := defaultValue;
      new;
      var p := Construct(v);
    }

    /** `destroy_if_owned`: runs the destructor only for an object the buffer
        constructed itself, and always leaves the buffer empty. */
    method DestroyIfOwned()
      requires Valid()
      modifies this
      ensures Valid() && !constructed && Get() == NullPtr
      ensures destructions == old(destructions) + (if old(constructed) && old(ownsStorage) then 1 else 0)
      ensures constructions == old(constructions) && ownsStorage == old(ownsStorage)
      ensures slot == old(slot) && defaultOnce == old(defaultOnce)
    {
      if constructed && ownsStorage {
        destructions := destructions + 1;
      }
      constructed := false;
      valuePtrCache := NullPtr;
    }

    /** `construct`: destroys an owned object first, then constructs `v` in
        the slot and points at it. */
    method Construct(v: int) returns (p: Ptr)
      requires Valid()
      modifies this
      ensures Valid() && constructed && ownsStorage && Get() == Internal && p == Internal && slot == v
      ensures constructions == old(constructions) + 1
      ensures destructions == old(destructions) + (if old(constructed) && old(ownsStorage) then 1 else 0)
      ensures defaultOnce == old(defaultOnce)
    {
      DestroyIfOwned();
      slot := v;
      constructions := constructions + 1;
      ownsStorage := true;
      constructed := true;
      valuePtrCache := Internal;
      p := Internal;
    }

    /** `reset_external_pointer`: destroys an owned object, then refers to an
        object owned elsewhere (which may be null). */
    method ResetExternalPointer(ptr: Ptr) returns (p: Ptr)
      requires Valid() && ptr != Internal
      modifies this
      ensures Valid() && constructed && !ownsStorage && Get() == ptr && p == ptr
      ensures constructions == old(constructions)
      ensures destructions == old(destructions) + (if old(constructed) && old(ownsStorage) then 1 else 0)
      ensures slot == old(slot) && defaultOnce == old(defaultOnce)
    {
      DestroyIfOwned();
      ownsStorage := false;
      constructed := true;
      valuePtrCache := ptr;
      p := ptr;
    }

    /** `ensure_default`: the current object if there is one; null when `T`
        has no default constructor; otherwise `T{}` is constructed, but only
        on the first such call (`std::call_once`). */
    method EnsureDefault() returns (p: Ptr)
      requires Valid()
      modifies this
      ensures Valid()
      ensures old(Get()) != NullPtr ==> p == old(Get()) && constructions == old(constructions)
      ensures old(Get()) == NullPtr && !defaultConstructible ==> p == NullPtr && constructions == old(constructions)
      ensures old(Get()) == NullPtr && defaultConstructible && !old(defaultOnce) ==>
                p == Internal && slot == defaultValue && constructed && ownsStorage &&
                constructions == old(constructions) + 1
      ensures old(Get()) == NullPtr && defaultConstructible && old(defaultOnce) ==>
                p == old(Get()) && constructions == old(constructions)
      ensures destructions == old(destructions) +
                if old(Get()) == NullPtr && defaultConstructible && !old(defaultOnce) &&
                   old(constructed) && old(ownsStorage)
                then 1 else 0
      ensures unchanged(this) || (old(Get()) == NullPtr && defaultConstructible && !old(defaultOnce))
    {
      var cached := Get();
      if cached != NullPtr {
        return cached;
      }
      if !defaultConstructible {
        return NullPtr;
      }
      if !defaultOnce {
        defaultOnce := true;
        var q := Construct(defaultValue);
      }
      p := Get();
    }

    /** The destructor: destroys an owned object. */
    method Dispose()
      requires Valid()
      modifies this
      ensures Valid() && !constructed
      ensures destructions == constructions && constructions == old(constructions)
      ensures destructions == old(destructions) + (if old(constructed) && old(ownsStorage) then 1 else 0)
    {
      DestroyIfOwned();
    }
  }

  /** Constructing twice destroys the first object before making the second,
      and disposing destroys the second: two constructions, two destructions. */
  method ConstructTwice() returns (made: nat, destroyed: nat)
    ensures made == 2 && destroyed == 2
  {
    var b := new StorageBuffer(true, 0);
    var p := b.Construct(1);
    p := b.Construct(2);
    assert b.destructions == 1;
    b.Dispose();
    made := b.constructions;
    destroyed := b.destructions;
  }

  /** An external object is never destroyed by the buffer, and `ensure_default`
      hands it back rather than constructing. */
  method ExternalNotDestroyed(address: nat) returns (p: Ptr, destroyed: nat)
    ensures p == External(address) && destroyed == 0
  {
    var b := new StorageBuffer(true, 0);
    var q := b.ResetExternalPointer(External(address));
    p := b.EnsureDefault();
    b.Dispose();
    destroyed := b.destructions;
  }
}
