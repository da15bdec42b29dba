/** The growable arena arrays behind template_instruction_push and template_section_push. */
module GrowableArrays {

  const SIZE_MAX: nat := 0xFFFF_FFFF_FFFF_FFFF

  class GrowableArray<T(0)> {
    var items: array<T>  // items.Length is the capacity; no block has been taken while it is 0
    var length: nat
    const initialCapacity: nat
    const itemSize: nat
    const mayRefuse: bool  // whether the arena behind it may refuse a block

    /** The block has a size in bytes, so doubling its items stays below the wrap-around. */
    ghost predicate Valid()
      reads this
    {
      && itemSize >= 2 && 0 < initialCapacity <= SIZE_MAX / itemSize
      && length <= items.Length <= SIZE_MAX / itemSize
    }

    ghost function Contents(): seq<T>
      requires Valid()
      reads this, items
    {
      items[..length]
    }

    constructor (initialCapacity: nat, itemSize: nat, mayRefuse: bool)
      requires itemSize >= 2 && 0 < initialCapacity <= SIZE_MAX / itemSize
      ensures Valid() && Contents() == [] && fresh(items)
      ensures this.itemSize == itemSize && this.mayRefuse == mayRefuse
    {
      this.initialCapacity := initialCapacity;
      this.itemSize := itemSize;
      this.mayRefuse := mayRefuse;
      items := new T[0];
      length := 0;
    }

    /** Whether the next push can fail: the arena may refuse, or twice the items have no size. */
    ghost predicate MayFail()
      reads this
    {
      mayRefuse || (itemSize > 0 && 2 * length > SIZE_MAX / itemSize)
    }

    /** Appends `item`, doubling the block when it is full. Where the arena refuses the new
        block, or its size would overflow, nothing changes. */
    method Push(item: T) returns (ok: bool)
      requires Valid()
      modifies this, items
      ensures Valid() && (items == old(items) || fresh(items))
      ensures Contents() == if ok then old(Contents()) + [item] else old(Contents())
      ensures !ok ==> old(MayFail()) && old(length) == old(items.Length)
    {
      if length == items.Length {
        var capacity := if items.Length == 0 then initialCapacity else items.Length * 2;
        if capacity > SIZE_MAX / itemSize {
          return false;
        }
        var granted: bool := *;
        if mayRefuse && !granted {
          return false;
        }
        var replacement := new T[capacity];
        for i := 0 to length
          invariant Valid() && length == old(length) && items == old(items)
          invariant items[..] == old(items[..])
          invariant replacement[..i] == items[..i]
        {
          replacement[i] := items[i];
        }
        items := replacement;
      }
      items[length] := item;
      length := length + 1;
      ok := true;
    }

    method Pop()
      requires Valid() && length > 0
      modifies this
      ensures Valid() && items == old(items)
      ensures Contents() == old(Contents())[..old(length) - 1]
    {
      length := length - 1;
    }

    method SetAt(index: nat, item: T)
      requires Valid() && index < length
      modifies items
      ensures Valid() && Contents() == old(Contents())[index := item]
    {
      items[index] := item;
    }
  }
}
