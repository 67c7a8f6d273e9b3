/**
 * The ordered sibling collection of the syntax tree and the groupable units
 * it holds: each unit knows the collection it belongs to, or is detached.
 */
module Collections {
  import opened Wrappers

  /** The state error raised when a detached unit is asked for its group or its neighbours. */
  datatype StateError = UnitDetached

  /** `s` with position `i` removed, the other elements keeping their order. */
  function RemoveAt<T>(s: seq<T>, i: nat): (r: seq<T>)
    requires i < |s|
    ensures |r| == |s| - 1
    ensures forall k :: 0 <= k < i ==> r[k] == s[k]
    ensures forall k :: i <= k < |r| ==> r[k] == s[k + 1]
  {
    s[..i] + s[i + 1..]
  }

  /** `s` with `x` placed at position `i`, the other elements keeping their order. */
  function InsertAt<T>(s: seq<T>, i: nat, x: T): (r: seq<T>)
    requires i <= |s|
    ensures |r| == |s| + 1 && r[i] == x
    ensures forall k :: 0 <= k < i ==> r[k] == s[k]
    ensures forall k :: i <= k < |s| ==> r[k + 1] == s[k]
  {
    s[..i] + [x] + s[i..]
  }

  /** The position of the first occurrence of `x` in `s`. */
  ghost function IndexOf<T>(s: seq<T>, x: T): (i: nat)
    requires x in s
    ensures i < |s| && s[i] == x
    ensures forall k :: 0 <= k < i ==> s[k] != x
  {
    if s[0] == x then 0 else 1 + IndexOf(s[1..], x)
  }

  /** An ordered collection of sibling units. */
  class SyntaxCollection {
    var items: seq<Unit>

    /** No unit appears twice, and every unit held points back to this collection. */
    ghost predicate Valid()
      reads this, items
    {
      && (forall i, j :: 0 <= i < j < |items| ==> items[i] != items[j])
      && (forall i :: 0 <= i < |items| ==> items[i].parent == this)
    }

    constructor ()
      ensures Valid() && items == []
    {
      items := [];
    }

    /** Adds detached unit `u` at the end of the collection. */
    method Append(u: Unit)
      requires Valid() && u.parent == null
      modifies this, u
      ensures Valid()
      ensures items == old(items) + [u] && u.parent == this
    {
      items := items + [u];
      u.parent := this;
    }

    /** Places detached unit `u` at position `i`, the other units keeping their order. */
    method Insert(i: nat, u: Unit)
      requires Valid() && i <= |items| && u.parent == null
      modifies this, u
      ensures Valid()
      ensures items == InsertAt(old(items), i, u) && u.parent == this
    {
      ghost var before := items;
      assert u !in before;
      items := InsertAt(items, i, u);
      u.parent := this;
      assert forall k :: 0 <= k < |items| ==> items[k] == u || items[k] in before;
    }

    /** The position of unit `u`, which the collection holds. */
    method PositionOf(u: Unit) returns (i: nat)
      requires Valid() && u in items
      ensures i < |items| && items[i] == u
      ensures i == IndexOf(items, u)
    {
      i := 0;
      while items[i] != u
        invariant i < |items|
        invariant forall k :: 0 <= k < i ==> items[k] != u
        decreases |items| - i
      {
        i := i + 1;
      }
    }
  }

  /** A unit that appears in a group of related units. */
  class Unit {
    /** The collection this unit belongs to; null when detached. */
    var parent: SyntaxCollection?

    /** A new unit, not yet added to any collection. */
    constructor ()
      ensures IsDetached()
    {
      parent := null;
    }

    /** An attached unit belongs to its group, and the group is consistent. */
    ghost predicate Linked()
      reads this, parent, if parent == null then [] else parent.items
    {
      parent != null ==> parent.Valid() && this in parent.items
    }

    /** Whether this unit belongs to no collection: never added, or detached since. */
    function IsDetached(): (r: bool)
      reads this
      ensures r <==> parent == null
    {
      parent == null
    }

    /** Whether this unit is the first of its group; always false when detached. */
    function IsFirst(): (r: bool)
      reads this, parent, if parent == null then [] else parent.items
      requires Linked()
      ensures r ==> !IsDetached()
      ensures !IsDetached() ==> (r <==> IndexOf(parent.items, this) == 0)
    {
      parent != null && parent.items[0] == this
    }

    /** Whether this unit is the last of its group; always false when detached. */
    function IsLast(): (r: bool)
      reads this, parent, if parent == null then [] else parent.items
      requires Linked()
      ensures r ==> !IsDetached()
      ensures !IsDetached() ==> (r <==> IndexOf(parent.items, this) == |parent.items| - 1)
    {
      parent != null && parent.items[|parent.items| - 1] == this
    }

    /** The collection this unit belongs to; a state error when detached. */
    function Group(): (r: Result<SyntaxCollection, StateError>)
      reads this
      ensures r.Failure? <==> IsDetached()
      ensures r.Success? ==> r.value == parent
    {
      if parent == null then Failure(UnitDetached) else Success(parent)
    }

    /** Places detached unit `u` immediately after this one; a state error when this unit is detached. */
    method Append(u: Unit) returns (result: Outcome<StateError>)
      requires Linked() && u.parent == null
      modifies parent, u
      ensures result == if old(parent) == null then Fail(UnitDetached) else Pass
      ensures parent == old(parent)
      ensures result.Fail? ==> u.parent == null
      ensures result.Pass? ==>
        && parent.items == InsertAt(old(parent.items), IndexOf(old(parent.items), this) + 1, u)
        && u.parent == parent
        && Linked() && u.Linked()
    {
      if parent == null {
        return Fail(UnitDetached);
      }
      var group := parent;
      var i := group.PositionOf(this);
      group.Insert(i + 1, u);
      result := Pass;
    }

    /** Places detached unit `u` immediately before this one; a state error when this unit is detached. */
    method Prepend(u: Unit) returns (result: Outcome<StateError>)
      requires Linked() && u.parent == null
      modifies parent, u
      ensures result == if old(parent) == null then Fail(UnitDetached) else Pass
      ensures parent == old(parent)
      ensures result.Fail? ==> u.parent == null
      ensures result.Pass? ==>
        && parent.items == InsertAt(old(parent.items), IndexOf(old(parent.items), this), u)
        && u.parent == parent
        && Linked() && u.Linked()
    {
      if parent == null {
        return Fail(UnitDetached);
      }
      var group := parent;
      var i := group.PositionOf(this);
      group.Insert(i, u);
      result := Pass;
    }

    /** Removes this unit from its group, if any; the other units keep their order. */
    method Detach()
      requires Linked()
      modifies this, parent
      ensures IsDetached()
      ensures old(parent) != null ==>
        && old(parent).items == RemoveAt(old(parent.items), IndexOf(old(parent.items), this))
        && old(parent).Valid()
        && this !in old(parent).items
    {
      if parent == null {
        return;
      }
      var group := parent;
      var i := group.PositionOf(this);
      group.items := RemoveAt(group.items, i);
      parent := null;
    }
  }

  /**
   * An example of the contract in use: detaching the only unit of a
   * collection empties it and leaves the unit without a group.
   */
  method DetachSoleUnit() {
    var group := new SyntaxCollection();
    var u := new Unit();
    group.Append(u);
    assert u.IsFirst() && u.IsLast();
    u.Detach();
    assert group.items == [];
    assert u.IsDetached() && !u.IsFirst() && !u.IsLast();
    assert u.Group().Failure?;
  }
}
