/**
 The generic container `DataStrage<T>` (the name keeps the repository's
 spelling): an insertion-ordered list of primitive values with append,
 remove-first-occurrence and a copying read. The logic lives in pure
 functions over `seq<T>`; the class holds a `seq<T>`, and the contracts of its
 methods are stated over those functions.
 Element types are restricted to primitives in the source, so membership is
 value equality, which is what `T(==)` gives.
 */
module DataStorage {
  import opened JsArray

  /** `addItem`: push onto the end. */
  function Add<T>(s: seq<T>, x: T): (r: seq<T>)
    ensures |r| == |s| + 1
    ensures r[..|s|] == s && r[|s|] == x
  {
    s + [x]
  }

  /** `removeItem`, as written: return early when `indexOf` finds nothing,
      otherwise splice one element out at the index it found. */
  function Remove<T(==)>(s: seq<T>, x: T): (r: seq<T>)
    ensures x !in s ==> r == s
    ensures x in s ==> |r| == |s| - 1
  {
    var i := IndexOf(s, x);
    if i == -1 then s
    else
      SpliceRemovesAt(s, i);
      Splice(s, i, 1)
  }

  /** The same call without the not-found guard: `splice(indexOf(x), 1)`. */
  function UnguardedRemove<T(==)>(s: seq<T>, x: T): seq<T>
  {
    Splice(s, IndexOf(s, x), 1)
  }

  /** Reference definition of "delete the first occurrence", written independently
      of `indexOf` and `splice`. */
  function RemoveFirst<T(==)>(s: seq<T>, x: T): seq<T>
  {
    if |s| == 0 then []
    else if s[0] == x then s[1..]
    else [s[0]] + RemoveFirst(s[1..], x)
  }

  /** Pushing the values `vs` one by one, starting from `s`. */
  function AddAll<T>(s: seq<T>, vs: seq<T>): seq<T>
    decreases |vs|
  {
    if |vs| == 0 then s else AddAll(Add(s, vs[0]), vs[1..])
  }

  /** When `x` is present, exactly its first occurrence `i` is removed and all
      other elements keep their relative order. */
  lemma RemoveDeletesFirstOccurrence<T>(s: seq<T>, x: T, i: int)
    requires 0 <= i < |s| && s[i] == x && x !in s[..i]
    ensures Remove(s, x) == s[..i] + s[i + 1..]
  {
  }

  /** A removal that changes anything takes away exactly one copy of the item
      and keeps every other value with its multiplicity. */
  lemma RemoveTakesOneCopy<T>(s: seq<T>, x: T)
    requires x in s
    ensures multiset(Remove(s, x)) + multiset{x} == multiset(s)
  {
    var i := IndexOf(s, x);
    RemoveDeletesFirstOccurrence(s, x, i);
    assert s == s[..i] + [s[i]] + s[i + 1..];
  }

  /** Cutting out position `j + 1` of `s` is keeping its head and cutting `j` out of its tail. */
  lemma CutAfterHead<T>(s: seq<T>, j: nat)
    requires j + 1 < |s|
    ensures s[..j + 1] + s[j + 2..] == [s[0]] + (s[1..][..j] + s[1..][j + 1..])
  {
    assert s[..j + 1] == [s[0]] + s[1..][..j];
    assert s[j + 2..] == s[1..][j + 1..];
  }

  /** Removal skips over a leading element that differs from the item. */
  lemma RemoveSkipsHead<T>(s: seq<T>, x: T)
    requires |s| > 0 && s[0] != x
    ensures Remove(s, x) == [s[0]] + Remove(s[1..], x)
  {
    assert s == [s[0]] + s[1..];
    if x in s[1..] {
      var j := IndexOf(s[1..], x);
      assert x !in s[..j + 1] by {
        assert s[..j + 1] == [s[0]] + s[1..][..j];
      }
      RemoveDeletesFirstOccurrence(s[1..], x, j);
      RemoveDeletesFirstOccurrence(s, x, j + 1);
      CutAfterHead(s, j);
    }
  }

  /** The guarded removal agrees with the reference definition on every input. */
  lemma {:induction false} RemoveIsRemoveFirst<T>(s: seq<T>, x: T)
    ensures Remove(s, x) == RemoveFirst(s, x)
  {
    if |s| == 0 {
    } else if s[0] == x {
      RemoveDeletesFirstOccurrence(s, x, 0);
    } else {
      RemoveIsRemoveFirst(s[1..], x);
      RemoveSkipsHead(s, x);
    }
  }

  /** Removing an item that was absent before it was added restores the old contents. */
  lemma RemoveUndoesAdd<T>(s: seq<T>, x: T)
    requires x !in s
    ensures Remove(Add(s, x), x) == s
  {
  }

  /** Any sequence of `addItem` calls lists exactly its values, in call order. */
  lemma {:induction false} AddAllAppends<T>(s: seq<T>, vs: seq<T>)
    ensures AddAll(s, vs) == s + vs
    decreases |vs|
  {
    if |vs| > 0 {
      AddAllAppends(Add(s, vs[0]), vs[1..]);
      assert s + [vs[0]] + vs[1..] == s + vs;
    }
  }

  /** Without the guard, removing an absent item would delete the last element. */
  lemma UnguardedRemoveDropsLast<T>(s: seq<T>, x: T)
    requires |s| > 0 && x !in s
    ensures UnguardedRemove(s, x) == s[..|s| - 1]
    ensures UnguardedRemove(s, x) != Remove(s, x)
  {
  }

  /** When the item is present the guard changes nothing. */
  lemma UnguardedRemoveAgreesWhenPresent<T>(s: seq<T>, x: T)
    requires x in s
    ensures UnguardedRemove(s, x) == Remove(s, x)
  {
  }

  class DataStrage<T(==)> {
    var data: seq<T>

    /** A new storage is empty. */
    constructor()
      ensures data == []
    {
      data := [];
    }

    method AddItem(item: T)
      modifies this
      ensures data == Add(old(data), item)
    {
      data := data + [item];
    }

    method RemoveItem(item: T)
      modifies this
      ensures data == Remove(old(data), item)
    {
      var i := IndexOf(data, item);
      if i == -1 {
        return;
      }
      data := Splice(data, i, 1);
    }

    /** A new array holding the contents in insertion order. */
    method GetItems() returns (items: array<T>)
      ensures fresh(items)
      ensures items[..] == data
    {
      items := new T[|data|](i requires 0 <= i < |data| reads this => data[i]);
    }
  }

  /** Writing into one snapshot, at any position, changes neither the storage
      nor a later snapshot. */
  method SnapshotsAreIndependent<T(==)>(st: DataStrage<T>, i: int, x: T) returns (edited: seq<T>, later: seq<T>)
    requires 0 <= i < |st.data|
    ensures edited == st.data[i := x]
    ensures later == st.data
  {
    var first := st.GetItems();
    first[i] := x;
    var second := st.GetItems();
    edited := first[..];
    later := second[..];
  }

  /** Later `addItem` and `removeItem` calls leave an earlier snapshot as it was. */
  method SnapshotSurvivesUpdates<T(==)>(st: DataStrage<T>, x: T, y: T) returns (before: seq<T>, after: seq<T>)
    modifies st
    ensures before == old(st.data)
    ensures after == before
    ensures st.data == Remove(Add(old(st.data), x), y)
  {
    var snapshot := st.GetItems();
    before := snapshot[..];
    st.AddItem(x);
    st.RemoveItem(y);
    after := snapshot[..];
  }

  /** The usage at the bottom of the file: add "Data1", add "Data2", remove "Data1". */
  method TextStorageScenario() returns (items: seq<string>)
    ensures items == ["Data2"]
  {
    var textStrage := new DataStrage<string>();
    textStrage.AddItem("Data1");
    textStrage.AddItem("Data2");
    textStrage.RemoveItem("Data1");
    RemoveDeletesFirstOccurrence(["Data1", "Data2"], "Data1", 0);
    var a := textStrage.GetItems();
    items := a[..];
  }
}
