/** The growable array of icalarray.c. */
module IcalArray {
  import opened Sequences
  import Strcmp

  class IcalArray<T(0)> {
    const incrementSize: nat
    var numElements: nat
    var spaceAllocated: nat
    var data: array<T>

    ghost predicate Valid()
      reads this
    {
      numElements <= spaceAllocated == data.Length
    }

    /** The elements. */
    ghost function Contents(): (s: seq<T>)
      requires Valid()
      reads this, data
      ensures |s| == numElements
    {
      data[..numElements]
    }

    constructor (incrementSize: nat)
      ensures Valid() && fresh(data) && Contents() == [] && this.incrementSize == incrementSize
    {
      this.incrementSize := incrementSize;
      numElements, spaceAllocated := 0, 0;
      data := new T[0];
    }

    /** Move the elements to a larger buffer. */
    method Expand(spaceNeeded: nat)
      requires Valid() && spaceNeeded > 0
      modifies this`data, this`spaceAllocated
      ensures Valid() && fresh(data) && Contents() == old(Contents())
      ensures spaceAllocated >= old(spaceAllocated) + spaceNeeded
    {
      var newSpace := spaceAllocated + incrementSize;
      if spaceNeeded > incrementSize {
        newSpace := newSpace + spaceNeeded;
      }
      var newData := new T[newSpace];
      forall i | 0 <= i < spaceAllocated {
        newData[i] := data[i];
      }
      data := newData;
      spaceAllocated := newSpace;
    }

    method Append(element: T)
      requires Valid()
      modifies this, data
      ensures Valid() && (data == old(data) || fresh(data))
      ensures Contents() == old(Contents()) + [element]
    {
      if numElements >= spaceAllocated {
        Expand(1);
      }
      data[numElements] := element;
      numElements := numElements + 1;
    }

    method ElementAt(position: nat) returns (element: T)
      requires Valid() && position < numElements
      ensures element == Contents()[position]
    {
      element := data[position];
    }

    /** The later elements move down by one place. */
    method RemoveElementAt(position: nat)
      requires Valid() && position < numElements
      modifies this`numElements, data
      ensures Valid()
      ensures Contents() == old(Contents()[..position] + Contents()[position + 1..])
    {
      var elementsToMove := numElements - position - 1;
      forall i | 0 <= i < elementsToMove {
        data[position + i] := data[position + i + 1];
      }
      numElements := numElements - 1;
    }

    /** qsort of the elements by a key. */
    method Sort(key: T -> string)
      requires Valid()
      modifies data
      ensures Valid() && multiset(Contents()) == multiset(old(Contents()))
      ensures Strcmp.Sorted(Map(Contents(), key))
    {
      var sorted := Strcmp.Sort(data[..numElements], key);
      assert |sorted| == |multiset(sorted)| == |multiset(data[..numElements])| == numElements;
      forall i | 0 <= i < numElements {
        data[i] := sorted[i];
      }
      assert data[..numElements] == sorted;
    }
  }
}
