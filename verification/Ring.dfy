/** The circular queue of the HTTP sender: an array, a front and a back index, and a size. */
module Ring {

  datatype Option<T> = None | Some(value: T)

  datatype QueueErr = QueueOk | QueueFull | QueueEmpty

  class Queue<T> {
    const maxSize: nat
    const content: array<Option<T>>
    var size: nat
    var front: nat
    var back: nat

    // The array index of the element `i` places behind the front.
    ghost function Slot(i: nat): int
      reads this
    {
      if front + i < maxSize then front + i else front + i - maxSize
    }

    ghost predicate Valid()
      reads this, content
    {
      && content.Length == maxSize
      && size <= maxSize
      && (front < maxSize || front == maxSize == 0)
      && back == (if size == 0 then front else Slot(size - 1))
      && forall i | 0 <= i < size :: content[Slot(i)].Some?
    }

    // The queue as a sequence, oldest element first.
    ghost function Contents(): (s: seq<T>)
      requires Valid()
      reads this, content
    {
      seq(size, i requires 0 <= i < size reads this, content requires Valid() => content[Slot(i)].value)
    }

    constructor (max: nat)
      ensures Valid() && fresh(content)
      ensures maxSize == max && Contents() == []
    {
      maxSize := max;
      size := 0;
      front := 0;
      back := 0;
      content := new Option<T>[max];
    }

    method Front() returns (r: Option<T>)
      requires Valid()
      ensures r == if Contents() == [] then None else Some(Contents()[0])
    {
      if size > 0 {
        r := content[front];
        assert Slot(0) == front;
      } else {
        r := None;
      }
    }

    method Push(elem: T) returns (res: QueueErr)
      requires Valid()
      modifies this, content
      ensures Valid()
      ensures res == if |old(Contents())| == maxSize then QueueFull else QueueOk
      ensures Contents() == if res.QueueOk? then old(Contents()) + [elem] else old(Contents())
    {
      if size == maxSize {
        return QueueFull;
      }
      if size > 0 {
        back := back + 1;
        if back == maxSize {
          back := 0;
        }
      }
      size := size + 1;
      content[back] := Some(elem);
      assert back == Slot(size - 1);
      assert forall i | 0 <= i < size - 1 :: Slot(i) != back && content[Slot(i)] == old(content[Slot(i)]);
      res := QueueOk;
    }

    method Pop() returns (res: QueueErr)
      requires Valid()
      modifies this, content
      ensures Valid()
      ensures res == if old(Contents()) == [] then QueueEmpty else QueueOk
      ensures Contents() == if res.QueueOk? then old(Contents())[1..] else old(Contents())
    {
      if size == 0 {
        return QueueEmpty;
      }
      size := size - 1;
      content[front] := None;
      front := front + 1;
      if front == maxSize {
        front := 0;
      }
      if size == 0 {
        back := front;
      }
      assert forall i | 0 <= i < size :: Slot(i) == old(Slot(i + 1)) && Slot(i) != old(front);
      res := QueueOk;
    }
  }
}
