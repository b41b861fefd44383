/**
 The ring of a message queue (src/kernel/sync/msgqueue.c:209-260): an array, the index of its first
 free case and the number of messages.
 */
module Ring {
  import opened CInt

  /** The C remainder, which has the sign of a. */
  function CRem(a: int, b: int): int
    requires b != 0
  {
    a - TDiv(a, b) * b
  }

  /** mod */
  method Mod(a: int, b: int) returns (r: int)
    requires -b <= a < b
    ensures r == if a < 0 then a + b else a
  {
    r := CRem(a, b);
    SmallRem(a, b);
    if r < 0 {
      r := r + b;
    }
  }

  lemma SmallRem(a: int, b: int)
    requires -b <= a < b
    ensures CRem(a, b) == if a == -b then 0 else a
  {
    if a >= 0 {
      ModUnique(a, b, 0, a);
    } else if a == -b {
      ModUnique(b, b, 1, 0);
    } else {
      ModUnique(-a, b, 0, -a);
    }
  }

  class MsgRing {
    var msg_arr: array<int>
    var size: nat
    var number_of_msgs: nat
    var iffc: int

    /** Where message number i, the oldest being 0, is kept. */
    function Case(i: int): int
      reads this
    {
      var x := iffc - number_of_msgs + i;
      if x < 0 then x + size else x
    }

    ghost predicate Valid()
      reads this, msg_arr
    {
      && msg_arr.Length == size && number_of_msgs <= size
      && 0 <= iffc && (size > 0 ==> iffc < size) && (size == 0 ==> iffc == 0)
    }

    /** The messages, oldest first. */
    ghost function Buffer(): (b: seq<int>)
      requires Valid()
      reads this, msg_arr
      ensures |b| == number_of_msgs
    {
      seq(number_of_msgs, i requires 0 <= i < number_of_msgs && Valid() reads this, msg_arr => msg_arr[Case(i)])
    }

    constructor (count: nat)
      ensures Valid() && fresh(msg_arr) && size == count && Buffer() == []
    {
      msg_arr := new int[count];
      size, number_of_msgs, iffc := count, 0, 0;
    }

    /** is_full */
    method IsFull() returns (full: bool)
      requires Valid()
      ensures full <==> |Buffer()| == size
    {
      full := number_of_msgs == size;
    }

    /** is_empty */
    method IsEmpty() returns (empty: bool)
      requires Valid()
      ensures empty <==> Buffer() == []
    {
      empty := number_of_msgs == 0;
    }

    /** add_message */
    method Add(message: int)
      requires Valid() && |Buffer()| < size
      modifies this, msg_arr
      ensures Valid() && msg_arr == old(msg_arr) && size == old(size)
      ensures Buffer() == old(Buffer()) + [message]
    {
      ghost var was := Buffer();
      msg_arr[iffc] := message;
      number_of_msgs := number_of_msgs + 1;
      ModUnique(iffc + 1, size, if iffc + 1 == size then 1 else 0, if iffc + 1 == size then 0 else iffc + 1);
      iffc := (iffc + 1) % size;
      assert forall i :: 0 <= i < |was| ==> Buffer()[i] == was[i];
      assert Buffer()[|was|] == message;
    }

    /** pop_oldest_msg */
    method Pop() returns (message: int)
      requires Valid() && Buffer() != []
      modifies this
      ensures Valid() && msg_arr == old(msg_arr) && size == old(size)
      ensures message == old(Buffer())[0] && Buffer() == old(Buffer())[1..]
    {
      var index := Mod(iffc - number_of_msgs, size);
      number_of_msgs := number_of_msgs - 1;
      message := msg_arr[index];
    }

    /** What preset does to the ring. */
    method Clear()
      requires Valid()
      modifies this
      ensures Valid() && msg_arr == old(msg_arr) && size == old(size) && Buffer() == []
    {
      number_of_msgs := 0;
      iffc := 0;
    }
  }
}
