/** The retry loop of AtomicSupport.hpp as one thread runs it, while others store into the
    same word. */
module AtomicLoop {
  import opened AtomicSupport

  class Word<W(==)> {
    var value: W

    constructor (value: W)
      ensures this.value == value
    {
      this.value := value;
    }

    method LockCompareExchange(oldValue: W, newValue: W) returns (previous: W)
      modifies this
      ensures previous == old(value)
      ensures value == if old(value) == oldValue then newValue else old(value)
    {
      previous := value;
      if value == oldValue {
        value := newValue;
      }
    }

    // The next store of another thread, if there are any left.
    method Interfere(others: seq<W>, used: nat) returns (used': nat)
      requires used <= |others|
      modifies this
      ensures used' == if used < |others| then used + 1 else used
      ensures value == if used < |others| then others[used] else old(value)
    {
      used' := used;
      if used < |others| {
        value := others[used];
        used' := used + 1;
      }
    }

    // The stores of the others come before every load and before every exchange, as long
    // as there are any. The operation takes effect on the last value that was in the word,
    // and the loop ends as soon as the others pause between a load and an exchange.
    method Update(op: Operation<W>, others: seq<W>) returns (result: W, used: nat)
      modifies this
      ensures used <= |others|
      ensures var last := if used == 0 then old(value) else others[used - 1];
              value == op.update(last) && result == op.Result(last)
    {
      used := Interfere(others, 0);
      var oldValue := value;
      used := Interfere(others, used);
      ghost var last := value;
      var previous := LockCompareExchange(oldValue, op.update(oldValue));
      while previous != oldValue
        invariant used <= |others|
        invariant last == if used == 0 then old(value) else others[used - 1]
        invariant previous == last
        invariant value == if previous == oldValue then op.update(last) else last
        decreases |others| - used + if previous != oldValue then 1 else 0
      {
        used := Interfere(others, used);
        oldValue := value;
        used := Interfere(others, used);
        last := value;
        previous := LockCompareExchange(oldValue, op.update(oldValue));
      }
      result := op.Result(oldValue);
    }
  }
}
