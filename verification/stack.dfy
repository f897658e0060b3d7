/** proj9's Stack: a list whose end is the top; pushing appends, popping
    removes and returns the last item and fails on an empty stack. */
module Stacks {
  import opened Wrappers

  datatype Stack<T> = Stack(items: seq<T>)

  /** `Stack()`: no items. */
  function NewStack<T>(): (r: Stack<T>)
    ensures IsEmpty(r)
  {
    Stack([])
  }

  /** `push`: item becomes the top; the items below are unchanged. */
  function Push<T>(s: Stack<T>, item: T): (r: Stack<T>)
    ensures |r.items| == |s.items| + 1
    ensures r.items[..|s.items|] == s.items
    ensures Top(r) == item
  {
    Stack(s.items + [item])
  }

  /** The top item of a non-empty stack. */
  function Top<T>(s: Stack<T>): T
    requires |s.items| > 0
  {
    s.items[|s.items| - 1]
  }

  /** `pop`: the top item and the stack below it; IndexError, as Python's
      `list.pop` raises, when the stack is empty. */
  function Pop<T>(s: Stack<T>): (r: Result<(T, Stack<T>)>)
    ensures r.Err? <==> IsEmpty(s)
    ensures r.Err? ==> r.error == IndexError
    ensures r.Ok? ==> Push(r.value.1, r.value.0) == s
  {
    var n := |s.items|;
    if n == 0 then Err(IndexError)
    else
      assert s.items[..n - 1] + [s.items[n - 1]] == s.items;
      Ok((s.items[n - 1], Stack(s.items[..n - 1])))
  }

  /** `is_empty`: an empty stack holds nothing; any other stack is the
      stack below its top with the top pushed on, which is what `pop`
      takes apart. */
  function IsEmpty<T>(s: Stack<T>): (r: bool)
    ensures r ==> s.items == []
    ensures !r ==> |s.items| > 0 && s == Push(Stack(s.items[..|s.items| - 1]), Top(s))
  {
    LastPushed(s);
    |s.items| == 0
  }

  /** A non-empty stack is its lower items with its top pushed on. */
  lemma LastPushed<T>(s: Stack<T>)
    ensures |s.items| > 0 ==> s == Push(Stack(s.items[..|s.items| - 1]), Top(s))
  {
    if |s.items| > 0 {
      assert s.items[..|s.items| - 1] + [Top(s)] == s.items;
    }
  }

  /** Popping right after a push returns the pushed item and the stack as
      it was. */
  lemma PopPush<T>(s: Stack<T>, x: T)
    ensures Pop(Push(s, x)) == Ok((x, s))
  {
    assert Push(s, x).items[..|s.items|] == s.items;
  }

  /** A pushed stack is never empty. */
  lemma PushNotEmpty<T>(s: Stack<T>, x: T)
    ensures !IsEmpty(Push(s, x)) && Pop(Push(s, x)).Ok?
  {
  }

  /** Pushes each item of xs in order. */
  function PushAll<T>(s: Stack<T>, xs: seq<T>): Stack<T>
    decreases |xs|
  {
    if |xs| == 0 then s else PushAll(Push(s, xs[0]), xs[1..])
  }

  /** Pops n items, collecting them in the order they come off; IndexError
      if the stack runs out first. */
  function PopN<T>(s: Stack<T>, n: nat): Result<(seq<T>, Stack<T>)>
    decreases n
  {
    if n == 0 then Ok(([], s))
    else
      match Pop(s)
      case Err(e) => Err(e)
      case Ok((x, rest)) =>
        match PopN(rest, n - 1)
        case Err(e) => Err(e)
        case Ok((ys, bottom)) => Ok(([x] + ys, bottom))
  }

  function Reverse<T>(xs: seq<T>): (r: seq<T>)
    ensures |r| == |xs|
    ensures forall i :: 0 <= i < |xs| ==> r[i] == xs[|xs| - 1 - i]
  {
    if |xs| == 0 then [] else Reverse(xs[1..]) + [xs[0]]
  }

  /** PushAll appends the items above the existing ones. */
  lemma {:induction false} PushAllItems<T>(s: Stack<T>, xs: seq<T>)
    ensures PushAll(s, xs).items == s.items + xs
    decreases |xs|
  {
    if |xs| > 0 {
      PushAllItems(Push(s, xs[0]), xs[1..]);
      assert s.items + [xs[0]] + xs[1..] == s.items + xs;
    }
  }

  /** Last in, first out: pushing xs and then popping |xs| items yields xs
      reversed and leaves the original stack. */
  lemma {:induction false} LastInFirstOut<T>(s: Stack<T>, xs: seq<T>)
    ensures PopN(PushAll(s, xs), |xs|) == Ok((Reverse(xs), s))
    decreases |xs|
  {
    if |xs| > 0 {
      var n := |xs|;
      var init, last := xs[..n - 1], xs[n - 1];
      assert xs == init + [last];
      PushAllItems(s, xs);
      PushAllItems(s, init);
      assert PushAll(s, xs) == Push(PushAll(s, init), last);
      PopPush(PushAll(s, init), last);
      LastInFirstOut(s, init);
      assert Reverse(xs) == [last] + Reverse(init);
    }
  }

  /** An example: push 1 and 2 onto a new stack; pops give 2, then 1,
      then IndexError. */
  lemma StackExample(s: Stack<int>)
    requires s == Push(Push(NewStack(), 1), 2)
    ensures Pop(s) == Ok((2, Push(NewStack(), 1)))
    ensures Pop(Push(NewStack(), 1)) == Ok((1, NewStack()))
    ensures Pop(NewStack<int>()) == Err(IndexError)
  {
    PopPush(Push(NewStack(), 1), 2);
    PopPush(NewStack(), 1);
  }
}
