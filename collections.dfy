/** The slice-backed LIFO stack of pkg/collections/stack.go, and the Option type that stands
    for an `Item` that may be nil. */
module Collections {

  /** A value or nothing; `None` is the nil `Item` the stack returns when it is empty. */
  datatype Option<+T> = None | Some(value: T)

  /** What Pop does to a stack whose items (bottom first) are `items`: the item it returns and
      the items left behind. */
  function PopResult<T>(items: seq<T>): (r: (Option<T>, seq<T>))
    ensures items == [] ==> r == (None, [])
    ensures items != [] ==> r.0 == Some(items[|items| - 1]) && r.1 + [items[|items| - 1]] == items
  {
    if items == [] then (None, []) else (Some(items[|items| - 1]), items[..|items| - 1])
  }

  /** Pops `n` times, returning the popped items in the order they come out. */
  function PopMany<T>(items: seq<T>, n: nat): (seq<Option<T>>, seq<T>)
  {
    if n == 0 then ([], items)
    else
      var (x, rest) := PopResult(items);
      var (xs, left) := PopMany(rest, n - 1);
      ([x] + xs, left)
  }

  /** No element of `s` occurs twice. */
  ghost predicate Distinct<T>(s: seq<T>)
  {
    forall i, j :: 0 <= i < j < |s| ==> s[i] != s[j]
  }

  /** `xs` in reverse order, each wrapped in Some. */
  function ReversedSome<T>(xs: seq<T>): (r: seq<Option<T>>)
    ensures |r| == |xs|
  {
    if xs == [] then [] else [Some(xs[|xs| - 1])] + ReversedSome(xs[..|xs| - 1])
  }

  /** A stack of items kept in a sequence whose last element is the top. */
  class Stack<T> {
    var items: seq<T>

    constructor ()
      ensures items == []
    {
      items := [];
    }

    /** Appends `item` on top. */
    method Push(item: T)
      modifies this
      ensures items == old(items) + [item]
      ensures Len() == old(Len()) + 1
    {
      items := items + [item];
    }

    /** Removes and returns the top item; on an empty stack returns None and changes nothing. */
    method Pop() returns (r: Option<T>)
      modifies this
      ensures (r, items) == PopResult(old(items))
      ensures r == old(Peek())
      ensures old(items) == [] ==> r == None && items == []
      ensures old(items) != [] ==> Len() == old(Len()) - 1 && items + [r.value] == old(items)
    {
      if |items| == 0 {
        return None;
      }
      r := Some(items[|items| - 1]);
      items := items[..|items| - 1];
    }

    predicate IsEmpty()
      reads this
      ensures IsEmpty() <==> Len() == 0
    {
      |items| == 0
    }

    /** The item Pop would return, without removing it. */
    function Peek(): (r: Option<T>)
      reads this
      ensures r == PopResult(items).0
    {
      if |items| == 0 then None else Some(items[|items| - 1])
    }

    function Len(): (n: nat)
      reads this
      ensures n == |items|
    {
      |items|
    }
  }

  /** Pushing `item` and then popping returns `item` and restores the prior items. */
  lemma PushThenPop<T>(items: seq<T>, item: T)
    ensures PopResult(items + [item]) == (Some(item), items)
  {
  }

  /** LIFO order: pushing `xs` onto `items` and then popping |xs| times yields `xs` reversed and
      leaves the items that were below them untouched. */
  lemma {:induction false} PushAllPopAll<T>(items: seq<T>, xs: seq<T>)
    ensures PopMany(items + xs, |xs|) == (ReversedSome(xs), items)
  {
    if xs != [] {
      var front := xs[..|xs| - 1];
      assert items + xs == (items + front) + [xs[|xs| - 1]];
      PushThenPop(items + front, xs[|xs| - 1]);
      PushAllPopAll(items, front);
      assert PopResult(items + xs) == (Some(xs[|xs| - 1]), items + front);
      assert PopMany(items + xs, |xs|) == ([Some(xs[|xs| - 1])] + PopMany(items + front, |front|).0, items);
    } else {
      assert items + xs == items;
    }
  }

  /** Popping an empty stack any number of times returns only None and leaves it empty. */
  lemma {:induction false} PopEmpty<T>(n: nat)
    ensures PopMany<T>([], n).1 == []
    ensures forall i :: 0 <= i < |PopMany<T>([], n).0| ==> PopMany<T>([], n).0[i] == None
    ensures |PopMany<T>([], n).0| == n
  {
    if n > 0 {
      PopEmpty<T>(n - 1);
    }
  }
}
