/** The browser's array of open-window listeners. Java arrays are replaced by
    sequences; listener identity (`==` on references) is the equality of `L`. */
module OpenWindowListeners {
  import opened Wrappers
  import opened Seqs

  /** addOpenWindowListener: copy the array into one a slot longer and put the
      new listener in the last slot. */
  method AddOpenWindowListener<L>(listeners: seq<L>, listener: L) returns (r: seq<L>)
    ensures |r| == |listeners| + 1
    ensures r[..|listeners|] == listeners
    ensures r[|listeners|] == listener
  {
    // the fresh Java array holds nulls; any filler will do, every slot is written
    var grown := seq(|listeners| + 1, _ => listener);
    grown := ArrayCopy(listeners, 0, grown, 0, |listeners|);
    r := grown[|grown| - 1 := listener];
  }

  /** removeOpenWindowListener: find the first identical entry and copy the
      entries before and after it into an array one shorter. */
  method RemoveOpenWindowListener<L(==)>(listeners: seq<L>, listener: L) returns (r: seq<L>)
    ensures listener !in listeners ==> r == listeners
    ensures listener in listeners ==>
      var i := FirstIndex(listeners, listener).value;
      r == listeners[..i] + listeners[i + 1..]
    ensures r == RemoveFirst(listeners, listener)
  {
    if |listeners| == 0 {
      return listeners;
    }
    var index := -1;
    var i := 0;
    while i < |listeners|
      invariant 0 <= i <= |listeners|
      invariant index == -1
      invariant forall k :: 0 <= k < i ==> listeners[k] != listener
    {
      if listener == listeners[i] {
        index := i;
        break;
      }
      i := i + 1;
    }
    if index == -1 {
      return listeners;
    }
    FirstIndexIs(listeners, listener, index);
    if |listeners| == 1 {
      return [];
    }
    var shrunk := seq(|listeners| - 1, _ => listener);
    shrunk := ArrayCopy(listeners, 0, shrunk, 0, index);
    shrunk := ArrayCopy(listeners, index + 1, shrunk, index, |listeners| - index - 1);
    SplitAt(shrunk, index);
    assert shrunk == listeners[..index] + listeners[index + 1..];
    r := shrunk;
  }

  lemma SplitAt<L>(s: seq<L>, i: nat)
    requires i <= |s|
    ensures s == s[..i] + s[i..]
  {
  }

  /** Removing a listener right after adding it, when it was not registered
      before, restores the original array. */
  lemma RemoveAfterAdd<L>(listeners: seq<L>, listener: L, added: seq<L>)
    requires listener !in listeners
    requires |added| == |listeners| + 1 && added[..|listeners|] == listeners
    requires added[|listeners|] == listener
    ensures RemoveFirst(added, listener) == listeners
  {
    assert added == listeners + [listener];
    RemoveFirstAfterAppend(listeners, listener);
  }
}
