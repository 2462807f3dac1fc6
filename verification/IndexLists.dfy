/**
 * Singly linked lists of array elements: a pointer is an index, NULL is -1, and
 * `next` holds the link field of every element.
 */
module IndexLists {
  const NULL := -1

  /** `head` starts a NULL-terminated list whose elements are `list`. */
  ghost predicate Linked(head: int, list: seq<int>, next: seq<int>)
    decreases list
  {
    if list == [] then
      head == NULL
    else
      head == list[0] && 0 <= head < |next| && Linked(next[head], list[1..], next)
  }

  lemma {:induction false} LinkedElsewhere(head: int, list: seq<int>, next: seq<int>, c: int, n: int)
    requires Linked(head, list, next) && 0 <= c < |next| && c !in list
    ensures Linked(head, list, next[c := n])
    decreases list
  {
    if list != [] {
      LinkedElsewhere(next[head], list[1..], next, c, n);
    }
  }

  lemma PushFront(head: int, list: seq<int>, next: seq<int>, c: int)
    requires Linked(head, list, next) && 0 <= c < |next| && c !in list
    ensures Linked(c, [c] + list, next[c := head])
  {
    LinkedElsewhere(head, list, next, c, head);
    assert ([c] + list)[1..] == list;
  }

  lemma {:induction false} PushBack(head: int, list: seq<int>, next: seq<int>, c: int)
    requires Linked(head, list, next) && 0 <= c < |next| && c !in list
    requires forall x :: multiset(list)[x] <= 1
    ensures var terminated := next[c := NULL];
            if list == [] then Linked(c, [c], terminated)
            else 0 <= list[|list| - 1] < |next| && Linked(head, list + [c], terminated[list[|list| - 1] := c])
    decreases list
  {
    var terminated := next[c := NULL];
    if |list| == 1 {
      var linked := terminated[head := c];
      assert (list + [c])[1..] == [c];
      assert Linked(c, [c], linked);
    } else if |list| > 1 {
      var tail := list[1..];
      assert list == [head] + tail;
      assert multiset(list)[head] == 1 + multiset(tail)[head];
      forall x ensures multiset(tail)[x] <= 1 {
        assert multiset(list)[x] == multiset([head])[x] + multiset(tail)[x];
      }
      PushBack(next[head], tail, next, c);
      assert (list + [c])[1..] == tail + [c];
      assert list[|list| - 1] == tail[|tail| - 1];
      assert tail[|tail| - 1] in tail;
    }
  }

  /** Linking `c` in front of the `i`-th element: behind its predecessor if it has one. */
  lemma {:induction false} InsertAt(head: int, list: seq<int>, next: seq<int>, c: int, i: nat)
    requires Linked(head, list, next) && 0 <= c < |next| && c !in list && i <= |list|
    requires forall j, k :: 0 <= j < k < |list| ==> list[j] != list[k]
    ensures if i == 0 then Linked(c, list[..i] + [c] + list[i..], next[c := head])
            else
              && 0 <= list[i - 1] < |next|
              && Linked(head, list[..i] + [c] + list[i..], next[c := next[list[i - 1]]][list[i - 1] := c])
    decreases i
  {
    var inserted := list[..i] + [c] + list[i..];
    if i == 0 {
      PushFront(head, list, next, c);
      assert inserted == [c] + list;
    } else if i == 1 {
      var after := next[c := next[head]][head := c];
      PushFront(next[head], list[1..], next, c);
      LinkedElsewhere(c, [c] + list[1..], next[c := next[head]], head, c);
      assert inserted[1..] == [c] + list[1..];
    } else {
      InsertAt(next[head], list[1..], next, c, i - 1);
      assert inserted[1..] == list[1..][..i - 1] + [c] + list[1..][i - 1..];
      assert list[1..][i - 2] == list[i - 1];
    }
  }

  lemma {:induction false} LinkedAt(head: int, list: seq<int>, next: seq<int>, i: nat)
    requires Linked(head, list, next) && i < |list|
    ensures 0 <= list[i] < |next| && next[list[i]] == (if i + 1 < |list| then list[i + 1] else NULL)
    decreases i
  {
    if i > 0 {
      LinkedAt(next[head], list[1..], next, i - 1);
    }
  }

  lemma {:induction false} LinkedGrows(head: int, list: seq<int>, next: seq<int>, n: int)
    requires Linked(head, list, next)
    ensures Linked(head, list, next + [n])
    decreases list
  {
    if list != [] {
      LinkedGrows(next[head], list[1..], next, n);
    }
  }
}
