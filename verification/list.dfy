/** The doubly linked list of list.h. Its first element's `prev` points to the last one.

    `links` is the sequence the list stands for; each operation is proved to be the
    corresponding one on sequences. */
module Lists {
  class Link {
    var next: Link?
    var prev: Link?

    constructor ()
    {
      next, prev := null, null;
    }
  }

  /** The pointers of the `i`-th element. */
  ghost predicate LinkAt(s: seq<Link>, i: nat)
    requires i < |s|
    reads s[i]
  {
    && s[i].next == (if i + 1 < |s| then s[i + 1] else null)
    && s[i].prev == (if i > 0 then s[i - 1] else s[|s| - 1])
  }

  ghost predicate Distinct(s: seq<Link>) {
    forall i, j :: 0 <= i < j < |s| ==> s[i] != s[j]
  }

  class List {
    var first: Link?
    ghost var links: seq<Link>

    constructor ()
      ensures Valid() && links == []
    {
      first, links := null, [];
    }

    ghost predicate Valid()
      reads this, links
    {
      && first == (if links == [] then null else links[0])
      && Distinct(links)
      && (forall i {:trigger LinkAt(links, i)} :: 0 <= i < |links| ==> LinkAt(links, i))
    }

    method Prepend(link: Link)
      requires Valid() && link !in links
      modifies this, link, first
      ensures Valid() && links == [link] + old(links)
    {
      ghost var before := links;
      if first != null {
        assert LinkAt(links, 0);
      }
      link.next := first;
      if first != null {
        link.prev := first.prev;
        first.prev := link;
      } else {
        link.prev := link;
      }
      first := link;
      links := [link] + links;
      forall i | 0 <= i < |links|
        ensures LinkAt(links, i)
      {
        if i > 0 {
          assert old(LinkAt(before, i - 1));
        }
      }
    }

    method Last() returns (last: Link?)
      requires Valid()
      ensures last == if links == [] then null else links[|links| - 1]
    {
      if first == null {
        return null;
      }
      assert LinkAt(links, 0);
      return first.prev;
    }

    method Append(link: Link)
      requires Valid() && link !in links
      modifies this, links, link
      ensures Valid() && links == old(links) + [link]
    {
      ghost var before := links;
      link.next := null;
      if first != null {
        assert old(LinkAt(before, 0));
        var last := first.prev;
        link.prev := last;
        last.next := link;
        first.prev := link;
      } else {
        first := link;
        link.prev := link;
      }
      links := links + [link];
      forall i | 0 <= i < |links|
        ensures LinkAt(links, i)
      {
        if i < |before| {
          assert old(LinkAt(before, i));
        }
      }
    }

    /** Inserts before an element of the list, or at the end when there is none given. */
    method Insert(link: Link, before: Link?)
      requires Valid() && link !in links
      requires before != null ==> before in links
      modifies this, links, link
      ensures Valid()
      ensures links == if before == null then old(links) + [link]
              else InsertedAt(old(links), IndexOf(old(links), before), link)
    {
      if first == before {
        assert before != null ==> IndexOf(links, before) == 0;
        Prepend(link);
      } else if first == null || before == null {
        Append(link);
      } else {
        InsertInside(link, before);
      }
    }

    method InsertInside(link: Link, before: Link)
      requires Valid() && link !in links && before in links && before != first
      modifies this, links, link
      ensures Valid() && links == InsertedAt(old(links), IndexOf(old(links), before), link)
    {
      ghost var s, k := links, IndexOf(links, before);
      assert LinkAt(s, k) && LinkAt(s, k - 1);
      var prev := before.prev;
      prev.next := link;
      link.prev := prev;
      link.next := before;
      before.prev := link;
      links := InsertedAt(s, k, link);
      forall i | 0 <= i < |links|
        ensures LinkAt(links, i)
      {
        if i < k {
          assert old(LinkAt(s, i));
        } else if i > k {
          assert old(LinkAt(s, i - 1));
        }
      }
    }

    /** The element must be in the list, which the source checks only when debugging. */
    method Remove(link: Link)
      requires Valid() && link in links
      modifies this, links
      ensures Valid() && links == RemovedAt(old(links), IndexOf(old(links), link))
      ensures link.next == null && link.prev == null
    {
      ghost var s, k := links, IndexOf(links, link);
      assert LinkAt(s, k) && LinkAt(s, 0);
      assert k > 0 ==> LinkAt(s, k - 1);
      var next, prev := link.next, link.prev;
      if next != null {
        next.prev := prev;
      } else {
        first.prev := prev;
      }
      if link == first {
        first := next;
      } else {
        prev.next := next;
      }
      link.next, link.prev := null, null;
      links := RemovedAt(s, k);
      forall i | 0 <= i < |links|
        ensures LinkAt(links, i)
      {
        assert old(LinkAt(s, if i < k then i else i + 1));
      }
    }

    method MoveToFront(link: Link)
      requires Valid() && link in links
      modifies this, links
      ensures Valid() && links == [link] + RemovedAt(old(links), IndexOf(old(links), link))
    {
      ghost var s, k := links, IndexOf(links, link);
      var was := first;
      if was == link {
        assert s == [link] + RemovedAt(s, 0);
        return;
      }
      assert LinkAt(s, k) && LinkAt(s, 0) && LinkAt(s, k - 1);
      var next, prev := link.next, link.prev;
      if next != null {
        next.prev := prev;
        link.prev := was.prev;
      } else {
        link.prev := prev;
      }
      prev.next := next;
      link.next := was;
      was.prev := link;
      first := link;
      links := [link] + RemovedAt(s, k);
      forall i | 0 <= i < |links|
        ensures LinkAt(links, i)
      {
        if i > 0 {
          assert old(LinkAt(s, if i - 1 < k then i - 1 else i));
        }
      }
    }

    /** The forward loop visits the elements in order. */
    method Forward() returns (visited: seq<Link>)
      requires Valid()
      ensures visited == links
    {
      visited := [];
      var elem := first;
      while elem != null
        invariant |visited| <= |links| && visited == links[..|visited|]
        invariant elem == if |visited| < |links| then links[|visited|] else null
        decreases |links| - |visited|
      {
        assert LinkAt(links, |visited|);
        visited := visited + [elem];
        elem := elem.next;
      }
    }

    /** The reverse loop visits them the other way round, and ends. */
    method Backward() returns (visited: seq<Link>)
      requires Valid()
      ensures |visited| == |links| && forall i :: 0 <= i < |links| ==> visited[i] == links[|links| - 1 - i]
    {
      visited := [];
      var elem := null;
      if first != null {
        assert LinkAt(links, 0);
        elem := first.prev;
      }
      while elem != null
        invariant |visited| <= |links|
        invariant forall i :: 0 <= i < |visited| ==> visited[i] == links[|links| - 1 - i]
        invariant elem == if |visited| < |links| then links[|links| - 1 - |visited|] else null
        decreases |links| - |visited|
      {
        ghost var k := |links| - 1 - |visited|;
        assert LinkAt(links, k) && LinkAt(links, |links| - 1);
        assert k > 0 ==> LinkAt(links, k - 1);
        visited := visited + [elem];
        elem := if elem.prev.next != null then elem.prev else null;
      }
    }
  }

  ghost function IndexOf(s: seq<Link>, x: Link): (i: nat)
    ensures x in s ==> i < |s| && s[i] == x
    ensures x !in s ==> i == |s|
  {
    if s == [] then 0
    else if s[0] == x then 0
    else 1 + IndexOf(s[1..], x)
  }

  ghost function InsertedAt(s: seq<Link>, k: nat, x: Link): seq<Link> {
    if k <= |s| then s[..k] + [x] + s[k..] else s
  }

  ghost function RemovedAt(s: seq<Link>, k: nat): seq<Link> {
    if k < |s| then s[..k] + s[k + 1..] else s
  }
}
