/** The list an entry table keeps beside its index: each id once. */
module IdList {
  ghost predicate Names(list: seq<int>, x: int) {
    x in list
  }

  ghost predicate Lists(list: seq<int>, ids: set<int>) {
    && (forall i :: 0 <= i < |list| ==> list[i] in ids)
    && (forall i, j :: 0 <= i < j < |list| ==> list[i] != list[j])
    && (forall x {:trigger Names(list, x)} :: x in ids ==> Names(list, x))
  }

  lemma ListsAll(list: seq<int>, ids: set<int>)
    requires Lists(list, ids)
    ensures forall x :: x in ids ==> x in list
  {
    forall x | x in ids
      ensures x in list
    {
      assert Names(list, x);
    }
  }

  lemma ListsTail(list: seq<int>, ids: set<int>)
    requires Lists(list, ids) && list != []
    ensures list[0] in ids && Lists(list[1..], ids - {list[0]})
  {
    forall x | x in ids - {list[0]}
      ensures Names(list[1..], x)
    {
      assert Names(list, x);
      var i :| 0 <= i < |list| && list[i] == x;
      assert list[1..][i - 1] == x;
    }
  }

  lemma ListsPrepend(list: seq<int>, ids: set<int>, id: int)
    requires Lists(list, ids) && id !in ids
    ensures Lists([id] + list, ids + {id})
  {
    assert forall i :: 0 < i <= |list| ==> ([id] + list)[i] == list[i - 1];
    assert ([id] + list)[0] == id;
    forall x | x in ids + {id}
      ensures Names([id] + list, x)
    {
      assert x in ids ==> Names(list, x);
    }
  }

  /** Taking the link of `id` out of the list. */
  function Remove(list: seq<int>, id: int): (rest: seq<int>)
    ensures id !in list ==> rest == list
  {
    if list == [] then []
    else if list[0] == id then list[1..]
    else [list[0]] + Remove(list[1..], id)
  }

  lemma {:induction false} ListsRemove(list: seq<int>, ids: set<int>, id: int)
    requires Lists(list, ids)
    ensures Lists(Remove(list, id), ids - {id})
  {
    if list == [] {
      ListsAll(list, ids);
    } else if list[0] == id {
      ListsTail(list, ids);
    } else {
      var first, tail := list[0], list[1..];
      ListsTail(list, ids);
      ListsRemove(tail, ids - {first}, id);
      assert ids - {id} == (ids - {first} - {id}) + {first};
      ListsPrepend(Remove(tail, id), ids - {first} - {id}, first);
    }
  }

  lemma {:induction false} RemoveIs(list: seq<int>, i: nat)
    requires i < |list| && forall j :: 0 <= j < i ==> list[j] != list[i]
    ensures Remove(list, list[i]) == list[..i] + list[i + 1..]
  {
    if i == 0 {
      assert list[..0] + list[1..] == list[1..];
    } else {
      RemoveIs(list[1..], i - 1);
      assert list[..i] == [list[0]] + list[1..][..i - 1];
      assert list[i + 1..] == list[1..][i..];
    }
  }

  /** The search for the link, and its removal. */
  method Unlink(list: seq<int>, id: int) returns (rest: seq<int>)
    ensures rest == Remove(list, id)
  {
    for i := 0 to |list|
      invariant forall j :: 0 <= j < i ==> list[j] != id
    {
      if list[i] == id {
        RemoveIs(list, i);
        return list[..i] + list[i + 1..];
      }
    }
    return list;
  }
}
