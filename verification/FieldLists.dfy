/** Lists of non-empty two-byte-length fields behind a one-byte count: routes and
    certificate chains. */
module FieldLists {
  import opened Bytes

  /** Every item is non-empty and at most `max` bytes long. */
  predicate Items(items: seq<Text>, max: nat) {
    forall i | 0 <= i < |items| :: 1 <= |items[i]| <= max
  }

  function ListBytes(items: seq<Text>): Text
    requires Items(items, 0xFFFF)
  {
    if items == [] then []
    else
      Field16(items[0]) + ListBytes(items[1..])
  }

  function CountedBytes(items: seq<Text>): (b: Text)
    requires |items| < 256 && Items(items, 0xFFFF)
    ensures |b| >= 1
  {
    [|items|] + ListBytes(items)
  }

  lemma {:induction false} ListBytesAppend(a: seq<Text>, b: seq<Text>)
    requires Items(a, 0xFFFF) && Items(b, 0xFFFF)
    ensures ListBytes(a + b) == ListBytes(a) + ListBytes(b)
  {
    if a == [] {
      assert a + b == b;
    } else {
      ListBytesAppend(a[1..], b);
      assert (a + b)[1..] == a[1..] + b;
      Assoc(Field16(a[0]), ListBytes(a[1..]), ListBytes(b));
    }
  }

  lemma ListBytesSnoc(a: seq<Text>, item: Text)
    requires Items(a, 0xFFFF) && 1 <= |item| <= 0xFFFF
    ensures ListBytes(a + [item]) == ListBytes(a) + Field16(item)
  {
    ListBytesAppend(a, [item]);
    assert ListBytes([item]) == Field16(item);
  }

  function ItemsAt(p: Text, offset: nat, count: nat, max: nat): (r: Option<(seq<Text>, nat)>)
    ensures offset <= |p| && r.Some? ==> offset <= r.value.1 <= |p|
    decreases count
  {
    if count == 0 then Some(([], offset))
    else match FieldAt(p, offset, 1, max)
      case None => None
      case Some((item, next)) =>
        match ItemsAt(p, next, count - 1, max)
        case None => None
        case Some((items, end)) => Some(([item] + items, end))
  }

  lemma {:induction false} ItemsAtSound(p: Text, offset: nat, count: nat, max: nat)
    requires max <= 0xFFFF && offset <= |p| && ItemsAt(p, offset, count, max).Some?
    ensures var (items, end) := ItemsAt(p, offset, count, max).value;
      |items| == count && Items(items, max) && end == offset + |ListBytes(items)| && Holds(p, offset, ListBytes(items))
    decreases count
  {
    if count > 0 {
      var (item, next) := FieldAt(p, offset, 1, max).value;
      FieldAtExact(p, offset, 1, max, item, next);
      ItemsAtSound(p, next, count - 1, max);
      var items := ItemsAt(p, next, count - 1, max).value.0;
      assert ([item] + items)[1..] == items;
      HoldsBoth(p, offset, Field16(item), ListBytes(items));
    }
  }

  lemma {:induction false} ItemsAtComplete(p: Text, offset: nat, items: seq<Text>, max: nat)
    requires max <= 0xFFFF && Items(items, max) && Holds(p, offset, ListBytes(items))
    ensures ItemsAt(p, offset, |items|, max) == Some((items, offset + |ListBytes(items)|))
    decreases |items|
  {
    if items != [] {
      var item, next := items[0], offset + 2 + |items[0]|;
      assert items == [item] + items[1..];
      HoldsBoth(p, offset, Field16(item), ListBytes(items[1..]));
      FieldAtExact(p, offset, 1, max, item, next);
      ItemsAtComplete(p, next, items[1..], max);
    }
  }

  function CountedAt(p: Text, offset: nat, max: nat): Option<(seq<Text>, nat)> {
    if |p| <= offset then None else ItemsAt(p, offset + 1, p[offset], max)
  }

  lemma CountedAtExact(p: Text, offset: nat, max: nat, items: seq<Text>, end: nat)
    requires max <= 0xFFFF
    ensures CountedAt(p, offset, max) == Some((items, end)) <==>
      |items| < 256 && Items(items, max) && end == offset + |CountedBytes(items)| && Holds(p, offset, CountedBytes(items))
  {
    if CountedAt(p, offset, max) == Some((items, end)) {
      ItemsAtSound(p, offset + 1, p[offset], max);
      HoldsBoth(p, offset, [|items|], ListBytes(items));
    }
    if |items| < 256 && Items(items, max) && Holds(p, offset, CountedBytes(items)) {
      HoldsBoth(p, offset, [|items|], ListBytes(items));
      assert p[offset] == p[offset..offset + 1][0];
      ItemsAtComplete(p, offset + 1, items, max);
    }
  }

  /** What the whole parse gives once `done` items are in hand. */
  ghost function Continue(done: seq<Text>, r: Option<(seq<Text>, nat)>): Option<(seq<Text>, nat)> {
    match r
    case None => None
    case Some((items, end)) => Some((done + items, end))
  }

  lemma ContinueStep(done: seq<Text>, p: Text, offset: nat, count: nat, max: nat)
    requires count > 0
    ensures Continue(done, ItemsAt(p, offset, count, max)) ==
      match FieldAt(p, offset, 1, max)
      case None => None
      case Some((item, next)) => Continue(done + [item], ItemsAt(p, next, count - 1, max))
  {
    if FieldAt(p, offset, 1, max).Some? {
      var (item, next) := FieldAt(p, offset, 1, max).value;
      if ItemsAt(p, next, count - 1, max).Some? {
        var items := ItemsAt(p, next, count - 1, max).value.0;
        assert done + ([item] + items) == (done + [item]) + items;
      }
    }
  }

  method ReadItems(payload: Text, start: nat, count: nat, max: nat) returns (r: Option<(seq<Text>, nat)>)
    ensures r == ItemsAt(payload, start, count, max)
  {
    hide FieldAt;
    var items: seq<Text>, offset := [], start;
    ghost var whole := ItemsAt(payload, start, count, max);
    assert whole.Some? ==> items + whole.value.0 == whole.value.0;
    for i := 0 to count
      invariant whole == Continue(items, ItemsAt(payload, offset, count - i, max))
    {
      ContinueStep(items, payload, offset, count - i, max);
      var item := FieldAt(payload, offset, 1, max);
      if item.None? {
        return None;
      }
      items, offset := items + [item.value.0], item.value.1;
    }
    assert items + [] == items;
    r := Some((items, offset));
  }

  /** Writes the count and then each item, and says where the list ends. */
  method WriteCounted(a: array<Byte>, offset: nat, items: seq<Text>) returns (next: nat)
    requires |items| < 256 && Items(items, 0xFFFF)
    requires offset + |CountedBytes(items)| <= a.Length
    modifies a
    ensures next == offset + |CountedBytes(items)|
    ensures a[..next] == old(a[..offset]) + CountedBytes(items)
    ensures forall k | next <= k < a.Length :: a[k] == old(a[k])
  {
    a[offset] := |items|;
    next := offset + 1;
    ghost var head := old(a[..offset]) + [|items|];
    assert a[..next] == head;
    for i := 0 to |items|
      invariant next == offset + 1 + |ListBytes(items[..i])|
      invariant next + |ListBytes(items[i..])| == offset + |CountedBytes(items)|
      invariant a[..next] == head + ListBytes(items[..i])
      invariant forall k | offset + |CountedBytes(items)| <= k < a.Length :: a[k] == old(a[k])
    {
      ListBytesSnoc(items[..i], items[i]);
      assert items[..i] + [items[i]] == items[..i + 1];
      assert items[i..][1..] == items[i + 1..];
      next := PutField16(a, next, items[i]);
      Assoc(head, ListBytes(items[..i]), Field16(items[i]));
    }
    assert items[..|items|] == items;
    Assoc(old(a[..offset]), [|items|], ListBytes(items));
  }
}
